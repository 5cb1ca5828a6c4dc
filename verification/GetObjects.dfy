/** Grouping and assembling the result of GetObjects (src/adbc_ffi.rs:719-989).

    The Arrow builders are flat: the values of all lists of one kind stand in one sequence, and each
    list is where it ends and whether it is null. The reference is the nested result as a tree. */
module GetObjects {
  import opened Text

  // ---------------------------------------------------------------------------------------------
  // Grouping
  // ---------------------------------------------------------------------------------------------

  /** The values with a key, in the order of their rows. */
  function Selected<K(==), V>(rows: seq<(K, V)>, key: K): seq<V> {
    if rows == [] then []
    else
      var last := rows[|rows| - 1];
      Selected(rows[..|rows| - 1], key) + if last.0 == key then [last.1] else []
  }

  /** Every key has exactly its rows, in order; and only keys that have rows are there. */
  ghost predicate IsGrouping<K(!new), V>(groups: map<K, seq<V>>, rows: seq<(K, V)>) {
    forall key :: (key in groups <==> Selected(rows, key) != []) && (key in groups ==> groups[key] == Selected(rows, key))
  }

  function Pushed<K, V>(groups: map<K, seq<V>>, key: K, value: V): map<K, seq<V>> {
    groups[key := (if key in groups then groups[key] else []) + [value]]
  }

  lemma PushedGroups<K(!new), V>(groups: map<K, seq<V>>, rows: seq<(K, V)>, key: K, value: V)
    requires IsGrouping(groups, rows)
    ensures IsGrouping(Pushed(groups, key, value), rows + [(key, value)])
  {
    var longer := rows + [(key, value)];
    forall k
      ensures Selected(longer, k) == Selected(rows, k) + if key == k then [value] else []
    {
      assert longer[..|longer| - 1] == rows;
    }
  }

  lemma NothingGroups<K(!new), V>()
    ensures IsGrouping<K, V>(map[], [])
  {
  }

  datatype TableRow = TableRow(name: string, tableType: string, schema: string)

  datatype Table = Table(name: string, tableType: string)

  function TablePairs(rows: seq<TableRow>): seq<(string, Table)> {
    seq(|rows|, i requires 0 <= i < |rows| => (rows[i].schema, Table(rows[i].name, rows[i].tableType)))
  }

  function AllRows<T>(batches: seq<seq<T>>): seq<T> {
    if batches == [] then [] else AllRows(batches[..|batches| - 1]) + batches[|batches| - 1]
  }

  function AllTablePairs(batches: seq<seq<TableRow>>): seq<(string, Table)> {
    if batches == [] then [] else AllTablePairs(batches[..|batches| - 1]) + TablePairs(batches[|batches| - 1])
  }

  method TablesBySchemaFrom(batches: seq<seq<TableRow>>) returns (tables: map<string, seq<Table>>)
    ensures IsGrouping(tables, AllTablePairs(batches))
  {
    hide IsGrouping, Pushed;
    tables := map[];
    NothingGroups<string, Table>();
    for b := 0 to |batches|
      invariant IsGrouping(tables, AllTablePairs(batches[..b]))
    {
      var batch := batches[b];
      ghost var before := AllTablePairs(batches[..b]);
      assert before + TablePairs(batch)[..0] == before;
      for row := 0 to |batch|
        invariant IsGrouping(tables, before + TablePairs(batch)[..row])
      {
        var table := Table(batch[row].name, batch[row].tableType);
        PushedGroups(tables, before + TablePairs(batch)[..row], batch[row].schema, table);
        assert before + TablePairs(batch)[..row + 1] == before + TablePairs(batch)[..row] + [(batch[row].schema, table)];
        tables := Pushed(tables, batch[row].schema, table);
      }
      assert TablePairs(batch)[..|batch|] == TablePairs(batch);
      assert batches[..b + 1][..b] == batches[..b];
    }
    assert batches[..|batches|] == batches;
  }

  /** The tables of a schema are the rows that name it: with the row's own name and type. */
  lemma {:induction false} TablesAreRows(batches: seq<seq<TableRow>>, schema: string, table: Table)
    ensures table in Selected(AllTablePairs(batches), schema)
            <==> exists b :: 0 <= b < |batches| && HasTable(batches[b], schema, table)
  {
    hide Selected, TablePairs, HasTable;
    if batches == [] {
      assert AllTablePairs(batches) == [];
      NoneSelected<string, Table>(schema);
    } else {
      var n := |batches| - 1;
      TablesAreRows(batches[..n], schema, table);
      SelectedJoined(AllTablePairs(batches[..n]), TablePairs(batches[n]), schema);
      TablesOfBatch(batches[n], schema, table);
    }
  }

  predicate HasTable(rows: seq<TableRow>, schema: string, table: Table) {
    exists i :: 0 <= i < |rows| && IsTableOf(rows[i], schema, table)
  }

  lemma NoneSelected<K, V>(key: K)
    ensures Selected<K, V>([], key) == []
  {
  }

  predicate IsTableOf(row: TableRow, schema: string, table: Table) {
    row.schema == schema && row.name == table.name && row.tableType == table.tableType
  }

  lemma {:induction false} SelectedJoined<K, V>(a: seq<(K, V)>, b: seq<(K, V)>, key: K)
    ensures Selected(a + b, key) == Selected(a, key) + Selected(b, key)
  {
    if b == [] {
      assert a + b == a;
    } else {
      SelectedJoined(a, b[..|b| - 1], key);
      assert (a + b)[..|a + b| - 1] == a + b[..|b| - 1];
    }
  }

  lemma {:induction false} TablesOfBatch(rows: seq<TableRow>, schema: string, table: Table)
    ensures table in Selected(TablePairs(rows), schema) <==> HasTable(rows, schema, table)
  {
    if rows != [] {
      var n := |rows| - 1;
      TablesOfBatch(rows[..n], schema, table);
      assert TablePairs(rows)[..n] == TablePairs(rows[..n]);
    }
  }

  datatype ColumnRow = ColumnRow(name: string, ordinal: Option<int>, typeName: string, schema: string, table: string)

  datatype Column = Column(name: string, ordinal: int, typeName: string)

  type TableKey = (string, string)

  /** An unreadable ordinal is the row's own position in its batch, from 1. */
  function ColumnOf(row: ColumnRow, index: nat): Column {
    Column(row.name, if row.ordinal.Some? then row.ordinal.value else index + 1, row.typeName)
  }

  function ColumnPairs(rows: seq<ColumnRow>): seq<(TableKey, Column)> {
    seq(|rows|, i requires 0 <= i < |rows| => ((rows[i].schema, rows[i].table), ColumnOf(rows[i], i)))
  }

  function AllColumnPairs(batches: seq<seq<ColumnRow>>): seq<(TableKey, Column)> {
    if batches == [] then [] else AllColumnPairs(batches[..|batches| - 1]) + ColumnPairs(batches[|batches| - 1])
  }

  method ColumnsByTableFrom(batches: seq<seq<ColumnRow>>) returns (columns: map<TableKey, seq<Column>>)
    ensures IsGrouping(columns, AllColumnPairs(batches))
  {
    hide IsGrouping, Pushed;
    columns := map[];
    NothingGroups<TableKey, Column>();
    for b := 0 to |batches|
      invariant IsGrouping(columns, AllColumnPairs(batches[..b]))
    {
      var batch := batches[b];
      ghost var before := AllColumnPairs(batches[..b]);
      assert before + ColumnPairs(batch)[..0] == before;
      for row := 0 to |batch|
        invariant IsGrouping(columns, before + ColumnPairs(batch)[..row])
      {
        var key, column := (batch[row].schema, batch[row].table), ColumnOf(batch[row], row);
        PushedGroups(columns, before + ColumnPairs(batch)[..row], key, column);
        assert before + ColumnPairs(batch)[..row + 1] == before + ColumnPairs(batch)[..row] + [(key, column)];
        columns := Pushed(columns, key, column);
      }
      assert ColumnPairs(batch)[..|batch|] == ColumnPairs(batch);
      assert batches[..b + 1][..b] == batches[..b];
    }
    assert batches[..|batches|] == batches;
  }

  /** The columns of a table are the rows that name it and its schema: with the row's own name and
      type, and its ordinal or, where that cannot be read, its position in its batch from 1. */
  lemma {:induction false} ColumnsAreRows(batches: seq<seq<ColumnRow>>, schema: string, table: string, column: Column)
    ensures column in Selected(AllColumnPairs(batches), (schema, table))
            <==> exists b :: 0 <= b < |batches| && HasColumn(batches[b], schema, table, column)
  {
    hide Selected, ColumnPairs, HasColumn;
    if batches == [] {
      assert AllColumnPairs(batches) == [];
      NoneSelected<TableKey, Column>((schema, table));
    } else {
      var n := |batches| - 1;
      ColumnsAreRows(batches[..n], schema, table, column);
      SelectedJoined(AllColumnPairs(batches[..n]), ColumnPairs(batches[n]), (schema, table));
      ColumnsOfBatch(batches[n], schema, table, column);
    }
  }

  predicate HasColumn(rows: seq<ColumnRow>, schema: string, table: string, column: Column) {
    exists i :: 0 <= i < |rows| && IsColumnOf(rows[i], i, schema, table, column)
  }

  predicate IsColumnOf(row: ColumnRow, index: nat, schema: string, table: string, column: Column) {
    row.schema == schema && row.table == table && row.name == column.name && row.typeName == column.typeName &&
    match row.ordinal
    case Some(ordinal) => column.ordinal == ordinal
    case None => column.ordinal == index + 1
  }

  lemma {:induction false} ColumnsOfBatch(rows: seq<ColumnRow>, schema: string, table: string, column: Column)
    ensures column in Selected(ColumnPairs(rows), (schema, table)) <==> HasColumn(rows, schema, table, column)
  {
    if rows != [] {
      var n := |rows| - 1;
      ColumnsOfBatch(rows[..n], schema, table, column);
      assert ColumnPairs(rows)[..n] == ColumnPairs(rows[..n]);
    }
  }

  function Named(names: seq<Option<string>>): seq<string> {
    if names == [] then []
    else Named(names[..|names| - 1]) + if names[|names| - 1].Some? then [names[|names| - 1].value] else []
  }

  lemma NamedSnoc(names: seq<Option<string>>, name: Option<string>)
    ensures Named(names + [name]) == Named(names) + if name.Some? then [name.value] else []
  {
    assert (names + [name])[..|names|] == names;
  }

  lemma AllRowsSnoc<T>(batches: seq<seq<T>>, b: nat)
    requires b < |batches|
    ensures AllRows(batches[..b + 1]) == AllRows(batches[..b]) + batches[b]
  {
    assert batches[..b + 1][..b] == batches[..b];
  }

  method SchemaNamesFrom(batches: seq<seq<Option<string>>>) returns (names: seq<string>)
    ensures names == Named(AllRows(batches))
  {
    names := [];
    assert Named(AllRows(batches[..0])) == [];
    hide Named, AllRows;
    for b := 0 to |batches|
      invariant names == Named(AllRows(batches[..b]))
    {
      var batch := batches[b];
      ghost var before := AllRows(batches[..b]);
      assert before + batch[..0] == before;
      for row := 0 to |batch|
        invariant names == Named(before + batch[..row])
      {
        NamedSnoc(before + batch[..row], batch[row]);
        assert before + batch[..row + 1] == before + batch[..row] + [batch[row]];
        if batch[row].Some? {
          names := names + [batch[row].value];
        }
      }
      assert batch[..|batch|] == batch;
      AllRowsSnoc(batches, b);
    }
    assert batches[..|batches|] == batches;
  }

  // ---------------------------------------------------------------------------------------------
  // The nested result
  // ---------------------------------------------------------------------------------------------

  datatype Depth = Catalogs | Schemas | Tables | Columns | All

  datatype Levels = Levels(schemas: bool, tables: bool, columns: bool)

  function LevelsOf(depth: Depth): Levels {
    Levels(depth in {Schemas, Tables, Columns, All}, depth in {Tables, Columns, All}, depth in {Columns, All})
  }

  /** A list is `None` when it is null. */
  datatype TableEntry = TableEntry(table: Table, columns: Option<seq<Column>>)

  datatype SchemaEntry = SchemaEntry(name: string, tables: Option<seq<TableEntry>>)

  function Group<K, V>(groups: map<K, seq<V>>, key: K): seq<V> { if key in groups then groups[key] else [] }

  function TableEntries(schema: string, tables: seq<Table>, columns: map<TableKey, seq<Column>>, levels: Levels): seq<TableEntry> {
    if tables == [] then []
    else
      var last := tables[|tables| - 1];
      TableEntries(schema, tables[..|tables| - 1], columns, levels)
      + [TableEntry(last, if levels.columns then Some(Group(columns, (schema, last.name))) else None)]
  }

  function EntryOf(schema: string, tables: map<string, seq<Table>>, columns: map<TableKey, seq<Column>>, levels: Levels): SchemaEntry {
    SchemaEntry(schema, if levels.tables then Some(TableEntries(schema, Group(tables, schema), columns, levels)) else None)
  }

  function SchemaEntries(
    schemas: seq<string>, tables: map<string, seq<Table>>, columns: map<TableKey, seq<Column>>, levels: Levels): seq<SchemaEntry>
  {
    if schemas == [] then []
    else SchemaEntries(schemas[..|schemas| - 1], tables, columns, levels) + [EntryOf(schemas[|schemas| - 1], tables, columns, levels)]
  }

  /** What GetObjects answers for the one catalog. */
  function Nested(
    schemas: seq<string>, tables: map<string, seq<Table>>, columns: map<TableKey, seq<Column>>, levels: Levels): Option<seq<SchemaEntry>>
  {
    if levels.schemas then Some(SchemaEntries(schemas, tables, columns, levels)) else None
  }

  // ---------------------------------------------------------------------------------------------
  // The flat builders
  // ---------------------------------------------------------------------------------------------

  /** Where a list ends in the values of its kind; it begins where the list before it ends. */
  datatype Slot = Slot(end: nat, valid: bool)

  function Start(slots: seq<Slot>, i: nat): nat
    requires i <= |slots|
  {
    if i == 0 then 0 else slots[i - 1].end
  }

  predicate IsOffsets(slots: seq<Slot>, count: nat) {
    (forall i, j :: 0 <= i <= j < |slots| ==> slots[i].end <= slots[j].end) &&
    forall i :: 0 <= i < |slots| ==> slots[i].end <= count
  }

  function ListAt<T>(slots: seq<Slot>, values: seq<T>, i: nat): Option<seq<T>>
    requires IsOffsets(slots, |values|) && i < |slots|
  {
    if slots[i].valid then Some(values[Start(slots, i)..slots[i].end]) else None
  }

  /** All lists that are closed. */
  function Lists<T>(slots: seq<Slot>, values: seq<T>): (r: seq<Option<seq<T>>>)
    requires IsOffsets(slots, |values|)
    ensures |r| == |slots|
  {
    seq(|slots|, i requires 0 <= i < |slots| => ListAt(slots, values, i))
  }

  /** The values appended since the last list was closed. */
  function Pending<T>(slots: seq<Slot>, values: seq<T>): seq<T>
    requires IsOffsets(slots, |values|)
  {
    values[Start(slots, |slots|)..]
  }

  lemma Appended<T>(slots: seq<Slot>, values: seq<T>, more: seq<T>)
    requires IsOffsets(slots, |values|)
    ensures IsOffsets(slots, |values + more|) && Lists(slots, values + more) == Lists(slots, values)
    ensures Pending(slots, values + more) == Pending(slots, values) + more
  {
    forall i | 0 <= i < |slots|
      ensures ListAt(slots, values + more, i) == ListAt(slots, values, i)
    {
      assert (values + more)[Start(slots, i)..slots[i].end] == values[Start(slots, i)..slots[i].end];
    }
  }

  /** Closing a list makes what was pending its content. */
  lemma ClosedList<T>(slots: seq<Slot>, values: seq<T>, valid: bool)
    requires IsOffsets(slots, |values|)
    ensures var longer := slots + [Slot(|values|, valid)];
            IsOffsets(longer, |values|) && Pending(longer, values) == [] &&
            Lists(longer, values) == Lists(slots, values) + [if valid then Some(Pending(slots, values)) else None]
  {
    var longer := slots + [Slot(|values|, valid)];
    forall i | 0 <= i < |slots|
      ensures ListAt(longer, values, i) == ListAt(slots, values, i)
    {
    }
    assert values[Start(slots, |slots|)..|values|] == values[Start(slots, |slots|)..];
  }

  /** Table entries as the flat columns and their lists spell them. */
  function EntriesOf(tables: seq<Table>, lists: seq<Slot>, columns: seq<Column>): (r: seq<TableEntry>)
    requires IsOffsets(lists, |columns|) && |lists| == |tables|
    ensures |r| == |tables|
  {
    seq(|tables|, i requires 0 <= i < |tables| => TableEntry(tables[i], Lists(lists, columns)[i]))
  }

  function SchemasOf(names: seq<string>, lists: seq<Slot>, entries: seq<TableEntry>): (r: seq<SchemaEntry>)
    requires IsOffsets(lists, |entries|) && |lists| == |names|
    ensures |r| == |names|
  {
    seq(|names|, i requires 0 <= i < |names| => SchemaEntry(names[i], Lists(lists, entries)[i]))
  }

  lemma OneMoreEntry(tables: seq<Table>, lists: seq<Slot>, columns: seq<Column>, table: Table, more: seq<Column>, valid: bool)
    requires IsOffsets(lists, |columns|) && |lists| == |tables| && Pending(lists, columns) == [] && (!valid ==> more == [])
    ensures var all, closed := columns + more, lists + [Slot(|columns + more|, valid)];
            IsOffsets(closed, |all|) && Pending(closed, all) == [] &&
            EntriesOf(tables + [table], closed, all)
            == EntriesOf(tables, lists, columns) + [TableEntry(table, if valid then Some(more) else None)]
  {
    hide IsOffsets, Lists, Pending;
    Appended(lists, columns, more);
    ClosedList(lists, columns + more, valid);
    assert [] + more == more;
  }

  lemma OneMoreSchema(names: seq<string>, lists: seq<Slot>, entries: seq<TableEntry>, name: string, more: seq<TableEntry>, valid: bool)
    requires IsOffsets(lists, |entries|) && |lists| == |names| && Pending(lists, entries) == [] && (!valid ==> more == [])
    ensures var all, closed := entries + more, lists + [Slot(|entries + more|, valid)];
            IsOffsets(closed, |all|) && Pending(closed, all) == [] &&
            SchemasOf(names + [name], closed, all)
            == SchemasOf(names, lists, entries) + [SchemaEntry(name, if valid then Some(more) else None)]
  {
    hide IsOffsets, Lists, Pending;
    Appended(lists, entries, more);
    ClosedList(lists, entries + more, valid);
    assert [] + more == more;
  }

  lemma NothingIsOpen()
    ensures IsOffsets([], 0) && Pending<Column>([], []) == [] && EntriesOf([], [], []) == [] && Pending<TableEntry>([], []) == []
  {
  }

  /** The builders of one result: the fields of the struct builders, side by side, and the lists. */
  class ObjectsBuilder {
    var columns: seq<Column>
    var columnLists: seq<Slot>
    var tables: seq<Table>
    var tableLists: seq<Slot>
    var schemaNames: seq<string>
    var schemaLists: seq<Slot>

    /** Every table has its list of columns, and no column waits for a list. */
    ghost predicate TablesComplete()
      reads this`columns, this`columnLists, this`tables
    {
      IsOffsets(columnLists, |columns|) && |columnLists| == |tables| && Pending(columnLists, columns) == []
    }

    ghost function Entries(): (entries: seq<TableEntry>)
      reads this`columns, this`columnLists, this`tables
      requires TablesComplete()
      ensures |entries| == |tables|
    {
      EntriesOf(tables, columnLists, columns)
    }

    ghost predicate SchemasComplete()
      reads this`columns, this`columnLists, this`tables, this`tableLists, this`schemaNames
    {
      TablesComplete() && IsOffsets(tableLists, |tables|) && |tableLists| == |schemaNames| && Pending(tableLists, Entries()) == []
    }

    ghost function Rows(): (rows: seq<SchemaEntry>)
      reads this`columns, this`columnLists, this`tables, this`tableLists, this`schemaNames
      requires SchemasComplete()
      ensures |rows| == |schemaNames|
    {
      SchemasOf(schemaNames, tableLists, Entries())
    }

    /** The result as it is read back: one list of schemas for each catalog row. */
    ghost function Result(): seq<Option<seq<SchemaEntry>>>
      reads this
      requires SchemasComplete() && IsOffsets(schemaLists, |schemaNames|)
    {
      Lists(schemaLists, Rows())
    }

    constructor ()
      ensures SchemasComplete() && schemaNames == [] && schemaLists == []
    {
      columns, columnLists, tables, tableLists, schemaNames, schemaLists := [], [], [], [], [], [];
      new;
      hide IsOffsets, Pending, EntriesOf;
      NothingIsOpen();
    }

    method AppendTableColumns(tableColumns: seq<Column>)
      modifies this`columns
      ensures columns == old(columns) + tableColumns
    {
      for i := 0 to |tableColumns|
        invariant columns == old(columns) + tableColumns[..i]
      {
        columns := columns + [tableColumns[i]];
      }
    }

    method AppendTableEntry(table: Table, tableColumns: seq<Column>, includeColumns: bool)
      requires TablesComplete()
      modifies this`columns, this`columnLists, this`tables
      ensures TablesComplete() && |tables| == old(|tables|) + 1
      ensures Entries() == old(Entries()) + [TableEntry(table, if includeColumns then Some(tableColumns) else None)]
    {
      hide IsOffsets, Pending, EntriesOf;
      OneMoreEntry(tables, columnLists, columns, table, if includeColumns then tableColumns else [], includeColumns);
      assert columns + [] == columns;
      tables := tables + [table];
      if includeColumns {
        AppendTableColumns(tableColumns);
        columnLists := columnLists + [Slot(|columns|, true)];
      } else {
        columnLists := columnLists + [Slot(|columns|, false)];
      }
    }

    method AppendSchemaEntry(
      schemaName: string, tablesBySchema: map<string, seq<Table>>, columnsByTable: map<TableKey, seq<Column>>, levels: Levels)
      requires SchemasComplete()
      modifies this`columns, this`columnLists, this`tables, this`tableLists, this`schemaNames
      ensures SchemasComplete() && |schemaNames| == old(|schemaNames|) + 1
      ensures Rows() == old(Rows()) + [EntryOf(schemaName, tablesBySchema, columnsByTable, levels)]
    {
      hide IsOffsets, Pending, EntriesOf, SchemasOf, TablesComplete;
      ghost var names, lists, entries := schemaNames, tableLists, Entries();
      schemaNames := schemaNames + [schemaName];
      if !levels.tables {
        OneMoreSchema(names, lists, entries, schemaName, [], false);
        assert entries + [] == entries;
        tableLists := tableLists + [Slot(|tables|, false)];
        return;
      }
      var own := Group(tablesBySchema, schemaName);
      for i := 0 to |own|
        invariant TablesComplete() && tableLists == lists && schemaNames == names + [schemaName]
        invariant Entries() == entries + TableEntries(schemaName, own[..i], columnsByTable, levels)
      {
        AppendTableEntry(own[i], Group(columnsByTable, (schemaName, own[i].name)), levels.columns);
        assert own[..i + 1][..i] == own[..i];
      }
      assert own[..|own|] == own;
      OneMoreSchema(names, lists, entries, schemaName, TableEntries(schemaName, own, columnsByTable, levels), true);
      tableLists := tableLists + [Slot(|tables|, true)];
    }

    /** The single row of the result, read back from the builders, is the nested answer. */
    method BuildGetObjectsBatch(
      schemas: seq<string>, tablesBySchema: map<string, seq<Table>>, columnsByTable: map<TableKey, seq<Column>>, levels: Levels)
      requires SchemasComplete() && schemaNames == [] && schemaLists == []
      modifies this
      ensures SchemasComplete() && IsOffsets(schemaLists, |schemaNames|)
      ensures Result() == [Nested(schemas, tablesBySchema, columnsByTable, levels)]
    {
      hide IsOffsets, Pending, EntriesOf, SchemasOf, TablesComplete, EntryOf, Lists;
      if levels.schemas {
        for i := 0 to |schemas|
          invariant SchemasComplete() && schemaLists == []
          invariant Rows() == SchemaEntries(schemas[..i], tablesBySchema, columnsByTable, levels)
        {
          AppendSchemaEntry(schemas[i], tablesBySchema, columnsByTable, levels);
          assert schemas[..i + 1][..i] == schemas[..i];
        }
        assert schemas[..|schemas|] == schemas;
        OnlyList(Rows(), true);
        schemaLists := schemaLists + [Slot(|schemaNames|, true)];
      } else {
        OnlyList(Rows(), false);
        schemaLists := schemaLists + [Slot(|schemaNames|, false)];
      }
    }
  }

  lemma OnlyList<T>(values: seq<T>, valid: bool)
    ensures IsOffsets([], |values|) && IsOffsets([] + [Slot(|values|, valid)], |values|) &&
            Lists([] + [Slot(|values|, valid)], values) == [if valid then Some(values) else None]
  {
    ClosedList([], values, valid);
    assert Pending([], values) == values;
    assert Lists([], values) == [];
  }

  // ---------------------------------------------------------------------------------------------
  // What the result promises
  // ---------------------------------------------------------------------------------------------

  lemma {:induction false} TableEntryAt(
    schema: string, tables: seq<Table>, columns: map<TableKey, seq<Column>>, levels: Levels, i: nat)
    requires i < |tables|
    ensures |TableEntries(schema, tables, columns, levels)| == |tables|
    ensures TableEntries(schema, tables, columns, levels)[i]
            == TableEntry(tables[i], if levels.columns then Some(Group(columns, (schema, tables[i].name))) else None)
  {
    var n := |tables| - 1;
    if i < n {
      TableEntryAt(schema, tables[..n], columns, levels, i);
    } else if n > 0 {
      TableEntryAt(schema, tables[..n], columns, levels, 0);
    }
  }

  lemma {:induction false} SchemaEntryAt(
    schemas: seq<string>, tables: map<string, seq<Table>>, columns: map<TableKey, seq<Column>>, levels: Levels, i: nat)
    requires i < |schemas|
    ensures |SchemaEntries(schemas, tables, columns, levels)| == |schemas|
    ensures SchemaEntries(schemas, tables, columns, levels)[i] == EntryOf(schemas[i], tables, columns, levels)
  {
    hide EntryOf;
    var n := |schemas| - 1;
    if i < n {
      SchemaEntryAt(schemas[..n], tables, columns, levels, i);
    } else if n > 0 {
      SchemaEntryAt(schemas[..n], tables, columns, levels, 0);
    }
  }

  lemma GroupIsSelected<K(!new), V>(groups: map<K, seq<V>>, rows: seq<(K, V)>, key: K)
    requires IsGrouping(groups, rows)
    ensures Group(groups, key) == Selected(rows, key)
  {
  }

  /** Which lists of the answer are null: exactly those deeper than the requested depth. Each listed
      schema has its own tables in query order, and each of them its own columns in query order. */
  lemma AnswerIsExact(
    schemas: seq<string>, tables: map<string, seq<Table>>, columns: map<TableKey, seq<Column>>,
    tableRows: seq<(string, Table)>, columnRows: seq<(TableKey, Column)>, depth: Depth, i: nat, j: nat)
    requires IsGrouping(tables, tableRows) && IsGrouping(columns, columnRows)
    ensures var answer := Nested(schemas, tables, columns, LevelsOf(depth));
            (answer.None? <==> depth.Catalogs?) &&
            (answer.Some? ==> |answer.value| == |schemas| && (i < |schemas| ==>
               var entry := answer.value[i];
               entry.name == schemas[i] && (entry.tables.None? <==> depth.Schemas?) &&
               (entry.tables.Some? ==>
                  var own := Selected(tableRows, schemas[i]);
                  |entry.tables.value| == |own| && (j < |own| ==>
                    var inner := entry.tables.value[j];
                    inner.table == own[j] && (inner.columns.None? <==> depth.Tables?) &&
                    (inner.columns.Some? ==> inner.columns.value == Selected(columnRows, (schemas[i], own[j].name)))))))
  {
    hide IsGrouping, Group, TableEntries, SchemaEntries;
    var levels := LevelsOf(depth);
    if levels.schemas && |schemas| > 0 {
      SchemaEntryAt(schemas, tables, columns, levels, if i < |schemas| then i else 0);
      if i < |schemas| {
        GroupIsSelected(tables, tableRows, schemas[i]);
        var own := Selected(tableRows, schemas[i]);
        if |own| > 0 {
          TableEntryAt(schemas[i], own, columns, levels, if j < |own| then j else 0);
          if j < |own| { GroupIsSelected(columns, columnRows, (schemas[i], own[j].name)); }
        } else {
          NoTables(schemas[i], columns, levels);
        }
      }
    } else if |schemas| == 0 {
      NoSchemas(tables, columns, levels);
    }
  }

  lemma NoTables(schema: string, columns: map<TableKey, seq<Column>>, levels: Levels)
    ensures TableEntries(schema, [], columns, levels) == []
  {
  }

  lemma NoSchemas(tables: map<string, seq<Table>>, columns: map<TableKey, seq<Column>>, levels: Levels)
    ensures SchemaEntries([], tables, columns, levels) == []
  {
  }

  /** Everything selected for the keys, key by key. */
  function Flattened<K(==), V>(rows: seq<(K, V)>, keys: seq<K>): seq<(K, V)> {
    if keys == [] then []
    else
      var last := keys[|keys| - 1];
      Flattened(rows, keys[..|keys| - 1]) + Paired(last, Selected(rows, last))
  }

  function Paired<K, V>(key: K, values: seq<V>): seq<(K, V)> {
    seq(|values|, i requires 0 <= i < |values| => (key, values[i]))
  }

  /** The rows whose key is among `keys`. */
  function Among<K(==), V>(rows: seq<(K, V)>, keys: seq<K>): seq<(K, V)> {
    if rows == [] then []
    else
      var last := rows[|rows| - 1];
      Among(rows[..|rows| - 1], keys) + if last.0 in keys then [last] else []
  }

  predicate Distinct<K(==)>(keys: seq<K>) { forall i, j :: 0 <= i < j < |keys| ==> keys[i] != keys[j] }

  lemma {:induction false} AmongNothing<K, V>(rows: seq<(K, V)>)
    ensures Among(rows, []) == []
  {
    if rows != [] { AmongNothing(rows[..|rows| - 1]); }
  }

  lemma {:induction false} OneMoreKey<K, V>(rows: seq<(K, V)>, keys: seq<K>, key: K)
    requires key !in keys
    ensures multiset(Among(rows, keys + [key])) == multiset(Among(rows, keys)) + multiset(Paired(key, Selected(rows, key)))
  {
    if rows != [] {
      var init, last := rows[..|rows| - 1], rows[|rows| - 1];
      OneMoreKey(init, keys, key);
      if last.0 == key {
        assert Paired(key, Selected(rows, key)) == Paired(key, Selected(init, key)) + [last];
      } else {
        assert Selected(rows, key) == Selected(init, key);
      }
    }
  }

  /** Over distinct keys, going key by key through the groups meets every row of these keys exactly
      once: none is lost and none is doubled. */
  lemma {:induction false} FlatteningConservesRows<K, V>(rows: seq<(K, V)>, keys: seq<K>)
    requires Distinct(keys)
    ensures multiset(Flattened(rows, keys)) == multiset(Among(rows, keys))
  {
    if keys == [] {
      AmongNothing(rows);
    } else {
      var init, last := keys[..|keys| - 1], keys[|keys| - 1];
      FlatteningConservesRows(rows, init);
      OneMoreKey(rows, init, last);
      assert keys == init + [last];
    }
  }

  function TablesOnly(entries: seq<TableEntry>): seq<Table> {
    seq(|entries|, i requires 0 <= i < |entries| => entries[i].table)
  }

  /** The tables of an answer with their schemas, in order. */
  function TablesOf(answer: seq<SchemaEntry>): seq<(string, Table)> {
    if answer == [] then []
    else
      var last := answer[|answer| - 1];
      TablesOf(answer[..|answer| - 1])
      + if last.tables.None? then []
        else Paired(last.name, TablesOnly(last.tables.value))
  }

  lemma {:induction false} AnswerFlattens(
    schemas: seq<string>, tables: map<string, seq<Table>>, columns: map<TableKey, seq<Column>>, rows: seq<(string, Table)>, levels: Levels)
    requires IsGrouping(tables, rows) && levels.tables
    ensures TablesOf(SchemaEntries(schemas, tables, columns, levels)) == Flattened(rows, schemas)
  {
    hide IsGrouping, Group, Selected, Paired, TablesOf, EntryOf;
    if schemas == [] {
      NothingFlattens();
    } else {
      var n := |schemas| - 1;
      var before := SchemaEntries(schemas[..n], tables, columns, levels);
      AnswerFlattens(schemas[..n], tables, columns, rows, levels);
      OneMoreSchemaFlattens(before, schemas[n], tables, columns, rows, levels);
    }
  }

  lemma NothingFlattens()
    ensures TablesOf([]) == []
  {
  }

  lemma OneMoreSchemaFlattens(
    before: seq<SchemaEntry>, schema: string, tables: map<string, seq<Table>>, columns: map<TableKey, seq<Column>>,
    rows: seq<(string, Table)>, levels: Levels)
    requires IsGrouping(tables, rows) && levels.tables
    ensures TablesOf(before + [EntryOf(schema, tables, columns, levels)]) == TablesOf(before) + Paired(schema, Selected(rows, schema))
  {
    hide IsGrouping, Group, Selected, TableEntries, Paired, TablesOnly;
    GroupIsSelected(tables, rows, schema);
    var answer := before + [EntryOf(schema, tables, columns, levels)];
    assert answer[..|answer| - 1] == before;
    TablesOfEntries(schema, Selected(rows, schema), columns, levels);
  }

  lemma TablesOfEntries(schema: string, own: seq<Table>, columns: map<TableKey, seq<Column>>, levels: Levels)
    ensures TablesOnly(TableEntries(schema, own, columns, levels)) == own
  {
    hide TableEntries, Group;
    if own == [] {
      NoTables(schema, columns, levels);
    } else {
      TableEntryAt(schema, own, columns, levels, 0);
      forall i | 0 <= i < |own|
        ensures TableEntries(schema, own, columns, levels)[i].table == own[i]
      {
        TableEntryAt(schema, own, columns, levels, i);
      }
    }
  }

  /** For distinct schemas the answer holds every table row of the listed schemas exactly once. */
  lemma AnswerConservesTables(
    schemas: seq<string>, tables: map<string, seq<Table>>, columns: map<TableKey, seq<Column>>, rows: seq<(string, Table)>, levels: Levels)
    requires IsGrouping(tables, rows) && levels.tables && levels.schemas && Distinct(schemas)
    ensures multiset(TablesOf(Nested(schemas, tables, columns, levels).value)) == multiset(Among(rows, schemas))
  {
    hide IsGrouping, TablesOf, SchemaEntries;
    AnswerFlattens(schemas, tables, columns, rows, levels);
    FlatteningConservesRows(rows, schemas);
  }

  function KeysOfTables(schema: string, entries: seq<TableEntry>): seq<TableKey> {
    seq(|entries|, i requires 0 <= i < |entries| => (schema, entries[i].table.name))
  }

  function ColumnsOfTables(schema: string, entries: seq<TableEntry>): seq<(TableKey, Column)> {
    if entries == [] then []
    else
      var last := entries[|entries| - 1];
      ColumnsOfTables(schema, entries[..|entries| - 1])
      + if last.columns.None? then [] else Paired((schema, last.table.name), last.columns.value)
  }

  /** The tables that an answer lists, by schema and name, in order. */
  function KeysOf(answer: seq<SchemaEntry>): seq<TableKey> {
    if answer == [] then []
    else
      var last := answer[|answer| - 1];
      KeysOf(answer[..|answer| - 1]) + if last.tables.None? then [] else KeysOfTables(last.name, last.tables.value)
  }

  /** The columns of an answer with their tables, in order. */
  function ColumnsOf(answer: seq<SchemaEntry>): seq<(TableKey, Column)> {
    if answer == [] then []
    else
      var last := answer[|answer| - 1];
      ColumnsOf(answer[..|answer| - 1]) + if last.tables.None? then [] else ColumnsOfTables(last.name, last.tables.value)
  }

  lemma {:induction false} FlattenedJoined<K, V>(rows: seq<(K, V)>, a: seq<K>, b: seq<K>)
    ensures Flattened(rows, a + b) == Flattened(rows, a) + Flattened(rows, b)
  {
    hide Selected, Paired;
    if b == [] {
      assert a + b == a;
      assert Flattened(rows, a) + [] == Flattened(rows, a);
    } else {
      var init, last := b[..|b| - 1], b[|b| - 1];
      FlattenedJoined(rows, a, init);
      assert (a + b)[..|a + b| - 1] == a + init;
      var own := Paired(last, Selected(rows, last));
      assert Flattened(rows, a) + Flattened(rows, init) + own == Flattened(rows, a) + (Flattened(rows, init) + own);
    }
  }

  lemma {:induction false} TablesFlatten(
    schema: string, own: seq<Table>, columns: map<TableKey, seq<Column>>, rows: seq<(TableKey, Column)>, levels: Levels)
    requires IsGrouping(columns, rows) && levels.columns
    ensures var entries := TableEntries(schema, own, columns, levels);
            ColumnsOfTables(schema, entries) == Flattened(rows, KeysOfTables(schema, entries))
  {
    hide IsGrouping, Group, Selected, Paired;
    if own != [] {
      var init, last := own[..|own| - 1], own[|own| - 1];
      var before := TableEntries(schema, init, columns, levels);
      var key, entries := (schema, last.name), TableEntries(schema, own, columns, levels);
      TablesFlatten(schema, init, columns, rows, levels);
      GroupIsSelected(columns, rows, key);
      assert entries[..|entries| - 1] == before;
      assert KeysOfTables(schema, entries) == KeysOfTables(schema, before) + [key];
      assert (KeysOfTables(schema, before) + [key])[..|before|] == KeysOfTables(schema, before);
    }
  }

  lemma {:induction false} ColumnsFlatten(
    schemas: seq<string>, tables: map<string, seq<Table>>, columns: map<TableKey, seq<Column>>,
    rows: seq<(TableKey, Column)>, levels: Levels)
    requires IsGrouping(columns, rows) && levels.tables && levels.columns
    ensures var answer := SchemaEntries(schemas, tables, columns, levels);
            ColumnsOf(answer) == Flattened(rows, KeysOf(answer))
  {
    hide IsGrouping, Group, Flattened, TableEntries, ColumnsOfTables, KeysOfTables;
    if schemas == [] {
      NothingSelected(rows);
    } else {
      var n := |schemas| - 1;
      var before, answer := SchemaEntries(schemas[..n], tables, columns, levels), SchemaEntries(schemas, tables, columns, levels);
      ColumnsFlatten(schemas[..n], tables, columns, rows, levels);
      var own := Group(tables, schemas[n]);
      TablesFlatten(schemas[n], own, columns, rows, levels);
      assert answer[..|answer| - 1] == before;
      FlattenedJoined(rows, KeysOf(before), KeysOfTables(schemas[n], TableEntries(schemas[n], own, columns, levels)));
    }
  }

  lemma NothingSelected<K, V>(rows: seq<(K, V)>)
    ensures Flattened(rows, []) == []
  {
  }

  /** No two rows are of one table of one schema. */
  predicate DistinctTables(rows: seq<(string, Table)>) {
    forall i, j :: 0 <= i < j < |rows| ==> rows[i].0 != rows[j].0 || rows[i].1.name != rows[j].1.name
  }

  lemma {:induction false} SelectedFrom<K, V>(rows: seq<(K, V)>, key: K, value: V)
    requires value in Selected(rows, key)
    ensures (key, value) in rows
  {
    var init := rows[..|rows| - 1];
    if value in Selected(init, key) { SelectedFrom(init, key, value); }
  }

  predicate DistinctNames(tables: seq<Table>) { forall i, j :: 0 <= i < j < |tables| ==> tables[i].name != tables[j].name }

  lemma {:induction false} SelectedNamesDiffer(rows: seq<(string, Table)>, schema: string)
    requires DistinctTables(rows)
    ensures DistinctNames(Selected(rows, schema))
  {
    if rows != [] {
      var init, last := rows[..|rows| - 1], rows[|rows| - 1];
      SelectedNamesDiffer(init, schema);
      var before := Selected(init, schema);
      forall i | 0 <= i < |before| && last.0 == schema
        ensures before[i].name != last.1.name
      {
        SelectedFrom(init, schema, before[i]);
        var k :| 0 <= k < |init| && init[k] == (schema, before[i]);
        assert rows[k] == init[k] && rows[|rows| - 1] == last;
      }
    }
  }

  lemma KeysOfTablesDiffer(schema: string, own: seq<Table>, columns: map<TableKey, seq<Column>>, levels: Levels)
    requires DistinctNames(own)
    ensures var keys := KeysOfTables(schema, TableEntries(schema, own, columns, levels));
            Distinct(keys) && forall key :: key in keys ==> key.0 == schema
  {
    hide TableEntries;
    TablesOfEntries(schema, own, columns, levels);
    var entries := TableEntries(schema, own, columns, levels);
    assert |entries| == |TablesOnly(entries)| == |own|;
    forall i | 0 <= i < |own| ensures entries[i].table == own[i] { assert TablesOnly(entries)[i] == own[i]; }
  }

  lemma DistinctJoined(a: seq<TableKey>, b: seq<TableKey>, schema: string)
    requires Distinct(a) && Distinct(b) && (forall key :: key in a ==> key.0 != schema) && forall key :: key in b ==> key.0 == schema
    ensures Distinct(a + b)
  {
    forall i, j | 0 <= i < j < |a + b|
      ensures (a + b)[i] != (a + b)[j]
    {
      if i < |a| <= j { assert a[i] in a && b[j - |a|] in b; }
    }
  }

  /** Over distinct schemas and distinct table rows the answer lists each table once. */
  lemma {:induction false} KeysDiffer(
    schemas: seq<string>, tables: map<string, seq<Table>>, columns: map<TableKey, seq<Column>>,
    rows: seq<(string, Table)>, levels: Levels)
    requires IsGrouping(tables, rows) && levels.tables && Distinct(schemas) && DistinctTables(rows)
    ensures var keys := KeysOf(SchemaEntries(schemas, tables, columns, levels));
            Distinct(keys) && forall key :: key in keys ==> key.0 in schemas
  {
    hide IsGrouping, Group, Selected, TableEntries, KeysOfTables, DistinctTables;
    if schemas != [] {
      var n := |schemas| - 1;
      var init, schema := schemas[..n], schemas[n];
      KeysDiffer(init, tables, columns, rows, levels);
      var before, answer := SchemaEntries(init, tables, columns, levels), SchemaEntries(schemas, tables, columns, levels);
      assert answer[..|answer| - 1] == before;
      GroupIsSelected(tables, rows, schema);
      SelectedNamesDiffer(rows, schema);
      var own := Selected(rows, schema);
      KeysOfTablesDiffer(schema, own, columns, levels);
      assert schema !in init;
      var mine := KeysOfTables(schema, TableEntries(schema, own, columns, levels));
      assert KeysOf(answer) == KeysOf(before) + mine;
      forall key | key in KeysOf(before) ensures key.0 != schema && key.0 in schemas {}
      DistinctJoined(KeysOf(before), mine, schema);
    }
  }

  /** Over distinct schemas and distinct table rows the answer holds every column row of the listed
      tables exactly once, under its own table. */
  lemma AnswerConservesColumns(
    schemas: seq<string>, tables: map<string, seq<Table>>, columns: map<TableKey, seq<Column>>,
    tableRows: seq<(string, Table)>, columnRows: seq<(TableKey, Column)>, levels: Levels)
    requires IsGrouping(tables, tableRows) && IsGrouping(columns, columnRows)
    requires levels.columns && levels.tables && levels.schemas && Distinct(schemas) && DistinctTables(tableRows)
    ensures var answer := Nested(schemas, tables, columns, levels).value;
            multiset(ColumnsOf(answer)) == multiset(Among(columnRows, KeysOf(answer)))
  {
    hide IsGrouping, ColumnsOf, KeysOf, SchemaEntries, Flattened, Among, Distinct, DistinctTables;
    KeysDiffer(schemas, tables, columns, tableRows, levels);
    ColumnsFlatten(schemas, tables, columns, columnRows, levels);
    FlatteningConservesRows(columnRows, KeysOf(SchemaEntries(schemas, tables, columns, levels)));
  }

  /** And the listed tables are those of the table rows. */
  lemma {:induction false} KeysAreTables(
    schemas: seq<string>, tables: map<string, seq<Table>>, columns: map<TableKey, seq<Column>>,
    rows: seq<(string, Table)>, levels: Levels, key: TableKey)
    requires IsGrouping(tables, rows) && levels.tables
    ensures key in KeysOf(SchemaEntries(schemas, tables, columns, levels))
            <==> key.0 in schemas && exists t :: t in Selected(rows, key.0) && t.name == key.1
  {
    hide IsGrouping, Group, Selected, TableEntries, KeysOfTables;
    if schemas != [] {
      var n := |schemas| - 1;
      var init, schema := schemas[..n], schemas[n];
      KeysAreTables(init, tables, columns, rows, levels, key);
      var before, answer := SchemaEntries(init, tables, columns, levels), SchemaEntries(schemas, tables, columns, levels);
      assert answer[..|answer| - 1] == before;
      GroupIsSelected(tables, rows, schema);
      OwnKeys(schema, Selected(rows, schema), columns, levels, key);
      assert schemas == init + [schema];
    }
  }

  lemma OwnKeys(schema: string, own: seq<Table>, columns: map<TableKey, seq<Column>>, levels: Levels, key: TableKey)
    ensures key in KeysOfTables(schema, TableEntries(schema, own, columns, levels))
            <==> key.0 == schema && exists t :: t in own && t.name == key.1
  {
    hide TableEntries;
    TablesOfEntries(schema, own, columns, levels);
    var entries := TableEntries(schema, own, columns, levels);
    var keys := KeysOfTables(schema, entries);
    assert |keys| == |TablesOnly(entries)| == |own|;
    forall i | 0 <= i < |own| ensures keys[i] == (schema, own[i].name) { assert TablesOnly(entries)[i] == own[i]; }
    if t :| t in own && t.name == key.1 && key.0 == schema {
      var i :| 0 <= i < |own| && own[i] == t;
      assert keys[i] == key;
    }
    if key in keys {
      var i :| 0 <= i < |keys| && keys[i] == key;
      assert own[i] in own;
    }
  }
}
