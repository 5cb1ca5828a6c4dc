/** An ADBC statement as a state machine (src/adbc_ffi.rs:490-518, 1984-2109, 2111-2245, 2313-2371,
    2417-2458): its SQL, the prepared handle it holds, the batch bound to it, and the server that
    prepares and executes.

    The server answers the n-th call as `outcomes(n)` says. How one Arrow cell becomes a parameter, and
    which columns a batch's types make or refuse, are parameters of the model. */
module StatementMachine {
  import opened Text
  import SqlText
  import SqlClauses
  import CreateAppend

  // ---------------------------------------------------------------------------------------------
  // Bound batches
  // ---------------------------------------------------------------------------------------------

  type Cell = string
  type Parameter = string
  type Row = seq<Parameter>
  type Conversion = Cell -> Result<Parameter, string>

  /** Rows of `columns` cells each. */
  datatype Batch = Batch(columns: nat, cells: seq<seq<Cell>>)

  /** Which cell could not be converted. */
  datatype CellError = CellError(column: nat, row: nat, message: string)

  function ConvertCells(cells: seq<Cell>, column: nat, row: nat, convert: Conversion): (r: Result<Row, CellError>)
    ensures r.Ok? ==> |r.value| == |cells|
  {
    if cells == [] then Ok([])
    else
      var first := convert(cells[0]);
      if first.Err? then Err(CellError(column, row, first.error))
      else
        var rest := ConvertCells(cells[1..], column + 1, row, convert);
        if rest.Err? then rest else Ok([first.value] + rest.value)
  }

  function ConvertRows(rows: seq<seq<Cell>>, row: nat, convert: Conversion): (r: Result<seq<Row>, CellError>)
    ensures r.Ok? ==> |r.value| == |rows|
  {
    if rows == [] then Ok([])
    else
      var first := ConvertCells(rows[0], 0, row, convert);
      if first.Err? then Err(first.error)
      else
        var rest := ConvertRows(rows[1..], row + 1, convert);
        if rest.Err? then rest else Ok([first.value] + rest.value)
  }

  /** The parameter rows of a bound batch. */
  function BoundRows(batch: Batch, convert: Conversion): (r: Result<seq<Row>, CellError>)
    ensures r.Ok? ==> |r.value| == |batch.cells|
  {
    ConvertRows(batch.cells, 0, convert)
  }

  /** The cells of a row convert to `row`. */
  predicate IsConvertedRow(row: Row, cells: seq<Cell>, convert: Conversion) {
    |row| == |cells| && forall c :: 0 <= c < |cells| ==> convert(cells[c]) == Ok(row[c])
  }

  /** Cell `c` is the first of `cells` that cannot be converted. */
  predicate IsFirstBadCell(cells: seq<Cell>, c: int, message: string, convert: Conversion) {
    0 <= c < |cells| && convert(cells[c]) == Err(message) && forall d :: 0 <= d < c ==> convert(cells[d]).Ok?
  }

  lemma {:induction false} ConvertCellsIsExact(cells: seq<Cell>, column: nat, row: nat, convert: Conversion)
    ensures var r := ConvertCells(cells, column, row, convert);
            match r
            case Ok(converted) => IsConvertedRow(converted, cells, convert)
            case Err(e) => e.row == row && IsFirstBadCell(cells, e.column - column, e.message, convert)
  {
    if cells != [] && convert(cells[0]).Ok? {
      ConvertCellsIsExact(cells[1..], column + 1, row, convert);
    }
  }

  lemma {:induction false} ConvertRowsIsExact(rows: seq<seq<Cell>>, row: nat, convert: Conversion)
    ensures var r := ConvertRows(rows, row, convert);
            match r
            case Ok(converted) => forall k :: 0 <= k < |rows| ==> IsConvertedRow(converted[k], rows[k], convert)
            case Err(e) =>
              var at := e.row - row;
              0 <= at < |rows| && IsFirstBadCell(rows[at], e.column, e.message, convert) &&
              forall k :: 0 <= k < at ==> forall c :: 0 <= c < |rows[k]| ==> convert(rows[k][c]).Ok?
  {
    hide IsFirstBadCell;
    if rows != [] {
      ConvertCellsIsExact(rows[0], 0, row, convert);
      if ConvertCells(rows[0], 0, row, convert).Ok? {
        ConvertRowsIsExact(rows[1..], row + 1, convert);
      }
    }
  }

  /** Conversion succeeds with every cell converted in place, or names the first cell, row by row,
      that cannot be converted. */
  lemma BoundRowsAreExact(batch: Batch, convert: Conversion)
    ensures match BoundRows(batch, convert)
            case Ok(rows) => forall k :: 0 <= k < |batch.cells| ==> IsConvertedRow(rows[k], batch.cells[k], convert)
            case Err(e) =>
              e.row < |batch.cells| && IsFirstBadCell(batch.cells[e.row], e.column, e.message, convert) &&
              forall k :: 0 <= k < e.row ==> forall c :: 0 <= c < |batch.cells[k]| ==> convert(batch.cells[k][c]).Ok?
  {
    hide IsFirstBadCell, IsConvertedRow;
    ConvertRowsIsExact(batch.cells, 0, convert);
  }

  /** A row of its own each when the statement returns rows or has no parameters, else all at once. */
  function Executions(rows: seq<Row>, returnsRows: bool): seq<seq<Row>>
    requires rows != []
  {
    if returnsRows || rows[0] == [] then seq(|rows|, k requires 0 <= k < |rows| => [rows[k]]) else [rows]
  }

  function Joined(slices: seq<seq<Row>>): seq<Row> {
    if slices == [] then [] else slices[0] + Joined(slices[1..])
  }

  lemma {:induction false} SinglesJoin(rows: seq<Row>, slices: seq<seq<Row>>)
    requires |slices| == |rows| && forall k :: 0 <= k < |rows| ==> slices[k] == [rows[k]]
    ensures Joined(slices) == rows
  {
    if rows != [] { SinglesJoin(rows[1..], slices[1..]); }
  }

  /** The executions send every row once and in order, none of them empty: one row at a time when the
      statement returns rows or the rows have no parameters, else all rows at once. */
  lemma ExecutionsPartitionRows(rows: seq<Row>, returnsRows: bool)
    requires rows != []
    ensures Joined(Executions(rows, returnsRows)) == rows
    ensures forall slice :: slice in Executions(rows, returnsRows) ==> slice != [] && (returnsRows ==> |slice| == 1)
    ensures |Executions(rows, returnsRows)| == 1 <==> |rows| == 1 || !(returnsRows || rows[0] == [])
  {
    if returnsRows || rows[0] == [] {
      SinglesJoin(rows, Executions(rows, returnsRows));
    } else {
      assert [rows][1..] == [];
      assert Joined([]) == [];
    }
  }

  // ---------------------------------------------------------------------------------------------
  // The server
  // ---------------------------------------------------------------------------------------------

  /** `sent` says whether a call became a request: the driver may refuse it first. A handle's
      `returnsRows` says whether its result has columns. */
  datatype Reply = Reply(sent: bool, failure: Option<string>, returnsRows: bool, affected: int, batches: seq<string>)

  type Outcomes = nat -> Reply

  datatype Request =
    | PrepareSql(sql: string)
    | ExecuteRows(handle: nat, rows: seq<Row>, update: bool)
    | RunSql(sql: string, update: bool)
    | Import(table: string, batch: Batch)

  /** `prepared[h]` is the SQL that handle `h` was created for; `calls` counts calls, sent or not. */
  datatype Server = Server(prepared: seq<string>, log: seq<Request>, calls: nat)

  function Call(server: Server, request: Request, outcomes: Outcomes): Server {
    var reply := outcomes(server.calls);
    Server(
      if request.PrepareSql? && reply.sent && reply.failure.None? then server.prepared + [request.sql] else server.prepared,
      if reply.sent then server.log + [request] else server.log,
      server.calls + 1)
  }

  // ---------------------------------------------------------------------------------------------
  // The statement
  // ---------------------------------------------------------------------------------------------

  datatype Handle = Handle(id: nat, returnsRows: bool)

  datatype OptionValue = TextOption(text: string) | OtherOption

  const INGEST_TARGET_TABLE := "adbc.ingest.target_table"
  const INGEST_TEMPORARY := "adbc.ingest.temporary"
  const INGEST_SCHEMA := "adbc.ingest.target_db_schema"
  const INGEST_MODE := "adbc.ingest.mode"
  const INGEST_CATALOG := "adbc.ingest.target_catalog"

  /** `connected` is false only for a statement made without a connection. */
  datatype Statement = Statement(
    sql: Option<string>, prepared: Option<Handle>, bound: Option<Batch>, options: map<string, OptionValue>, connected: bool)

  datatype World = World(statement: Statement, server: Server)

  datatype Value = Unit | Affected(count: int) | Batches(batches: seq<string>)

  datatype Failure =
    | InvalidState(message: string)
    | InvalidArguments
    | NotImplemented
    | BadCell(error: CellError)
    | Refused(message: string)

  type Step = (World, Result<Value, Failure>)

  predicate IsBulkIngest(s: Statement) { INGEST_TARGET_TABLE in s.options }

  function SetSqlQuery(w: World, sql: string): Step {
    var s := w.statement;
    (w.(statement := s.(sql := Some(sql), prepared := if s.sql == Some(sql) then s.prepared else None)), Ok(Unit))
  }

  function Bind(w: World, batch: Batch): Step { (w.(statement := w.statement.(bound := Some(batch))), Ok(Unit)) }

  /** The batches of a stream up to its first error. */
  function ReadAll(stream: seq<Result<Batch, string>>): Result<seq<Batch>, string> {
    if stream == [] then Ok([])
    else if stream[|stream| - 1].Err? && ReadAll(stream[..|stream| - 1]).Ok? then Err(stream[|stream| - 1].error)
    else
      var before := ReadAll(stream[..|stream| - 1]);
      if before.Err? then before else Ok(before.value + [stream[|stream| - 1].value])
  }

  function AllCells(batches: seq<Batch>): seq<seq<Cell>> {
    if batches == [] then [] else AllCells(batches[..|batches| - 1]) + batches[|batches| - 1].cells
  }

  /** One batch with the rows of all of them; they must have the same columns. */
  function Concatenated(batches: seq<Batch>): Option<Batch>
    requires batches != []
  {
    if forall batch :: batch in batches ==> batch.columns == batches[0].columns then
      Some(Batch(batches[0].columns, AllCells(batches)))
    else None
  }

  /** A stream without batches unbinds. */
  function BindStream(w: World, stream: seq<Result<Batch, string>>): Step {
    var batches := ReadAll(stream);
    if batches.Err? then (w, Err(Refused(batches.error)))
    else if batches.value == [] then (w.(statement := w.statement.(bound := None)), Ok(Unit))
    else
      var combined := if |batches.value| == 1 then Some(batches.value[0]) else Concatenated(batches.value);
      if combined.None? then (w, Err(Refused("schema mismatch")))
      else (w.(statement := w.statement.(bound := combined)), Ok(Unit))
  }

  /** How many rows the first `k` batches have. */
  function RowsBefore(batches: seq<Batch>, k: nat): nat
    requires k <= |batches|
  {
    if k == 0 then 0 else RowsBefore(batches, k - 1) + |batches[k - 1].cells|
  }

  /** Row `r` of batch `k` stands behind the rows of the batches before it. */
  predicate RowStands(cells: seq<seq<Cell>>, batches: seq<Batch>, k: nat, r: nat)
    requires k < |batches| && r < |batches[k].cells|
  {
    var at := RowsBefore(batches, k) + r;
    at < |cells| && cells[at] == batches[k].cells[r]
  }

  /** The rows of `batches`, each at its place, and no others. */
  predicate HasRowsOf(cells: seq<seq<Cell>>, batches: seq<Batch>) {
    |cells| == RowsBefore(batches, |batches|) &&
    forall k, r :: 0 <= k < |batches| && 0 <= r < |batches[k].cells| ==> RowStands(cells, batches, k, r)
  }

  lemma {:induction false} RowsBeforePrefix(batches: seq<Batch>, n: nat, k: nat)
    requires k <= n <= |batches|
    ensures RowsBefore(batches[..n], k) == RowsBefore(batches, k) <= RowsBefore(batches, n)
  {
    if k > 0 { RowsBeforePrefix(batches, n, k - 1); }
    RowsGrow(batches, k, n);
  }

  lemma {:induction false} RowsGrow(batches: seq<Batch>, k: nat, n: nat)
    requires k <= n <= |batches|
    ensures RowsBefore(batches, k) <= RowsBefore(batches, n)
  {
    if k < n { RowsGrow(batches, k, n - 1); }
  }

  lemma {:induction false} AllCellsCount(batches: seq<Batch>)
    ensures |AllCells(batches)| == RowsBefore(batches, |batches|)
  {
    if batches != [] {
      var n := |batches| - 1;
      AllCellsCount(batches[..n]);
      RowsBeforePrefix(batches, n, n);
    }
  }

  lemma {:induction false} CellsAt(batches: seq<Batch>, k: nat, r: nat)
    requires k < |batches| && r < |batches[k].cells|
    ensures RowStands(AllCells(batches), batches, k, r)
  {
    hide RowsBefore;
    var n := |batches| - 1;
    var init := batches[..n];
    RowsBeforePrefix(batches, n, k);
    AllCellsCount(init);
    assert AllCells(batches) == AllCells(init) + batches[n].cells;
    if k < n {
      CellsAt(init, k, r);
    } else {
      assert |init| == n && RowsBefore(init, n) == RowsBefore(batches, n);
    }
  }

  lemma AllCellsAreTheRows(batches: seq<Batch>)
    ensures HasRowsOf(AllCells(batches), batches)
  {
    hide AllCells, RowsBefore, RowStands;
    AllCellsCount(batches);
    forall k, r | 0 <= k < |batches| && 0 <= r < |batches[k].cells|
      ensures RowStands(AllCells(batches), batches, k, r)
    {
      CellsAt(batches, k, r);
    }
  }

  /** The batches of a stream without errors. */
  predicate IsStreamOf(stream: seq<Result<Batch, string>>, batches: seq<Batch>) {
    |stream| == |batches| && forall k :: 0 <= k < |stream| ==> stream[k] == Ok(batches[k])
  }

  predicate IsFirstError(stream: seq<Result<Batch, string>>, k: nat, message: string) {
    k < |stream| && stream[k] == Err(message) && forall i :: 0 <= i < k ==> stream[i].Ok?
  }

  lemma {:induction false} ReadAllIsExact(stream: seq<Result<Batch, string>>)
    ensures match ReadAll(stream)
            case Ok(batches) => IsStreamOf(stream, batches)
            case Err(message) => exists k :: IsFirstError(stream, k, message)
  {
    if stream != [] {
      var n := |stream| - 1;
      ReadAllIsExact(stream[..n]);
      if ReadAll(stream[..n]).Err? {
        var k :| IsFirstError(stream[..n], k, ReadAll(stream[..n]).error);
        assert IsFirstError(stream, k, ReadAll(stream).error);
      } else if stream[n].Err? {
        assert ReadAll(stream) == Err(stream[n].error);
        forall i | 0 <= i < n ensures stream[i].Ok? { assert stream[..n][i] == stream[i]; }
        assert IsFirstError(stream, n, ReadAll(stream).error);
      }
    }
  }

  predicate SameColumns(batches: seq<Batch>) {
    forall i, j :: 0 <= i < |batches| && 0 <= j < |batches| ==> batches[i].columns == batches[j].columns
  }

  /** Binding a stream binds every row of its batches in order, under their common columns; it unbinds
      when there is no batch. An error in the stream or batches of different columns leave the statement
      as it was. */
  lemma BindStreamIsExact(w: World, stream: seq<Result<Batch, string>>)
    ensures var (after, result) := BindStream(w, stream);
            if exists k, message :: IsFirstError(stream, k, message) then
              after == w && exists k, message :: IsFirstError(stream, k, message) && result == Err(Refused(message))
            else
              exists batches: seq<Batch> :: IsStreamOf(stream, batches) &&
                if batches == [] then result.Ok? && after == w.(statement := w.statement.(bound := None))
                else if !SameColumns(batches) then result.Err? && after == w
                else
                  result.Ok? && after.statement.bound.Some? && after == w.(statement := w.statement.(bound := after.statement.bound)) &&
                  after.statement.bound.value.columns == batches[0].columns && HasRowsOf(after.statement.bound.value.cells, batches)
  {
    ReadAllIsExact(stream);
    match ReadAll(stream)
    case Err(message) =>
      var k :| IsFirstError(stream, k, message);
    case Ok(batches) =>
      NoErrorIn(stream, batches);
      assert IsStreamOf(stream, batches);
      if batches != [] {
        CombinedIsExact(batches);
      }
  }

  lemma NoErrorIn(stream: seq<Result<Batch, string>>, batches: seq<Batch>)
    requires IsStreamOf(stream, batches)
    ensures !exists k, message :: IsFirstError(stream, k, message)
  {
  }

  lemma CombinedIsExact(batches: seq<Batch>)
    requires batches != []
    ensures var combined := if |batches| == 1 then Some(batches[0]) else Concatenated(batches);
            (combined.Some? <==> SameColumns(batches)) &&
            (combined.Some? ==> combined.value.columns == batches[0].columns && HasRowsOf(combined.value.cells, batches))
  {
    hide HasRowsOf, AllCells;
    AllCellsAreTheRows(batches);
    FirstColumns(batches);
    if |batches| == 1 { OneBatch(batches); }
    hide SameColumns;
  }

  lemma FirstColumns(batches: seq<Batch>)
    requires batches != []
    ensures SameColumns(batches) <==> forall batch :: batch in batches ==> batch.columns == batches[0].columns
  {
    if SameColumns(batches) {
      forall batch | batch in batches
        ensures batch.columns == batches[0].columns
      {
        var i :| 0 <= i < |batches| && batches[i] == batch;
      }
    }
  }

  lemma OneBatch(batches: seq<Batch>)
    requires |batches| == 1
    ensures AllCells(batches) == batches[0].cells && SameColumns(batches)
  {
    assert batches[..0] == [] && AllCells([]) == [];
  }

  function SetOption(w: World, key: string, value: OptionValue): Step {
    (w.(statement := w.statement.(options := w.statement.options[key := value])), Ok(Unit))
  }

  function Prepare(w: World, outcomes: Outcomes): Step {
    if w.statement.sql.None? then (w, Err(InvalidState("SQL query not set")))
    else if !w.statement.connected then (w, Err(InvalidState("No connection available")))
    else
      var reply := outcomes(w.server.calls);
      var asked := w.(server := Call(w.server, PrepareSql(w.statement.sql.value), outcomes));
      if reply.failure.Some? || !reply.sent then
        (asked, Err(Refused(if reply.failure.Some? then reply.failure.value else "not sent")))
      else
        var handle := Handle(|w.server.prepared|, reply.returnsRows);
        (asked.(statement := asked.statement.(prepared := Some(handle))), Ok(Unit))
  }

  /** The prepared handle to run, prepared on first use. */
  function EnsurePrepared(w: World, outcomes: Outcomes): Step {
    if w.statement.prepared.Some? then
      if w.statement.connected then (w, Ok(Unit)) else (w, Err(InvalidState("No connection available")))
    else Prepare(w, outcomes)
  }

  /** Sends slices one after the other until one fails, and joins what they yield. */
  function SendAll(server: Server, handle: nat, slices: seq<seq<Row>>, update: bool, outcomes: Outcomes)
    : (Server, Result<(int, seq<string>), string>)
    decreases |slices|
  {
    if slices == [] then (server, Ok((0, [])))
    else
      var reply := outcomes(server.calls);
      var next := Call(server, ExecuteRows(handle, slices[0], update), outcomes);
      if reply.failure.Some? || !reply.sent then
        (next, Err(if reply.failure.Some? then reply.failure.value else "not sent"))
      else
        var (last, rest) := SendAll(next, handle, slices[1..], update, outcomes);
        (last, if rest.Err? then rest else Ok((reply.affected + rest.value.0, reply.batches + rest.value.1)))
  }

  function ExecuteBound(w: World, batch: Batch, update: bool, convert: Conversion, outcomes: Outcomes): Step {
    var (ready, prepared) := EnsurePrepared(w, outcomes);
    if prepared.Err? || ready.statement.prepared.None? then (ready, prepared)
    else
      var handle := ready.statement.prepared.value;
      var rows := BoundRows(batch, convert);
      if rows.Err? then (ready, Err(BadCell(rows.error)))
      else if rows.value == [] then (ready, Ok(if update then Affected(0) else Batches([])))
      else
        var (server, sent) := SendAll(ready.server, handle.id, Executions(rows.value, handle.returnsRows), update, outcomes);
        (ready.(server := server),
         if sent.Err? then Err(Refused(sent.error))
         else Ok(if update then Affected(sent.value.0) else Batches(sent.value.1)))
  }

  function RunText(w: World, sql: string, update: bool, outcomes: Outcomes): Step {
    if !w.statement.connected then (w, Err(InvalidState("No connection available")))
    else
      var reply := outcomes(w.server.calls);
      (w.(server := Call(w.server, RunSql(sql, update), outcomes)),
       if reply.failure.Some? then Err(Refused(reply.failure.value))
       else Ok(if update then Affected(reply.affected) else Batches(reply.batches)))
  }

  function TextOf(options: map<string, OptionValue>, key: string): Option<string> {
    if key in options && options[key].TextOption? then Some(options[key].text) else None
  }

  const INGEST_CREATE := "adbc.ingest.mode.create"
  const INGEST_APPEND := "adbc.ingest.mode.append"
  const INGEST_CREATE_APPEND := "adbc.ingest.mode.create_append"
  const INGEST_REPLACE := "adbc.ingest.mode.replace"

  function IngestMode(options: map<string, OptionValue>): string {
    var mode := TextOf(options, INGEST_MODE);
    if mode.Some? then mode.value else INGEST_APPEND
  }

  /** What is wrong with the ingest options, before any bound data is touched. */
  function IngestRefusal(options: map<string, OptionValue>): Option<Failure> {
    if TextOf(options, INGEST_TARGET_TABLE).None? then Some(InvalidState("Target table not set for bulk ingestion"))
    else if TextOf(options, INGEST_TEMPORARY) == Some("true") then Some(NotImplemented)
    else if IngestMode(options) !in {INGEST_CREATE, INGEST_APPEND, INGEST_CREATE_APPEND, INGEST_REPLACE} then
      Some(InvalidArguments)
    else None
  }

  /** `eq_ignore_ascii_case` */
  predicate EqualIgnoringCase(a: string, b: string) {
    |a| == |b| && forall i :: 0 <= i < |a| ==> AsciiLower(a[i]) == AsciiLower(b[i])
  }

  function AsciiLower(c: char): char { if 'A' <= c <= 'Z' then c - 'A' + 'a' else c }

  /** A catalog is accepted when it is not given, or is the text EXA in any casing. */
  predicate CatalogAccepted(options: map<string, OptionValue>) {
    INGEST_CATALOG in options ==> options[INGEST_CATALOG].TextOption? && EqualIgnoringCase(options[INGEST_CATALOG].text, "EXA")
  }

  /** The columns of a batch with their Exasol types, unless a type cannot be stored or imported. */
  type TypeMapping = Batch -> Result<seq<SqlClauses.Field>, string>

  function ModeOf(mode: string): SqlClauses.IngestMode {
    if mode == INGEST_CREATE then SqlClauses.Create
    else if mode == INGEST_CREATE_APPEND then SqlClauses.CreateAppend
    else if mode == INGEST_REPLACE then SqlClauses.Replace
    else SqlClauses.Append
  }

  /** The table that the options name. */
  function IngestName(options: map<string, OptionValue>): string
    requires IngestRefusal(options).None?
  {
    SqlText.QualifiedTableName(TextOf(options, INGEST_SCHEMA), TextOf(options, INGEST_TARGET_TABLE).value)
  }

  /** What runs before the import. */
  function IngestTexts(options: map<string, OptionValue>, fields: seq<SqlClauses.Field>): seq<string>
    requires IngestRefusal(options).None?
  {
    SqlClauses.IngestStatements(ModeOf(IngestMode(options)), IngestName(options), fields)
  }

  function RunAll(w: World, statements: seq<string>, outcomes: Outcomes): Step
    decreases |statements|
  {
    if statements == [] then (w, Ok(Unit))
    else
      var (next, ran) := RunText(w, statements[0], true, outcomes);
      if ran.Err? then (next, ran) else RunAll(next, statements[1..], outcomes)
  }

  function BulkIngest(w: World, mapping: TypeMapping, outcomes: Outcomes): Step {
    var s := w.statement;
    var refusal := IngestRefusal(s.options);
    if refusal.Some? then (w, Err(refusal.value))
    else if s.bound.None? then (w, Err(InvalidState("No data bound for bulk ingestion")))
    else
      var batch := s.bound.value;
      var taken := w.(statement := s.(bound := None));
      if !CatalogAccepted(s.options) || mapping(batch).Err? then (taken, Err(InvalidArguments))
      else if !s.connected then (taken, Err(InvalidState("No connection available")))
      else
        var (ready, ran) := RunAll(taken, IngestTexts(s.options, mapping(batch).value), outcomes);
        if ran.Err? then (ready, ran)
        else
          var reply := outcomes(ready.server.calls);
          (ready.(server := Call(ready.server, Import(IngestName(s.options), batch), outcomes)),
           if reply.failure.Some? then Err(Refused(reply.failure.value)) else Ok(Affected(reply.affected)))
  }

  /** What the statement depends on besides its own state. */
  datatype Driver = Driver(convert: Conversion, mapping: TypeMapping, outcomes: Outcomes)

  function Execute(w: World, update: bool, driver: Driver): Step {
    var s := w.statement;
    if IsBulkIngest(s) then
      var (done, result) := BulkIngest(w, driver.mapping, driver.outcomes);
      (done, if update || result.Err? then result else Ok(Batches([])))
    else if s.sql.None? then (w, Err(InvalidState("SQL query not set")))
    else if s.bound.Some? then
      ExecuteBound(w.(statement := s.(bound := None)), s.bound.value, update, driver.convert, driver.outcomes)
    else RunText(w, s.sql.value, update, driver.outcomes)
  }

  datatype Op =
    | DoSetSqlQuery(sql: string)
    | DoPrepare
    | DoBind(batch: Batch)
    | DoBindStream(stream: seq<Result<Batch, string>>)
    | DoSetOption(key: string, value: OptionValue)
    | DoExecute(update: bool)
    | DoExecuteSchema

  function Do(w: World, op: Op, driver: Driver): Step {
    match op
    case DoSetSqlQuery(sql) => SetSqlQuery(w, sql)
    case DoPrepare => Prepare(w, driver.outcomes)
    case DoBind(batch) => Bind(w, batch)
    case DoBindStream(stream) => BindStream(w, stream)
    case DoSetOption(key, value) => SetOption(w, key, value)
    case DoExecute(update) => Execute(w, update, driver)
    case DoExecuteSchema => EnsurePrepared(w, driver.outcomes)
  }

  function Run(w: World, ops: seq<Op>, driver: Driver): World {
    if ops == [] then w else Do(Run(w, ops[..|ops| - 1], driver), ops[|ops| - 1], driver).0
  }

  function NewStatement(connected: bool): World {
    World(Statement(None, None, None, map[], connected), Server([], [], 0))
  }

  // ---------------------------------------------------------------------------------------------
  // A held handle belongs to the current SQL
  // ---------------------------------------------------------------------------------------------

  /** The held handle was created for the SQL the statement has now. */
  predicate HandleFits(w: World) {
    w.statement.prepared.Some? ==>
      w.statement.prepared.value.id < |w.server.prepared| &&
      w.statement.sql == Some(w.server.prepared[w.statement.prepared.value.id])
  }

  lemma {:induction false} SendAllPreparesNothing(server: Server, handle: nat, slices: seq<seq<Row>>, update: bool, outcomes: Outcomes)
    ensures SendAll(server, handle, slices, update, outcomes).0.prepared == server.prepared
    decreases |slices|
  {
    if slices != [] {
      SendAllPreparesNothing(Call(server, ExecuteRows(handle, slices[0], update), outcomes), handle, slices[1..], update, outcomes);
    }
  }

  lemma {:induction false} RunAllPreparesNothing(w: World, statements: seq<string>, outcomes: Outcomes)
    ensures RunAll(w, statements, outcomes).0.server.prepared == w.server.prepared
    ensures RunAll(w, statements, outcomes).0.statement == w.statement
    decreases |statements|
  {
    if statements != [] {
      RunAllPreparesNothing(RunText(w, statements[0], true, outcomes).0, statements[1..], outcomes);
    }
  }

  lemma EnsurePreparedFits(w: World, outcomes: Outcomes)
    requires HandleFits(w)
    ensures var (ready, result) := EnsurePrepared(w, outcomes);
            HandleFits(ready) && ready.statement.sql == w.statement.sql && ready.statement.bound == w.statement.bound &&
            (result.Ok? ==> ready.statement.prepared.Some?)
  {
  }

  lemma ExecuteBoundFits(w: World, batch: Batch, update: bool, convert: Conversion, outcomes: Outcomes)
    requires HandleFits(w)
    ensures var after := ExecuteBound(w, batch, update, convert, outcomes).0;
            HandleFits(after) && after.statement.bound == w.statement.bound
  {
    hide EnsurePrepared, BoundRows, Executions, SendAll;
    EnsurePreparedFits(w, outcomes);
    var (ready, prepared) := EnsurePrepared(w, outcomes);
    if prepared.Ok? {
      var handle := ready.statement.prepared.value;
      var rows := BoundRows(batch, convert);
      if rows.Ok? && rows.value != [] {
        SendAllPreparesNothing(ready.server, handle.id, Executions(rows.value, handle.returnsRows), update, outcomes);
      }
    }
  }

  lemma BulkIngestFits(w: World, mapping: TypeMapping, outcomes: Outcomes)
    ensures var after := BulkIngest(w, mapping, outcomes).0;
            after.statement.(bound := None) == w.statement.(bound := None) && after.server.prepared == w.server.prepared &&
            (after.statement.bound == w.statement.bound || after.statement.bound.None?)
  {
    hide RunAll;
    var s := w.statement;
    if IngestRefusal(s.options).None? && s.bound.Some? && mapping(s.bound.value).Ok? {
      RunAllPreparesNothing(w.(statement := s.(bound := None)), IngestTexts(s.options, mapping(s.bound.value).value), outcomes);
    }
  }

  lemma StepKeepsFit(w: World, op: Op, driver: Driver)
    requires HandleFits(w)
    ensures HandleFits(Do(w, op, driver).0)
  {
    hide ExecuteBound, BulkIngest, RunText;
    if op.DoExecute? {
      var s := w.statement;
      BulkIngestFits(w, driver.mapping, driver.outcomes);
      if !IsBulkIngest(s) && s.sql.Some? && s.bound.Some? {
        ExecuteBoundFits(w.(statement := s.(bound := None)), s.bound.value, op.update, driver.convert, driver.outcomes);
      } else if !IsBulkIngest(s) && s.sql.Some? {
        RunTextFits(w, s.sql.value, op.update, driver.outcomes);
      }
    }
  }

  lemma RunTextFits(w: World, sql: string, update: bool, outcomes: Outcomes)
    ensures var after := RunText(w, sql, update, outcomes).0;
            after.statement == w.statement && after.server.prepared == w.server.prepared
  {
  }

  /** In every reachable state a held handle was created for the current SQL. */
  lemma {:induction false} RunsKeepFit(connected: bool, ops: seq<Op>, driver: Driver)
    ensures HandleFits(Run(NewStatement(connected), ops, driver))
  {
    hide Do;
    if ops != [] {
      RunsKeepFit(connected, ops[..|ops| - 1], driver);
      StepKeepsFit(Run(NewStatement(connected), ops[..|ops| - 1], driver), ops[|ops| - 1], driver);
    }
  }

  // ---------------------------------------------------------------------------------------------
  // What an execution sends
  // ---------------------------------------------------------------------------------------------

  function Requests(handle: nat, slices: seq<seq<Row>>, update: bool): seq<Request> {
    seq(|slices|, k requires 0 <= k < |slices| => ExecuteRows(handle, slices[k], update))
  }

  function TotalAffected(outcomes: Outcomes, from: nat, n: nat): int
    decreases n
  {
    if n == 0 then 0 else outcomes(from).affected + TotalAffected(outcomes, from + 1, n - 1)
  }

  function AllBatches(outcomes: Outcomes, from: nat, n: nat): seq<string>
    decreases n
  {
    if n == 0 then [] else outcomes(from).batches + AllBatches(outcomes, from + 1, n - 1)
  }

  /** The slices are sent in order up to the first failure; on success all of them were. */
  lemma {:induction false} SendAllIsExact(server: Server, handle: nat, slices: seq<seq<Row>>, update: bool, outcomes: Outcomes)
    returns (n: nat)
    ensures n <= |slices|
    ensures var (after, sent) := SendAll(server, handle, slices, update, outcomes);
            after.log == server.log + Requests(handle, slices[..n], update) && (sent.Ok? ==> n == |slices|)
    decreases |slices|
  {
    hide Requests;
    n := 0;
    if slices == [] {
      NoRequests(handle, slices, update);
    } else {
      var reply := outcomes(server.calls);
      var next := Call(server, ExecuteRows(handle, slices[0], update), outcomes);
      NoRequests(handle, slices, update);
      if reply.sent { RequestsCons(handle, slices, 0, update); }
      if reply.failure.Some? || !reply.sent {
        n := if reply.sent then 1 else 0;
        NoRequests(handle, slices[1..], update);
      } else {
        var rest := SendAllIsExact(next, handle, slices[1..], update, outcomes);
        n := rest + 1;
        LogContinued(server.log, handle, slices, rest, update);
      }
    }
  }

  lemma LogContinued(log: seq<Request>, handle: nat, slices: seq<seq<Row>>, n: nat, update: bool)
    requires n < |slices|
    ensures log + [ExecuteRows(handle, slices[0], update)] + Requests(handle, slices[1..][..n], update)
            == log + Requests(handle, slices[..n + 1], update)
  {
    RequestsCons(handle, slices, n, update);
    hide Requests;
  }

  lemma NoRequests(handle: nat, slices: seq<seq<Row>>, update: bool)
    ensures Requests(handle, slices[..0], update) == []
  {
  }

  /** On success the count is the sum of the executions' counts and their batches follow one another. */
  lemma {:induction false} SendAllTotals(server: Server, handle: nat, slices: seq<seq<Row>>, update: bool, outcomes: Outcomes)
    requires SendAll(server, handle, slices, update, outcomes).1.Ok?
    ensures SendAll(server, handle, slices, update, outcomes).1.value
            == (TotalAffected(outcomes, server.calls, |slices|), AllBatches(outcomes, server.calls, |slices|))
    decreases |slices|
  {
    if slices != [] {
      SendAllTotals(Call(server, ExecuteRows(handle, slices[0], update), outcomes), handle, slices[1..], update, outcomes);
    }
  }

  lemma RequestsCons(handle: nat, slices: seq<seq<Row>>, n: nat, update: bool)
    requires n < |slices|
    ensures Requests(handle, slices[..n + 1], update)
            == [ExecuteRows(handle, slices[0], update)] + Requests(handle, slices[1..][..n], update)
  {
  }

  /** The parameter rows that a series of requests carries. */
  function SentRows(requests: seq<Request>): seq<Row> {
    if requests == [] then []
    else (if requests[0].ExecuteRows? then requests[0].rows else []) + SentRows(requests[1..])
  }

  lemma {:induction false} RowsOfRequests(handle: nat, slices: seq<seq<Row>>, update: bool)
    ensures SentRows(Requests(handle, slices, update)) == Joined(slices)
  {
    if slices != [] {
      RowsOfRequests(handle, slices[1..], update);
      assert Requests(handle, slices, update)[1..] == Requests(handle, slices[1..], update);
    }
  }

  lemma {:induction false} JoinedPrefix(slices: seq<seq<Row>>, n: nat)
    requires n <= |slices|
    ensures Joined(slices[..n]) <= Joined(slices)
  {
    if n > 0 {
      JoinedPrefix(slices[1..], n - 1);
      assert slices[..n][1..] == slices[1..][..n - 1];
    }
  }

  /** What one operation sent. */
  function Sent(before: World, after: World): seq<Request> {
    if before.server.log <= after.server.log then after.server.log[|before.server.log|..] else []
  }

  /** Preparing may send one request, for the statement's own SQL. */
  lemma EnsurePreparedSends(w: World, outcomes: Outcomes)
    ensures var ready := EnsurePrepared(w, outcomes).0;
            w.server.log <= ready.server.log &&
            (Sent(w, ready) == [] || (w.statement.sql.Some? && Sent(w, ready) == [PrepareSql(w.statement.sql.value)]))
  {
  }

  /** A bound execution that succeeds sends the batch's converted rows, each once and in order; one
      that fails sends a prefix of them, and none at all when any cell cannot be converted. Every
      request runs the handle created for the current SQL. */
  lemma BoundExecutionIsExact(w: World, batch: Batch, update: bool, convert: Conversion, outcomes: Outcomes)
    requires HandleFits(w)
    ensures var (after, result) := ExecuteBound(w, batch, update, convert, outcomes);
            var rows := BoundRows(batch, convert);
            w.server.log <= after.server.log &&
            (rows.Err? ==> SentRows(Sent(w, after)) == [] && (forall r :: r in Sent(w, after) ==> r.PrepareSql?)) &&
            (rows.Ok? ==> SentRows(Sent(w, after)) <= rows.value && (result.Ok? ==> SentRows(Sent(w, after)) == rows.value)) &&
            forall r :: r in Sent(w, after) && r.ExecuteRows? ==>
              r.update == update && r.handle < |after.server.prepared| && w.statement.sql == Some(after.server.prepared[r.handle])
  {
    hide EnsurePrepared, BoundRows, Executions, SendAll, Requests, HandleFits, SentRows;
    var (ready, prepared) := EnsurePrepared(w, outcomes);
    EnsurePreparedFits(w, outcomes);
    EnsurePreparedSends(w, outcomes);
    PreparingSendsNoRows(w, ready);
    if prepared.Ok? {
      var handle := ready.statement.prepared.value;
      var rows := BoundRows(batch, convert);
      if rows.Ok? && rows.value != [] {
        var slices := Executions(rows.value, handle.returnsRows);
        ExecutionsPartitionRows(rows.value, handle.returnsRows);
        SendAllPreparesNothing(ready.server, handle.id, slices, update, outcomes);
        var n := SendAllIsExact(ready.server, handle.id, slices, update, outcomes);
        var server := SendAll(ready.server, handle.id, slices, update, outcomes).0;
        SentAfterPreparing(w, ready, server, handle.id, slices, n, update);
      }
    }
  }

  lemma PreparingSendsNoRows(w: World, ready: World)
    requires Sent(w, ready) == [] || (w.statement.sql.Some? && Sent(w, ready) == [PrepareSql(w.statement.sql.value)])
    ensures SentRows(Sent(w, ready)) == [] && forall r :: r in Sent(w, ready) ==> r.PrepareSql?
  {
  }

  lemma {:induction false} SentRowsJoined(a: seq<Request>, b: seq<Request>)
    ensures SentRows(a + b) == SentRows(a) + SentRows(b)
  {
    if a == [] {
      assert a + b == b;
    } else {
      SentRowsJoined(a[1..], b);
      assert (a + b)[1..] == a[1..] + b;
    }
  }

  lemma SentAfterPreparing(
    w: World, ready: World, server: Server, handle: nat, slices: seq<seq<Row>>, n: nat, update: bool)
    requires n <= |slices| && w.server.log <= ready.server.log && SentRows(Sent(w, ready)) == []
    requires forall r :: r in Sent(w, ready) ==> r.PrepareSql?
    requires server.log == ready.server.log + Requests(handle, slices[..n], update)
    requires HandleFits(ready) && ready.statement.prepared.Some? && ready.statement.prepared.value.id == handle
    requires ready.statement.sql == w.statement.sql && server.prepared == ready.server.prepared
    ensures var after := ready.(server := server);
            w.server.log <= after.server.log && SentRows(Sent(w, after)) == Joined(slices[..n]) &&
            Joined(slices[..n]) <= Joined(slices) && (n == |slices| ==> Joined(slices[..n]) == Joined(slices)) &&
            forall r :: r in Sent(w, after) && r.ExecuteRows? ==>
              r.update == update && r.handle < |after.server.prepared| && w.statement.sql == Some(after.server.prepared[r.handle])
  {
    hide SentRows, Joined, Requests, HandleFits;
    var after := ready.(server := server);
    var made := Requests(handle, slices[..n], update);
    assert Sent(w, after) == Sent(w, ready) + made;
    SentRowsJoined(Sent(w, ready), made);
    RowsOfRequests(handle, slices[..n], update);
    assert [] + Joined(slices[..n]) == Joined(slices[..n]);
    JoinedPrefix(slices, n);
    assert n == |slices| ==> slices[..n] == slices;
    HandleOf(ready, w.statement.sql);
    forall r | r in Sent(w, after) && r.ExecuteRows?
      ensures r.update == update && r.handle == handle
    {
      RequestsRun(handle, slices[..n], update, r);
    }
  }

  lemma HandleOf(w: World, sql: Option<string>)
    requires HandleFits(w) && w.statement.prepared.Some? && w.statement.sql == sql
    ensures var handle := w.statement.prepared.value.id; handle < |w.server.prepared| && sql == Some(w.server.prepared[handle])
  {
  }

  lemma RequestsRun(handle: nat, slices: seq<seq<Row>>, update: bool, r: Request)
    ensures r in Requests(handle, slices, update) ==> r.ExecuteRows? && r.handle == handle && r.update == update
  {
  }

  // ---------------------------------------------------------------------------------------------
  // A bound batch is used at most once
  // ---------------------------------------------------------------------------------------------

  predicate Binds(op: Op) { op.DoBind? || op.DoBindStream? }

  predicate UsesBatch(r: Request) { r.ExecuteRows? || r.Import? }

  predicate UsesNoBatch(requests: seq<Request>) { forall r :: r in requests ==> !UsesBatch(r) }

  lemma {:induction false} RunAllUsesNoBatch(w: World, statements: seq<string>, outcomes: Outcomes)
    ensures var after := RunAll(w, statements, outcomes).0;
            w.server.log <= after.server.log && UsesNoBatch(Sent(w, after))
    decreases |statements|
  {
    if statements != [] {
      RunAllUsesNoBatch(RunText(w, statements[0], true, outcomes).0, statements[1..], outcomes);
    }
  }

  /** Without a bound batch no operation uses one, and only binding supplies one. */
  lemma WithoutBatch(w: World, op: Op, driver: Driver)
    requires w.statement.bound.None? && !Binds(op)
    ensures var after := Do(w, op, driver).0;
            after.statement.bound.None? && w.server.log <= after.server.log && UsesNoBatch(Sent(w, after))
  {
    hide ExecuteBound;
  }

  /** An operation that uses the bound batch had one and leaves none. */
  lemma UsingTakesTheBatch(w: World, op: Op, driver: Driver)
    requires HandleFits(w) && !UsesNoBatch(Sent(w, Do(w, op, driver).0))
    ensures op.DoExecute? && w.statement.bound.Some? && Do(w, op, driver).0.statement.bound.None?
  {
    if w.statement.bound.None? && !Binds(op) {
      WithoutBatch(w, op, driver);
    } else if op.DoExecute? && !IsBulkIngest(w.statement) && w.statement.sql.Some? {
      hide ExecuteBound;
      var s := w.statement;
      ExecuteBoundFits(w.(statement := s.(bound := None)), s.bound.value, op.update, driver.convert, driver.outcomes);
    } else if op.DoExecute? {
      hide BulkIngest;
      BulkIngestTakes(w, driver.mapping, driver.outcomes);
    }
  }

  lemma BulkIngestTakes(w: World, mapping: TypeMapping, outcomes: Outcomes)
    ensures var after := BulkIngest(w, mapping, outcomes).0; after == w || after.statement.bound.None?
  {
    hide RunAll;
    var s := w.statement;
    if IngestRefusal(s.options).None? && s.bound.Some? && mapping(s.bound.value).Ok? {
      RunAllPreparesNothing(w.(statement := s.(bound := None)), IngestTexts(s.options, mapping(s.bound.value).value), outcomes);
    }
  }

  /** Once used, a bound batch is gone: until the next bind nothing that uses a batch is sent. */
  lemma {:induction false} BatchIsUsedAtMostOnce(w: World, ops: seq<Op>, driver: Driver)
    requires w.statement.bound.None? && forall op :: op in ops ==> !Binds(op)
    ensures var after := Run(w, ops, driver);
            after.statement.bound.None? && w.server.log <= after.server.log && UsesNoBatch(Sent(w, after))
  {
    hide Do;
    if ops != [] {
      var before, op := Run(w, ops[..|ops| - 1], driver), ops[|ops| - 1];
      BatchIsUsedAtMostOnce(w, ops[..|ops| - 1], driver);
      WithoutBatch(before, op, driver);
      var after := Do(before, op, driver).0;
      assert Sent(w, after) == Sent(w, before) + Sent(before, after);
    }
  }

  // ---------------------------------------------------------------------------------------------
  // What a bulk ingest sends
  // ---------------------------------------------------------------------------------------------

  function TextRequests(texts: seq<string>): seq<Request> {
    seq(|texts|, i requires 0 <= i < |texts| => RunSql(texts[i], true))
  }

  /** A call that reports success was sent. */
  ghost predicate SuccessIsSent(outcomes: Outcomes) { forall n: nat :: outcomes(n).failure.None? ==> outcomes(n).sent }

  lemma TextIsSent(w: World, text: string, outcomes: Outcomes)
    requires w.statement.connected && SuccessIsSent(outcomes)
    ensures var (next, ran) := RunText(w, text, true, outcomes);
            w.server.log <= next.server.log && next.statement == w.statement && Sent(w, next) <= [RunSql(text, true)] &&
            (ran.Ok? ==> Sent(w, next) == [RunSql(text, true)])
  {
  }

  lemma SentInTwoSteps(w: World, next: World, after: World, first: Request, rest: seq<Request>)
    requires w.server.log <= next.server.log <= after.server.log
    requires Sent(w, next) == [first] && Sent(next, after) <= rest
    ensures Sent(w, after) <= [first] + rest && (Sent(next, after) == rest ==> Sent(w, after) == [first] + rest)
  {
    assert Sent(w, after) == Sent(w, next) + Sent(next, after);
  }

  lemma TextRequestsCons(texts: seq<string>)
    requires texts != []
    ensures TextRequests(texts) == [RunSql(texts[0], true)] + TextRequests(texts[1..])
  {
  }

  lemma {:induction false} RunAllSends(w: World, texts: seq<string>, outcomes: Outcomes)
    requires w.statement.connected && SuccessIsSent(outcomes)
    ensures var (after, ran) := RunAll(w, texts, outcomes);
            w.server.log <= after.server.log && Sent(w, after) <= TextRequests(texts) &&
            (ran.Ok? ==> Sent(w, after) == TextRequests(texts))
    decreases |texts|
  {
    hide RunText, SuccessIsSent, TextRequests;
    if texts == [] {
      assert TextRequests(texts) == [] by { NoTexts(); }
    } else {
      var (next, ran) := RunText(w, texts[0], true, outcomes);
      TextIsSent(w, texts[0], outcomes);
      TextRequestsCons(texts);
      if ran.Ok? {
        RunAllSends(next, texts[1..], outcomes);
        SentInTwoSteps(w, next, RunAll(next, texts[1..], outcomes).0, RunSql(texts[0], true), TextRequests(texts[1..]));
      }
    }
  }

  lemma NoTexts() ensures TextRequests([]) == [] {}

  /** An ingest sends, in order, a prefix of its mode's statements for the caller's table and the
      batch's columns, then the import of the whole batch; all of it when it reports success, which it
      does only for an accepted catalog. It spends the batch as soon as the options are accepted. */
  lemma BulkIngestSends(w: World, mapping: TypeMapping, outcomes: Outcomes)
    requires SuccessIsSent(outcomes) && IngestRefusal(w.statement.options).None? && w.statement.bound.Some?
    ensures var (after, result) := BulkIngest(w, mapping, outcomes);
            var (s, batch) := (w.statement, w.statement.bound.value);
            after.statement == s.(bound := None) && w.server.log <= after.server.log &&
            (result.Ok? ==> CatalogAccepted(s.options) && mapping(batch).Ok? && s.connected) &&
            if CatalogAccepted(s.options) && mapping(batch).Ok? && s.connected then
              var all := TextRequests(IngestTexts(s.options, mapping(batch).value)) + [Import(IngestName(s.options), batch)];
              Sent(w, after) <= all && (result.Ok? ==> Sent(w, after) == all)
            else result.Err? && after.server == w.server
  {
    hide IngestRefusal, IngestName, IngestTexts, CatalogAccepted, RunAll;
    var s, batch := w.statement, w.statement.bound.value;
    if CatalogAccepted(s.options) && mapping(batch).Ok? && s.connected {
      var taken, texts := w.(statement := s.(bound := None)), IngestTexts(s.options, mapping(batch).value);
      RunAllSends(taken, texts, outcomes);
      RunAllPreparesNothing(taken, texts, outcomes);
      var (ready, ran) := RunAll(taken, texts, outcomes);
      assert Sent(taken, ready) == Sent(w, ready);
      if ran.Ok? {
        var after := BulkIngest(w, mapping, outcomes).0;
        assert Sent(w, after) == Sent(w, ready) || Sent(w, after) == Sent(w, ready) + [Import(IngestName(s.options), batch)];
      }
    }
  }

  // ---------------------------------------------------------------------------------------------
  // What an execution answers
  // ---------------------------------------------------------------------------------------------

  /** What the caller gets of a count and batches. */
  predicate Answers(result: Result<Value, Failure>, update: bool, affected: int, batches: seq<string>) {
    result == Ok(if update then Affected(affected) else Batches(batches))
  }

  /** The SQL runs as it is when nothing is bound; a refusal is passed on, and an answer is the server's
      count or batches. */
  lemma PlainExecutionAnswers(w: World, update: bool, driver: Driver)
    requires "adbc.ingest.target_table" !in w.statement.options && w.statement.bound.None?
    ensures var (after, result) := Execute(w, update, driver);
            if w.statement.sql.None? || !w.statement.connected then after == w && result.Err? && result.error.InvalidState?
            else
              var reply := driver.outcomes(w.server.calls);
              after.statement == w.statement && after.server.calls == w.server.calls + 1 &&
              after.server.log == w.server.log + (if reply.sent then [RunSql(w.statement.sql.value, update)] else []) &&
              match reply.failure
              case Some(message) => result == Err(Refused(message))
              case None => Answers(result, update, reply.affected, reply.batches)
  {
  }

  /** A bound execution spends its batch. When it succeeds it answers the sum of the counts of its
      executions, or their batches one after the other; with no rows it answers nothing. */
  lemma BoundExecutionAnswers(w: World, update: bool, driver: Driver)
    requires "adbc.ingest.target_table" !in w.statement.options && w.statement.bound.Some? && w.statement.sql.Some?
    ensures var (after, result) := Execute(w, update, driver);
            after.statement.bound.None? &&
            (result.Ok? ==>
               var rows := BoundRows(w.statement.bound.value, driver.convert);
               rows.Ok? && after.statement.prepared.Some? &&
               if rows.value == [] then Answers(result, update, 0, [])
               else
                 var n := |Executions(rows.value, after.statement.prepared.value.returnsRows)|;
                 var first := w.server.calls + if w.statement.prepared.Some? then 0 else 1;
                 Answers(result, update, TotalAffected(driver.outcomes, first, n), AllBatches(driver.outcomes, first, n)))
  {
    hide BoundRows, Executions, SendAll, TotalAffected, AllBatches;
    var taken := w.(statement := w.statement.(bound := None));
    var (ready, prepared) := EnsurePrepared(taken, driver.outcomes);
    var rows := BoundRows(w.statement.bound.value, driver.convert);
    if prepared.Ok? && rows.Ok? && rows.value != [] {
      var handle := ready.statement.prepared.value;
      var slices := Executions(rows.value, handle.returnsRows);
      if SendAll(ready.server, handle.id, slices, update, driver.outcomes).1.Ok? {
        SendAllTotals(ready.server, handle.id, slices, update, driver.outcomes);
      }
    }
  }

  /** With a target table an execution is an ingest, whatever else the statement holds: it runs no SQL
      of the statement's own. It answers the imported rows, or no batch when rows were asked for. */
  lemma IngestAnswers(w: World, update: bool, driver: Driver)
    requires "adbc.ingest.target_table" in w.statement.options
    ensures var (after, result) := Execute(w, update, driver);
            after.server.prepared == w.server.prepared && after.statement.sql == w.statement.sql &&
            (result.Ok? ==>
               after.server.calls > w.server.calls &&
               Answers(result, update, driver.outcomes(after.server.calls - 1).affected, []))
  {
    hide RunAll, IngestTexts, IngestName, IngestRefusal, CatalogAccepted;
    var s := w.statement;
    if IngestRefusal(s.options).None? && s.bound.Some? && driver.mapping(s.bound.value).Ok? {
      var taken, texts := w.(statement := s.(bound := None)), IngestTexts(s.options, driver.mapping(s.bound.value).value);
      RunAllPreparesNothing(taken, texts, driver.outcomes);
      RunAllCalls(taken, texts, driver.outcomes);
    }
  }

  lemma {:induction false} RunAllCalls(w: World, statements: seq<string>, outcomes: Outcomes)
    ensures RunAll(w, statements, outcomes).0.server.calls >= w.server.calls
    decreases |statements|
  {
    if statements != [] {
      var (next, ran) := RunText(w, statements[0], true, outcomes);
      if ran.Ok? { RunAllCalls(next, statements[1..], outcomes); }
    }
  }

  // ---------------------------------------------------------------------------------------------
  // What the ingest options ask for
  // ---------------------------------------------------------------------------------------------

  /** The text that an option was set to. */
  predicate IsText(options: map<string, OptionValue>, key: string, text: string) {
    key in options && options[key] == TextOption(text)
  }

  predicate HasText(options: map<string, OptionValue>, key: string) { key in options && options[key].TextOption? }

  /** The options are refused in this order: no table, a temporary table, an unknown mode. A mode that
      is missing or no text is not unknown. */
  lemma IngestRefusalIsExact(options: map<string, OptionValue>)
    ensures var r := IngestRefusal(options);
            if !HasText(options, "adbc.ingest.target_table") then r.Some? && r.value.InvalidState?
            else if IsText(options, "adbc.ingest.temporary", "true") then r == Some(NotImplemented)
            else if HasText(options, "adbc.ingest.mode") &&
                    options["adbc.ingest.mode"].text !in
                      {"adbc.ingest.mode.create", "adbc.ingest.mode.append", "adbc.ingest.mode.create_append", "adbc.ingest.mode.replace"} then
              r == Some(InvalidArguments)
            else r.None?
  {
  }

  /** A catalog is accepted when none is given or it is the word EXA, in letters of either case. */
  lemma CatalogIsExact(options: map<string, OptionValue>)
    ensures CatalogAccepted(options) <==>
              ("adbc.ingest.target_catalog" in options ==>
                 options["adbc.ingest.target_catalog"].TextOption? &&
                 var name := options["adbc.ingest.target_catalog"].text;
                 |name| == 3 && name[0] in "Ee" && name[1] in "Xx" && name[2] in "Aa")
  {
    if "adbc.ingest.target_catalog" in options && options["adbc.ingest.target_catalog"].TextOption? {
      SameWord(options["adbc.ingest.target_catalog"].text);
    }
  }

  lemma SameWord(name: string)
    ensures EqualIgnoringCase(name, "EXA") <==> |name| == 3 && name[0] in "Ee" && name[1] in "Xx" && name[2] in "Aa"
  {
    hide AsciiLower;
    if |name| == 3 {
      SameLetters(name[0], 'E', 'e');
      SameLetters(name[1], 'X', 'x');
      SameLetters(name[2], 'A', 'a');
      assert [name[0], name[1], name[2]] == name;
    }
  }

  lemma SameLetters(c: char, upper: char, lower: char)
    requires 'A' <= upper <= 'Z' && lower == (upper as int + 32) as char
    ensures AsciiLower(c) == AsciiLower(upper) <==> c in [upper, lower]
  {
  }

  predicate HasMode(options: map<string, OptionValue>, mode: string) { IsText(options, "adbc.ingest.mode", mode) }

  /** The statements before the import, as the server reads them: a table of the caller's name and
      columns is created by `create` and `replace`, and by `create_append` under the names that its
      textual replacement leaves; `replace` alone drops it first; `append`, or no mode, creates nothing. */
  lemma IngestIsRead(options: map<string, OptionValue>, fields: seq<SqlClauses.Field>)
    requires IngestRefusal(options).None? && SqlClauses.TypesHaveNoQuote(fields)
    ensures var texts := IngestTexts(options, fields);
            var schema := if HasText(options, "adbc.ingest.target_db_schema") then Some(options["adbc.ingest.target_db_schema"].text) else None;
            var name := SqlText.NamePieces(schema, options["adbc.ingest.target_table"].text);
            SqlText.Lex(IngestName(options)) == Some(SqlText.Tokens(name)) &&
            var created := Some(SqlText.Tokens(SqlClauses.CreateTablePieces(name, fields)));
            if HasMode(options, "adbc.ingest.mode.create") then |texts| == 1 && SqlText.Lex(texts[0]) == created
            else if HasMode(options, "adbc.ingest.mode.replace") then
              |texts| == 2 && SqlText.Lex(texts[1]) == created &&
              SqlText.Lex(texts[0]) == Some(SqlText.Tokens([SqlText.Fixed("DROP TABLE IF EXISTS ")] + name))
            else if HasMode(options, "adbc.ingest.mode.create_append") then
              |texts| == 1 && SqlText.Lex(texts[0]) ==
                Some(SqlText.Tokens(CreateAppend.CreateIfAbsentPieces(CreateAppend.Renamed(name), CreateAppend.RenamedFields(fields))))
            else texts == []
  {
    hide SqlText.Lex, SqlText.Tokens, SqlText.NamePieces;
    hide SqlText.QualifiedTableName, SqlClauses.CreateTable, SqlClauses.CreateTablePieces;
    hide SqlClauses.WithIfAbsent, SqlClauses.TypesHaveNoQuote;
    hide CreateAppend.CreateIfAbsentPieces, CreateAppend.Renamed, CreateAppend.RenamedFields;
    var schema := if HasText(options, "adbc.ingest.target_db_schema") then Some(options["adbc.ingest.target_db_schema"].text) else None;
    var table := options["adbc.ingest.target_table"].text;
    assert schema == TextOf(options, INGEST_SCHEMA) && Some(table) == TextOf(options, INGEST_TARGET_TABLE);
    SqlText.QualifiedNameIsRead(schema, table);
    SqlClauses.CreateTableIsRead(schema, table, fields);
    SqlClauses.ReplaceDropsWhatItCreates(schema, table, fields);
    CreateAppend.CreateAppendIsRead(schema, table, fields);
  }
}
