/** Reading CSV lines in batches (src/export/arrow.rs:199-470, 761-796). How one line splits into
    fields and how one non-null field becomes a cell are parameters. */
module CsvReader {
  import opened Text

  type Row = seq<string>

  /** Columns of cells. */
  type Batch = seq<seq<Option<string>>>

  datatype ExportError =
    | IoError(message: string)
    | CsvParseError(row: nat)
    | TypeConversionError(row: nat, column: nat, message: string)
    | SchemaError(column: nat)

  /** `Utf8` takes any text, even where nothing may be null. */
  datatype FieldType = Utf8 | Typed(name: string) | Unsupported

  datatype Field = Field(fieldType: FieldType, nullable: bool)

  /** What reads a line, and what else a reader depends on. The flag of `parse` tells of an open quote. */
  datatype Options = Options(
    schema: seq<Field>, batchSize: nat, nullValue: Option<string>,
    parse: string -> (Row, bool), convert: (string, string) -> Result<string, string>)

  // ---------------------------------------------------------------------------------------------
  // Building a batch
  // ---------------------------------------------------------------------------------------------

  predicate IsNull(value: string, nullValue: Option<string>) { value == "" || nullValue == Some(value) }

  function ConvertValue(value: string, field: Field, o: Options): Result<Option<string>, string> {
    if IsNull(value, o.nullValue) then
      if field.nullable then Ok(None)
      else if field.fieldType.Utf8? then Ok(Some(""))
      else Err("NULL value in non-nullable column")
    else
      match field.fieldType
      case Utf8 => Ok(Some(value))
      case Typed(name) =>
        var cell := o.convert(name, value);
        if cell.Err? then Err(cell.error) else Ok(Some(cell.value))
      case Unsupported => Err("unsupported")
  }

  function ConvertColumn(values: seq<string>, field: Field, o: Options, start: nat, column: nat)
    : Result<seq<Option<string>>, ExportError>
  {
    if values == [] then Ok([])
    else
      var n := |values| - 1;
      var before := ConvertColumn(values[..n], field, o, start, column);
      if before.Err? then before
      else
        var cell := ConvertValue(values[n], field, o);
        if cell.Err? then Err(TypeConversionError(start + n, column, cell.error)) else Ok(before.value + [cell.value])
  }

  function BuildArray(values: seq<string>, field: Field, o: Options, start: nat, column: nat)
    : Result<seq<Option<string>>, ExportError>
  {
    if field.fieldType.Unsupported? then Err(SchemaError(column)) else ConvertColumn(values, field, o, start, column)
  }

  method BuildArrayFromStrings(values: seq<string>, field: Field, o: Options, start: nat, column: nat)
    returns (r: Result<seq<Option<string>>, ExportError>)
    ensures r == BuildArray(values, field, o, start, column)
  {
    if field.fieldType.Unsupported? {
      return Err(SchemaError(column));
    }
    var builder: seq<Option<string>> := [];
    assert values[..|values|] == values;
    for i := 0 to |values|
      invariant ConvertColumn(values[..i], field, o, start, column) == Ok(builder)
    {
      assert values[..i + 1][..i] == values[..i];
      var cell := ConvertValue(values[i], field, o);
      if cell.Err? {
        FirstBadValueStops(values, field, o, start, column, i);
        return Err(TypeConversionError(start + i, column, cell.error));
      }
      builder := builder + [cell.value];
    }
    r := Ok(builder);
  }

  lemma {:induction false} FirstBadValueStops(values: seq<string>, field: Field, o: Options, start: nat, column: nat, i: nat)
    requires i < |values| && ConvertColumn(values[..i], field, o, start, column).Ok? && ConvertValue(values[i], field, o).Err?
    ensures ConvertColumn(values, field, o, start, column)
            == Err(TypeConversionError(start + i, column, ConvertValue(values[i], field, o).error))
  {
    hide ConvertValue;
    var n := |values| - 1;
    if i < n {
      assert values[..n][..i] == values[..i];
      FirstBadValueStops(values[..n], field, o, start, column, i);
    }
  }

  /** Column `c`, with an empty field where a row is too short. */
  function ColumnValues(rows: seq<Row>, c: nat): seq<string> {
    seq(|rows|, r requires 0 <= r < |rows| => if c < |rows[r]| then rows[r][c] else "")
  }

  /** The arrays of the first `n` columns. */
  function BuildColumns(rows: seq<Row>, o: Options, start: nat, n: nat): Result<Batch, ExportError>
    requires n <= |o.schema|
  {
    if n == 0 then Ok([])
    else
      var before := BuildColumns(rows, o, start, n - 1);
      if before.Err? then before
      else
        var column := BuildArray(ColumnValues(rows, n - 1), o.schema[n - 1], o, start, n - 1);
        if column.Err? then Err(column.error) else Ok(before.value + [column.value])
  }

  function Build(rows: seq<Row>, o: Options, start: nat): Result<Batch, ExportError> {
    BuildColumns(rows, o, start, |o.schema|)
  }

  /** `row` is the first of a column whose value does not convert. */
  predicate IsFirstBadValue(values: seq<string>, field: Field, o: Options, row: int, message: string) {
    0 <= row < |values| && ConvertValue(values[row], field, o) == Err(message) &&
    forall i :: 0 <= i < row ==> ConvertValue(values[i], field, o).Ok?
  }

  lemma {:induction false} ColumnIsExact(values: seq<string>, field: Field, o: Options, start: nat, column: nat)
    ensures match ConvertColumn(values, field, o, start, column)
            case Ok(cells) =>
              |cells| == |values| && forall i :: 0 <= i < |values| ==> ConvertValue(values[i], field, o) == Ok(cells[i])
            case Err(e) =>
              e.TypeConversionError? && e.column == column && IsFirstBadValue(values, field, o, e.row - start, e.message)
  {
    hide ConvertValue;
    if values != [] { ColumnIsExact(values[..|values| - 1], field, o, start, column); }
  }

  /** A conversion error is in the first column that fails, at its first failing row, counted from
      `start`. */
  lemma {:induction false} BuildErrorIsFirst(rows: seq<Row>, o: Options, start: nat, n: nat)
    requires n <= |o.schema| && BuildColumns(rows, o, start, n).Err?
    ensures var e := BuildColumns(rows, o, start, n).error;
            (e.TypeConversionError? || e.SchemaError?) && e.column < n &&
            (forall c :: 0 <= c < e.column ==> BuildArray(ColumnValues(rows, c), o.schema[c], o, start, c).Ok?) &&
            (e.SchemaError? ==> o.schema[e.column].fieldType.Unsupported?) &&
            (e.TypeConversionError? ==>
               IsFirstBadValue(ColumnValues(rows, e.column), o.schema[e.column], o, e.row - start, e.message))
  {
    hide ConvertColumn, IsFirstBadValue, ColumnValues;
    if BuildColumns(rows, o, start, n - 1).Err? {
      BuildErrorIsFirst(rows, o, start, n - 1);
    } else {
      ColumnIsExact(ColumnValues(rows, n - 1), o.schema[n - 1], o, start, n - 1);
      ColumnsBefore(rows, o, start, n - 1);
    }
  }

  lemma {:induction false} ColumnsBefore(rows: seq<Row>, o: Options, start: nat, n: nat)
    requires n <= |o.schema| && BuildColumns(rows, o, start, n).Ok?
    ensures forall c :: 0 <= c < n ==> BuildArray(ColumnValues(rows, c), o.schema[c], o, start, c).Ok?
  {
    hide BuildArray, ColumnValues;
    if n > 0 { ColumnsBefore(rows, o, start, n - 1); }
  }

  /** A field counts as null when it is empty or is the null marker. Text that may not be null is
      empty instead; other types refuse it. Everything else is the field's own text, or its conversion. */
  lemma ValueIsExact(value: string, field: Field, o: Options)
    ensures var r, absent := ConvertValue(value, field, o), value == "" || o.nullValue == Some(value);
            if absent && field.nullable then r == Ok(None)
            else if field.fieldType == Utf8 then r == Ok(Some(if absent then "" else value))
            else if absent || field.fieldType == Unsupported then r.Err?
            else
              match o.convert(field.fieldType.name, value)
              case Ok(cell) => r == Ok(Some(cell))
              case Err(message) => r == Err(message)
  {
  }

  /** A batch has a column for every field of the schema and a cell for every row: the reading of the
      row's field, or of no text where the row is too short. */
  lemma CellIsRead(rows: seq<Row>, o: Options, start: nat, r: nat, c: nat)
    requires Build(rows, o, start).Ok? && c < |o.schema| && r < |rows|
    ensures var batch := Build(rows, o, start).value;
            |batch| == |o.schema| && |batch[c]| == |rows| &&
            var text, field, cell := (if c < |rows[r]| then rows[r][c] else ""), o.schema[c], batch[c][r];
            var absent := text == "" || o.nullValue == Some(text);
            (cell.None? <==> absent && field.nullable) && (absent && !field.nullable ==> field.fieldType.Utf8?) &&
            (cell.Some? && field.fieldType.Utf8? ==> cell.value == if absent then "" else text) &&
            (field.fieldType.Typed? && !absent ==> o.convert(field.fieldType.name, text) == Ok(cell.value))
  {
    hide ConvertValue, ConvertColumn, IsNull;
    ColumnsAreBuilt(rows, o, start, |o.schema|, c);
    ColumnIsExact(ColumnValues(rows, c), o.schema[c], o, start, c);
    ValueIsExact(ColumnValues(rows, c)[r], o.schema[c], o);
  }

  lemma {:induction false} ColumnsAreBuilt(rows: seq<Row>, o: Options, start: nat, n: nat, c: nat)
    requires c < n <= |o.schema| && BuildColumns(rows, o, start, n).Ok?
    ensures var batch := BuildColumns(rows, o, start, n).value;
            |batch| == n && BuildArray(ColumnValues(rows, c), o.schema[c], o, start, c) == Ok(batch[c])
  {
    hide BuildArray, ColumnValues;
    if c < n - 1 {
      ColumnsAreBuilt(rows, o, start, n - 1, c);
    } else if n > 1 {
      ColumnsAreBuilt(rows, o, start, n - 1, 0);
    }
  }

  /** Where counting starts changes no batch, only the rows that errors name. */
  lemma {:induction false} StartOnlyShiftsErrors(rows: seq<Row>, o: Options, start: nat, other: nat, n: nat)
    requires n <= |o.schema|
    ensures BuildColumns(rows, o, start, n).Ok? <==> BuildColumns(rows, o, other, n).Ok?
    ensures BuildColumns(rows, o, start, n).Ok? ==> BuildColumns(rows, o, start, n) == BuildColumns(rows, o, other, n)
  {
    hide ConvertColumn, ColumnValues;
    if n > 0 {
      StartOnlyShiftsErrors(rows, o, start, other, n - 1);
      StartShiftsColumn(ColumnValues(rows, n - 1), o.schema[n - 1], o, start, other, n - 1);
    }
  }

  lemma {:induction false} StartShiftsColumn(values: seq<string>, field: Field, o: Options, start: nat, other: nat, column: nat)
    ensures ConvertColumn(values, field, o, start, column).Ok? <==> ConvertColumn(values, field, o, other, column).Ok?
    ensures ConvertColumn(values, field, o, start, column).Ok? ==>
              ConvertColumn(values, field, o, start, column) == ConvertColumn(values, field, o, other, column)
  {
    hide ConvertValue;
    if values != [] { StartShiftsColumn(values[..|values| - 1], field, o, start, other, column); }
  }

  // ---------------------------------------------------------------------------------------------
  // Reading lines
  // ---------------------------------------------------------------------------------------------

  /** A line as it is read, with its line break, or a failure to read one. */
  type Line = Result<string, string>

  function TrimBreaks(s: string): string {
    if s != "" && (s[|s| - 1] == '\r' || s[|s| - 1] == '\n') then TrimBreaks(s[..|s| - 1]) else s
  }

  predicate IsBlank(line: Line) { line.Ok? && TrimBreaks(line.value) == "" }

  /** What up to `limit` reads yield, when `row` rows were read before. */
  datatype Reading = Reading(rows: seq<Row>, consumed: nat, ended: bool, error: Option<ExportError>)

  function After(first: seq<Row>, r: Reading): Reading { Reading(first + r.rows, r.consumed + 1, r.ended, r.error) }

  function Read(lines: seq<Line>, limit: nat, row: nat, o: Options): (r: Reading)
    ensures r.consumed <= |lines| && r.consumed <= limit && |r.rows| <= r.consumed
    decreases limit
  {
    if limit == 0 then Reading([], 0, false, None)
    else if lines == [] then Reading([], 0, true, None)
    else if lines[0].Err? then Reading([], 1, false, Some(IoError(lines[0].error)))
    else
      var text := TrimBreaks(lines[0].value);
      if text == "" then After([], Read(lines[1..], limit - 1, row, o))
      else
        var (fields, inQuotes) := o.parse(text);
        if inQuotes then Reading([], 1, false, Some(CsvParseError(row)))
        else After([fields], Read(lines[1..], limit - 1, row + 1, o))
  }

  datatype State = State(input: seq<Line>, currentRow: nat, finished: bool)

  type Answer = Result<Option<Batch>, ExportError>

  function Next(s: State, o: Options): (r: (State, Answer))
    ensures |r.0.input| <= |s.input|
  {
    if s.finished then (s, Ok(None))
    else
      var reading := Read(s.input, o.batchSize, s.currentRow, o);
      var next := State(s.input[reading.consumed..], s.currentRow + |reading.rows|, reading.ended);
      if reading.error.Some? then (next, Err(reading.error.value))
      else if reading.rows == [] then (next, Ok(None))
      else
        var batch := Build(reading.rows, o, s.currentRow);
        (next, if batch.Err? then Err(batch.error) else Ok(Some(batch.value)))
  }

  class CsvToArrowReader {
    var input: seq<Line>
    var currentRow: nat
    var finished: bool
    const options: Options

    constructor (input: seq<Line>, options: Options)
      ensures View() == State(input, 0, false) && this.options == options
    {
      this.input, currentRow, finished := input, 0, false;
      this.options := options;
    }

    function View(): State
      reads this
    {
      State(input, currentRow, finished)
    }

    method NextBatch() returns (answer: Answer)
      modifies this
      ensures (View(), answer) == Next(old(View()), options)
    {
      hide Build, TrimBreaks, Read, Continues;
      if finished {
        return Ok(None);
      }
      var rows: seq<Row> := [];
      ghost var whole, start, consumed := Read(input, options.batchSize, currentRow, options), View(), 0;
      NothingReadYet(whole);
      for count := 0 to options.batchSize
        invariant !finished && currentRow == start.currentRow + |rows|
        invariant consumed <= |start.input| && input == start.input[consumed..]
        invariant Continues(whole, rows, consumed, Read(input, options.batchSize - count, currentRow, options))
      {
        if input == [] {
          ReadToTheEnd(whole, rows, consumed, input, options.batchSize - count, currentRow, options);
          finished := true;
          break;
        }
        var line := input[0];
        ReadOn(whole, rows, consumed, input, options.batchSize - count, currentRow, options);
        assert start.input[consumed..][1..] == start.input[consumed + 1..];
        input, consumed := input[1..], consumed + 1;
        if line.Err? {
          return Err(IoError(line.error));
        }
        var text := TrimBreaks(line.value);
        if text == "" {
          continue;
        }
        var (fields, inQuotes) := options.parse(text);
        if inQuotes {
          return Err(CsvParseError(currentRow));
        }
        rows := rows + [fields];
        currentRow := currentRow + 1;
      }
      if !finished {
        ReadToTheEnd(whole, rows, consumed, input, 0, currentRow, options);
      }
      assert whole == Reading(rows, consumed, finished, None);
      if rows == [] {
        return Ok(None);
      }
      var batch := Build(rows, options, currentRow - |rows|);
      answer := if batch.Err? then Err(batch.error) else Ok(Some(batch.value));
    }
  }

  /** Reading on completes what reading everything yields. */
  predicate Continues(whole: Reading, rows: seq<Row>, consumed: nat, rest: Reading) {
    whole == Reading(rows + rest.rows, consumed + rest.consumed, rest.ended, rest.error)
  }

  lemma NothingReadYet(whole: Reading)
    ensures Continues(whole, [], 0, whole)
  {
    assert [] + whole.rows == whole.rows;
  }

  lemma ReadToTheEnd(whole: Reading, rows: seq<Row>, consumed: nat, lines: seq<Line>, limit: nat, row: nat, o: Options)
    requires (lines == [] || limit == 0) && Continues(whole, rows, consumed, Read(lines, limit, row, o))
    ensures whole == Reading(rows, consumed, limit > 0, None)
  {
    assert rows + [] == rows;
  }

  lemma ReadOn(whole: Reading, rows: seq<Row>, consumed: nat, lines: seq<Line>, limit: nat, row: nat, o: Options)
    requires lines != [] && limit > 0 && Continues(whole, rows, consumed, Read(lines, limit, row, o))
    ensures var line := lines[0];
            if line.Err? then whole == Reading(rows, consumed + 1, false, Some(IoError(line.error)))
            else if TrimBreaks(line.value) == "" then Continues(whole, rows, consumed + 1, Read(lines[1..], limit - 1, row, o))
            else
              var (fields, inQuotes) := o.parse(TrimBreaks(line.value));
              if inQuotes then whole == Reading(rows, consumed + 1, false, Some(CsvParseError(row)))
              else Continues(whole, rows + [fields], consumed + 1, Read(lines[1..], limit - 1, row + 1, o))
  {
    hide TrimBreaks;
    var line := lines[0];
    assert rows + [] == rows;
    if line.Ok? {
      var text := TrimBreaks(line.value);
      if text == "" {
        var rest := Read(lines[1..], limit - 1, row, o);
        assert rows + ([] + rest.rows) == rows + rest.rows;
      } else {
        var rest := Read(lines[1..], limit - 1, row + 1, o);
        var fields := o.parse(text).0;
        assert rows + ([fields] + rest.rows) == rows + [fields] + rest.rows;
      }
    }
  }

  // ---------------------------------------------------------------------------------------------
  // Conservation over calls
  // ---------------------------------------------------------------------------------------------

  /** The row on a line that reads and is not blank. */
  function RowOf(line: Line, o: Options): seq<Row> {
    if line.Err? || IsBlank(line) then [] else [o.parse(TrimBreaks(line.value)).0]
  }

  /** The rows on lines that read and close their quotes; blank lines carry none. */
  function ParsedRows(lines: seq<Line>, o: Options): seq<Row> {
    if lines == [] then []
    else RowOf(lines[0], o) + ParsedRows(lines[1..], o)
  }

  lemma ParsedCons(line: Line, rest: seq<Line>, o: Options)
    ensures ParsedRows([line] + rest, o) == RowOf(line, o) + ParsedRows(rest, o)
  {
    hide RowOf;
    assert ([line] + rest)[1..] == rest;
  }

  lemma {:induction false} ParsedRowsJoined(a: seq<Line>, b: seq<Line>, o: Options)
    ensures ParsedRows(a + b, o) == ParsedRows(a, o) + ParsedRows(b, o)
  {
    if a == [] {
      assert a + b == b;
    } else {
      hide ParsedRows, RowOf;
      ParsedRowsJoined(a[1..], b, o);
      ParsedCons(a[0], a[1..] + b, o);
      ParsedCons(a[0], a[1..], o);
      assert a + b == [a[0]] + (a[1..] + b) && a == [a[0]] + a[1..];
      Associative(RowOf(a[0], o), ParsedRows(a[1..], o), ParsedRows(b, o));
    }
  }

  lemma Associative<T>(a: seq<T>, b: seq<T>, c: seq<T>)
    ensures a + (b + c) == a + b + c
  {
  }

  /** What is read is what the consumed lines hold; the last line of a failed read holds nothing
      that is kept. */
  lemma {:induction false} ReadIsExact(lines: seq<Line>, limit: nat, row: nat, o: Options)
    ensures var r := Read(lines, limit, row, o);
            (r.error.None? ==> r.rows == ParsedRows(lines[..r.consumed], o)) &&
            (r.ended ==> r.error.None? && r.consumed == |lines|) && (r.consumed == |lines| && limit > |lines| && r.error.None? ==> r.ended)
    decreases limit
  {
    hide TrimBreaks;
    if limit > 0 && lines != [] && lines[0].Ok? {
      var blank := TrimBreaks(lines[0].value) == "";
      ReadIsExact(lines[1..], limit - 1, if blank then row else row + 1, o);
      var r := Read(lines, limit, row, o);
      if r.error.None? {
        assert lines[..r.consumed][1..] == lines[1..][..r.consumed - 1];
      }
    }
  }

  /** The rows a call reads. */
  function RowsOfCall(s: State, o: Options): seq<Row> {
    if s.finished then [] else Read(s.input, o.batchSize, s.currentRow, o).rows
  }

  /** The state after `n` calls, and the rows each call read. */
  function Calls(s: State, o: Options, n: nat): (r: (State, seq<seq<Row>>))
    ensures |r.1| == n
  {
    if n == 0 then (s, [])
    else
      var (before, chunks) := Calls(s, o, n - 1);
      (Next(before, o).0, chunks + [RowsOfCall(before, o)])
  }

  predicate NoErrors(s: State, o: Options, n: nat) {
    n == 0 || (NoErrors(s, o, n - 1) && Next(Calls(s, o, n - 1).0, o).1.Ok?)
  }

  function Joined(chunks: seq<seq<Row>>): seq<Row> {
    if chunks == [] then [] else Joined(chunks[..|chunks| - 1]) + chunks[|chunks| - 1]
  }

  lemma CallIsExact(s: State, o: Options)
    requires Next(s, o).1.Ok?
    ensures var (next, answer) := Next(s, o);
            var rows := RowsOfCall(s, o);
            var used := |s.input| - |next.input|;
            |rows| <= o.batchSize && next.input == s.input[used..] && rows == ParsedRows(s.input[..used], o) &&
            next.currentRow == s.currentRow + |rows| && (rows == [] <==> answer == Ok(None)) &&
            (rows != [] ==> Build(rows, o, s.currentRow) == Ok(answer.value.value))
  {
    hide Build, Read;
    if !s.finished {
      ReadIsExact(s.input, o.batchSize, s.currentRow, o);
      var reading := Read(s.input, o.batchSize, s.currentRow, o);
      assert |s.input[reading.consumed..]| == |s.input| - reading.consumed;
    } else {
      assert s.input[..0] == [] && s.input[0..] == s.input;
    }
  }

  /** The chunks hold exactly the rows of the lines consumed on the way from `s` to `after`. */
  predicate Conserved(s: State, after: State, chunks: seq<seq<Row>>, o: Options) {
    var used := |s.input| - |after.input|;
    0 <= used && after.input == s.input[used..] && Joined(chunks) == ParsedRows(s.input[..used], o) &&
    after.currentRow == |Joined(chunks)| && forall chunk :: chunk in chunks ==> |chunk| <= o.batchSize
  }

  lemma ConservedStep(s: State, before: State, chunks: seq<seq<Row>>, rows: seq<Row>, next: State, o: Options)
    requires Conserved(s, before, chunks, o) && |rows| <= o.batchSize && |next.input| <= |before.input|
    requires var more := |before.input| - |next.input|;
             next.input == before.input[more..] && rows == ParsedRows(before.input[..more], o)
    requires next.currentRow == before.currentRow + |rows|
    ensures Conserved(s, next, chunks + [rows], o)
  {
    hide ParsedRows;
    var used, more := |s.input| - |before.input|, |before.input| - |next.input|;
    ParsedRowsJoined(s.input[..used], before.input[..more], o);
    assert s.input[..used + more] == s.input[..used] + before.input[..more];
    assert s.input[used..][more..] == s.input[used + more..];
    assert (chunks + [rows])[..|chunks|] == chunks;
  }

  /** Until the first error nothing is lost, added or moved: the calls' rows join to the rows of the
      lines consumed so far, each call has at most `batchSize` of them, and the row counter counts
      them. */
  lemma {:induction false} CallsConserveRows(s: State, o: Options, n: nat)
    requires NoErrors(s, o, n) && s.currentRow == 0
    ensures Conserved(s, Calls(s, o, n).0, Calls(s, o, n).1, o)
  {
    hide Next, RowsOfCall, Conserved;
    if n == 0 {
      NothingConserved(s, o);
    } else {
      CallsConserveRows(s, o, n - 1);
      CallConserves(s, Calls(s, o, n - 1).0, Calls(s, o, n - 1).1, o);
    }
  }

  lemma NothingConserved(s: State, o: Options)
    requires s.currentRow == 0
    ensures Conserved(s, s, [], o)
  {
    hide ParsedRows;
    NothingParsed(s.input, o);
  }

  lemma CallConserves(s: State, before: State, chunks: seq<seq<Row>>, o: Options)
    requires Conserved(s, before, chunks, o) && Next(before, o).1.Ok?
    ensures Conserved(s, Next(before, o).0, chunks + [RowsOfCall(before, o)], o)
  {
    hide Next, RowsOfCall, Conserved, ParsedRows;
    CallIsExact(before, o);
    ConservedStep(s, before, chunks, RowsOfCall(before, o), Next(before, o).0, o);
  }

  lemma NothingParsed(lines: seq<Line>, o: Options)
    ensures ParsedRows(lines[..0], o) == [] && lines[0..] == lines
  {
  }

  lemma CountIsJoined(s: State, after: State, chunks: seq<seq<Row>>, o: Options)
    requires Conserved(s, after, chunks, o)
    ensures after.currentRow == |Joined(chunks)|
  {
  }

  /** What the n-th call answers, in terms of the rows it read and how many were read before. */
  lemma AnswersAreTheirRows(s: State, o: Options, n: nat)
    requires NoErrors(s, o, n + 1) && s.currentRow == 0
    ensures var rows := Calls(s, o, n + 1).1[n];
            var answer := Next(Calls(s, o, n).0, o).1;
            answer.Ok? &&
            if rows == [] then answer.value == None
            else answer.value.Some? && Build(rows, o, |Joined(Calls(s, o, n).1)|) == Ok(answer.value.value)
  {
    hide Next, ParsedRows, Build, RowsOfCall, Conserved, Joined;
    CallsConserveRows(s, o, n);
    var (before, chunks) := Calls(s, o, n);
    CountIsJoined(s, before, chunks, o);
    CallIsExact(before, o);
  }

  lemma CallError(s: State, o: Options)
    requires var answer := Next(s, o).1; answer.Err? && answer.error.TypeConversionError?
    ensures var e := Next(s, o).1.error;
            e.column < |o.schema| &&
            IsFirstBadValue(ColumnValues(RowsOfCall(s, o), e.column), o.schema[e.column], o, e.row - s.currentRow, e.message)
  {
    hide Read, ColumnValues, IsFirstBadValue;
    ReadErrors(s.input, o.batchSize, s.currentRow, o);
    BuildErrorIsFirst(RowsOfCall(s, o), o, s.currentRow, |o.schema|);
  }

  /** A conversion error names the row by its number in the whole input: the rows of the calls before
      plus the first failing row of the first failing column of the rows the call read. */
  lemma ErrorNamesAbsoluteRow(s: State, o: Options, n: nat)
    requires NoErrors(s, o, n) && s.currentRow == 0
    requires var answer := Next(Calls(s, o, n).0, o).1; answer.Err? && answer.error.TypeConversionError?
    ensures var (before, chunks) := Calls(s, o, n);
            var e := Next(before, o).1.error;
            e.column < |o.schema| &&
            IsFirstBadValue(ColumnValues(RowsOfCall(before, o), e.column), o.schema[e.column], o, e.row - |Joined(chunks)|, e.message)
  {
    hide Next, ColumnValues, IsFirstBadValue, RowsOfCall, Conserved, Joined;
    CallsConserveRows(s, o, n);
    var (before, chunks) := Calls(s, o, n);
    CountIsJoined(s, before, chunks, o);
    CallError(before, o);
  }

  lemma {:induction false} ReadErrors(lines: seq<Line>, limit: nat, row: nat, o: Options)
    ensures var e := Read(lines, limit, row, o).error;
            e.Some? ==> e.value.IoError? || e.value.CsvParseError?
    decreases limit
  {
    hide TrimBreaks;
    if limit > 0 && lines != [] && lines[0].Ok? {
      ReadErrors(lines[1..], limit - 1, row, o);
      ReadErrors(lines[1..], limit - 1, row + 1, o);
    }
  }

  // ---------------------------------------------------------------------------------------------
  // When a call answers nothing
  // ---------------------------------------------------------------------------------------------

  predicate AllBlank(lines: seq<Line>) { forall line :: line in lines ==> IsBlank(line) }

  lemma {:induction false} NothingReadIffBlank(lines: seq<Line>, limit: nat, row: nat, o: Options)
    ensures var r := Read(lines, limit, row, o);
            r.rows == [] && r.error.None? <==> AllBlank(lines[..if limit < |lines| then limit else |lines|])
    decreases limit
  {
    hide TrimBreaks;
    var n := if limit < |lines| then limit else |lines|;
    if n > 0 {
      assert lines[..n] == [lines[0]] + lines[1..][..n - 1];
      if IsBlank(lines[0]) {
        NothingReadIffBlank(lines[1..], limit - 1, row, o);
      }
    }
  }

  /** A call answers nothing exactly when the reader has finished or the next `batchSize` lines, or
      what is left of them, are all blank: so it can answer nothing with rows still to come. */
  lemma AnswersNothingIff(s: State, o: Options)
    ensures Next(s, o).1 == Ok(None) <==>
              s.finished || AllBlank(s.input[..if o.batchSize < |s.input| then o.batchSize else |s.input|])
  {
    hide Read, Build;
    NothingReadIffBlank(s.input, o.batchSize, s.currentRow, o);
  }

  // ---------------------------------------------------------------------------------------------
  // Draining
  // ---------------------------------------------------------------------------------------------

  lemma {:induction false} RowsNeedLines(lines: seq<Line>, limit: nat, row: nat, o: Options)
    ensures Read(lines, limit, row, o).rows != [] ==> Read(lines, limit, row, o).consumed > 0
  {
  }

  /** All batches up to the first call that answers nothing. */
  function Drain(s: State, o: Options): Result<seq<Batch>, ExportError>
    decreases |s.input|
  {
    var (next, answer) := Next(s, o);
    if answer.Err? then Err(answer.error)
    else if answer.value.None? then Ok([])
    else
      RowsNeedLines(s.input, o.batchSize, s.currentRow, o);
      var rest := Drain(next, o);
      if rest.Err? then rest else Ok([answer.value.value] + rest.value)
  }

  /** `rows.chunks(size)` */
  function Chunks(rows: seq<Row>, size: nat): seq<seq<Row>>
    requires size > 0
  {
    if rows == [] then []
    else if |rows| <= size then [rows]
    else [rows[..size]] + Chunks(rows[size..], size)
  }

  /** The batches of chunks, built without row numbers. */
  function BuildAll(chunks: seq<seq<Row>>, o: Options): Result<seq<Batch>, ExportError> {
    if chunks == [] then Ok([])
    else
      var first := Build(chunks[0], o, 0);
      if first.Err? then Err(first.error)
      else
        var rest := BuildAll(chunks[1..], o);
        if rest.Err? then rest else Ok([first.value] + rest.value)
  }

  function Prepend(batches: seq<Batch>, r: Result<seq<Batch>, ExportError>): Result<seq<Batch>, ExportError> {
    if r.Err? then r else Ok(batches + r.value)
  }

  lemma PrependNothing(r: Result<seq<Batch>, ExportError>)
    ensures Prepend([], r) == r
  {
    if r.Ok? { assert [] + r.value == r.value; }
  }

  lemma PrependMore(batches: seq<Batch>, batch: Batch, r: Result<seq<Batch>, ExportError>)
    ensures Prepend(batches, Prepend([batch], r)) == Prepend(batches + [batch], r)
  {
    if r.Ok? { Associative(batches, [batch], r.value); }
  }

  method ExportToRecordBatches(rows: seq<Row>, o: Options) returns (r: Result<seq<Batch>, ExportError>)
    requires o.batchSize > 0
    ensures r == BuildAll(Chunks(rows, o.batchSize), o)
  {
    hide Build, Chunks, Prepend;
    var chunks := Chunks(rows, o.batchSize);
    var batches: seq<Batch> := [];
    assert chunks[0..] == chunks;
    PrependNothing(BuildAll(chunks, o));
    for k := 0 to |chunks|
      invariant BuildAll(chunks, o) == Prepend(batches, BuildAll(chunks[k..], o))
    {
      assert chunks[k..][1..] == chunks[k + 1..];
      BuildStep(chunks[k..], o);
      var batch := Build(chunks[k], o, 0);
      if batch.Err? {
        PrependError(batches, batch.error);
        return Err(batch.error);
      }
      PrependMore(batches, batch.value, BuildAll(chunks[k + 1..], o));
      batches := batches + [batch.value];
    }
    r := Ok(batches);
    PrependEmpty(batches);
  }

  lemma BuildStep(chunks: seq<seq<Row>>, o: Options)
    requires chunks != []
    ensures var first := Build(chunks[0], o, 0);
            BuildAll(chunks, o) == if first.Err? then Err(first.error) else Prepend([first.value], BuildAll(chunks[1..], o))
  {
    hide Build;
  }

  lemma PrependError(batches: seq<Batch>, e: ExportError)
    ensures Prepend(batches, Err(e)) == Err(e)
  {
  }

  lemma PrependEmpty(batches: seq<Batch>)
    ensures Prepend(batches, Ok([])) == Ok(batches)
  {
    assert batches + [] == batches;
  }

  /** Every line reads, carries a row, and closes its quotes. */
  predicate IsClean(lines: seq<Line>, o: Options) {
    forall line :: line in lines ==> line.Ok? && !IsBlank(line) && !o.parse(TrimBreaks(line.value)).1
  }

  lemma {:induction false} CleanRead(lines: seq<Line>, limit: nat, row: nat, o: Options)
    requires IsClean(lines, o)
    ensures var n := if limit < |lines| then limit else |lines|;
            Read(lines, limit, row, o) == Reading(ParsedRows(lines[..n], o), n, limit > |lines|, None) &&
            |ParsedRows(lines[..n], o)| == n
    decreases limit
  {
    hide TrimBreaks;
    if limit > 0 && lines != [] {
      CleanRead(lines[1..], limit - 1, row + 1, o);
      var n := if limit < |lines| then limit else |lines|;
      assert lines[..n][1..] == lines[1..][..n - 1];
      assert lines[0] in lines;
    }
  }

  lemma {:induction false} CleanRows(lines: seq<Line>, o: Options)
    requires IsClean(lines, o)
    ensures |ParsedRows(lines, o)| == |lines|
  {
    CleanRead(lines, |lines|, 0, o);
    assert lines[..|lines|] == lines;
  }

  /** On input without blank lines, draining yields the batches that chunking the row list yields,
      and fails exactly when that fails; a final short read ends it. */
  lemma {:induction false} DrainingIsChunking(s: State, o: Options)
    requires o.batchSize > 0 && IsClean(s.input, o) && (s.finished ==> s.input == [])
    ensures var chunked := BuildAll(Chunks(ParsedRows(s.input, o), o.batchSize), o);
            if chunked.Ok? then Drain(s, o) == chunked else Drain(s, o).Err?
    decreases |s.input|
  {
    hide Build, Read, IsClean, ParsedRows;
    var size := o.batchSize;
    CleanRows(s.input, o);
    if s.input == [] {
      assert Read([], size, s.currentRow, o) == Reading([], 0, true, None) by { ReadNothing(size, s.currentRow, o); }
    } else {
      CleanRead(s.input, size, s.currentRow, o);
      NotFinished(s, o);
      var n := if size < |s.input| then size else |s.input|;
      var rows, rest := ParsedRows(s.input[..n], o), s.input[n..];
      ParsedRowsJoined(s.input[..n], rest, o);
      assert s.input == s.input[..n] + rest;
      CleanSuffix(s.input, n, o);
      StartOnlyShifts(rows, o, s.currentRow, 0);
      var next := State(rest, s.currentRow + |rows|, size > |s.input|);
      ChunkFirst(rows, ParsedRows(rest, o), size);
      CleanRows(rest, o);
      DrainingIsChunking(next, o);
      assert Chunks(ParsedRows(s.input, o), size) == [rows] + Chunks(ParsedRows(rest, o), size);
    }
  }

  lemma ReadNothing(limit: nat, row: nat, o: Options)
    requires limit > 0
    ensures Read([], limit, row, o) == Reading([], 0, true, None)
  {
  }

  lemma NotFinished(s: State, o: Options)
    requires s.input != [] && (s.finished ==> s.input == [])
    ensures !s.finished
  {
  }

  lemma StartOnlyShifts(rows: seq<Row>, o: Options, start: nat, other: nat)
    ensures Build(rows, o, start).Ok? <==> Build(rows, o, other).Ok?
    ensures Build(rows, o, start).Ok? ==> Build(rows, o, start) == Build(rows, o, other)
  {
    StartOnlyShiftsErrors(rows, o, start, other, |o.schema|);
  }

  lemma CleanSuffix(lines: seq<Line>, n: nat, o: Options)
    requires IsClean(lines, o) && n <= |lines|
    ensures IsClean(lines[n..], o)
  {
  }

  lemma ChunkFirst(first: seq<Row>, rest: seq<Row>, size: nat)
    requires size > 0 && first != [] && |first| <= size && (|first| < size ==> rest == [])
    ensures Chunks(first + rest, size) == [first] + Chunks(rest, size)
  {
    if rest == [] {
      assert first + rest == first;
    } else {
      assert (first + rest)[..size] == first && (first + rest)[size..] == rest;
    }
  }
}
