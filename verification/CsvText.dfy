/** Splitting a whole CSV text into rows (src/export/csv.rs:897-981) and exporting it in batches
    (src/export/arrow.rs:732-796), beside the line reader of `CsvReader`. */
module CsvText {
  import opened Text
  import opened CsvRow
  import opened Reader = CsvReader

  // ---------------------------------------------------------------------------------------------
  // Rows of a text
  // ---------------------------------------------------------------------------------------------

  /** A row's fields, what follows its line break if it has one, and whether the text ended inside
      quotes. */
  type RowRead = (seq<string>, Option<string>, bool)

  /** The row whose next field has begun with `current`. */
  function RowFields(s: string, inQuotes: bool, current: string, separator: char, delimiter: char): (r: RowRead)
    ensures r.1.Some? ==> |r.1.value| < |s|
    decreases |s|
  {
    if s == "" then ([current], None, inQuotes)
    else if inQuotes then
      if s[0] != delimiter then RowFields(s[1..], true, current + [s[0]], separator, delimiter)
      else if |s| >= 2 && s[1] == delimiter then RowFields(s[2..], true, current + [delimiter], separator, delimiter)
      else RowFields(s[1..], false, current, separator, delimiter)
    else if s[0] == delimiter then RowFields(s[1..], true, current, separator, delimiter)
    else if s[0] == separator then
      var (fields, rest, open) := RowFields(s[1..], false, "", separator, delimiter);
      ([current] + fields, rest, open)
    else if s[0] == '\n' then ([current], Some(s[1..]), false)
    else if s[0] == '\r' then
      if |s| >= 2 && s[1] == '\n' then RowFields(s[1..], false, current, separator, delimiter)
      else ([current], Some(s[1..]), false)
    else RowFields(s[1..], false, current + [s[0]], separator, delimiter)
  }

  /** An unclosed quote names its row. */
  type Item = Result<Row, nat>

  /** The next row, what is left of the text, and how many rows were yielded. */
  function NextRow(s: string, yielded: nat, separator: char, delimiter: char): (Option<Item>, string, nat) {
    if s == "" then (None, "", yielded)
    else
      var (fields, rest, open) := RowFields(s, false, "", separator, delimiter);
      if rest.Some? then (Some(Ok(fields)), rest.value, yielded + 1)
      else if open then (Some(Err(yielded)), "", yielded)
      else (Some(Ok(fields)), "", yielded + 1)
  }

  /** All rows, when `yielded` came before, or the first error. */
  function Rows(s: string, yielded: nat, separator: char, delimiter: char): Result<seq<Row>, nat>
    decreases |s|
  {
    if s == "" then Ok([])
    else
      var (item, rest, count) := NextRow(s, yielded, separator, delimiter);
      if item.value.Err? then Err(item.value.error)
      else
        var more := Rows(rest, count, separator, delimiter);
        if more.Err? then more else Ok([item.value.value] + more.value)
  }

  /** `r` with `fields` before its own. */
  function Behind(fields: seq<string>, r: RowRead): RowRead { (fields + r.0, r.1, r.2) }

  lemma BehindNothing(r: RowRead)
    ensures Behind([], r) == r
  {
    assert [] + r.0 == r.0;
  }

  lemma BehindMore(fields: seq<string>, field: string, r: RowRead)
    ensures Behind(fields, ([field] + r.0, r.1, r.2)) == Behind(fields + [field], r)
  {
    assert fields + ([field] + r.0) == fields + [field] + r.0;
  }

  lemma BehindLast(fields: seq<string>, field: string, rest: Option<string>, open: bool)
    ensures Behind(fields, ([field], rest, open)) == (fields + [field], rest, open)
  {
  }

  class CsvRows {
    const text: string
    const separator: char
    const delimiter: char
    var position: nat
    var rowsYielded: nat

    constructor (text: string, separator: char, delimiter: char)
      ensures this.text == text && this.separator == separator && this.delimiter == delimiter
      ensures Valid() && Rest() == text && rowsYielded == 0
    {
      this.text, this.separator, this.delimiter := text, separator, delimiter;
      position, rowsYielded := 0, 0;
    }

    predicate Valid()
      reads this
    {
      position <= |text|
    }

    function Rest(): string
      reads this
      requires Valid()
    {
      text[position..]
    }

    method CompleteRow(row: seq<string>, lastField: string) returns (complete: Row)
      modifies this`rowsYielded
      ensures complete == row + [lastField] && rowsYielded == old(rowsYielded) + 1
    {
      complete := row + [lastField];
      rowsYielded := rowsYielded + 1;
    }

    method Next() returns (item: Option<Item>)
      requires Valid()
      modifies this
      ensures Valid()
      ensures (item, Rest(), rowsYielded) == NextRow(old(Rest()), old(rowsYielded), separator, delimiter)
    {
      var row: seq<string>, field, inQuotes, consumedAny := [], "", false, false;
      ghost var whole := RowFields(Rest(), false, "", separator, delimiter);
      BehindNothing(whole);
      hide Behind;
      while position < |text|
        invariant Valid() && rowsYielded == old(rowsYielded)
        invariant !consumedAny ==> Rest() == old(Rest()) && row == [] && field == "" && !inQuotes
        invariant consumedAny ==> old(Rest()) != ""
        invariant whole == Behind(row, RowFields(Rest(), inQuotes, field, separator, delimiter))
      {
        var c, rest := text[position], text[position + 1..];
        assert Rest()[0] == c && Rest()[1..] == rest;
        position, consumedAny := position + 1, true;
        if inQuotes {
          if c != delimiter {
            field := field + [c];
          } else if position < |text| && text[position] == delimiter {
            assert rest[1..] == text[position + 1..];
            field := field + [delimiter];
            position := position + 1;
          } else {
            inQuotes := false;
          }
        } else if c == delimiter {
          inQuotes := true;
        } else if c == separator {
          BehindMore(row, field, RowFields(rest, false, "", separator, delimiter));
          row, field := row + [field], "";
        } else if c == '\n' {
          BehindLast(row, field, Some(rest), false);
          row := CompleteRow(row, field);
          return Some(Ok(row));
        } else if c == '\r' {
          if position == |text| || text[position] != '\n' {
            BehindLast(row, field, Some(rest), false);
            row := CompleteRow(row, field);
            return Some(Ok(row));
          }
        } else {
          field := field + [c];
        }
      }
      BehindLast(row, field, None, inQuotes);
      if inQuotes {
        return Some(Err(rowsYielded));
      }
      if !consumedAny {
        return None;
      }
      row := CompleteRow(row, field);
      item := Some(Ok(row));
    }
  }

  /** The rows still to come complete what the whole text yields. */
  predicate Completes(whole: Result<seq<Row>, nat>, rows: seq<Row>, more: Result<seq<Row>, nat>) {
    whole == if more.Err? then more else Ok(rows + more.value)
  }

  lemma NothingParsedYet(whole: Result<seq<Row>, nat>)
    ensures Completes(whole, [], whole)
  {
    if whole.Ok? { assert [] + whole.value == whole.value; }
  }

  lemma OneMoreRow(
    whole: Result<seq<Row>, nat>, rows: seq<Row>, s: string, yielded: nat, separator: char, delimiter: char)
    requires Completes(whole, rows, Rows(s, yielded, separator, delimiter))
    ensures var (item, rest, count) := NextRow(s, yielded, separator, delimiter);
            if item.None? then whole == Ok(rows)
            else if item.value.Err? then whole == Err(item.value.error)
            else |rest| < |s| && Completes(whole, rows + [item.value.value], Rows(rest, count, separator, delimiter))
  {
    hide RowFields;
    if s == "" {
      assert rows + [] == rows;
    } else {
      var (item, rest, count) := NextRow(s, yielded, separator, delimiter);
      if item.value.Ok? {
        var more := Rows(rest, count, separator, delimiter);
        if more.Ok? { assert rows + ([item.value.value] + more.value) == rows + [item.value.value] + more.value; }
      }
    }
  }

  method ParseCsv(text: string, separator: char, delimiter: char) returns (r: Result<seq<Row>, nat>)
    ensures r == Rows(text, 0, separator, delimiter)
  {
    hide NextRow, Rows, Completes;
    var iter := new CsvRows(text, separator, delimiter);
    var rows: seq<Row> := [];
    ghost var whole := Rows(text, 0, separator, delimiter);
    NothingParsedYet(whole);
    while true
      invariant iter.Valid() && Completes(whole, rows, Rows(iter.Rest(), iter.rowsYielded, separator, delimiter))
      decreases |iter.Rest()|
    {
      OneMoreRow(whole, rows, iter.Rest(), iter.rowsYielded, separator, delimiter);
      var item := iter.Next();
      if item.None? {
        return Ok(rows);
      }
      if item.value.Err? {
        return Err(item.value.error);
      }
      rows := rows + [item.value.value];
    }
  }

  // ---------------------------------------------------------------------------------------------
  // Exporting a text in batches
  // ---------------------------------------------------------------------------------------------

  /** Every failure is reported as one of the CSV text; only an unclosed quote names its row. */
  function ExportText(text: string, o: Options, withSchema: bool, separator: char, delimiter: char): Result<seq<Batch>, ExportError>
    requires o.batchSize > 0
  {
    var rows := Rows(text, 0, separator, delimiter);
    if rows.Err? then Err(CsvParseError(rows.error))
    else if !withSchema then Err(CsvParseError(0))
    else
      var batches := BuildAll(Chunks(rows.value, o.batchSize), o);
      if batches.Err? then Err(CsvParseError(0)) else batches
  }

  method ExportTextToRecordBatches(text: string, o: Options, withSchema: bool, separator: char, delimiter: char)
    returns (r: Result<seq<Batch>, ExportError>)
    requires o.batchSize > 0
    ensures r == ExportText(text, o, withSchema, separator, delimiter)
  {
    hide Rows, BuildAll, Chunks;
    var rows := ParseCsv(text, separator, delimiter);
    if rows.Err? {
      return Err(CsvParseError(rows.error));
    }
    if !withSchema {
      return Err(CsvParseError(0));
    }
    var batches := ExportToRecordBatches(rows.value, o);
    r := if batches.Err? then Err(CsvParseError(0)) else batches;
  }
}
