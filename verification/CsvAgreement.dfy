/** When the line reader (src/export/arrow.rs:199-319) and the parser of the whole text
    (src/export/csv.rs:897-981) read the same rows from one text.

    The reader cuts the text at its line feeds and parses each line by itself. The parser ends a row at
    every line break outside quotes, so it differs on line breaks in quotes, on blank lines and on
    carriage returns that stand alone. */
module CsvAgreement {
  import opened Text
  import opened CsvRow
  import opened Reader = CsvReader
  import opened CsvText

  // ---------------------------------------------------------------------------------------------
  // Lines
  // ---------------------------------------------------------------------------------------------

  predicate IsBreak(c: char) { c == '\n' || c == '\r' }

  /** The text cut after every line feed, as `read_line` yields it. */
  function Lines(text: string): seq<string>
    decreases |text|
  {
    if text == "" then []
    else
      var at := FindChar(text, '\n');
      if at.None? then [text] else [text[..at.value + 1]] + Lines(text[at.value + 1..])
  }

  function TextOf(lines: seq<string>): string { if lines == [] then "" else lines[0] + TextOf(lines[1..]) }

  /** A line holds at most one line feed, at its end; only the last line may lack it. */
  predicate IsLine(line: string, last: bool) {
    line != "" && '\n' !in line[..|line| - 1] && (!last ==> line[|line| - 1] == '\n')
  }

  predicate AreLines(lines: seq<string>) {
    forall k :: 0 <= k < |lines| ==> IsLine(lines[k], k == |lines| - 1)
  }

  lemma LinesCons(line: string, rest: seq<string>)
    requires IsLine(line, rest == []) && AreLines(rest)
    ensures AreLines([line] + rest)
  {
    hide IsLine;
  }

  lemma LinesRest(lines: seq<string>)
    requires AreLines(lines) && lines != []
    ensures IsLine(lines[0], |lines| == 1) && AreLines(lines[1..])
  {
    hide IsLine;
  }

  lemma TextOfCons(line: string, rest: seq<string>)
    ensures TextOf([line] + rest) == line + TextOf(rest)
  {
    assert ([line] + rest)[1..] == rest;
  }

  /** Cutting loses nothing. */
  lemma {:induction false} LinesConserveText(text: string)
    ensures TextOf(Lines(text)) == text && AreLines(Lines(text))
    decreases |text|
  {
    hide TextOf, AreLines;
    if text == "" {
      NoLines();
    } else {
      var at := FindChar(text, '\n');
      NoLines();
      if at.None? {
        TextOfCons(text, []);
        LinesCons(text, []);
        assert [text] + [] == [text] && text + "" == text;
      } else {
        var line, rest := text[..at.value + 1], text[at.value + 1..];
        LinesConserveText(rest);
        LastMayLackIt(line, text, at.value, Lines(rest));
        TextOfCons(line, Lines(rest));
        LinesCons(line, Lines(rest));
        assert text == line + rest;
      }
    }
  }

  lemma NoLines()
    ensures TextOf([]) == "" && AreLines([])
  {
  }

  lemma LastMayLackIt(line: string, text: string, at: nat, rest: seq<string>)
    requires at < |text| && text[at] == '\n' && '\n' !in text[..at] && line == text[..at + 1]
    ensures IsLine(line, rest == [])
  {
    assert line[..|line| - 1] == text[..at];
  }

  function AsRead(lines: seq<string>): seq<Line> { seq(|lines|, i requires 0 <= i < |lines| => Ok(lines[i])) }

  /** The reader parses a line with these quotes. */
  ghost predicate ParsesWith(o: Options, separator: char, delimiter: char) {
    forall line :: o.parse(line) == Parse(line, separator, delimiter)
  }

  // ---------------------------------------------------------------------------------------------
  // Quotes
  // ---------------------------------------------------------------------------------------------

  predicate Odd(s: string, delimiter: char) { CountOf(s, delimiter) % 2 == 1 }

  lemma OddCons(s: string, delimiter: char)
    requires s != ""
    ensures Odd(s, delimiter) <==> (s[0] == delimiter) != Odd(s[1..], delimiter)
  {
  }

  lemma {:induction false} OddJoined(a: string, b: string, delimiter: char)
    ensures Odd(a + b, delimiter) <==> Odd(a, delimiter) != Odd(b, delimiter)
  {
    if a == "" {
      assert a + b == b;
    } else {
      hide Odd;
      OddJoined(a[1..], b, delimiter);
      OddCons(a, delimiter);
      OddCons(a + b, delimiter);
      assert (a + b)[1..] == a[1..] + b;
    }
  }

  lemma OddNothing(delimiter: char)
    ensures !Odd("", delimiter)
  {
  }

  /** A row leaves quotes open, or leaves an odd rest, exactly when it began so. */
  lemma {:induction false} RowParity(s: string, inQuotes: bool, current: string, separator: char, delimiter: char)
    requires !IsBreak(delimiter)
    ensures var (_, rest, open) := RowFields(s, inQuotes, current, separator, delimiter);
            (if rest.Some? then Odd(rest.value, delimiter) else open) <==> inQuotes != Odd(s, delimiter)
    decreases |s|
  {
    hide Odd;
    if s == "" {
      OddNothing(delimiter);
    } else {
      var c, rest := s[0], s[1..];
      OddCons(s, delimiter);
      if inQuotes && c == delimiter && |s| >= 2 && s[1] == delimiter {
        OddCons(rest, delimiter);
        assert rest[1..] == s[2..];
        RowParity(s[2..], true, current + [delimiter], separator, delimiter);
      } else if c == delimiter {
        RowParity(rest, !inQuotes, current, separator, delimiter);
      } else if inQuotes {
        RowParity(rest, true, current + [c], separator, delimiter);
      } else if c == separator {
        RowParity(rest, false, "", separator, delimiter);
      } else if c == '\r' && |s| >= 2 && s[1] == '\n' {
        RowParity(rest, false, current, separator, delimiter);
      } else if !IsBreak(c) {
        RowParity(rest, false, current + [c], separator, delimiter);
      }
    }
  }

  /** The rows of a text that ends outside quotes. */
  function RowList(s: string, separator: char, delimiter: char): seq<Row>
    decreases |s|
  {
    if s == "" then []
    else
      var (fields, rest, _) := RowFields(s, false, "", separator, delimiter);
      [fields] + if rest.None? then [] else RowList(rest.value, separator, delimiter)
  }

  /** The parser refuses exactly the texts with an odd number of delimiters. */
  lemma {:induction false} RefusedIffOdd(s: string, yielded: nat, separator: char, delimiter: char)
    requires !IsBreak(delimiter)
    ensures Rows(s, yielded, separator, delimiter).Err? <==> Odd(s, delimiter)
    ensures !Odd(s, delimiter) ==> Rows(s, yielded, separator, delimiter) == Ok(RowList(s, separator, delimiter))
    decreases |s|
  {
    hide Odd, RowFields;
    if s == "" {
      OddNothing(delimiter);
    } else {
      RowParity(s, false, "", separator, delimiter);
      var (fields, rest, open) := RowFields(s, false, "", separator, delimiter);
      if rest.Some? {
        RefusedIffOdd(rest.value, yielded + 1, separator, delimiter);
      } else if !open {
        assert Rows("", yielded + 1, separator, delimiter) == Ok([]);
      }
    }
  }

  // ---------------------------------------------------------------------------------------------
  // A line among lines
  // ---------------------------------------------------------------------------------------------

  /** Text up to a line feed outside quotes ends a row there, whatever follows. */
  lemma {:induction false} RowStaysInLine(
    line: string, inQuotes: bool, current: string, after: string, separator: char, delimiter: char)
    requires !IsBreak(separator) && !IsBreak(delimiter)
    requires line != "" && line[|line| - 1] == '\n' && inQuotes == Odd(line, delimiter)
    ensures var (fields, rest, open) := RowFields(line, inQuotes, current, separator, delimiter);
            rest.Some? && !open && !Odd(rest.value, delimiter) &&
            (rest.value == "" || rest.value[|rest.value| - 1] == '\n') &&
            RowFields(line + after, inQuotes, current, separator, delimiter) == (fields, Some(rest.value + after), false)
    decreases |line|
  {
    hide Odd;
    var c, rest, s := line[0], line[1..], line + after;
    OddCons(line, delimiter);
    OddNothing(delimiter);
    assert s[0] == c && s[1..] == rest + after && (|line| >= 2 ==> s[1] == line[1] && rest[|rest| - 1] == '\n');
    if inQuotes && c == delimiter && |line| >= 2 && line[1] == delimiter {
      OddCons(rest, delimiter);
      assert rest[1..] == line[2..] && s[2..] == line[2..] + after && line[2..][|line| - 3] == '\n';
      RowStaysInLine(line[2..], true, current + [delimiter], after, separator, delimiter);
    } else if c == delimiter {
      RowStaysInLine(rest, !inQuotes, current, after, separator, delimiter);
    } else if inQuotes {
      RowStaysInLine(rest, true, current + [c], after, separator, delimiter);
    } else if c == separator {
      RowStaysInLine(rest, false, "", after, separator, delimiter);
    } else if c == '\r' && line[1] == '\n' {
      RowStaysInLine(rest, false, current, after, separator, delimiter);
    } else if !IsBreak(c) {
      RowStaysInLine(rest, false, current + [c], after, separator, delimiter);
    }
  }

  /** So the rows of a text are those of its first line and those of what follows it. */
  lemma {:induction false} RowListJoined(line: string, after: string, separator: char, delimiter: char)
    requires !IsBreak(separator) && !IsBreak(delimiter) && !Odd(line, delimiter)
    requires line == "" || line[|line| - 1] == '\n'
    ensures RowList(line + after, separator, delimiter)
            == RowList(line, separator, delimiter) + RowList(after, separator, delimiter)
    decreases |line|
  {
    hide Odd, RowFields;
    if line == "" {
      assert line + after == after;
    } else {
      RowStaysInLine(line, false, "", after, separator, delimiter);
      var (fields, rest, _) := RowFields(line, false, "", separator, delimiter);
      RowListJoined(rest.value, after, separator, delimiter);
      var own := RowList(rest.value, separator, delimiter);
      assert [fields] + (own + RowList(after, separator, delimiter)) == [fields] + own + RowList(after, separator, delimiter);
    }
  }

  // ---------------------------------------------------------------------------------------------
  // One row on a line
  // ---------------------------------------------------------------------------------------------

  /** A carriage return stands outside quotes. */
  predicate HasBareReturn(s: string, inQuotes: bool, delimiter: char) {
    s != "" && ((!inQuotes && s[0] == '\r') || HasBareReturn(s[1..], inQuotes != (s[0] == delimiter), delimiter))
  }

  predicate OnlyBreaks(s: string) { s != "" ==> IsBreak(s[0]) && OnlyBreaks(s[1..]) }

  /** What follows the line break that `ending` begins with. */
  function AfterBreak(ending: string): Option<string> {
    if ending == "" then None
    else if ending[0] == '\r' && |ending| >= 2 && ending[1] == '\n' then Some(ending[2..])
    else Some(ending[1..])
  }

  /** A line that closes its quotes, with its line break: it holds something, no carriage return
      outside quotes, and ends in one line break, which the last line may lack or have as a lone
      carriage return. */
  predicate IsSingleRow(line: string, last: bool, delimiter: char) {
    var body := TrimBreaks(line);
    !Odd(line, delimiter) && body != "" && !HasBareReturn(body, false, delimiter) && |body| <= |line| &&
    var ending := line[|body|..];
    ending == "\n" || ending == "\r\n" || (last && (ending == "" || ending == "\r"))
  }

  lemma {:induction false} TrimmedBefore(line: string, delimiter: char) returns (ending: string)
    requires !IsBreak(delimiter)
    ensures line == TrimBreaks(line) + ending && OnlyBreaks(ending) && !Odd(ending, delimiter)
  {
    hide TrimBreaks, Odd, OnlyBreaks;
    if line != "" && IsBreak(line[|line| - 1]) {
      var init, c := line[..|line| - 1], line[|line| - 1];
      TrimStep(line);
      var before := TrimmedBefore(init, delimiter);
      ending := before + [c];
      BreaksSnoc(before, c);
      OddBreak(c, delimiter);
      OddJoined(before, [c], delimiter);
      Snoc(line, init, c, TrimBreaks(init), before);
    } else {
      TrimNothing(line);
      OddNothing(delimiter);
      ending := "";
      assert OnlyBreaks("") by { NoBreaks(); }
      assert line + "" == line;
    }
  }

  lemma Snoc(line: string, init: string, c: char, body: string, before: string)
    requires line != "" && init == line[..|line| - 1] && c == line[|line| - 1] && init == body + before
    ensures line == body + (before + [c])
  {
    assert line == init + [c];
  }

  lemma OddBreak(c: char, delimiter: char)
    requires c != delimiter
    ensures !Odd([c], delimiter)
  {
    hide Odd;
    OddCons([c], delimiter);
    OddNothing(delimiter);
    assert [c][1..] == "";
  }

  lemma NoBreaks() ensures OnlyBreaks("") {}

  lemma TrimmedIsPrefix(line: string, delimiter: char)
    requires !IsBreak(delimiter)
    ensures var body := TrimBreaks(line);
            |body| <= |line| && line == body + line[|body|..] && OnlyBreaks(line[|body|..]) &&
            (Odd(body, delimiter) <==> Odd(line, delimiter))
  {
    hide TrimBreaks, Odd, OnlyBreaks;
    var ending := TrimmedBefore(line, delimiter);
    OddJoined(TrimBreaks(line), ending, delimiter);
    assert line[|TrimBreaks(line)|..] == ending;
  }

  lemma {:induction false} TrimmedEndsInText(line: string)
    ensures var body := TrimBreaks(line); body != "" ==> !IsBreak(body[|body| - 1])
  {
    if line != "" && IsBreak(line[|line| - 1]) { TrimmedEndsInText(line[..|line| - 1]); }
  }

  lemma TrimStep(line: string)
    requires line != "" && IsBreak(line[|line| - 1])
    ensures TrimBreaks(line) == TrimBreaks(line[..|line| - 1])
  {
  }

  lemma TrimNothing(line: string)
    requires line == "" || !IsBreak(line[|line| - 1])
    ensures TrimBreaks(line) == line
  {
  }

  lemma {:induction false} BreaksSnoc(s: string, c: char)
    requires OnlyBreaks(s) && IsBreak(c)
    ensures OnlyBreaks(s + [c])
  {
    if s == "" {
      assert s + [c] == [c] && [c][1..] == "";
    } else {
      BreaksSnoc(s[1..], c);
      assert (s + [c])[1..] == s[1..] + [c];
    }
  }

  lemma EndingEndsRow(current: string, ending: string, separator: char, delimiter: char)
    requires !IsBreak(separator) && !IsBreak(delimiter) && OnlyBreaks(ending)
    ensures RowFields(ending, false, current, separator, delimiter) == ([current], AfterBreak(ending), false)
  {
    if |ending| >= 2 { assert ending[1..][1..] == ending[2..]; }
  }

  /** Without a carriage return outside quotes the text before the line break is one row, with the
      fields that it has as a line. */
  lemma {:induction false} BodyIsRow(
    body: string, inQuotes: bool, current: string, ending: string, separator: char, delimiter: char)
    requires !IsBreak(separator) && !IsBreak(delimiter) && OnlyBreaks(ending) && '\n' !in body
    requires !HasBareReturn(body, inQuotes, delimiter) && !Fields(body, inQuotes, current, separator, delimiter).1
    ensures RowFields(body + ending, inQuotes, current, separator, delimiter)
            == (Fields(body, inQuotes, current, separator, delimiter).0, AfterBreak(ending), false)
    decreases |body|
  {
    if body == "" {
      assert body + ending == ending;
      EndingEndsRow(current, ending, separator, delimiter);
    } else {
      hide OnlyBreaks, AfterBreak;
      var c, rest, s := body[0], body[1..], body + ending;
      assert c in body && s[0] == c && s[1..] == rest + ending;
      forall d | d in rest ensures d in body {}
      if inQuotes && c == delimiter && |body| >= 2 && body[1] == delimiter {
        var rest2 := body[2..];
        forall d | d in rest2 ensures d in body {}
        assert s[1] == delimiter && s[2..] == rest2 + ending && rest[1..] == rest2;
        BodyIsRow(rest2, true, current + [delimiter], ending, separator, delimiter);
      } else if inQuotes && c == delimiter {
        AfterClosing(body, ending, delimiter);
        BodyIsRow(rest, false, current, ending, separator, delimiter);
      } else if inQuotes {
        BodyIsRow(rest, true, current + [c], ending, separator, delimiter);
      } else if c == delimiter {
        BodyIsRow(rest, true, current, ending, separator, delimiter);
      } else if c == separator {
        BodyIsRow(rest, false, "", ending, separator, delimiter);
      } else {
        BodyIsRow(rest, false, current + [c], ending, separator, delimiter);
      }
    }
  }

  lemma AfterClosing(body: string, ending: string, delimiter: char)
    requires !IsBreak(delimiter) && OnlyBreaks(ending) && body != "" && !(|body| >= 2 && body[1] == delimiter)
    ensures var s := body + ending; |s| >= 2 ==> s[1] != delimiter
  {
  }

  /** A carriage return outside quotes ends a row before the body does. */
  lemma {:induction false} BareReturnEndsRow(
    body: string, inQuotes: bool, current: string, ending: string, separator: char, delimiter: char)
    requires !IsBreak(separator) && !IsBreak(delimiter) && OnlyBreaks(ending) && '\n' !in body
    requires HasBareReturn(body, inQuotes, delimiter) && body != "" && !IsBreak(body[|body| - 1])
    ensures var rest := RowFields(body + ending, inQuotes, current, separator, delimiter).1; rest.Some? && rest.value != ""
    decreases |body|
  {
    hide OnlyBreaks;
    var c, rest, s := body[0], body[1..], body + ending;
    assert c in body && s[0] == c && s[1..] == rest + ending;
    forall d | d in rest ensures d in body {}
    if inQuotes && c == delimiter && |body| >= 2 && body[1] == delimiter {
      var rest2 := body[2..];
      forall d | d in rest2 ensures d in body {}
      assert s[1] == delimiter && s[2..] == rest2 + ending && rest[1..] == rest2;
      BareReturnEndsRow(rest2, true, current + [delimiter], ending, separator, delimiter);
    } else if inQuotes && c == delimiter {
      AfterClosing(body, ending, delimiter);
      BareReturnEndsRow(rest, false, current, ending, separator, delimiter);
    } else if inQuotes {
      BareReturnEndsRow(rest, true, current + [c], ending, separator, delimiter);
    } else if c == delimiter {
      BareReturnEndsRow(rest, true, current, ending, separator, delimiter);
    } else if c == separator {
      BareReturnEndsRow(rest, false, "", ending, separator, delimiter);
    } else if c == '\r' {
      assert |body| >= 2 && body[1] in body && s[1] == body[1];
    } else {
      BareReturnEndsRow(rest, false, current + [c], ending, separator, delimiter);
    }
  }

  lemma BodyHasNoFeed(line: string, last: bool, body: string)
    requires IsLine(line, last) && |body| <= |line| && line[..|body|] == body && (body != "" ==> !IsBreak(body[|body| - 1]))
    ensures '\n' !in body
  {
    forall i | 0 <= i < |body| ensures body[i] != '\n' {
      if i < |line| - 1 { assert line[..|line| - 1][i] == body[i]; }
    }
  }

  predicate LeavesNothing(ending: string) { AfterBreak(ending).None? || AfterBreak(ending).value == "" }

  lemma ShortEnding(ending: string)
    requires OnlyBreaks(ending) && |ending| <= 2 && (|ending| == 2 ==> ending[0] != '\n')
    ensures LeavesNothing(ending) <==> ending == "" || ending == "\n" || ending == "\r" || ending == "\r\n"
  {
    if |ending| == 1 {
      assert ending == [ending[0]];
    } else if |ending| == 2 {
      assert ending[1..][0] == ending[1] && ending == [ending[0], ending[1]];
    }
  }

  lemma LongEnding(ending: string)
    requires |ending| >= 3 && ending[1] != '\n'
    ensures !LeavesNothing(ending)
  {
  }

  lemma EndingOfLine(line: string, last: bool, body: string, ending: string)
    requires IsLine(line, last) && line == body + ending && (body != "" ==> !IsBreak(body[|body| - 1]))
    ensures |ending| >= 2 ==> ending[0] != '\n'
    ensures |ending| >= 3 ==> ending[1] != '\n'
    ensures !last ==> ending != "" && ending[|ending| - 1] == '\n'
  {
    var init := line[..|line| - 1];
    if |ending| >= 2 { assert init[|body|] == ending[0] && init[|body|] in init; }
    if |ending| >= 3 { assert init[|body| + 1] == ending[1] && init[|body| + 1] in init; }
    if ending == "" { assert line[|line| - 1] == body[|body| - 1]; }
  }

  /** Of the endings a line can have, exactly one break, or none, leaves no text for another row. */
  lemma EndingLeavesNothing(line: string, last: bool, body: string, ending: string)
    requires IsLine(line, last) && line == body + ending && OnlyBreaks(ending)
    requires body != "" ==> !IsBreak(body[|body| - 1])
    ensures LeavesNothing(ending) <==>
              ending == "\n" || ending == "\r\n" || (last && (ending == "" || ending == "\r"))
  {
    EndingOfLine(line, last, body, ending);
    hide OnlyBreaks, LeavesNothing, IsLine;
    if |ending| >= 3 {
      LongEnding(ending);
    } else {
      ShortEnding(ending);
    }
  }

  lemma RowListStep(line: string, fields: Row, rest: Option<string>, separator: char, delimiter: char)
    requires line != "" && RowFields(line, false, "", separator, delimiter).0 == fields
    requires RowFields(line, false, "", separator, delimiter).1 == rest
    ensures var rows := RowList(line, separator, delimiter);
            rows != [] && rows[0] == fields && (|rows| == 1 <==> rest.None? || rest == Some("")) && (|rows| == 1 ==> rows == [fields])
  {
    hide RowFields;
  }

  /** A line that closes its quotes has at least the one row that the reader takes from it, and no
      other exactly when it is a single row. */
  lemma LineRows(line: string, last: bool, o: Options, separator: char, delimiter: char)
    requires !IsBreak(separator) && !IsBreak(delimiter) && ParsesWith(o, separator, delimiter)
    requires IsLine(line, last) && !Odd(line, delimiter)
    ensures var rows, taken := RowList(line, separator, delimiter), RowOf(Ok(line), o);
            if IsSingleRow(line, last, delimiter) then rows == taken else |taken| < |rows|
  {
    hide Odd, TrimBreaks, RowFields, RowList, Fields, IsLine, OnlyBreaks, AfterBreak, HasBareReturn;
    var body := TrimBreaks(line);
    TrimmedIsPrefix(line, delimiter);
    TrimmedEndsInText(line);
    var ending := line[|body|..];
    LineIsText(line, last);
    BodyHasNoFeed(line, last, body);
    EndingLeavesNothing(line, last, body, ending);
    OpenIsOdd(body, separator, delimiter);
    var read := RowFields(line, false, "", separator, delimiter);
    RowListStep(line, read.0, read.1, separator, delimiter);
    if body != "" {
      if HasBareReturn(body, false, delimiter) {
        BareReturnEndsRow(body, false, "", ending, separator, delimiter);
      } else {
        BodyIsRow(body, false, "", ending, separator, delimiter);
      }
    }
  }

  lemma LineIsText(line: string, last: bool)
    requires IsLine(line, last)
    ensures line != ""
  {
  }

  lemma OpenIsOdd(body: string, separator: char, delimiter: char)
    ensures Fields(body, false, "", separator, delimiter).1 <==> Odd(body, delimiter)
  {
    hide Fields;
    OpenIffOdd(body, separator, delimiter);
  }

  // ---------------------------------------------------------------------------------------------
  // Agreement
  // ---------------------------------------------------------------------------------------------

  predicate NoneOdd(lines: seq<string>, delimiter: char) { forall line :: line in lines ==> !Odd(line, delimiter) }

  predicate AllSingle(lines: seq<string>, delimiter: char) {
    forall k :: 0 <= k < |lines| ==> IsSingleRow(lines[k], k == |lines| - 1, delimiter)
  }

  lemma NoneOddCons(lines: seq<string>, delimiter: char)
    requires lines != []
    ensures NoneOdd(lines, delimiter) <==> !Odd(lines[0], delimiter) && NoneOdd(lines[1..], delimiter)
  {
    hide Odd;
    assert forall line :: line in lines <==> line == lines[0] || line in lines[1..];
  }

  lemma AllSingleCons(lines: seq<string>, delimiter: char)
    requires lines != []
    ensures AllSingle(lines, delimiter) <==> IsSingleRow(lines[0], |lines| == 1, delimiter) && AllSingle(lines[1..], delimiter)
  {
    hide IsSingleRow;
    var rest := lines[1..];
    if IsSingleRow(lines[0], |lines| == 1, delimiter) && AllSingle(rest, delimiter) {
      forall k | 0 <= k < |lines| ensures IsSingleRow(lines[k], k == |lines| - 1, delimiter) {
        if k > 0 { assert rest[k - 1] == lines[k]; }
      }
    }
    if AllSingle(lines, delimiter) {
      forall k | 0 <= k < |rest| ensures IsSingleRow(rest[k], k == |rest| - 1, delimiter) {
        assert rest[k] == lines[k + 1];
      }
    }
  }

  lemma {:induction false} SingleIsNotOdd(lines: seq<string>, delimiter: char)
    requires AllSingle(lines, delimiter)
    ensures NoneOdd(lines, delimiter)
  {
    hide IsSingleRow, Odd, AllSingle;
    if lines != [] {
      AllSingleCons(lines, delimiter);
      SingleIsNotOdd(lines[1..], delimiter);
      NoneOddCons(lines, delimiter);
      assert !Odd(lines[0], delimiter) by { NotOdd(lines[0], |lines| == 1, delimiter); }
    }
  }

  lemma NotOdd(line: string, last: bool, delimiter: char)
    requires IsSingleRow(line, last, delimiter)
    ensures !Odd(line, delimiter) && !IsBlank(Ok(line)) && line != ""
  {
    hide Odd, HasBareReturn;
  }

  /** A text with an odd number of delimiters has a line with an odd number. */
  lemma {:induction false} NoneOddText(lines: seq<string>, delimiter: char)
    requires NoneOdd(lines, delimiter)
    ensures !Odd(TextOf(lines), delimiter)
  {
    hide Odd, NoneOdd;
    if lines == [] {
      OddNothing(delimiter);
    } else {
      NoneOddCons(lines, delimiter);
      NoneOddText(lines[1..], delimiter);
      OddJoined(lines[0], TextOf(lines[1..]), delimiter);
    }
  }

  lemma AsReadCons(lines: seq<string>, o: Options)
    requires lines != []
    ensures ParsedRows(AsRead(lines), o) == RowOf(Ok(lines[0]), o) + ParsedRows(AsRead(lines[1..]), o)
  {
    hide RowOf;
    assert AsRead(lines)[1..] == AsRead(lines[1..]);
  }

  lemma FirstLineApart(lines: seq<string>, separator: char, delimiter: char)
    requires !IsBreak(separator) && !IsBreak(delimiter) && AreLines(lines) && lines != [] && !Odd(lines[0], delimiter)
    ensures RowList(TextOf(lines), separator, delimiter)
            == RowList(lines[0], separator, delimiter) + RowList(TextOf(lines[1..]), separator, delimiter)
  {
    hide Odd, RowList;
    if |lines| == 1 {
      assert TextOf(lines) == lines[0] + "" == lines[0];
      assert RowList("", separator, delimiter) == [] by { NoRows(separator, delimiter); }
      assert RowList(lines[0], separator, delimiter) + [] == RowList(lines[0], separator, delimiter);
    } else {
      RowListJoined(lines[0], TextOf(lines[1..]), separator, delimiter);
    }
  }

  lemma NoRows(separator: char, delimiter: char)
    ensures RowList("", separator, delimiter) == []
  {
  }

  /** Over lines that close their quotes the text has every row that the reader takes, and no other
      exactly when each line is a single row. */
  lemma {:induction false} RowsOfLines(lines: seq<string>, o: Options, separator: char, delimiter: char)
    requires !IsBreak(separator) && !IsBreak(delimiter) && ParsesWith(o, separator, delimiter)
    requires AreLines(lines) && NoneOdd(lines, delimiter)
    ensures var rows, taken := RowList(TextOf(lines), separator, delimiter), ParsedRows(AsRead(lines), o);
            if AllSingle(lines, delimiter) then rows == taken else |taken| < |rows|
  {
    hide Odd, RowList, IsSingleRow, ParsesWith, NoneOdd, AllSingle, AreLines, IsLine, RowOf;
    if lines == [] {
      NoRows(separator, delimiter);
      assert AllSingle(lines, delimiter) by { NothingIsSingle(delimiter); }
    } else {
      LinesRest(lines);
      NoneOddCons(lines, delimiter);
      AllSingleCons(lines, delimiter);
      RowsOfLines(lines[1..], o, separator, delimiter);
      FirstLineApart(lines, separator, delimiter);
      AsReadCons(lines, o);
      LineRows(lines[0], |lines| == 1, o, separator, delimiter);
    }
  }

  lemma NothingIsSingle(delimiter: char)
    ensures AllSingle([], delimiter)
  {
  }

  /** Reading all lines at once fails exactly at a line with an odd number of delimiters, and else takes
      the rows of all lines. */
  lemma {:induction false} ReadWhole(lines: seq<string>, limit: nat, row: nat, o: Options, separator: char, delimiter: char)
    requires limit > |lines| && !IsBreak(delimiter) && ParsesWith(o, separator, delimiter)
    ensures var r := Read(AsRead(lines), limit, row, o);
            (r.error.None? <==> NoneOdd(lines, delimiter)) && (r.error.None? ==> r.rows == ParsedRows(AsRead(lines), o))
    decreases |lines|
  {
    hide Odd, NoneOdd, TrimBreaks, Parse;
    if lines == [] {
      assert NoneOdd(lines, delimiter) by { NoneOddNothing(delimiter); }
    } else {
      var line, body := lines[0], TrimBreaks(lines[0]);
      assert AsRead(lines)[1..] == AsRead(lines[1..]) && AsRead(lines)[0] == Ok(line);
      NoneOddCons(lines, delimiter);
      AsReadCons(lines, o);
      TrimmedIsPrefix(line, delimiter);
      OpenIffOdd(body, separator, delimiter);
      assert Parse(body, separator, delimiter).1 <==> Odd(line, delimiter) by { OpenIsOddLine(body, line, separator, delimiter); }
      if body == "" {
        OddNothing(delimiter);
        ReadWhole(lines[1..], limit - 1, row, o, separator, delimiter);
      } else if !Odd(line, delimiter) {
        ReadWhole(lines[1..], limit - 1, row + 1, o, separator, delimiter);
      }
    }
  }

  lemma NoneOddNothing(delimiter: char)
    ensures NoneOdd([], delimiter)
  {
  }

  lemma OpenIsOddLine(body: string, line: string, separator: char, delimiter: char)
    requires Odd(body, delimiter) <==> Odd(line, delimiter)
    ensures Parse(body, separator, delimiter).1 <==> Odd(line, delimiter)
  {
    hide Parse;
    OpenIffOdd(body, separator, delimiter);
  }

  /** The reader, given all lines of the text at once, and the parser of the whole text read the same
      rows, or both refuse it. */
  predicate SameRows(text: string, o: Options, separator: char, delimiter: char) {
    var rows, lines := Rows(text, 0, separator, delimiter), Lines(text);
    var read := Read(AsRead(lines), |lines| + 1, 0, o);
    if rows.Err? then read.error.Some? else read.error.None? && read.rows == rows.value
  }

  /** For every text: both refuse it exactly when its delimiters are odd in number, and else they read
      the same rows exactly when every line is a single row. */
  lemma ParsersAgreeIff(text: string, o: Options, separator: char, delimiter: char)
    requires !IsBreak(separator) && !IsBreak(delimiter) && ParsesWith(o, separator, delimiter)
    ensures SameRows(text, o, separator, delimiter) <==> Odd(text, delimiter) || AllSingle(Lines(text), delimiter)
  {
    hide Odd, RowList, Rows, Read, NoneOdd, AllSingle, AreLines, ParsesWith, Lines, TextOf;
    var lines := Lines(text);
    LinesConserveText(text);
    RefusedIffOdd(text, 0, separator, delimiter);
    ReadWhole(lines, |lines| + 1, 0, o, separator, delimiter);
    if NoneOdd(lines, delimiter) {
      NoneOddText(lines, delimiter);
      RowsOfLines(lines, o, separator, delimiter);
    } else if AllSingle(lines, delimiter) {
      SingleIsNotOdd(lines, delimiter);
    }
  }

  // ---------------------------------------------------------------------------------------------
  // Batches
  // ---------------------------------------------------------------------------------------------

  /** No blank line stands before the first line that is not closed. */
  predicate OddBeforeBlank(lines: seq<string>, delimiter: char) {
    lines != [] ==> Odd(lines[0], delimiter) || (TrimBreaks(lines[0]) != "" && OddBeforeBlank(lines[1..], delimiter))
  }

  /** Then reading fails, or leaves that line unread. */
  lemma {:induction false} ReadMeetsOdd(lines: seq<string>, limit: nat, row: nat, o: Options, separator: char, delimiter: char)
    requires limit > 0 && !IsBreak(delimiter) && ParsesWith(o, separator, delimiter)
    requires OddBeforeBlank(lines, delimiter) && !NoneOdd(lines, delimiter)
    ensures var r := Read(AsRead(lines), limit, row, o);
            r.error.Some? ||
            (r.rows != [] && !r.ended && OddBeforeBlank(lines[r.consumed..], delimiter) && !NoneOdd(lines[r.consumed..], delimiter))
    decreases |lines|
  {
    hide Odd, NoneOdd, TrimBreaks, Parse;
    if lines == [] {
      NoneOddNothing(delimiter);
    } else {
      var line, body := lines[0], TrimBreaks(lines[0]);
      assert AsRead(lines)[1..] == AsRead(lines[1..]) && AsRead(lines)[0] == Ok(line);
      NoneOddCons(lines, delimiter);
      TrimmedIsPrefix(line, delimiter);
      OpenIsOddLine(body, line, separator, delimiter);
      if Odd(line, delimiter) {
        OddNothing(delimiter);
      } else if limit == 1 {
        assert Read(AsRead(lines[1..]), 0, row + 1, o) == Reading([], 0, false, None);
      } else {
        ReadMeetsOdd(lines[1..], limit - 1, row + 1, o, separator, delimiter);
        var r := Read(AsRead(lines[1..]), limit - 1, row + 1, o);
        assert lines[1..][r.consumed..] == lines[r.consumed + 1..];
      }
    }
  }

  lemma {:induction false} DrainRefuses(
    lines: seq<string>, row: nat, o: Options, separator: char, delimiter: char)
    requires o.batchSize > 0 && !IsBreak(delimiter) && ParsesWith(o, separator, delimiter)
    requires OddBeforeBlank(lines, delimiter) && !NoneOdd(lines, delimiter)
    ensures Drain(State(AsRead(lines), row, false), o).Err?
    decreases |lines|
  {
    hide Read, Build, NoneOdd, OddBeforeBlank, ParsesWith;
    ReadMeetsOdd(lines, o.batchSize, row, o, separator, delimiter);
    var r := Read(AsRead(lines), o.batchSize, row, o);
    if r.error.None? && Build(r.rows, o, row).Ok? {
      RowsNeedLines(AsRead(lines), o.batchSize, row, o);
      assert AsRead(lines)[r.consumed..] == AsRead(lines[r.consumed..]);
      DrainRefuses(lines[r.consumed..], row + |r.rows|, o, separator, delimiter);
    }
  }

  lemma SingleLinesAreClean(lines: seq<string>, o: Options, separator: char, delimiter: char)
    requires !IsBreak(delimiter) && ParsesWith(o, separator, delimiter) && AllSingle(lines, delimiter)
    ensures IsClean(AsRead(lines), o)
  {
    hide Odd, TrimBreaks, Parse, IsSingleRow;
    forall l | l in AsRead(lines)
      ensures l.Ok? && !IsBlank(l) && !o.parse(TrimBreaks(l.value)).1
    {
      var k :| 0 <= k < |lines| && AsRead(lines)[k] == l;
      var line := lines[k];
      NotOdd(line, k == |lines| - 1, delimiter);
      TrimmedIsPrefix(line, delimiter);
      OpenIsOddLine(TrimBreaks(line), line, separator, delimiter);
    }
  }

  /** Reading the lines in batches until nothing is answered succeeds exactly when exporting the whole
      text does, and with the same batches. */
  predicate BatchesAgree(text: string, o: Options, separator: char, delimiter: char)
    requires o.batchSize > 0
  {
    var exported := ExportText(text, o, true, separator, delimiter);
    var drained := Drain(State(AsRead(Lines(text)), 0, false), o);
    (exported.Ok? <==> drained.Ok?) && (exported.Ok? ==> exported == drained)
  }

  /** Every line is a single row, or both refuse the text and no blank line can end the reading before
      the reader meets the line that is not closed. */
  predicate IsSafe(text: string, delimiter: char) {
    AllSingle(Lines(text), delimiter) || (Odd(text, delimiter) && OddBeforeBlank(Lines(text), delimiter))
  }

  /** On safe text the exports agree in batches, for every schema, batch size and conversion. */
  lemma ReaderAgreesWithExport(text: string, o: Options, separator: char, delimiter: char)
    requires o.batchSize > 0 && !IsBreak(separator) && !IsBreak(delimiter) && ParsesWith(o, separator, delimiter)
    requires IsSafe(text, delimiter)
    ensures BatchesAgree(text, o, separator, delimiter)
  {
    hide Odd, Rows, RowList, NoneOdd, OddBeforeBlank, AllSingle, AreLines;
    hide ParsesWith, IsClean, Drain, BuildAll, Chunks, Lines, TextOf;
    var lines := Lines(text);
    LinesConserveText(text);
    RefusedIffOdd(text, 0, separator, delimiter);
    if AllSingle(lines, delimiter) {
      SingleIsNotOdd(lines, delimiter);
      NoneOddText(lines, delimiter);
      RowsOfLines(lines, o, separator, delimiter);
      SingleLinesAreClean(lines, o, separator, delimiter);
      DrainingIsChunking(State(AsRead(lines), 0, false), o);
    } else {
      if NoneOdd(lines, delimiter) { NoneOddText(lines, delimiter); }
      DrainRefuses(lines, 0, o, separator, delimiter);
    }
  }

  /** One nullable text column, which every row fills. */
  function TextColumn(batchSize: nat, separator: char, delimiter: char): Options {
    Options([Field(Utf8, true)], batchSize, None, line => Parse(line, separator, delimiter), (name, value) => Ok(value))
  }

  lemma {:induction false} TextColumnFills(values: seq<string>, o: Options, start: nat)
    requires o.schema == [Field(Utf8, true)]
    ensures var column := ConvertColumn(values, o.schema[0], o, start, 0); column.Ok? && |column.value| == |values|
  {
    if values != [] { TextColumnFills(values[..|values| - 1], o, start); }
  }

  lemma TextColumnBuilds(rows: seq<Row>, o: Options, start: nat)
    requires o.schema == [Field(Utf8, true)]
    ensures var batch := Build(rows, o, start); batch.Ok? && |batch.value| == 1 && |batch.value[0]| == |rows|
  {
    TextColumnFills(ColumnValues(rows, 0), o, start);
    hide ConvertColumn;
    assert BuildColumns(rows, o, start, 0) == Ok([]);
  }

  /** Where rows differ, so do batches large enough to hold all of them. */
  lemma MoreRowsMoreCells(
    text: string, lines: seq<string>, rows: seq<Row>, taken: seq<Row>, o: Options, separator: char, delimiter: char)
    requires o.schema == [Field(Utf8, true)] && o.batchSize > |lines| && o.batchSize >= |rows| && lines == Lines(text)
    requires Rows(text, 0, separator, delimiter) == Ok(rows) && |taken| < |rows|
    requires var r := Read(AsRead(lines), o.batchSize, 0, o); r.error.None? && r.rows == taken
    ensures !BatchesAgree(text, o, separator, delimiter)
  {
    hide Rows, Read, Build, Lines;
    TextColumnBuilds(rows, o, 0);
    TextColumnBuilds(taken, o, 0);
    assert Chunks(rows, o.batchSize) == [rows];
    var first := Build(rows, o, 0).value;
    assert BuildAll([], o) == Ok([]);
    assert [rows][1..] == [];
    assert BuildAll([rows], o) == Ok([first] + []);
    assert ([first] + [])[0] == first;
  }

  lemma ReadOneLine(lines: seq<Line>, text: string, row: nat, o: Options)
    requires lines != [] && lines[0].Ok? && text == TrimBreaks(lines[0].value) && !o.parse(text).1
    ensures Read(lines, 1, row, o) == Reading(if text == "" then [] else [o.parse(text).0], 1, false, None)
  {
    hide TrimBreaks;
    assert Read(lines[1..], 0, row, o) == Reading([], 0, false, None);
    assert Read(lines[1..], 0, row + 1, o) == Reading([], 0, false, None);
  }

  /** A blank line that is read alone ends the reading before any line that is not closed. */
  lemma {:induction false} BlankEndsReading(lines: seq<string>, row: nat, o: Options, separator: char, delimiter: char)
    requires o.schema == [Field(Utf8, true)] && o.batchSize == 1 && !IsBreak(delimiter) && ParsesWith(o, separator, delimiter)
    requires !OddBeforeBlank(lines, delimiter)
    ensures Drain(State(AsRead(lines), row, false), o).Ok?
    decreases |lines|
  {
    hide Odd, TrimBreaks, Parse, Build, Read;
    var line, body, rest := lines[0], TrimBreaks(lines[0]), AsRead(lines)[1..];
    assert rest == AsRead(lines[1..]) && AsRead(lines)[0] == Ok(line);
    TrimmedIsPrefix(line, delimiter);
    OpenIsOddLine(body, line, separator, delimiter);
    ReadOneLine(AsRead(lines), body, row, o);
    if body != "" {
      TextColumnBuilds([o.parse(body).0], o, row);
      BlankEndsReading(lines[1..], row + 1, o, separator, delimiter);
    }
  }

  /** On any other text the exports disagree for some batch size, whatever the quotes, even with one
      text column and no conversion: so the condition is exact. */
  lemma ReaderDisagreesElsewhere(text: string, separator: char, delimiter: char) returns (o: Options)
    requires !IsBreak(separator) && !IsBreak(delimiter) && !IsSafe(text, delimiter)
    ensures o.batchSize > 0 && ParsesWith(o, separator, delimiter) && !BatchesAgree(text, o, separator, delimiter)
  {
    hide Odd, Rows, RowList, Read, NoneOdd, OddBeforeBlank, AllSingle, AreLines, Parse, Drain, Lines, TextOf;
    var lines, rows := Lines(text), RowList(text, separator, delimiter);
    LinesConserveText(text);
    RefusedIffOdd(text, 0, separator, delimiter);
    o := TextColumn(if Odd(text, delimiter) then 1 else |lines| + |rows| + 1, separator, delimiter);
    ReadWhole(lines, |lines| + |rows| + 1, 0, o, separator, delimiter);
    if Odd(text, delimiter) {
      BlankEndsReading(lines, 0, o, separator, delimiter);
    } else if NoneOdd(lines, delimiter) {
      RowsOfLines(lines, o, separator, delimiter);
      MoreRowsMoreCells(text, lines, rows, ParsedRows(AsRead(lines), o), o, separator, delimiter);
    } else {
      ReaderRefuses(lines, o);
      ExportSucceeds(text, rows, o, separator, delimiter);
    }
  }

  lemma ReaderRefuses(lines: seq<string>, o: Options)
    requires Read(AsRead(lines), o.batchSize, 0, o).error.Some?
    ensures Drain(State(AsRead(lines), 0, false), o).Err?
  {
    hide Read;
  }

  lemma ExportSucceeds(text: string, rows: seq<Row>, o: Options, separator: char, delimiter: char)
    requires o.schema == [Field(Utf8, true)] && o.batchSize >= |rows| && o.batchSize > 0
    requires Rows(text, 0, separator, delimiter) == Ok(rows)
    ensures ExportText(text, o, true, separator, delimiter).Ok?
  {
    hide Rows, Build;
    TextColumnBuilds(rows, o, 0);
    assert BuildAll([], o) == Ok([]) && [rows][1..] == [];
    assert BuildAll([rows], o).Ok?;
  }

  // ---------------------------------------------------------------------------------------------
  // Where they differ
  // ---------------------------------------------------------------------------------------------

  lemma {:induction false} QuotedToTheEnd(text: string, current: string, separator: char, delimiter: char)
    requires delimiter !in text
    ensures RowFields(text + [delimiter], true, current, separator, delimiter) == ([current + text], None, false)
    ensures Fields(text, true, current, separator, delimiter) == ([current + text], true)
  {
    if text == "" {
      assert text + [delimiter] == [delimiter] && [delimiter][1..] == "" && current + text == current;
    } else {
      var c, rest := text[0], text[1..];
      assert c in text && (text + [delimiter])[1..] == rest + [delimiter];
      QuotedToTheEnd(rest, current + [c], separator, delimiter);
      Longer(current, text);
    }
  }

  /** A line break in quotes is one row of the text, while its first line alone is not closed, so the
      reader refuses it. */
  lemma QuotedBreakIsOneRow(before: string, after: string, separator: char, delimiter: char)
    requires delimiter !in before && delimiter !in after && !IsBreak(delimiter)
    ensures var field := before + ['\n'] + after;
            Rows([delimiter] + field + [delimiter], 0, separator, delimiter) == Ok([[field]]) &&
            Parse([delimiter] + before, separator, delimiter).1
  {
    var field := before + ['\n'] + after;
    var s := [delimiter] + field + [delimiter];
    assert s[1..] == field + [delimiter] && ([delimiter] + before)[1..] == before;
    QuotedToTheEnd(field, "", separator, delimiter);
    QuotedToTheEnd(before, "", separator, delimiter);
    assert "" + field == field;
    assert NextRow(s, 0, separator, delimiter) == (Some(Ok([field])), "", 1);
    assert Rows("", 1, separator, delimiter) == Ok([]);
    assert [[field]] + [] == [[field]];
  }

  /** A blank line is a row of one empty field for the one and nothing for the other. */
  lemma BlankLineIsARow(rest: string, separator: char, delimiter: char, o: Options)
    requires !IsBreak(separator) && !IsBreak(delimiter)
    ensures NextRow("\n" + rest, 0, separator, delimiter) == (Some(Ok([""])), rest, 1) && RowOf(Ok("\n"), o) == []
  {
    assert ("\n" + rest)[1..] == rest;
    assert TrimBreaks("\n") == "" by { assert "\n"[..0] == ""; }
  }
}
