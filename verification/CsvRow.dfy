/** Splitting one CSV line into fields (src/export/csv.rs:986-1027). */
module CsvRow {
  import opened Text
  import opened SqlText

  /** The fields still to come, the first of which has begun with `current`, and whether the line
      ends inside quotes. */
  function Fields(s: string, inQuotes: bool, current: string, separator: char, delimiter: char): (r: (seq<string>, bool))
    ensures r.0 != []
    decreases |s|
  {
    if s == "" then ([current], inQuotes)
    else if inQuotes then
      if s[0] != delimiter then Fields(s[1..], true, current + [s[0]], separator, delimiter)
      else if |s| >= 2 && s[1] == delimiter then Fields(s[2..], true, current + [delimiter], separator, delimiter)
      else Fields(s[1..], false, current, separator, delimiter)
    else if s[0] == delimiter then Fields(s[1..], true, current, separator, delimiter)
    else if s[0] == separator then
      var (rest, open) := Fields(s[1..], false, "", separator, delimiter);
      ([current] + rest, open)
    else Fields(s[1..], false, current + [s[0]], separator, delimiter)
  }

  function Parse(line: string, separator: char, delimiter: char): (seq<string>, bool) {
    Fields(line, false, "", separator, delimiter)
  }

  function Prepend(fields: seq<string>, r: (seq<string>, bool)): (seq<string>, bool) { (fields + r.0, r.1) }

  lemma PrependNothing(r: (seq<string>, bool))
    ensures Prepend([], r) == r
  {
    assert [] + r.0 == r.0;
  }

  lemma PrependMore(fields: seq<string>, field: string, r: (seq<string>, bool))
    ensures Prepend(fields, ([field] + r.0, r.1)) == Prepend(fields + [field], r)
  {
    assert fields + ([field] + r.0) == fields + [field] + r.0;
  }

  method ParseCsvRow(line: string, separator: char, delimiter: char) returns (fields: seq<string>, inQuotes: bool)
    ensures (fields, inQuotes) == Parse(line, separator, delimiter)
  {
    fields, inQuotes := [], false;
    var currentField, position := "", 0;
    PrependNothing(Parse(line, separator, delimiter));
    assert line[0..] == line;
    hide Prepend;
    while position < |line|
      invariant position <= |line|
      invariant Parse(line, separator, delimiter) ==
                Prepend(fields, Fields(line[position..], inQuotes, currentField, separator, delimiter))
    {
      var c := line[position];
      assert line[position..][1..] == line[position + 1..];
      if inQuotes {
        if c == delimiter {
          if position + 1 < |line| && line[position + 1] == delimiter {
            assert line[position..][2..] == line[position + 2..];
            currentField := currentField + [delimiter];
            position := position + 1;
          } else {
            inQuotes := false;
          }
        } else {
          currentField := currentField + [c];
        }
      } else if c == delimiter {
        inQuotes := true;
      } else if c == separator {
        PrependMore(fields, currentField, Fields(line[position + 1..], false, "", separator, delimiter));
        fields := fields + [currentField];
        currentField := "";
      } else {
        currentField := currentField + [c];
      }
      position := position + 1;
    }
    LastField(fields, currentField, inQuotes);
    fields := fields + [currentField];
  }

  lemma LastField(fields: seq<string>, field: string, inQuotes: bool)
    ensures Prepend(fields, ([field], inQuotes)) == (fields + [field], inQuotes)
  {
  }

  // ---------------------------------------------------------------------------------------------
  // Parsing inverts printing
  // ---------------------------------------------------------------------------------------------

  /** A field as it may be written: quoted, with its delimiters doubled, or plain. */
  datatype Written = Written(text: string, quoted: bool)

  predicate IsWritten(w: Written, separator: char, delimiter: char) {
    !w.quoted ==> separator !in w.text && delimiter !in w.text
  }

  /** The text of a field, followed by `after`. */
  function PrintField(w: Written, delimiter: char, after: string): string {
    if w.quoted then [delimiter] + (Doubled(w.text, delimiter) + ([delimiter] + after)) else w.text + after
  }

  function PrintRow(fields: seq<Written>, separator: char, delimiter: char): string
    requires fields != []
  {
    PrintField(fields[0], delimiter,
               if |fields| == 1 then "" else [separator] + PrintRow(fields[1..], separator, delimiter))
  }

  function Texts(fields: seq<Written>): seq<string> { seq(|fields|, i requires 0 <= i < |fields| => fields[i].text) }

  lemma PlainStep(c: char, rest: string, current: string, separator: char, delimiter: char)
    requires c != separator && c != delimiter
    ensures Fields([c] + rest, false, current, separator, delimiter) == Fields(rest, false, current + [c], separator, delimiter)
  {
    assert ([c] + rest)[1..] == rest;
  }

  lemma {:induction false} PlainIsRead(text: string, rest: string, current: string, separator: char, delimiter: char)
    requires separator !in text && delimiter !in text
    ensures Fields(text + rest, false, current, separator, delimiter) == Fields(rest, false, current + text, separator, delimiter)
  {
    hide Fields;
    if text == "" {
      assert text + rest == rest && current + text == current;
    } else {
      var c := text[0];
      assert c in text;
      PlainStep(c, text[1..] + rest, current, separator, delimiter);
      PlainIsRead(text[1..], rest, current + [c], separator, delimiter);
      assert text + rest == [c] + (text[1..] + rest);
      assert current + text == current + [c] + text[1..];
    }
  }

  lemma QuotedStep(c: char, rest: string, current: string, separator: char, delimiter: char)
    requires c != delimiter
    ensures Fields([c] + rest, true, current, separator, delimiter) == Fields(rest, true, current + [c], separator, delimiter)
  {
    assert ([c] + rest)[1..] == rest;
  }

  lemma DoubledStep(rest: string, current: string, separator: char, delimiter: char)
    ensures Fields([delimiter, delimiter] + rest, true, current, separator, delimiter)
            == Fields(rest, true, current + [delimiter], separator, delimiter)
  {
    assert ([delimiter, delimiter] + rest)[2..] == rest;
  }

  lemma ClosingStep(rest: string, current: string, separator: char, delimiter: char)
    requires rest == "" || rest[0] != delimiter
    ensures Fields([delimiter] + rest, true, current, separator, delimiter) == Fields(rest, false, current, separator, delimiter)
  {
    assert ([delimiter] + rest)[1..] == rest;
  }

  lemma NothingQuoted(last: string, delimiter: char)
    ensures Doubled("", delimiter) + last == last
  {
  }

  lemma Longer(current: string, text: string)
    requires text != ""
    ensures current + text == current + [text[0]] + text[1..]
  {
  }

  lemma {:induction false} QuotedTextIsRead(text: string, rest: string, current: string, separator: char, delimiter: char)
    requires rest == "" || rest[0] != delimiter
    ensures Fields(Doubled(text, delimiter) + ([delimiter] + rest), true, current, separator, delimiter)
            == Fields(rest, false, current + text, separator, delimiter)
  {
    hide Fields, Doubled;
    var last := [delimiter] + rest;
    if text == "" {
      NothingQuoted(last, delimiter);
      assert current + text == current;
      ClosingStep(rest, current, separator, delimiter);
    } else {
      var c, tail := text[0], Doubled(text[1..], delimiter) + last;
      DoubledCons(text, delimiter, last);
      QuotedTextIsRead(text[1..], rest, current + [c], separator, delimiter);
      Longer(current, text);
      if c == delimiter {
        DoubledStep(tail, current, separator, delimiter);
      } else {
        QuotedStep(c, tail, current, separator, delimiter);
      }
    }
  }

  lemma OpeningStep(rest: string, separator: char, delimiter: char)
    ensures Fields([delimiter] + rest, false, "", separator, delimiter) == Fields(rest, true, "", separator, delimiter)
  {
    assert ([delimiter] + rest)[1..] == rest;
  }

  lemma FieldIsRead(w: Written, rest: string, separator: char, delimiter: char)
    requires IsWritten(w, separator, delimiter) && (rest == "" || rest[0] != delimiter)
    ensures Fields(PrintField(w, delimiter, rest), false, "", separator, delimiter)
            == Fields(rest, false, w.text, separator, delimiter)
  {
    hide Fields, Doubled;
    assert "" + w.text == w.text;
    if w.quoted {
      OpeningStep(Doubled(w.text, delimiter) + ([delimiter] + rest), separator, delimiter);
      QuotedTextIsRead(w.text, rest, "", separator, delimiter);
    } else {
      PlainIsRead(w.text, rest, "", separator, delimiter);
    }
  }

  lemma SeparatorStep(rest: string, current: string, separator: char, delimiter: char)
    requires separator != delimiter
    ensures Fields([separator] + rest, false, current, separator, delimiter)
            == ([current] + Fields(rest, false, "", separator, delimiter).0, Fields(rest, false, "", separator, delimiter).1)
  {
    assert ([separator] + rest)[1..] == rest;
  }

  /** Parsing inverts printing: a written row is read as exactly its fields, whatever they contain. */
  lemma {:induction false} ParsingInvertsPrinting(fields: seq<Written>, separator: char, delimiter: char)
    requires fields != [] && separator != delimiter && forall w :: w in fields ==> IsWritten(w, separator, delimiter)
    ensures Parse(PrintRow(fields, separator, delimiter), separator, delimiter) == (Texts(fields), false)
  {
    hide PrintField, IsWritten;
    if |fields| == 1 {
      FieldIsRead(fields[0], "", separator, delimiter);
      assert Texts(fields) == [fields[0].text];
    } else {
      hide Fields;
      var rest := PrintRow(fields[1..], separator, delimiter);
      ParsingInvertsPrinting(fields[1..], separator, delimiter);
      FieldIsRead(fields[0], [separator] + rest, separator, delimiter);
      SeparatorStep(rest, fields[0].text, separator, delimiter);
      assert Texts(fields) == [fields[0].text] + Texts(fields[1..]);
    }
  }

  function CountOf(s: string, c: char): nat { if s == "" then 0 else (if s[0] == c then 1 else 0) + CountOf(s[1..], c) }

  lemma {:induction false} OpenIffOddFrom(s: string, inQuotes: bool, current: string, separator: char, delimiter: char)
    ensures Fields(s, inQuotes, current, separator, delimiter).1 <==> inQuotes != (CountOf(s, delimiter) % 2 == 1)
    decreases |s|
  {
    if s != "" {
      if inQuotes && s[0] == delimiter && |s| >= 2 && s[1] == delimiter {
        assert s[1..][1..] == s[2..];
        OpenIffOddFrom(s[2..], true, current + [delimiter], separator, delimiter);
      } else if inQuotes && s[0] != delimiter {
        OpenIffOddFrom(s[1..], true, current + [s[0]], separator, delimiter);
      } else if s[0] == delimiter {
        OpenIffOddFrom(s[1..], !inQuotes, current, separator, delimiter);
      } else {
        OpenIffOddFrom(s[1..], false, if s[0] == separator then "" else current + [s[0]], separator, delimiter);
      }
    }
  }

  /** A line is reported unclosed exactly when it holds an odd number of delimiters. */
  lemma OpenIffOdd(line: string, separator: char, delimiter: char)
    ensures Parse(line, separator, delimiter).1 <==> CountOf(line, delimiter) % 2 == 1
  {
    OpenIffOddFrom(line, false, "", separator, delimiter);
  }
}
