/** What `create_append` does to the DDL of a bulk ingest (src/adbc_ffi.rs:2183-2213): it replaces every
    "CREATE TABLE" in the finished text, so in the caller's names as well. */
module CreateAppend {
  import opened Text
  import opened SqlText
  import opened SqlClauses

  // ---------------------------------------------------------------------------------------------
  // The replacement, part by part
  // ---------------------------------------------------------------------------------------------

  /** "CREATE TABLE" occurs in `text`. */
  predicate Mentions(text: string) { text != "" && (CREATE <= text || Mentions(text[1..])) }

  lemma ReplaceWord(rest: string)
    ensures WithIfAbsent(CREATE + rest) == CREATE_IF_ABSENT + WithIfAbsent(rest)
  {
    assert (CREATE + rest)[|CREATE|..] == rest;
  }

  lemma ReplaceChar(c: char, rest: string)
    requires !(CREATE <= [c] + rest)
    ensures WithIfAbsent([c] + rest) == [c] + WithIfAbsent(rest)
  {
    assert ([c] + rest)[1..] == rest;
  }

  lemma ReplaceOther(c: char, rest: string)
    requires c !in CREATE
    ensures WithIfAbsent([c] + rest) == [c] + WithIfAbsent(rest)
  {
    assert CREATE[0] in CREATE && ([c] + rest)[0] == c;
    ReplaceChar(c, rest);
  }

  lemma {:induction false} UnchangedIffUnmentioned(text: string)
    ensures WithIfAbsent(text) == text <==> !Mentions(text)
    ensures |WithIfAbsent(text)| == |text| <==> !Mentions(text)
  {
    assert |CREATE| == 12 && |CREATE_IF_ABSENT| == 26;
    if text != "" && !(CREATE <= text) {
      UnchangedIffUnmentioned(text[1..]);
      assert text == [text[0]] + text[1..];
    }
  }

  /** A character that is not in the word cannot be inside an occurrence. */
  lemma NoOccurrenceAcross(a: string, c: char, b: string)
    requires c !in CREATE
    ensures CREATE <= a + ([c] + b) <==> CREATE <= a
  {
    var whole := a + ([c] + b);
    assert whole[|a|] == c;
    if |a| < |CREATE| {
      assert CREATE[|a|] in CREATE;
    } else {
      assert whole[..|CREATE|] == a[..|CREATE|];
    }
  }

  lemma {:induction false} ReplaceSplits(a: string, c: char, b: string)
    requires c !in CREATE
    ensures WithIfAbsent(a + ([c] + b)) == WithIfAbsent(a) + ([c] + WithIfAbsent(b))
  {
    hide WithIfAbsent;
    NoOccurrenceAcross(a, c, b);
    var rest := [c] + WithIfAbsent(b);
    if a == "" {
      assert a + ([c] + b) == [c] + b;
      ReplaceChar(c, b);
      ReplaceNothing();
    } else if CREATE <= a {
      var tail := a[|CREATE|..];
      assert a == CREATE + tail;
      ReplaceSplits(tail, c, b);
      ReplaceWord(tail);
      ReplaceWord(tail + ([c] + b));
      assert a + ([c] + b) == CREATE + (tail + ([c] + b));
      Associative(CREATE_IF_ABSENT, WithIfAbsent(tail), rest);
    } else {
      var first, tail := a[0], a[1..];
      assert a == [first] + tail;
      ReplaceSplits(tail, c, b);
      ReplaceChar(first, tail);
      assert a + ([c] + b) == [first] + (tail + ([c] + b));
      ReplaceChar(first, tail + ([c] + b));
      Associative([first], WithIfAbsent(tail), rest);
    }
  }

  lemma ReplaceNothing()
    ensures WithIfAbsent("") == ""
  {
  }

  /** So the replacement works on each side of a place that does not begin within the word. */
  lemma ReplaceJoined(a: string, b: string)
    requires b == "" || b[0] !in CREATE
    ensures WithIfAbsent(a + b) == WithIfAbsent(a) + WithIfAbsent(b)
  {
    if b == "" {
      assert a + b == a && WithIfAbsent(a) + "" == WithIfAbsent(a);
    } else {
      assert b == [b[0]] + b[1..];
      hide WithIfAbsent;
      ReplaceSplits(a, b[0], b[1..]);
      ReplaceOther(b[0], b[1..]);
    }
  }

  // ---------------------------------------------------------------------------------------------
  // Quoted text
  // ---------------------------------------------------------------------------------------------

  lemma {:induction false} PrefixOfDoubled(word: string, text: string, quote: char)
    requires quote !in word
    ensures word <= Doubled(text, quote) <==> word <= text
  {
    if word != "" && text != "" && text[0] != quote {
      assert word == [word[0]] + word[1..] && text == [text[0]] + text[1..];
      forall c | c in word[1..] ensures c in word {}
      PrefixOfDoubled(word[1..], text[1..], quote);
      PrefixCons(word[0], word[1..], text[0], Doubled(text[1..], quote));
      PrefixCons(word[0], word[1..], text[0], text[1..]);
    } else if word != "" {
      assert word[0] in word;
    }
  }

  lemma PrefixCons(c: char, word: string, d: char, text: string)
    ensures [c] + word <= [d] + text <==> c == d && word <= text
  {
    if [c] + word <= [d] + text {
      assert ([d] + text)[0] == ([c] + word)[0];
      assert word == ([c] + word)[1..] && text == ([d] + text)[1..];
    }
  }

  /** Doubling quotes neither makes nor breaks an occurrence. */
  lemma {:induction false} DoublingCommutes(text: string, quote: char)
    requires IsQuote(quote)
    ensures WithIfAbsent(Doubled(text, quote)) == Doubled(WithIfAbsent(text), quote)
  {
    assert quote !in CREATE && quote !in CREATE_IF_ABSENT;
    PrefixOfDoubled(CREATE, text, quote);
    if text == "" {
    } else if CREATE <= text {
      var rest := text[|CREATE|..];
      assert text == CREATE + rest;
      hide WithIfAbsent, Doubled;
      DoublingCommutes(rest, quote);
      ReplaceWord(rest);
      DoubledJoined(CREATE, rest, quote);
      DoubledJoined(CREATE_IF_ABSENT, WithIfAbsent(rest), quote);
      PlainIsNotDoubled(CREATE, quote);
      PlainIsNotDoubled(CREATE_IF_ABSENT, quote);
      ReplaceWord(Doubled(rest, quote));
    } else {
      var c, rest := text[0], text[1..];
      assert text == [c] + rest;
      DoublingCommutes(rest, quote);
      DoubledChar(c, rest, quote);
      DoubledChar(c, WithIfAbsent(rest), quote);
      hide WithIfAbsent, Doubled;
      ReplaceChar(c, rest);
      if c == quote {
        ReplaceOther(c, Doubled(rest, quote));
        ReplaceOther(c, [c] + Doubled(rest, quote));
      } else {
        ReplaceChar(c, Doubled(rest, quote));
      }
    }
  }

  lemma DoubledChar(c: char, rest: string, quote: char)
    ensures Doubled([c] + rest, quote) == if c == quote then [c] + ([c] + Doubled(rest, quote)) else [c] + Doubled(rest, quote)
  {
    assert ([c] + rest)[1..] == rest;
  }

  lemma Enclosed(quote: char, body: string, rest: string)
    ensures [quote] + (body + [quote]) + rest == [quote] + (body + ([quote] + rest))
  {
  }

  lemma QuoteIsOutside(quote: char)
    requires IsQuote(quote)
    ensures quote !in CREATE
  {
  }

  lemma ReplaceQuoted(text: string, quote: char, rest: string)
    requires IsQuote(quote)
    ensures WithIfAbsent(Quoted(text, quote) + rest) == Quoted(WithIfAbsent(text), quote) + WithIfAbsent(rest)
  {
    hide WithIfAbsent, Doubled, IsQuote;
    QuoteIsOutside(quote);
    DoublingCommutes(text, quote);
    var body := Doubled(text, quote);
    Enclosed(quote, body, rest);
    ReplaceOther(quote, body + ([quote] + rest));
    ReplaceSplits(body, quote, rest);
    Enclosed(quote, WithIfAbsent(body), WithIfAbsent(rest));
  }

  // ---------------------------------------------------------------------------------------------
  // Pieces
  // ---------------------------------------------------------------------------------------------

  function RenamePiece(p: Piece): Piece { p.(text := WithIfAbsent(p.text)) }

  function Renamed(pieces: seq<Piece>): seq<Piece> {
    seq(|pieces|, i requires 0 <= i < |pieces| => RenamePiece(pieces[i]))
  }

  /** No two fixed texts meet where an occurrence could run across. */
  predicate Apart(pieces: seq<Piece>) {
    (forall i :: 0 <= i < |pieces| && pieces[i].Fixed? ==> pieces[i].text != "") &&
    forall i :: 0 <= i < |pieces| - 1 && pieces[i].Fixed? && pieces[i + 1].Fixed? ==> pieces[i + 1].text[0] !in CREATE
  }

  predicate MeetApart(a: seq<Piece>, b: seq<Piece>) {
    a != [] && b != [] && a[|a| - 1].Fixed? && b[0].Fixed? ==> b[0].text != "" && b[0].text[0] !in CREATE
  }

  lemma ApartJoined(a: seq<Piece>, b: seq<Piece>)
    requires Apart(a) && Apart(b) && MeetApart(a, b)
    ensures Apart(a + b)
  {
  }

  lemma ApartRest(pieces: seq<Piece>)
    requires Apart(pieces) && pieces != []
    ensures Apart(pieces[1..])
  {
    forall i | 0 <= i < |pieces[1..]|
      ensures pieces[1..][i] == pieces[i + 1]
    {
    }
  }

  lemma AfterFixed(pieces: seq<Piece>)
    requires Apart(pieces) && pieces != [] && pieces[0].Fixed?
    ensures var rest := Print(pieces[1..]); rest == "" || rest[0] !in CREATE
  {
    if |pieces| > 1 {
      assert pieces[1..][0] == pieces[1];
      assert '\'' !in CREATE && '"' !in CREATE;
    }
  }

  /** Replacing in the printed text is replacing in every piece. */
  lemma {:induction false} ReplacePrinted(pieces: seq<Piece>)
    requires Apart(pieces)
    ensures WithIfAbsent(Print(pieces)) == Print(Renamed(pieces))
  {
    hide WithIfAbsent, Quoted, Apart;
    if pieces == [] {
      ReplaceNothing();
    } else {
      ApartRest(pieces);
      ReplacePrinted(pieces[1..]);
      assert Renamed(pieces)[1..] == Renamed(pieces[1..]);
      var rest := Print(pieces[1..]);
      match pieces[0]
      case Fixed(text) =>
        AfterFixed(pieces);
        ReplaceJoined(text, rest);
      case Lit(text) => ReplaceQuoted(text, '\'', rest);
      case Ident(text) => ReplaceQuoted(text, '"', rest);
    }
  }

  lemma {:induction false} ReplaceKeepsNoQuote(text: string)
    requires NoQuote(text)
    ensures NoQuote(WithIfAbsent(text)) && |WithIfAbsent(text)| >= |text|
  {
    if text != "" {
      var rest := if CREATE <= text then text[|CREATE|..] else text[1..];
      assert text[0] in text;
      forall c | c in rest ensures c in text {}
      ReplaceKeepsNoQuote(rest);
    }
  }

  lemma RenamedIsSeparated(pieces: seq<Piece>)
    requires Separated(pieces)
    ensures Separated(Renamed(pieces))
  {
    hide WithIfAbsent, NoQuote;
    forall i | 0 <= i < |pieces| && Renamed(pieces)[i].Fixed?
      ensures Renamed(pieces)[i].text != "" && NoQuote(Renamed(pieces)[i].text)
    {
      ReplaceKeepsNoQuote(pieces[i].text);
    }
  }

  /** So text whose pieces stand apart is still read as its template after the replacement, with every
      name of the caller replaced by itself after the replacement. */
  lemma ReplacedIsRead(s: string, pieces: seq<Piece>)
    requires Reads(s, pieces) && Apart(pieces)
    ensures Lex(WithIfAbsent(s)) == Some(Tokens(Renamed(pieces)))
  {
    hide Lex, Apart, Separated, Tokens, Renamed;
    ReplacePrinted(pieces);
    RenamedIsSeparated(pieces);
    LexInvertsPrint(Renamed(pieces));
  }

  // ---------------------------------------------------------------------------------------------
  // The DDL
  // ---------------------------------------------------------------------------------------------

  function RenamedField(field: Field): Field {
    Field(WithIfAbsent(field.name), WithIfAbsent(field.ddlType), field.nullable)
  }

  function RenamedFields(fields: seq<Field>): seq<Field> {
    seq(|fields|, i requires 0 <= i < |fields| => RenamedField(fields[i]))
  }

  /** The template of the statement that creates the table only if it is absent. */
  function CreateIfAbsentPieces(name: seq<Piece>, fields: seq<Field>): seq<Piece> {
    [Fixed("CREATE TABLE IF NOT EXISTS ")] + name + [Fixed(" (")] + JoinedPieces(DefinitionPieces(fields), ", ") + [Fixed(")")]
  }

  lemma NoOccurrenceAtBlank(text: string)
    ensures CREATE <= text + " " <==> CREATE <= text
  {
    assert (text + " ")[|text|] == ' ' && CREATE[|CREATE| - 1] == 'E';
    if |text| >= |CREATE| {
      assert (text + " ")[..|CREATE|] == text[..|CREATE|];
    }
  }

  lemma ReplaceBlankBefore(text: string)
    ensures WithIfAbsent([' '] + text) == [' '] + WithIfAbsent(text)
  {
    assert ([' '] + text)[0] == ' ' && CREATE[0] == 'C';
    ReplaceChar(' ', text);
  }

  /** The word does not end in a blank, so a blank after a text is no part of an occurrence. */
  lemma {:induction false} ReplaceBlankAfter(text: string)
    ensures WithIfAbsent(text + " ") == WithIfAbsent(text) + " "
  {
    if text == "" {
      assert text + " " == " " && WithIfAbsent("") + " " == " ";
      assert " " == [' '] + "";
      ReplaceChar(' ', "");
    } else if CREATE <= text {
      var tail := text[|CREATE|..];
      assert text == CREATE + tail && text + " " == CREATE + (tail + " ");
      hide WithIfAbsent;
      ReplaceBlankAfter(tail);
      ReplaceWord(tail);
      ReplaceWord(tail + " ");
    } else {
      var c, tail := text[0], text[1..];
      assert text == [c] + tail && text + " " == [c] + (tail + " ");
      NoOccurrenceAtBlank(text);
      hide WithIfAbsent;
      ReplaceBlankAfter(tail);
      ReplaceChar(c, tail);
      ReplaceChar(c, tail + " ");
    }
  }

  lemma TypeText(t: string)
    ensures " " + t + "" == [' '] + t
    ensures " " + t + " NOT NULL" == ([' '] + t + " ") + "NOT NULL"
  {
    assert " NOT NULL" == " " + "NOT NULL";
  }

  /** `NOT NULL` after a type: neither it nor the blank before it is part of an occurrence. */
  lemma ReplaceNotNull(text: string, word: string)
    requires word == "NOT NULL"
    ensures WithIfAbsent(text + " " + word) == WithIfAbsent(text) + " " + word
  {
    assert word[0] !in CREATE;
    UnmentionedWord();
    hide WithIfAbsent;
    ReplaceJoined(text + " ", word);
    ReplaceBlankAfter(text);
  }

  lemma TypeIsReplaced(field: Field)
    ensures WithIfAbsent(ColumnType(field)) == ColumnType(RenamedField(field))
  {
    hide WithIfAbsent;
    var t, r := field.ddlType, WithIfAbsent(field.ddlType);
    ReplaceBlankBefore(t);
    TypeText(t);
    TypeText(r);
    if !field.nullable { ReplaceNotNull([' '] + t, "NOT NULL"); }
  }

  lemma UnmentionedWord() ensures WithIfAbsent("NOT NULL") == "NOT NULL" {}

  lemma OnlyTheWord() ensures WithIfAbsent("CREATE TABLE ") == "CREATE TABLE IF NOT EXISTS " {
    assert "CREATE TABLE " == CREATE + " ";
    ReplaceWord(" ");
    assert " " == [' '] + "";
    ReplaceBlankBefore("");
  }

  lemma {:induction false} RenamedColumns(fields: seq<Field>)
    ensures Renamed(JoinedPieces(DefinitionPieces(fields), ", ")) == JoinedPieces(DefinitionPieces(RenamedFields(fields)), ", ")
    ensures Apart(JoinedPieces(DefinitionPieces(fields), ", "))
    ensures fields != [] ==> !JoinedPieces(DefinitionPieces(fields), ", ")[0].Fixed?
  {
    hide WithIfAbsent, ColumnType;
    if fields != [] {
      ColumnRenamed(fields[0]);
      var first, rest := ColumnPieces(fields[0]), fields[1..];
      var joined := JoinedPieces(DefinitionPieces(rest), ", ");
      assert DefinitionPieces(fields)[1..] == DefinitionPieces(rest);
      assert RenamedFields(fields)[1..] == RenamedFields(rest);
      assert DefinitionPieces(RenamedFields(fields))[1..] == DefinitionPieces(RenamedFields(rest));
      if rest != [] {
        RenamedColumns(rest);
        CommaUnchanged();
        assert ',' !in CREATE;
        ApartJoined(first, [Fixed(", ")]);
        ApartJoined(first + [Fixed(", ")], joined);
        RenamedJoined(first, [Fixed(", ")]);
        RenamedJoined(first + [Fixed(", ")], joined);
        assert Renamed([Fixed(", ")]) == [Fixed(", ")];
      }
    }
  }

  lemma CommaUnchanged() ensures WithIfAbsent(", ") == ", " {}

  lemma RenamedJoined(a: seq<Piece>, b: seq<Piece>)
    ensures Renamed(a + b) == Renamed(a) + Renamed(b)
  {
  }

  lemma ColumnRenamed(field: Field)
    ensures Renamed(ColumnPieces(field)) == ColumnPieces(RenamedField(field)) && Apart(ColumnPieces(field))
  {
    ColumnPiecesAre(field);
    ColumnPiecesAre(RenamedField(field));
    hide WithIfAbsent, ColumnPieces;
    TypeIsReplaced(field);
    assert Renamed(ColumnPieces(field)) == [RenamePiece(ColumnPieces(field)[0]), RenamePiece(ColumnPieces(field)[1])];
  }

  /** The pieces of the DDL stand apart, and replaced they are the conditional statement's. */
  lemma DdlRenamed(name: seq<Piece>, fields: seq<Field>)
    requires Apart(name) && name != [] && !name[0].Fixed? && !name[|name| - 1].Fixed?
    ensures Apart(CreateTablePieces(name, fields))
    ensures Renamed(CreateTablePieces(name, fields)) == CreateIfAbsentPieces(Renamed(name), RenamedFields(fields))
  {
    OnlyTheWord();
    BracketsUnchanged();
    assert ')' !in CREATE;
    hide WithIfAbsent, JoinedPieces, Definitions, RenamedFields;
    var columns := JoinedPieces(DefinitionPieces(fields), ", ");
    var one, two, three := [Fixed("CREATE TABLE ")] + name, [Fixed(" (")], [Fixed(")")];
    RenamedColumns(fields);
    FieldsMeet(fields);
    ApartJoined([Fixed("CREATE TABLE ")], name);
    ApartJoined(one, two);
    ApartJoined(one + two, columns);
    ApartJoined(one + two + columns, three);
    RenamedJoined([Fixed("CREATE TABLE ")], name);
    RenamedJoined(one, two);
    RenamedJoined(one + two, columns);
    RenamedJoined(one + two + columns, three);
    assert Renamed(two) == two && Renamed(three) == three;
    assert Renamed([Fixed("CREATE TABLE ")]) == [Fixed("CREATE TABLE IF NOT EXISTS ")];
  }

  lemma FieldsMeet(fields: seq<Field>)
    ensures fields == [] ==> JoinedPieces(DefinitionPieces(fields), ", ") == []
  {
  }

  lemma BracketsUnchanged() ensures WithIfAbsent(" (") == " (" && WithIfAbsent(")") == ")" {}

  lemma NameApart(schema: Option<string>, table: string)
    ensures var name := NamePieces(schema, table);
            Apart(name) && name != [] && !name[0].Fixed? && !name[|name| - 1].Fixed?
  {
    hide SplitOnce;
  }

  /** The replaced DDL is read as the conditional statement, but for the names after the replacement:
      a table or column whose name mentions CREATE TABLE is not the caller's any more. */
  lemma CreateAppendIsRead(schema: Option<string>, table: string, fields: seq<Field>)
    requires TypesHaveNoQuote(fields)
    ensures Lex(WithIfAbsent(CreateTable(QualifiedTableName(schema, table), fields)))
            == Some(Tokens(CreateIfAbsentPieces(Renamed(NamePieces(schema, table)), RenamedFields(fields))))
  {
    hide Lex, Tokens, Reads, Apart, QualifiedTableName, NamePieces, CreateTable, CreateTablePieces, CreateIfAbsentPieces;
    CreateTableReads(schema, table, fields);
    NameApart(schema, table);
    DdlRenamed(NamePieces(schema, table), fields);
    ReplacedIsRead(CreateTable(QualifiedTableName(schema, table), fields), CreateTablePieces(NamePieces(schema, table), fields));
  }

  // ---------------------------------------------------------------------------------------------
  // When nothing else changes
  // ---------------------------------------------------------------------------------------------

  predicate AnyMentions(pieces: seq<Piece>) { exists p :: p in pieces && Mentions(p.text) }

  lemma QuotedIsInjective(a: string, b: string, quote: char)
    requires Quoted(a, quote) == Quoted(b, quote)
    ensures a == b
  {
    hide ReadQuoted, Doubled;
    QuotedIsRead(a, quote, "");
    QuotedIsRead(b, quote, "");
    assert Quoted(a, quote)[1..] == Doubled(a, quote) + ([quote] + "");
    assert Quoted(b, quote)[1..] == Doubled(b, quote) + ([quote] + "");
  }

  lemma PieceGrows(p: Piece)
    ensures |PrintPiece(RenamePiece(p))| >= |PrintPiece(p)|
    ensures PrintPiece(RenamePiece(p)) == PrintPiece(p) <==> !Mentions(p.text)
    ensures |PrintPiece(RenamePiece(p))| == |PrintPiece(p)| <==> !Mentions(p.text)
  {
    UnchangedIffUnmentioned(p.text);
    UnchangedIffUnmentioned(PrintPiece(p));
    hide WithIfAbsent, Mentions, Quoted;
    if !p.Fixed? {
      var quote := if p.Lit? then '\'' else '"';
      ReplaceQuoted(p.text, quote, "");
      ReplaceNothing();
      assert Quoted(p.text, quote) + "" == Quoted(p.text, quote);
      assert Quoted(WithIfAbsent(p.text), quote) + "" == Quoted(WithIfAbsent(p.text), quote);
      if WithIfAbsent(PrintPiece(p)) == PrintPiece(p) { QuotedIsInjective(WithIfAbsent(p.text), p.text, quote); }
    }
  }

  lemma {:induction false} RenamedGrows(pieces: seq<Piece>)
    ensures |Print(Renamed(pieces))| >= |Print(pieces)|
    ensures Print(Renamed(pieces)) == Print(pieces) <==> !AnyMentions(pieces)
    ensures |Print(Renamed(pieces))| == |Print(pieces)| <==> !AnyMentions(pieces)
  {
    hide WithIfAbsent, Mentions, PrintPiece, RenamePiece;
    if pieces != [] {
      PieceGrows(pieces[0]);
      RenamedGrows(pieces[1..]);
      assert Renamed(pieces)[1..] == Renamed(pieces[1..]);
      assert forall p :: p in pieces <==> p == pieces[0] || p in pieces[1..];
    }
  }

  lemma {:induction false} DefinitionsSpell(fields: seq<Field>)
    ensures Spells(JoinedBy(Definitions(fields), ", "), JoinedPieces(DefinitionPieces(fields), ", "))
  {
    hide Quoted, ColumnType;
    if fields != [] {
      var rest := fields[1..];
      ColumnSpells(fields[0]);
      assert Definitions(fields)[1..] == Definitions(rest) && DefinitionPieces(fields)[1..] == DefinitionPieces(rest);
      if rest != [] {
        DefinitionsSpell(rest);
        SpellsFixed(", ");
        hide Spells, ColumnDefinition, ColumnPieces;
        SpellsJoined(ColumnDefinition(fields[0]), ColumnPieces(fields[0]), ", ", [Fixed(", ")]);
        SpellsJoined(ColumnDefinition(fields[0]) + ", ", ColumnPieces(fields[0]) + [Fixed(", ")],
                     JoinedBy(Definitions(rest), ", "), JoinedPieces(DefinitionPieces(rest), ", "));
      }
    }
  }

  lemma ColumnSpells(field: Field)
    ensures Spells(ColumnDefinition(field), ColumnPieces(field))
  {
    hide Quoted, ColumnType, ColumnPieces;
    ColumnPiecesAre(field);
    PrintOne(Ident(field.name));
    assert Spells(Quoted(field.name, '"'), [Ident(field.name)]);
    SpellsFixed(ColumnType(field));
    hide Spells;
    SpellsJoined(Quoted(field.name, '"'), [Ident(field.name)], ColumnType(field), [Fixed(ColumnType(field))]);
    assert [Ident(field.name)] + [Fixed(ColumnType(field))] == ColumnPieces(field);
  }

  /** What follows the opening words of the DDL. */
  function RestPieces(name: seq<Piece>, fields: seq<Field>): seq<Piece> {
    name + [Fixed(" (")] + JoinedPieces(DefinitionPieces(fields), ", ") + [Fixed(")")]
  }

  lemma RestSpells(name: string, pieces: seq<Piece>, fields: seq<Field>)
    requires Spells(name, pieces)
    ensures var rest := name + " (" + JoinedBy(Definitions(fields), ", ") + ")";
            Spells(rest, RestPieces(pieces, fields)) && CreateTable(name, fields) == CREATE + (" " + rest)
  {
    DefinitionsSpell(fields);
    SpellsFixed(" (");
    SpellsFixed(")");
    hide Spells, JoinedBy, JoinedPieces, DefinitionPieces, Definitions;
    var columns, columnPieces := JoinedBy(Definitions(fields), ", "), JoinedPieces(DefinitionPieces(fields), ", ");
    SpellsJoined(name, pieces, " (", [Fixed(" (")]);
    SpellsJoined(name + " (", pieces + [Fixed(" (")], columns, columnPieces);
    SpellsJoined(name + " (" + columns, pieces + [Fixed(" (")] + columnPieces, ")", [Fixed(")")]);
    assert "CREATE TABLE " == CREATE + " ";
    assert CreateTable(name, fields) == CREATE + (" " + (name + " (" + columns + ")"));
  }

  lemma RestApart(name: seq<Piece>, fields: seq<Field>)
    requires Apart(CreateTablePieces(name, fields))
    ensures Apart(RestPieces(name, fields))
  {
    hide Apart;
    ApartRest(CreateTablePieces(name, fields));
    assert CreateTablePieces(name, fields)[1..] == RestPieces(name, fields);
  }

  /** One of the names or types that the caller gave mentions CREATE TABLE. */
  predicate NamesMention(schema: Option<string>, table: string, fields: seq<Field>) {
    (schema.Some? && Mentions(schema.value)) || Mentions(table) ||
    exists field :: field in fields && (Mentions(field.name) || Mentions(field.ddlType))
  }

  lemma MentionsJoined(a: string, c: char, b: string)
    requires c !in CREATE
    ensures Mentions(a + [c] + b) <==> Mentions(a) || Mentions(b)
  {
    hide Mentions, WithIfAbsent;
    UnchangedIffUnmentioned(a);
    UnchangedIffUnmentioned(b);
    UnchangedIffUnmentioned(a + [c] + b);
    assert a + [c] + b == a + ([c] + b);
    ReplaceSplits(a, c, b);
  }

  lemma PairMentions(first: string, second: string)
    ensures AnyMentions([Ident(first), Fixed("."), Ident(second)]) <==> Mentions(first) || Mentions(second)
  {
    assert !Mentions(".");
    hide Mentions;
    var name := [Ident(first), Fixed("."), Ident(second)];
    assert name[0] in name && name[2] in name;
  }

  lemma NameMentions(schema: Option<string>, table: string)
    ensures AnyMentions(NamePieces(schema, table)) <==> (schema.Some? && Mentions(schema.value)) || Mentions(table)
  {
    assert '.' !in CREATE;
    hide Mentions;
    if schema.Some? {
      PairMentions(schema.value, table);
    } else {
      var split := SplitOnce(table, '.');
      if split.Some? {
        assert table == split.value.0 + ['.'] + split.value.1;
        MentionsJoined(split.value.0, '.', split.value.1);
        PairMentions(split.value.0, split.value.1);
      } else {
        assert [Ident(table)][0] in [Ident(table)];
      }
    }
  }

  lemma ColumnMentions(field: Field)
    ensures AnyMentions(ColumnPieces(field)) <==> Mentions(field.name) || Mentions(field.ddlType)
  {
    hide Mentions, WithIfAbsent, ColumnPieces;
    ColumnPiecesAre(field);
    UnchangedIffUnmentioned(field.ddlType);
    UnchangedIffUnmentioned(ColumnType(field));
    TypeIsReplaced(field);
    var pieces := ColumnPieces(field);
    assert pieces[0] in pieces && pieces[1] in pieces;
  }

  lemma AnyMentionsJoined(a: seq<Piece>, b: seq<Piece>)
    ensures AnyMentions(a + b) <==> AnyMentions(a) || AnyMentions(b)
  {
    hide Mentions;
  }

  lemma FixedMentions(text: string)
    ensures AnyMentions([Fixed(text)]) <==> Mentions(text)
  {
    hide Mentions;
    assert [Fixed(text)][0] in [Fixed(text)];
  }

  lemma {:induction false} ColumnsMention(fields: seq<Field>)
    ensures AnyMentions(JoinedPieces(DefinitionPieces(fields), ", "))
            <==> exists field :: field in fields && (Mentions(field.name) || Mentions(field.ddlType))
  {
    assert !Mentions(", ");
    hide Mentions, ColumnPieces;
    if fields != [] {
      var first, rest := fields[0], fields[1..];
      ColumnMentions(first);
      ColumnsMention(rest);
      assert forall field :: field in fields <==> field == first || field in rest;
      assert DefinitionPieces(fields)[1..] == DefinitionPieces(rest);
      var joined := JoinedPieces(DefinitionPieces(rest), ", ");
      FixedMentions(", ");
      hide AnyMentions;
      AnyMentionsJoined(ColumnPieces(first), [Fixed(", ")]);
      AnyMentionsJoined(ColumnPieces(first) + [Fixed(", ")], joined);
    }
  }

  lemma RestMentions(schema: Option<string>, table: string, fields: seq<Field>)
    ensures AnyMentions(RestPieces(NamePieces(schema, table), fields)) <==> NamesMention(schema, table, fields)
  {
    assert !Mentions(" (") && !Mentions(")");
    NameMentions(schema, table);
    ColumnsMention(fields);
    FixedMentions(" (");
    FixedMentions(")");
    hide AnyMentions, Mentions, NamePieces, JoinedPieces, DefinitionPieces;
    var name, columns := NamePieces(schema, table), JoinedPieces(DefinitionPieces(fields), ", ");
    AnyMentionsJoined(name, [Fixed(" (")]);
    AnyMentionsJoined(name + [Fixed(" (")], columns);
    AnyMentionsJoined(name + [Fixed(" (")] + columns, [Fixed(")")]);
  }

  /** The replacement makes the statement conditional and changes nothing else exactly when no name and
      no type that the caller gave mentions CREATE TABLE. */
  lemma CreateAppendIsExact(schema: Option<string>, table: string, fields: seq<Field>)
    ensures var ddl := CreateTable(QualifiedTableName(schema, table), fields);
            WithIfAbsent(ddl) == CREATE_IF_ABSENT + ddl[|CREATE|..] <==> !NamesMention(schema, table, fields)
  {
    hide WithIfAbsent, Mentions, Spells, Apart, NamesMention;
    hide AnyMentions, QualifiedTableName, NamePieces, RestPieces, CreateTable;
    var name, pieces := QualifiedTableName(schema, table), NamePieces(schema, table);
    QualifiedNameSpells(schema, table);
    RestSpells(name, pieces, fields);
    NameApart(schema, table);
    DdlRenamed(pieces, fields);
    RestApart(pieces, fields);
    var ddl := CreateTable(name, fields);
    var rest := name + " (" + JoinedBy(Definitions(fields), ", ") + ")";
    ExactIff(ddl, rest, RestPieces(pieces, fields));
    RestMentions(schema, table, fields);
  }

  lemma ExactIff(ddl: string, rest: string, pieces: seq<Piece>)
    requires ddl == CREATE + (" " + rest) && Spells(rest, pieces) && Apart(pieces)
    ensures WithIfAbsent(ddl) == CREATE_IF_ABSENT + ddl[|CREATE|..] <==> !AnyMentions(pieces)
  {
    hide WithIfAbsent, AnyMentions;
    ReplaceWord(" " + rest);
    assert " " + rest == [' '] + rest;
    ReplaceBlankBefore(rest);
    ReplacePrinted(pieces);
    RenamedGrows(pieces);
    assert ddl[|CREATE|..] == [' '] + rest;
    if CREATE_IF_ABSENT + ([' '] + WithIfAbsent(rest)) == CREATE_IF_ABSENT + ([' '] + rest) {
      assert (CREATE_IF_ABSENT + ([' '] + WithIfAbsent(rest)))[|CREATE_IF_ABSENT| + 1..] == WithIfAbsent(rest);
      assert (CREATE_IF_ABSENT + ([' '] + rest))[|CREATE_IF_ABSENT| + 1..] == rest;
    }
  }

  lemma ReplaceTheWord() ensures WithIfAbsent(CREATE) == CREATE_IF_ABSENT {
    assert CREATE == CREATE + "";
    ReplaceWord("");
    ReplaceNothing();
    hide WithIfAbsent;
    assert CREATE_IF_ABSENT + "" == CREATE_IF_ABSENT;
  }

  /** A column named `CREATE TABLE` is created under another name, whatever its table and type. */
  lemma ColumnIsRenamed(schema: Option<string>, table: string, ddlType: string, nullable: bool)
    requires NoQuote(ddlType)
    ensures var created := Field("CREATE TABLE IF NOT EXISTS", WithIfAbsent(ddlType), nullable);
            Lex(WithIfAbsent(CreateTable(QualifiedTableName(schema, table), [Field("CREATE TABLE", ddlType, nullable)])))
            == Some(Tokens(CreateIfAbsentPieces(Renamed(NamePieces(schema, table)), [created])))
  {
    hide WithIfAbsent, Lex, Tokens, Renamed, CreateTable, QualifiedTableName, NamePieces, CreateIfAbsentPieces, NoQuote;
    var field := Field(CREATE, ddlType, nullable);
    ReplaceTheWord();
    CreateAppendIsRead(schema, table, [field]);
    assert RenamedFields([field]) == [RenamedField(field)];
  }
}
