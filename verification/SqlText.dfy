/** SQL text with names and literals from the caller (src/adbc_ffi.rs:124-184, 578-671, 2183-2213 and
    src/query/clauses.rs:14-69).

    The reference is a lexer for character string literals (section 5.3 of ISO/IEC 9075-2) and
    delimited identifiers (section 5.2): what it reads from the emitted text must be the template with
    the caller's text in the quoted places, whatever that text is. */
module SqlText {
  import opened Text

  // ---------------------------------------------------------------------------------------------
  // Lexing
  // ---------------------------------------------------------------------------------------------

  datatype Token = Plain(c: char) | Literal(text: string) | Identifier(text: string)

  predicate IsQuote(c: char) { c == '\'' || c == '"' }

  /** The text up to the closing quote, in which a doubled quote stands for one, and what follows. */
  function ReadQuoted(s: string, quote: char): (r: Option<(string, string)>)
    ensures r.Some? ==> |r.value.1| < |s|
  {
    if s == "" then None
    else if s[0] == quote then
      if |s| >= 2 && s[1] == quote then
        var rest := ReadQuoted(s[2..], quote);
        if rest.None? then None else Some(([quote] + rest.value.0, rest.value.1))
      else Some(("", s[1..]))
    else
      var rest := ReadQuoted(s[1..], quote);
      if rest.None? then None else Some(([s[0]] + rest.value.0, rest.value.1))
  }

  function Lex(s: string): Option<seq<Token>>
    decreases |s|
  {
    if s == "" then Some([])
    else if IsQuote(s[0]) then
      var quoted := ReadQuoted(s[1..], s[0]);
      if quoted.None? then None
      else
        var rest := Lex(quoted.value.1);
        if rest.None? then None
        else Some([if s[0] == '\'' then Literal(quoted.value.0) else Identifier(quoted.value.0)] + rest.value)
    else
      var rest := Lex(s[1..]);
      if rest.None? then None else Some([Plain(s[0])] + rest.value)
  }

  // ---------------------------------------------------------------------------------------------
  // Printing
  // ---------------------------------------------------------------------------------------------

  /** `text.replace(quote, quote + quote)` */
  function Doubled(text: string, quote: char): string {
    if text == "" then "" else (if text[0] == quote then [quote, quote] else [text[0]]) + Doubled(text[1..], quote)
  }

  function Quoted(text: string, quote: char): string { [quote] + (Doubled(text, quote) + [quote]) }

  datatype Piece = Fixed(text: string) | Lit(text: string) | Ident(text: string)

  function PrintPiece(p: Piece): string {
    match p case Fixed(text) => text case Lit(text) => Quoted(text, '\'') case Ident(text) => Quoted(text, '"')
  }

  function Print(pieces: seq<Piece>): string {
    if pieces == [] then "" else PrintPiece(pieces[0]) + Print(pieces[1..])
  }

  function PlainTokens(text: string): seq<Token> { seq(|text|, i requires 0 <= i < |text| => Plain(text[i])) }

  /** What the pieces mean. */
  function Tokens(pieces: seq<Piece>): seq<Token> {
    if pieces == [] then []
    else
      (match pieces[0] case Fixed(text) => PlainTokens(text) case Lit(text) => [Literal(text)] case Ident(text) => [Identifier(text)])
      + Tokens(pieces[1..])
  }

  predicate NoQuote(text: string) { '\'' !in text && '"' !in text }

  /** Fixed text has no quotes, and quoted pieces stand apart. */
  predicate Separated(pieces: seq<Piece>) {
    (forall i :: 0 <= i < |pieces| && pieces[i].Fixed? ==> pieces[i].text != "" && NoQuote(pieces[i].text)) &&
    forall i :: 0 <= i < |pieces| - 1 ==> pieces[i].Fixed? || pieces[i + 1].Fixed?
  }

  /** What reading on yields, with `c` before it. */
  function Before(c: char, r: Option<(string, string)>): Option<(string, string)> {
    if r.None? then None else Some(([c] + r.value.0, r.value.1))
  }

  lemma ReadPlain(c: char, tail: string, quote: char)
    requires c != quote
    ensures ReadQuoted([c] + tail, quote) == Before(c, ReadQuoted(tail, quote))
  {
    assert ([c] + tail)[1..] == tail;
  }

  lemma ReadDoubled(tail: string, quote: char)
    ensures ReadQuoted([quote, quote] + tail, quote) == Before(quote, ReadQuoted(tail, quote))
  {
    assert ([quote, quote] + tail)[2..] == tail;
  }

  lemma ReadClosing(rest: string, quote: char)
    requires rest == "" || rest[0] != quote
    ensures ReadQuoted([quote] + rest, quote) == Some(("", rest))
  {
    assert ([quote] + rest)[1..] == rest;
  }

  lemma DoubledCons(text: string, quote: char, last: string)
    requires text != ""
    ensures Doubled(text, quote) + last ==
              (if text[0] == quote then [quote, quote] else [text[0]]) + (Doubled(text[1..], quote) + last)
  {
  }

  lemma {:induction false} QuotedIsRead(text: string, quote: char, rest: string)
    requires rest == "" || rest[0] != quote
    ensures ReadQuoted(Doubled(text, quote) + ([quote] + rest), quote) == Some((text, rest))
  {
    var last := [quote] + rest;
    if text == "" {
      assert Doubled(text, quote) + last == last;
      ReadClosing(rest, quote);
    } else {
      hide ReadQuoted, Doubled;
      var tail := Doubled(text[1..], quote) + last;
      QuotedIsRead(text[1..], quote, rest);
      DoubledCons(text, quote, last);
      if text[0] == quote {
        ReadDoubled(tail, quote);
      } else {
        ReadPlain(text[0], tail, quote);
      }
      assert text == [text[0]] + text[1..];
    }
  }

  lemma LexPlain(c: char, rest: string)
    requires !IsQuote(c) && Lex(rest).Some?
    ensures Lex([c] + rest) == Some([Plain(c)] + Lex(rest).value)
  {
    assert ([c] + rest)[1..] == rest;
  }

  lemma {:induction false} PlainIsRead(text: string, rest: string)
    requires NoQuote(text) && Lex(rest).Some?
    ensures Lex(text + rest) == Some(PlainTokens(text) + Lex(rest).value)
  {
    hide Lex;
    if text == "" {
      assert text + rest == rest;
      assert PlainTokens(text) + Lex(rest).value == Lex(rest).value;
    } else {
      assert text[0] in text;
      PlainIsRead(text[1..], rest);
      assert text + rest == [text[0]] + (text[1..] + rest);
      LexPlain(text[0], text[1..] + rest);
      var tokens := Lex(rest).value;
      assert PlainTokens(text) + tokens == [Plain(text[0])] + (PlainTokens(text[1..]) + tokens);
    }
  }

  lemma LexQuoted(quote: char, tail: string, text: string, rest: string)
    requires IsQuote(quote)
    requires ReadQuoted(tail, quote) == Some((text, rest)) && Lex(rest).Some?
    ensures Lex([quote] + tail) == Some([if quote == '\'' then Literal(text) else Identifier(text)] + Lex(rest).value)
  {
    hide ReadQuoted;
    assert ([quote] + tail)[1..] == tail;
  }

  lemma QuotedPieceIsRead(text: string, quote: char, rest: string)
    requires IsQuote(quote)
    requires (rest == "" || rest[0] != quote) && Lex(rest).Some?
    ensures Lex(Quoted(text, quote) + rest)
            == Some([if quote == '\'' then Literal(text) else Identifier(text)] + Lex(rest).value)
  {
    hide Lex, Doubled, ReadQuoted;
    QuotedIsRead(text, quote, rest);
    var tail := Doubled(text, quote) + ([quote] + rest);
    LexQuoted(quote, tail, text, rest);
    assert Quoted(text, quote) + rest == [quote] + tail;
  }

  /** What follows a quoted piece begins with fixed text, so it cannot extend the quotes. */
  lemma AfterQuoted(pieces: seq<Piece>)
    requires Separated(pieces) && pieces != [] && !pieces[0].Fixed?
    ensures var rest := Print(pieces[1..]); rest == "" || !IsQuote(rest[0])
  {
    if |pieces| > 1 {
      var next := pieces[1];
      assert next.Fixed? && next.text[0] in next.text;
      assert pieces[1..][0] == next;
    }
  }

  lemma SeparatedRest(pieces: seq<Piece>)
    requires Separated(pieces) && pieces != []
    ensures Separated(pieces[1..])
  {
    forall i | 0 <= i < |pieces[1..]|
      ensures pieces[1..][i] == pieces[i + 1]
    {
    }
  }

  /** Lexing inverts printing: the emitted text has exactly the template's tokens, with each literal
      and identifier standing for exactly the caller's text. */
  lemma {:induction false} LexInvertsPrint(pieces: seq<Piece>)
    requires Separated(pieces)
    ensures Lex(Print(pieces)) == Some(Tokens(pieces))
  {
    hide Quoted, Lex, Separated;
    if pieces == [] {
      LexNothing();
    } else {
      SeparatedRest(pieces);
      LexInvertsPrint(pieces[1..]);
      var rest := Print(pieces[1..]);
      match pieces[0]
      case Fixed(text) =>
        FixedHasNoQuote(pieces);
        PlainIsRead(text, rest);
      case Lit(text) =>
        AfterQuoted(pieces);
        QuotedPieceIsRead(text, '\'', rest);
      case Ident(text) =>
        AfterQuoted(pieces);
        QuotedPieceIsRead(text, '"', rest);
    }
  }

  lemma LexNothing()
    ensures Lex("") == Some([])
  {
  }

  lemma FixedHasNoQuote(pieces: seq<Piece>)
    requires Separated(pieces) && pieces != [] && pieces[0].Fixed?
    ensures NoQuote(pieces[0].text)
  {
  }

  lemma PrintCons(p: Piece, rest: seq<Piece>)
    ensures Print([p] + rest) == PrintPiece(p) + Print(rest)
  {
    assert ([p] + rest)[1..] == rest;
  }

  lemma PrintNothing()
    ensures Print([]) == ""
  {
  }

  lemma {:induction false} PrintJoined(a: seq<Piece>, b: seq<Piece>)
    ensures Print(a + b) == Print(a) + Print(b)
  {
    hide PrintPiece, Print;
    if a == [] {
      PrintNothing();
      assert a + b == b && "" + Print(b) == Print(b);
    } else {
      PrintJoined(a[1..], b);
      PrintCons(a[0], a[1..] + b);
      PrintCons(a[0], a[1..]);
      assert a + b == [a[0]] + (a[1..] + b) && a == [a[0]] + a[1..];
      Associative(PrintPiece(a[0]), Print(a[1..]), Print(b));
    }
  }

  lemma Associative(a: string, b: string, c: string)
    ensures a + (b + c) == a + b + c
  {
  }

  lemma PrintOne(p: Piece)
    ensures Print([p]) == PrintPiece(p)
  {
    assert [p][1..] == [];
  }

  /** `s` is the text of `pieces`. */
  predicate Spells(s: string, pieces: seq<Piece>) { s == Print(pieces) }

  lemma SpellsJoined(s: string, a: seq<Piece>, t: string, b: seq<Piece>)
    requires Spells(s, a) && Spells(t, b)
    ensures Spells(s + t, a + b)
  {
    PrintJoined(a, b);
  }

  lemma SpellsFixed(s: string)
    ensures Spells(s, [Fixed(s)])
  {
    PrintOne(Fixed(s));
  }

  // ---------------------------------------------------------------------------------------------
  // Names
  // ---------------------------------------------------------------------------------------------

  function QuoteIdentifier(name: string): string { Quoted(name, '"') }

  /** Without a schema the first dot of the table name separates one. */
  function QualifiedTableName(schema: Option<string>, table: string): string {
    if schema.Some? then QuoteIdentifier(schema.value) + "." + QuoteIdentifier(table)
    else
      var split := SplitOnce(table, '.');
      if split.Some? then QuoteIdentifier(split.value.0) + "." + QuoteIdentifier(split.value.1)
      else QuoteIdentifier(table)
  }

  function NamePieces(schema: Option<string>, table: string): seq<Piece> {
    if schema.Some? then [Ident(schema.value), Fixed("."), Ident(table)]
    else
      var split := SplitOnce(table, '.');
      if split.Some? then [Ident(split.value.0), Fixed("."), Ident(split.value.1)] else [Ident(table)]
  }

  lemma ThreePieces(a: Piece, b: Piece, c: Piece)
    ensures Print([a, b, c]) == PrintPiece(a) + PrintPiece(b) + PrintPiece(c)
  {
    hide PrintPiece;
    PrintOne(a);
    PrintOne(b);
    PrintOne(c);
    PrintJoined([a], [b]);
    PrintJoined([a] + [b], [c]);
    assert [a, b, c] == [a] + [b] + [c];
  }

  lemma QualifiedNameSpells(schema: Option<string>, table: string)
    ensures Spells(QualifiedTableName(schema, table), NamePieces(schema, table)) && Separated(NamePieces(schema, table))
  {
    hide Quoted, SplitOnce;
    var split := SplitOnce(table, '.');
    if schema.Some? {
      ThreePieces(Ident(schema.value), Fixed("."), Ident(table));
    } else if split.Some? {
      ThreePieces(Ident(split.value.0), Fixed("."), Ident(split.value.1));
    } else {
      PrintOne(Ident(table));
    }
  }

  /** A qualified name is read as the identifiers it names, joined by a dot. */
  lemma QualifiedNameIsRead(schema: Option<string>, table: string)
    ensures Lex(QualifiedTableName(schema, table)) == Some(Tokens(NamePieces(schema, table)))
  {
    hide QualifiedTableName, NamePieces, Separated;
    QualifiedNameSpells(schema, table);
    LexInvertsPrint(NamePieces(schema, table));
  }

  // ---------------------------------------------------------------------------------------------
  // Catalogue queries
  // ---------------------------------------------------------------------------------------------

  function LikeCondition(column: string, pattern: string): string {
    column + " LIKE " + Quoted(pattern, '\'')
  }

  function LikePieces(column: string, pattern: string): seq<Piece> { [Fixed(column + " LIKE "), Lit(pattern)] }

  function JoinedBy(parts: seq<string>, separator: string): string {
    if parts == [] then ""
    else if |parts| == 1 then parts[0]
    else parts[0] + separator + JoinedBy(parts[1..], separator)
  }

  function JoinedPieces(parts: seq<seq<Piece>>, separator: string): seq<Piece> {
    if parts == [] then []
    else if |parts| == 1 then parts[0]
    else parts[0] + [Fixed(separator)] + JoinedPieces(parts[1..], separator)
  }

  function WithWhere(sql: string, conditions: seq<string>): string {
    if conditions == [] then sql else sql + " WHERE " + JoinedBy(conditions, " AND ")
  }

  /** A `LIKE` condition for each filter that is given. */
  function Likes(filters: seq<(string, Option<string>)>): seq<string> {
    if filters == [] then []
    else (if filters[0].1.Some? then [LikeCondition(filters[0].0, filters[0].1.value)] else []) + Likes(filters[1..])
  }

  function LikesPieces(filters: seq<(string, Option<string>)>): seq<seq<Piece>> {
    if filters == [] then []
    else (if filters[0].1.Some? then [LikePieces(filters[0].0, filters[0].1.value)] else []) + LikesPieces(filters[1..])
  }

  function SelectFrom(columns: seq<string>, view: string): string {
    "SELECT " + JoinedBy(columns, ", ") + " FROM SYS." + view
  }

  function OrderBy(columns: seq<string>): string { " ORDER BY " + JoinedBy(columns, ", ") }

  const SCHEMAS_SELECT := SelectFrom(["SCHEMA_NAME"], "EXA_ALL_SCHEMAS")
  const SCHEMAS_ORDER := OrderBy(["SCHEMA_NAME"])

  function SchemasQuery(schema: Option<string>): string {
    WithWhere(SCHEMAS_SELECT, Likes([("SCHEMA_NAME", schema)])) + SCHEMAS_ORDER
  }

  const TABLES_SELECT := SelectFrom(["OBJECT_NAME", "OBJECT_TYPE", "ROOT_NAME"], "EXA_ALL_OBJECTS")
  const TABLES_ORDER := OrderBy(["ROOT_NAME", "OBJECT_NAME"])

  function QuotedTypes(types: seq<string>): seq<string> {
    seq(|types|, i requires 0 <= i < |types| => Quoted(types[i], '\''))
  }

  function TypeConditions(types: Option<seq<string>>): seq<string> {
    if types.None? then [] else ["OBJECT_TYPE IN (" + JoinedBy(QuotedTypes(types.value), ",") + ")"]
  }

  function TablesQuery(schema: Option<string>, table: Option<string>, types: Option<seq<string>>): string {
    WithWhere(TABLES_SELECT,
              ["OBJECT_TYPE IN ('TABLE', 'VIEW')"] + Likes([("ROOT_NAME", schema), ("OBJECT_NAME", table)]) + TypeConditions(types))
    + TABLES_ORDER
  }

  const COLUMNS_SELECT :=
    SelectFrom(["COLUMN_NAME", "COLUMN_ORDINAL_POSITION", "COLUMN_TYPE", "COLUMN_SCHEMA", "COLUMN_TABLE"], "EXA_ALL_COLUMNS")
  const COLUMNS_ORDER := OrderBy(["COLUMN_SCHEMA", "COLUMN_TABLE", "COLUMN_ORDINAL_POSITION"])

  function ColumnsQuery(schema: Option<string>, table: Option<string>, column: Option<string>): string {
    WithWhere(COLUMNS_SELECT, Likes([("COLUMN_SCHEMA", schema), ("COLUMN_TABLE", table), ("COLUMN_NAME", column)])) + COLUMNS_ORDER
  }

  /** What a query with conditions is made of. */
  function QueryPieces(select: string, conditions: seq<seq<Piece>>, order: string): seq<Piece> {
    if conditions == [] then [Fixed(select + order)]
    else [Fixed(select + " WHERE ")] + JoinedPieces(conditions, " AND ") + [Fixed(order)]
  }

  predicate AllSpell(texts: seq<string>, pieces: seq<seq<Piece>>) {
    |texts| == |pieces| && forall i :: 0 <= i < |texts| ==> Spells(texts[i], pieces[i])
  }

  /** Pieces that can follow anything: they keep quotes apart and begin with fixed text. */
  predicate Closed(pieces: seq<Piece>) {
    Separated(pieces) && pieces != [] && pieces[0].Fixed?
  }

  lemma {:induction false} JoinSpells(texts: seq<string>, pieces: seq<seq<Piece>>, separator: string)
    requires AllSpell(texts, pieces)
    ensures Spells(JoinedBy(texts, separator), JoinedPieces(pieces, separator))
  {
    hide Spells;
    if |texts| == 0 {
      NothingSpells();
    } else if |texts| > 1 {
      JoinSpells(texts[1..], pieces[1..], separator);
      SpellsFixed(separator);
      SpellsJoined(texts[0], pieces[0], separator, [Fixed(separator)]);
      SpellsJoined(texts[0] + separator, pieces[0] + [Fixed(separator)],
                   JoinedBy(texts[1..], separator), JoinedPieces(pieces[1..], separator));
    }
  }

  lemma NothingSpells()
    ensures Spells("", [])
  {
  }

  lemma LikeSpells(column: string, pattern: string)
    ensures Spells(LikeCondition(column, pattern), LikePieces(column, pattern))
  {
    hide Quoted;
    SpellsFixed(column + " LIKE ");
    PrintOne(Lit(pattern));
    SpellsJoined(column + " LIKE ", [Fixed(column + " LIKE ")], Quoted(pattern, '\''), [Lit(pattern)]);
  }

  lemma {:induction false} LikesSpell(filters: seq<(string, Option<string>)>)
    ensures AllSpell(Likes(filters), LikesPieces(filters))
  {
    hide Spells;
    if filters != [] {
      LikesSpell(filters[1..]);
      if filters[0].1.Some? { LikeSpells(filters[0].0, filters[0].1.value); }
    }
  }

  lemma QuerySpells(select: string, conditions: seq<string>, pieces: seq<seq<Piece>>, order: string)
    requires AllSpell(conditions, pieces)
    ensures Spells(WithWhere(select, conditions) + order, QueryPieces(select, pieces, order))
  {
    hide Spells;
    if conditions == [] {
      SpellsFixed(select + order);
    } else {
      var text := JoinedBy(conditions, " AND ");
      JoinSpells(conditions, pieces, " AND ");
      SpellsFixed(select + " WHERE ");
      SpellsFixed(order);
      SpellsJoined(select + " WHERE ", [Fixed(select + " WHERE ")], text, JoinedPieces(pieces, " AND "));
      SpellsJoined(select + " WHERE " + text, [Fixed(select + " WHERE ")] + JoinedPieces(pieces, " AND "), order, [Fixed(order)]);
    }
  }

  lemma SeparatedJoined(a: seq<Piece>, b: seq<Piece>)
    requires Separated(a) && Separated(b) && (a != [] && b != [] ==> a[|a| - 1].Fixed? || b[0].Fixed?)
    ensures Separated(a + b)
  {
  }

  predicate AllClosed(pieces: seq<seq<Piece>>) { forall i :: 0 <= i < |pieces| ==> Closed(pieces[i]) }

  lemma OneFixedIsClosed(text: string)
    requires text != "" && NoQuote(text)
    ensures Closed([Fixed(text)])
  {
  }

  lemma {:induction false} JoinIsClosed(pieces: seq<seq<Piece>>, separator: string)
    requires AllClosed(pieces) && separator != "" && NoQuote(separator) && pieces != []
    ensures Closed(JoinedPieces(pieces, separator))
  {
    hide Separated;
    if |pieces| > 1 {
      JoinIsClosed(pieces[1..], separator);
      OneFixedIsClosed(separator);
      SeparatedJoined(pieces[0], [Fixed(separator)]);
      SeparatedJoined(pieces[0] + [Fixed(separator)], JoinedPieces(pieces[1..], separator));
    }
  }

  lemma QueryIsSeparated(select: string, conditions: seq<seq<Piece>>, order: string)
    requires AllClosed(conditions) && select != "" && NoQuote(select) && order != "" && NoQuote(order)
    ensures Separated(QueryPieces(select, conditions, order))
  {
    hide Separated;
    if conditions == [] {
      OneFixedIsClosed(select + order);
    } else {
      OneFixedIsClosed(select + " WHERE ");
      OneFixedIsClosed(order);
      JoinIsClosed(conditions, " AND ");
      SeparatedJoined([Fixed(select + " WHERE ")], JoinedPieces(conditions, " AND "));
      SeparatedJoined([Fixed(select + " WHERE ")] + JoinedPieces(conditions, " AND "), [Fixed(order)]);
    }
  }

  predicate ColumnsAreFixed(filters: seq<(string, Option<string>)>) {
    forall i :: 0 <= i < |filters| ==> NoQuote(filters[i].0)
  }

  lemma {:induction false} LikesAreClosed(filters: seq<(string, Option<string>)>)
    requires ColumnsAreFixed(filters)
    ensures AllClosed(LikesPieces(filters))
  {
    if filters != [] { LikesAreClosed(filters[1..]); }
  }

  /** A query text is read as its template, with every pattern as the literal it was given as. */
  lemma QueryIsRead(select: string, conditions: seq<string>, pieces: seq<seq<Piece>>, order: string)
    requires AllSpell(conditions, pieces) && AllClosed(pieces)
    requires select != "" && NoQuote(select) && order != "" && NoQuote(order)
    ensures Lex(WithWhere(select, conditions) + order) == Some(Tokens(QueryPieces(select, pieces, order)))
  {
    hide Lex, Tokens, QueryPieces, Separated, AllClosed, AllSpell;
    QuerySpells(select, conditions, pieces, order);
    QueryIsSeparated(select, pieces, order);
    LexInvertsPrint(QueryPieces(select, pieces, order));
  }

  lemma NoQuoteJoined(a: string, b: string)
    requires NoQuote(a) && NoQuote(b)
    ensures NoQuote(a + b)
  {
  }

  predicate WordsHaveNoQuote(words: seq<string>) { forall word :: word in words ==> NoQuote(word) }

  lemma {:induction false} ListHasNoQuote(words: seq<string>)
    requires WordsHaveNoQuote(words)
    ensures NoQuote(JoinedBy(words, ", "))
  {
    if |words| > 1 {
      ListHasNoQuote(words[1..]);
      assert words[0] in words && NoQuote(", ");
      hide NoQuote;
      NoQuoteJoined(words[0], ", ");
      NoQuoteJoined(words[0] + ", ", JoinedBy(words[1..], ", "));
    }
  }

  lemma SelectHasNoQuote(columns: seq<string>, view: string)
    requires WordsHaveNoQuote(columns) && NoQuote(view)
    ensures SelectFrom(columns, view) != "" && NoQuote(SelectFrom(columns, view))
  {
    assert NoQuote("SELECT ") && NoQuote(" FROM SYS.");
    ListHasNoQuote(columns);
    var list := JoinedBy(columns, ", ");
    hide NoQuote, JoinedBy;
    NoQuoteJoined("SELECT ", list);
    NoQuoteJoined("SELECT " + list, " FROM SYS.");
    NoQuoteJoined("SELECT " + list + " FROM SYS.", view);
  }

  lemma OrderHasNoQuote(columns: seq<string>)
    requires WordsHaveNoQuote(columns)
    ensures OrderBy(columns) != "" && NoQuote(OrderBy(columns))
  {
    assert NoQuote(" ORDER BY ");
    ListHasNoQuote(columns);
    hide NoQuote, JoinedBy;
    NoQuoteJoined(" ORDER BY ", JoinedBy(columns, ", "));
  }

  lemma SchemaWords()
    ensures NoQuote("SCHEMA_NAME") && NoQuote("EXA_ALL_SCHEMAS")
  {
  }

  lemma ObjectWords()
    ensures NoQuote("OBJECT_NAME") && NoQuote("OBJECT_TYPE") && NoQuote("ROOT_NAME") && NoQuote("EXA_ALL_OBJECTS")
  {
  }

  lemma ColumnWords()
    ensures NoQuote("COLUMN_NAME") && NoQuote("COLUMN_TYPE") && NoQuote("COLUMN_SCHEMA") && NoQuote("COLUMN_TABLE")
    ensures NoQuote("EXA_ALL_COLUMNS")
  {
  }

  lemma OrdinalWord()
    ensures NoQuote("COLUMN_ORDINAL_POSITION")
  {
  }

  /** The parts of a query's fixed text, spelled out for one column. */
  lemma SelectText()
    ensures SelectFrom(["SCHEMA_NAME"], "EXA_ALL_SCHEMAS") == "SELECT SCHEMA_NAME FROM SYS.EXA_ALL_SCHEMAS"
  {
    assert JoinedBy(["SCHEMA_NAME"], ", ") == "SCHEMA_NAME";
    assert "SELECT " + "SCHEMA_NAME" + " FROM SYS." == "SELECT SCHEMA_NAME FROM SYS.";
  }

  lemma OrderText()
    ensures OrderBy(["SCHEMA_NAME"]) == " ORDER BY SCHEMA_NAME"
  {
    assert JoinedBy(["SCHEMA_NAME"], ", ") == "SCHEMA_NAME";
  }

  lemma SchemasQueryIsRead(schema: Option<string>)
    ensures Lex(SchemasQuery(schema))
            == Some(Tokens(QueryPieces(
                 "SELECT SCHEMA_NAME FROM SYS.EXA_ALL_SCHEMAS", LikesPieces([("SCHEMA_NAME", schema)]), " ORDER BY SCHEMA_NAME")))
  {
    SelectText();
    OrderText();
    hide Lex, Tokens, QueryPieces, Likes, LikesPieces, WithWhere, AllClosed, AllSpell, NoQuote, SelectFrom, OrderBy;
    var filters := [("SCHEMA_NAME", schema)];
    SchemaWords();
    SelectHasNoQuote(["SCHEMA_NAME"], "EXA_ALL_SCHEMAS");
    OrderHasNoQuote(["SCHEMA_NAME"]);
    LikesSpell(filters);
    LikesAreClosed(filters);
    QueryIsRead(SCHEMAS_SELECT, Likes(filters), LikesPieces(filters), SCHEMAS_ORDER);
  }

  lemma ColumnsQueryIsRead(schema: Option<string>, table: Option<string>, column: Option<string>)
    ensures var filters := [("COLUMN_SCHEMA", schema), ("COLUMN_TABLE", table), ("COLUMN_NAME", column)];
            Lex(ColumnsQuery(schema, table, column)) == Some(Tokens(QueryPieces(
              SelectFrom(["COLUMN_NAME", "COLUMN_ORDINAL_POSITION", "COLUMN_TYPE", "COLUMN_SCHEMA", "COLUMN_TABLE"], "EXA_ALL_COLUMNS"),
              LikesPieces(filters), OrderBy(["COLUMN_SCHEMA", "COLUMN_TABLE", "COLUMN_ORDINAL_POSITION"]))))
  {
    hide Lex, Tokens, QueryPieces, Likes, LikesPieces, WithWhere, AllClosed, AllSpell, NoQuote, SelectFrom, OrderBy;
    var filters := [("COLUMN_SCHEMA", schema), ("COLUMN_TABLE", table), ("COLUMN_NAME", column)];
    ColumnWords();
    OrdinalWord();
    SelectHasNoQuote(["COLUMN_NAME", "COLUMN_ORDINAL_POSITION", "COLUMN_TYPE", "COLUMN_SCHEMA", "COLUMN_TABLE"], "EXA_ALL_COLUMNS");
    OrderHasNoQuote(["COLUMN_SCHEMA", "COLUMN_TABLE", "COLUMN_ORDINAL_POSITION"]);
    LikesSpell(filters);
    LikesAreClosed(filters);
    QueryIsRead(COLUMNS_SELECT, Likes(filters), LikesPieces(filters), COLUMNS_ORDER);
  }

  function TypePieces(types: seq<string>): seq<seq<Piece>> {
    seq(|types|, i requires 0 <= i < |types| => [Lit(types[i])])
  }

  const BOTH_TYPES := [Fixed("OBJECT_TYPE IN (")] + [Lit("TABLE")] + [Fixed(", ")] + [Lit("VIEW")] + [Fixed(")")]

  function TablesPieces(schema: Option<string>, table: Option<string>, types: Option<seq<string>>): seq<seq<Piece>> {
    [BOTH_TYPES] + LikesPieces([("ROOT_NAME", schema), ("OBJECT_NAME", table)]) +
    if types.None? then []
    else [[Fixed("OBJECT_TYPE IN (")] + JoinedPieces(TypePieces(types.value), ",") + [Fixed(")")]]
  }

  lemma QuotedWords()
    ensures Quoted("TABLE", '\'') == "'TABLE'" && Quoted("VIEW", '\'') == "'VIEW'"
  {
    hide Doubled, Quoted;
    QuotedWord("TABLE");
    QuotedWord("VIEW");
    assert ['\''] + ("TABLE" + ['\'']) == "'TABLE'";
    assert ['\''] + ("VIEW" + ['\'']) == "'VIEW'";
  }

  lemma QuotedWord(word: string)
    requires NoQuote(word)
    ensures Quoted(word, '\'') == ['\''] + (word + ['\''])
  {
    PlainIsNotDoubled(word, '\'');
  }

  lemma LiteralSpells(text: string)
    ensures Spells(Quoted(text, '\''), [Lit(text)])
  {
    PrintOne(Lit(text));
  }

  lemma BothTypesSpell()
    ensures Spells("OBJECT_TYPE IN ('TABLE', 'VIEW')", BOTH_TYPES)
  {
    hide Quoted, Spells;
    QuotedWords();
    LiteralSpells("TABLE");
    LiteralSpells("VIEW");
    SpellsFixed("OBJECT_TYPE IN (");
    SpellsFixed(", ");
    SpellsFixed(")");
    var a, b := [Fixed("OBJECT_TYPE IN (")], [Lit("TABLE")];
    SpellsJoined("OBJECT_TYPE IN (", a, "'TABLE'", b);
    SpellsJoined("OBJECT_TYPE IN (" + "'TABLE'", a + b, ", ", [Fixed(", ")]);
    SpellsJoined("OBJECT_TYPE IN (" + "'TABLE'" + ", ", a + b + [Fixed(", ")], "'VIEW'", [Lit("VIEW")]);
    SpellsJoined("OBJECT_TYPE IN (" + "'TABLE'" + ", " + "'VIEW'", a + b + [Fixed(", ")] + [Lit("VIEW")], ")", [Fixed(")")]);
    assert "OBJECT_TYPE IN (" + "'TABLE'" + ", " + "'VIEW'" + ")" == "OBJECT_TYPE IN ('TABLE', 'VIEW')";
  }

  lemma BothTypesAreClosed()
    ensures Closed(BOTH_TYPES)
  {
    OneFixedIsClosed("OBJECT_TYPE IN (");
    OneFixedIsClosed(", ");
    OneFixedIsClosed(")");
    OneLiteralIsSeparated("TABLE");
    OneLiteralIsSeparated("VIEW");
    hide Separated;
    SeparatedJoined([Fixed("OBJECT_TYPE IN (")], [Lit("TABLE")]);
    SeparatedJoined([Fixed("OBJECT_TYPE IN (")] + [Lit("TABLE")], [Fixed(", ")]);
    SeparatedJoined([Fixed("OBJECT_TYPE IN (")] + [Lit("TABLE")] + [Fixed(", ")], [Lit("VIEW")]);
    SeparatedJoined([Fixed("OBJECT_TYPE IN (")] + [Lit("TABLE")] + [Fixed(", ")] + [Lit("VIEW")], [Fixed(")")]);
  }

  lemma {:induction false} PlainIsNotDoubled(text: string, quote: char)
    requires quote !in text
    ensures Doubled(text, quote) == text
  {
    if text != "" {
      assert text[0] in text;
      PlainIsNotDoubled(text[1..], quote);
    }
  }

  lemma TypesSpell(types: seq<string>)
    ensures AllSpell(QuotedTypes(types), TypePieces(types))
  {
    hide Quoted;
    forall i | 0 <= i < |types|
      ensures Spells(QuotedTypes(types)[i], TypePieces(types)[i])
    {
      PrintOne(Lit(types[i]));
    }
  }

  lemma TypeConditionSpells(types: seq<string>)
    ensures Spells("OBJECT_TYPE IN (" + JoinedBy(QuotedTypes(types), ",") + ")",
                   [Fixed("OBJECT_TYPE IN (")] + JoinedPieces(TypePieces(types), ",") + [Fixed(")")])
  {
    hide Spells;
    var text, pieces := JoinedBy(QuotedTypes(types), ","), JoinedPieces(TypePieces(types), ",");
    TypesSpell(types);
    JoinSpells(QuotedTypes(types), TypePieces(types), ",");
    SpellsFixed("OBJECT_TYPE IN (");
    SpellsFixed(")");
    SpellsJoined("OBJECT_TYPE IN (", [Fixed("OBJECT_TYPE IN (")], text, pieces);
    SpellsJoined("OBJECT_TYPE IN (" + text, [Fixed("OBJECT_TYPE IN (")] + pieces, ")", [Fixed(")")]);
  }

  lemma OneLiteralIsSeparated(text: string)
    ensures Separated([Lit(text)])
  {
  }

  /** Literals between commas. */
  lemma {:induction false} TypeListIsSeparated(types: seq<string>)
    ensures Separated(JoinedPieces(TypePieces(types), ","))
  {
    OneFixedIsClosed(",");
    if |types| > 0 { OneLiteralIsSeparated(types[0]); }
    hide Separated;
    if |types| > 1 {
      TypeListIsSeparated(types[1..]);
      assert TypePieces(types)[1..] == TypePieces(types[1..]);
      SeparatedJoined([Lit(types[0])], [Fixed(",")]);
      SeparatedJoined([Lit(types[0])] + [Fixed(",")], JoinedPieces(TypePieces(types[1..]), ","));
    } else if |types| == 0 {
      NothingIsSeparated();
    }
  }

  lemma NothingIsSeparated()
    ensures Separated([])
  {
  }

  lemma TypeConditionIsClosed(types: seq<string>)
    ensures Closed([Fixed("OBJECT_TYPE IN (")] + JoinedPieces(TypePieces(types), ",") + [Fixed(")")])
  {
    hide Separated, JoinedPieces;
    TypeListIsSeparated(types);
    OneFixedIsClosed("OBJECT_TYPE IN (");
    OneFixedIsClosed(")");
    SeparatedJoined([Fixed("OBJECT_TYPE IN (")], JoinedPieces(TypePieces(types), ","));
    SeparatedJoined([Fixed("OBJECT_TYPE IN (")] + JoinedPieces(TypePieces(types), ","), [Fixed(")")]);
  }

  lemma TablesQueryIsRead(schema: Option<string>, table: Option<string>, types: Option<seq<string>>)
    ensures Lex(TablesQuery(schema, table, types))
            == Some(Tokens(QueryPieces(
                 SelectFrom(["OBJECT_NAME", "OBJECT_TYPE", "ROOT_NAME"], "EXA_ALL_OBJECTS"), TablesPieces(schema, table, types),
                 OrderBy(["ROOT_NAME", "OBJECT_NAME"]))))
  {
    hide Lex, Tokens, QueryPieces, Likes, LikesPieces, WithWhere, Closed, Spells, JoinedPieces, JoinedBy, QuotedTypes, TypePieces;
    hide NoQuote, SelectFrom, OrderBy;
    ObjectWords();
    SelectHasNoQuote(["OBJECT_NAME", "OBJECT_TYPE", "ROOT_NAME"], "EXA_ALL_OBJECTS");
    OrderHasNoQuote(["ROOT_NAME", "OBJECT_NAME"]);
    var filters := [("ROOT_NAME", schema), ("OBJECT_NAME", table)];
    LikesSpell(filters);
    LikesAreClosed(filters);
    BothTypesSpell();
    BothTypesAreClosed();
    if types.Some? {
      TypeConditionSpells(types.value);
      TypeConditionIsClosed(types.value);
    }
    var both := "OBJECT_TYPE IN ('TABLE', 'VIEW')";
    TableConditions(both, Likes(filters), LikesPieces(filters), TypeConditions(types),
                    TablesPieces(schema, table, types)[1 + |LikesPieces(filters)|..]);
    assert TablesPieces(schema, table, types) ==
           [BOTH_TYPES] + LikesPieces(filters) + TablesPieces(schema, table, types)[1 + |LikesPieces(filters)|..];
    QueryIsRead(TABLES_SELECT, [both] + Likes(filters) + TypeConditions(types), TablesPieces(schema, table, types), TABLES_ORDER);
  }

  lemma TableConditions(
    both: string, likes: seq<string>, likesPieces: seq<seq<Piece>>, types: seq<string>, typesPieces: seq<seq<Piece>>)
    requires Spells(both, BOTH_TYPES) && Closed(BOTH_TYPES)
    requires AllSpell(likes, likesPieces) && AllClosed(likesPieces) && AllSpell(types, typesPieces) && AllClosed(typesPieces)
    ensures AllSpell([both] + likes + types, [BOTH_TYPES] + likesPieces + typesPieces)
    ensures AllClosed([BOTH_TYPES] + likesPieces + typesPieces)
  {
    hide Spells, Closed;
  }
}
