/** More SQL text: the GetTableSchema query and the DDL of a bulk ingest (src/adbc_ffi.rs:148-184,
    647-663, 2183-2213), and the clauses that IMPORT and EXPORT share (src/query/clauses.rs:14-82). */
module SqlClauses {
  import opened Text
  import opened SqlText

  /** Pieces that spell a text and keep quotes apart, so the text is read back as them. */
  predicate Reads(s: string, pieces: seq<Piece>) { Spells(s, pieces) && Separated(pieces) }

  lemma ReadBack(s: string, pieces: seq<Piece>)
    requires Reads(s, pieces)
    ensures Lex(s) == Some(Tokens(pieces))
  {
    hide Lex, Separated;
    LexInvertsPrint(pieces);
  }

  predicate Meet(a: seq<Piece>, b: seq<Piece>) { a != [] && b != [] ==> a[|a| - 1].Fixed? || b[0].Fixed? }

  lemma ReadsJoined(s: string, a: seq<Piece>, t: string, b: seq<Piece>)
    requires Reads(s, a) && Reads(t, b) && Meet(a, b)
    ensures Reads(s + t, a + b)
  {
    hide Spells, Separated;
    SpellsJoined(s, a, t, b);
    SeparatedJoined(a, b);
  }

  lemma ReadsFixed(s: string)
    requires s != "" && NoQuote(s)
    ensures Reads(s, [Fixed(s)])
  {
    hide Spells, Separated;
    SpellsFixed(s);
    OneFixedIsClosed(s);
  }

  lemma ReadsLiteral(text: string)
    ensures Reads(Quoted(text, '\''), [Lit(text)])
  {
    hide Spells, Separated;
    LiteralSpells(text);
    OneLiteralIsSeparated(text);
  }

  lemma ReadsIdentifier(text: string)
    ensures Reads(Quoted(text, '"'), [Ident(text)])
  {
    hide Quoted;
    PrintOne(Ident(text));
  }

  /** Fixed text and a literal after it. */
  lemma ReadsClause(s: string, text: string)
    requires s != "" && NoQuote(s)
    ensures Reads(s + Quoted(text, '\''), [Fixed(s), Lit(text)])
  {
    hide Reads, Quoted;
    ReadsFixed(s);
    ReadsLiteral(text);
    ReadsJoined(s, [Fixed(s)], Quoted(text, '\''), [Lit(text)]);
    assert [Fixed(s)] + [Lit(text)] == [Fixed(s), Lit(text)];
  }

  // ---------------------------------------------------------------------------------------------
  // GetTableSchema
  // ---------------------------------------------------------------------------------------------

  const TABLE_SCHEMA_SELECT :=
    SelectFrom(["COLUMN_NAME", "COLUMN_TYPE", "COLUMN_MAXSIZE", "COLUMN_NUM_PREC", "COLUMN_NUM_SCALE", "COLUMN_IS_NULLABLE"],
               "EXA_ALL_COLUMNS") + " WHERE COLUMN_TABLE = "

  const TABLE_SCHEMA_ORDER := OrderBy(["COLUMN_ORDINAL_POSITION"])

  function TableSchemaQuery(schema: Option<string>, table: string): string {
    TABLE_SCHEMA_SELECT + Quoted(table, '\'')
    + (if schema.None? then "" else " AND COLUMN_SCHEMA = " + Quoted(schema.value, '\''))
    + TABLE_SCHEMA_ORDER
  }

  function TableSchemaPieces(schema: Option<string>, table: string): seq<Piece> {
    [Fixed(SelectFrom(
             ["COLUMN_NAME", "COLUMN_TYPE", "COLUMN_MAXSIZE", "COLUMN_NUM_PREC", "COLUMN_NUM_SCALE", "COLUMN_IS_NULLABLE"],
             "EXA_ALL_COLUMNS") + " WHERE COLUMN_TABLE = "), Lit(table)]
    + (if schema.None? then [] else [Fixed(" AND COLUMN_SCHEMA = "), Lit(schema.value)])
    + [Fixed(OrderBy(["COLUMN_ORDINAL_POSITION"]))]
  }

  lemma SizeWords()
    ensures NoQuote("COLUMN_MAXSIZE") && NoQuote("COLUMN_NUM_PREC")
  {
  }

  lemma ScaleWords()
    ensures NoQuote("COLUMN_NUM_SCALE") && NoQuote("COLUMN_IS_NULLABLE")
  {
  }

  lemma WhereWord() ensures NoQuote(" WHERE COLUMN_TABLE = ") {}

  lemma AndWord() ensures NoQuote(" AND COLUMN_SCHEMA = ") {}

  lemma TableSchemaTemplate()
    ensures TABLE_SCHEMA_SELECT != "" && NoQuote(TABLE_SCHEMA_SELECT) && TABLE_SCHEMA_ORDER != "" && NoQuote(TABLE_SCHEMA_ORDER)
  {
    hide NoQuote, SelectFrom, OrderBy;
    ColumnWords();
    SizeWords();
    ScaleWords();
    WhereWord();
    OrdinalWord();
    var columns := ["COLUMN_NAME", "COLUMN_TYPE", "COLUMN_MAXSIZE", "COLUMN_NUM_PREC", "COLUMN_NUM_SCALE", "COLUMN_IS_NULLABLE"];
    SelectHasNoQuote(columns, "EXA_ALL_COLUMNS");
    OrderHasNoQuote(["COLUMN_ORDINAL_POSITION"]);
    NoQuoteJoined(SelectFrom(columns, "EXA_ALL_COLUMNS"), " WHERE COLUMN_TABLE = ");
  }

  /** The names a caller asks for are read as exactly these literals. */
  lemma TableSchemaQueryIsRead(schema: Option<string>, table: string)
    ensures Lex(TableSchemaQuery(schema, table)) == Some(Tokens(TableSchemaPieces(schema, table)))
  {
    hide Lex, Tokens, Reads, Quoted, NoQuote, SelectFrom, OrderBy;
    TableSchemaTemplate();
    AndWord();
    ReadsClause(TABLE_SCHEMA_SELECT, table);
    ReadsFixed(TABLE_SCHEMA_ORDER);
    var head, pieces := TABLE_SCHEMA_SELECT + Quoted(table, '\''), [Fixed(TABLE_SCHEMA_SELECT), Lit(table)];
    if schema.Some? {
      ReadsClause(" AND COLUMN_SCHEMA = ", schema.value);
      ReadsJoined(head, pieces, " AND COLUMN_SCHEMA = " + Quoted(schema.value, '\''),
                  [Fixed(" AND COLUMN_SCHEMA = "), Lit(schema.value)]);
      head := head + (" AND COLUMN_SCHEMA = " + Quoted(schema.value, '\''));
      pieces := pieces + [Fixed(" AND COLUMN_SCHEMA = "), Lit(schema.value)];
    } else {
      assert head + "" == head && pieces + [] == pieces;
    }
    ReadsJoined(head, pieces, TABLE_SCHEMA_ORDER, [Fixed(TABLE_SCHEMA_ORDER)]);
    ReadBack(TableSchemaQuery(schema, table), TableSchemaPieces(schema, table));
  }

  // ---------------------------------------------------------------------------------------------
  // The DDL of a bulk ingest
  // ---------------------------------------------------------------------------------------------

  /** A column with its Exasol type as the type mapper spells it. */
  datatype Field = Field(name: string, ddlType: string, nullable: bool)

  predicate TypesHaveNoQuote(fields: seq<Field>) { forall field :: field in fields ==> NoQuote(field.ddlType) }

  function ColumnType(field: Field): string { " " + field.ddlType + if field.nullable then "" else " NOT NULL" }

  function ColumnDefinition(field: Field): string { Quoted(field.name, '"') + ColumnType(field) }

  function ColumnPieces(field: Field): seq<Piece> {
    [Ident(field.name), Fixed(if field.nullable then " " + field.ddlType else " " + field.ddlType + " NOT NULL")]
  }

  lemma ColumnPiecesAre(field: Field)
    ensures ColumnPieces(field) == [Ident(field.name), Fixed(ColumnType(field))]
  {
    assert " " + field.ddlType + "" == " " + field.ddlType;
  }

  function Definitions(fields: seq<Field>): seq<string> {
    seq(|fields|, i requires 0 <= i < |fields| => ColumnDefinition(fields[i]))
  }

  function DefinitionPieces(fields: seq<Field>): seq<seq<Piece>> {
    seq(|fields|, i requires 0 <= i < |fields| => ColumnPieces(fields[i]))
  }

  function CreateTable(name: string, fields: seq<Field>): string {
    "CREATE TABLE " + name + " (" + JoinedBy(Definitions(fields), ", ") + ")"
  }

  function CreateTablePieces(name: seq<Piece>, fields: seq<Field>): seq<Piece> {
    [Fixed("CREATE TABLE ")] + name + [Fixed(" (")] + JoinedPieces(DefinitionPieces(fields), ", ") + [Fixed(")")]
  }

  lemma ColumnReads(field: Field)
    requires NoQuote(field.ddlType)
    ensures Reads(ColumnDefinition(field), ColumnPieces(field))
  {
    assert NoQuote(" ") && NoQuote(" NOT NULL");
    NoQuoteJoined(" ", field.ddlType);
    NoQuoteJoined(" " + field.ddlType, " NOT NULL");
    hide NoQuote, Reads, Quoted;
    assert " " + field.ddlType + "" == " " + field.ddlType;
    ReadsIdentifier(field.name);
    ReadsFixed(ColumnType(field));
    ReadsJoined(Quoted(field.name, '"'), [Ident(field.name)], ColumnType(field), [Fixed(ColumnType(field))]);
    assert [Ident(field.name)] + [Fixed(ColumnType(field))] == ColumnPieces(field);
  }

  lemma NothingReads()
    ensures Reads("", [])
  {
  }

  /** Texts that read as their pieces, joined by fixed text. */
  lemma {:induction false} JoinReads(texts: seq<string>, pieces: seq<seq<Piece>>, separator: string)
    requires |texts| == |pieces| && forall i :: 0 <= i < |texts| ==> Reads(texts[i], pieces[i])
    requires separator != "" && NoQuote(separator)
    ensures Reads(JoinedBy(texts, separator), JoinedPieces(pieces, separator))
  {
    hide NoQuote, Reads;
    if |texts| == 0 {
      NothingReads();
    } else if |texts| > 1 {
      JoinReads(texts[1..], pieces[1..], separator);
      ReadsFixed(separator);
      ReadsJoined(texts[0], pieces[0], separator, [Fixed(separator)]);
      ReadsJoined(texts[0] + separator, pieces[0] + [Fixed(separator)],
                  JoinedBy(texts[1..], separator), JoinedPieces(pieces[1..], separator));
    }
  }

  lemma ColumnsRead(fields: seq<Field>)
    requires TypesHaveNoQuote(fields)
    ensures Reads(JoinedBy(Definitions(fields), ", "), JoinedPieces(DefinitionPieces(fields), ", "))
  {
    assert NoQuote(", ");
    hide NoQuote, Reads, ColumnDefinition, ColumnPieces, JoinedBy, JoinedPieces;
    forall i | 0 <= i < |fields|
      ensures Reads(Definitions(fields)[i], DefinitionPieces(fields)[i])
    {
      ColumnReads(fields[i]);
    }
    JoinReads(Definitions(fields), DefinitionPieces(fields), ", ");
  }

  lemma NameReads(schema: Option<string>, table: string)
    ensures Reads(QualifiedTableName(schema, table), NamePieces(schema, table))
  {
    hide QualifiedTableName, NamePieces, Spells, Separated;
    QualifiedNameSpells(schema, table);
  }

  lemma CreateTableReads(schema: Option<string>, table: string, fields: seq<Field>)
    requires TypesHaveNoQuote(fields)
    ensures Reads(CreateTable(QualifiedTableName(schema, table), fields), CreateTablePieces(NamePieces(schema, table), fields))
  {
    assert NoQuote("CREATE TABLE ") && NoQuote(" (") && NoQuote(")");
    hide Lex, Tokens, Reads, NoQuote, QualifiedTableName, NamePieces, JoinedBy, JoinedPieces;
    var name, pieces := QualifiedTableName(schema, table), NamePieces(schema, table);
    ReadsFixed("CREATE TABLE ");
    ReadsFixed(" (");
    ReadsFixed(")");
    NameReads(schema, table);
    ColumnsRead(fields);
    var columns, columnPieces := JoinedBy(Definitions(fields), ", "), JoinedPieces(DefinitionPieces(fields), ", ");
    ReadsJoined("CREATE TABLE ", [Fixed("CREATE TABLE ")], name, pieces);
    ReadsJoined("CREATE TABLE " + name, [Fixed("CREATE TABLE ")] + pieces, " (", [Fixed(" (")]);
    ReadsJoined("CREATE TABLE " + name + " (", [Fixed("CREATE TABLE ")] + pieces + [Fixed(" (")], columns, columnPieces);
    ReadsJoined("CREATE TABLE " + name + " (" + columns, [Fixed("CREATE TABLE ")] + pieces + [Fixed(" (")] + columnPieces, ")", [Fixed(")")]);
  }

  /** The DDL is read as a CREATE TABLE of exactly the caller's table and column names. */
  lemma CreateTableIsRead(schema: Option<string>, table: string, fields: seq<Field>)
    requires TypesHaveNoQuote(fields)
    ensures Lex(CreateTable(QualifiedTableName(schema, table), fields))
            == Some(Tokens(CreateTablePieces(NamePieces(schema, table), fields)))
  {
    hide Lex, Tokens, Reads, QualifiedTableName, NamePieces, CreateTable, CreateTablePieces;
    CreateTableReads(schema, table, fields);
    ReadBack(CreateTable(QualifiedTableName(schema, table), fields), CreateTablePieces(NamePieces(schema, table), fields));
  }

  // ---------------------------------------------------------------------------------------------
  // create_append
  // ---------------------------------------------------------------------------------------------

  const CREATE := "CREATE TABLE"
  const CREATE_IF_ABSENT := "CREATE TABLE IF NOT EXISTS"

  /** `text.replace("CREATE TABLE", "CREATE TABLE IF NOT EXISTS")` */
  function WithIfAbsent(text: string): (r: string)
    ensures |r| >= |text|
  {
    if text == "" then ""
    else if CREATE <= text then CREATE_IF_ABSENT + WithIfAbsent(text[|CREATE|..])
    else [text[0]] + WithIfAbsent(text[1..])
  }

  datatype IngestMode = Create | Append | CreateAppend | Replace

  const DROP := "DROP TABLE IF EXISTS "

  /** The statements a mode runs before the rows are imported. */
  function IngestStatements(mode: IngestMode, name: string, fields: seq<Field>): seq<string> {
    match mode
    case Create => [CreateTable(name, fields)]
    case Append => []
    case CreateAppend => [WithIfAbsent(CreateTable(name, fields))]
    case Replace => [DROP + name, CreateTable(name, fields)]
  }

  lemma DropWord()
    ensures DROP != "" && NoQuote(DROP)
  {
  }

  /** Replacing drops exactly the table it then creates. */
  lemma ReplaceDropsWhatItCreates(schema: Option<string>, table: string, fields: seq<Field>)
    requires TypesHaveNoQuote(fields)
    ensures var statements := IngestStatements(Replace, QualifiedTableName(schema, table), fields);
            var name := NamePieces(schema, table);
            |statements| == 2 && Lex(statements[0]) == Some(Tokens([Fixed("DROP TABLE IF EXISTS ")] + name)) &&
            Lex(statements[1]) == Some(Tokens(CreateTablePieces(name, fields)))
  {
    DropWord();
    hide Lex, Tokens, Reads, NoQuote, QualifiedTableName, NamePieces, CreateTable, CreateTablePieces;
    var name, pieces := QualifiedTableName(schema, table), NamePieces(schema, table);
    ReadsFixed(DROP);
    NameReads(schema, table);
    ReadsJoined(DROP, [Fixed(DROP)], name, pieces);
    ReadBack(DROP + name, [Fixed(DROP)] + pieces);
    CreateTableIsRead(schema, table, fields);
  }

  // ---------------------------------------------------------------------------------------------
  // IMPORT and EXPORT clauses
  // ---------------------------------------------------------------------------------------------

  function QuotedEndpoint(address: string, suffix: string, publicKey: Option<string>): string {
    var body := Doubled(address, '\'') + Doubled(suffix, '\'');
    if publicKey.Some? then "'https://" + body + "' PUBLIC KEY '" + Doubled(publicKey.value, '\'') + "'"
    else "'http://" + body + "'"
  }

  function EndpointPieces(address: string, suffix: string, publicKey: Option<string>): seq<Piece> {
    if publicKey.Some? then [Lit("https://" + address + suffix), Fixed(" PUBLIC KEY "), Lit(publicKey.value)]
    else [Lit("http://" + address + suffix)]
  }

  lemma {:induction false} DoubledJoined(a: string, b: string, quote: char)
    ensures Doubled(a + b, quote) == Doubled(a, quote) + Doubled(b, quote)
  {
    if a == "" {
      assert a + b == b;
    } else {
      DoubledJoined(a[1..], b, quote);
      assert (a + b)[1..] == a[1..] + b;
      var first := if a[0] == quote then [quote, quote] else [a[0]];
      assert first + (Doubled(a[1..], quote) + Doubled(b, quote)) == first + Doubled(a[1..], quote) + Doubled(b, quote);
    }
  }

  lemma Rebracketed(scheme: string, a: string, b: string)
    ensures ['\''] + (scheme + a + b + ['\'']) == ['\''] + scheme + (a + b) + ['\'']
  {
  }

  lemma UrlIsQuoted(scheme: string, address: string, suffix: string)
    requires '\'' !in scheme
    ensures Quoted(scheme + address + suffix, '\'')
            == ['\''] + scheme + (Doubled(address, '\'') + Doubled(suffix, '\'')) + ['\'']
  {
    hide Doubled;
    DoubledJoined(scheme + address, suffix, '\'');
    DoubledJoined(scheme, address, '\'');
    PlainIsNotDoubled(scheme, '\'');
    Rebracketed(scheme, Doubled(address, '\''), Doubled(suffix, '\''));
  }

  lemma PinnedText(body: string, key: string)
    ensures "'https://" + body + "' PUBLIC KEY '" + key + "'"
            == ['\''] + "https://" + body + ['\''] + (" PUBLIC KEY " + (['\''] + (key + ['\''])))
  {
    assert "'https://" == ['\''] + "https://";
    assert "' PUBLIC KEY '" == ['\''] + " PUBLIC KEY " + ['\''];
  }

  lemma UnpinnedText(body: string)
    ensures "'http://" + body + "'" == ['\''] + "http://" + body + ['\'']
  {
    assert "'http://" == ['\''] + "http://";
  }

  lemma PinnedEndpointIsRead(address: string, suffix: string, key: string)
    ensures Lex(QuotedEndpoint(address, suffix, Some(key))) == Some(Tokens(EndpointPieces(address, suffix, Some(key))))
  {
    assert '\'' !in "https://" && NoQuote(" PUBLIC KEY ");
    var url := "https://" + address + suffix;
    UrlIsQuoted("https://", address, suffix);
    PinnedText(Doubled(address, '\'') + Doubled(suffix, '\''), Doubled(key, '\''));
    assert QuotedEndpoint(address, suffix, Some(key)) == Quoted(url, '\'') + (" PUBLIC KEY " + Quoted(key, '\''));
    hide Lex, Tokens, Reads, NoQuote, Doubled, Quoted, QuotedEndpoint;
    ReadsLiteral(url);
    ReadsClause(" PUBLIC KEY ", key);
    ReadsJoined(Quoted(url, '\''), [Lit(url)], " PUBLIC KEY " + Quoted(key, '\''), [Fixed(" PUBLIC KEY "), Lit(key)]);
    assert EndpointPieces(address, suffix, Some(key)) == [Lit(url)] + [Fixed(" PUBLIC KEY "), Lit(key)];
    ReadBack(QuotedEndpoint(address, suffix, Some(key)), EndpointPieces(address, suffix, Some(key)));
  }

  lemma UnpinnedEndpointIsRead(address: string, suffix: string)
    ensures Lex(QuotedEndpoint(address, suffix, None)) == Some(Tokens(EndpointPieces(address, suffix, None)))
  {
    assert '\'' !in "http://";
    var url := "http://" + address + suffix;
    UrlIsQuoted("http://", address, suffix);
    UnpinnedText(Doubled(address, '\'') + Doubled(suffix, '\''));
    assert QuotedEndpoint(address, suffix, None) == Quoted(url, '\'');
    hide Lex, Tokens, Reads, Doubled, Quoted, QuotedEndpoint;
    ReadsLiteral(url);
    ReadBack(QuotedEndpoint(address, suffix, None), EndpointPieces(address, suffix, None));
  }

  /** The URL, with its suffix inside the quotes, and the fingerprint are read as exactly themselves. */
  lemma EndpointIsRead(address: string, suffix: string, publicKey: Option<string>)
    ensures Lex(QuotedEndpoint(address, suffix, publicKey)) == Some(Tokens(EndpointPieces(address, suffix, publicKey)))
  {
    hide Lex, Tokens, QuotedEndpoint, EndpointPieces;
    match publicKey
    case None => UnpinnedEndpointIsRead(address, suffix);
    case Some(key) => PinnedEndpointIsRead(address, suffix, key);
  }

  function EscapeSqlChar(c: char): string { if c == '\'' then "''" else [c] }

  datatype CsvFraming = CsvFraming(encoding: string, columnSeparator: char, columnDelimiter: char, rowSeparator: string)

  const ENCODING := "\nENCODING = "
  const COLUMN_SEPARATOR := "\nCOLUMN SEPARATOR = "
  const COLUMN_DELIMITER := "\nCOLUMN DELIMITER = "
  const ROW_SEPARATOR := "\nROW SEPARATOR = "

  function FramingToSql(f: CsvFraming): string {
    ENCODING + Quoted(f.encoding, '\'')
    + COLUMN_SEPARATOR + "'" + EscapeSqlChar(f.columnSeparator) + "'"
    + COLUMN_DELIMITER + "'" + EscapeSqlChar(f.columnDelimiter) + "'"
    + ROW_SEPARATOR + Quoted(f.rowSeparator, '\'')
  }

  function FramingPieces(f: CsvFraming): seq<Piece> {
    [Fixed("\nENCODING = "), Lit(f.encoding)] + [Fixed("\nCOLUMN SEPARATOR = "), Lit([f.columnSeparator])]
    + [Fixed("\nCOLUMN DELIMITER = "), Lit([f.columnDelimiter])] + [Fixed("\nROW SEPARATOR = "), Lit(f.rowSeparator)]
  }

  lemma EscapedCharIsQuoted(c: char)
    ensures "'" + EscapeSqlChar(c) + "'" == Quoted([c], '\'')
  {
    assert [c][1..] == "";
    assert Doubled([c], '\'') == EscapeSqlChar(c) + Doubled("", '\'');
    assert EscapeSqlChar(c) + "" == EscapeSqlChar(c);
  }

  lemma FramingWords()
    ensures NoQuote(ENCODING) && NoQuote(COLUMN_SEPARATOR) && NoQuote(COLUMN_DELIMITER) && NoQuote(ROW_SEPARATOR)
  {
    EncodingWord();
    SeparatorWord();
    DelimiterWord();
    RowWord();
    hide NoQuote;
  }

  lemma EncodingWord() ensures NoQuote(ENCODING) {}

  lemma SeparatorWord() ensures NoQuote(COLUMN_SEPARATOR) {}

  lemma DelimiterWord() ensures NoQuote(COLUMN_DELIMITER) {}

  lemma RowWord() ensures NoQuote(ROW_SEPARATOR) {}

  /** Each framing option is read as its own clause with its own value. */
  lemma FramingIsRead(f: CsvFraming)
    ensures Lex(FramingToSql(f)) == Some(Tokens(FramingPieces(f)))
  {
    FramingWords();
    hide Lex, Tokens, Reads, NoQuote, Quoted, EscapeSqlChar;
    EscapedCharIsQuoted(f.columnSeparator);
    EscapedCharIsQuoted(f.columnDelimiter);
    var e, s, d, r := ENCODING + Quoted(f.encoding, '\''), COLUMN_SEPARATOR + Quoted([f.columnSeparator], '\''),
                      COLUMN_DELIMITER + Quoted([f.columnDelimiter], '\''), ROW_SEPARATOR + Quoted(f.rowSeparator, '\'');
    ReadsClause(ENCODING, f.encoding);
    ReadsClause(COLUMN_SEPARATOR, [f.columnSeparator]);
    ReadsClause(COLUMN_DELIMITER, [f.columnDelimiter]);
    ReadsClause(ROW_SEPARATOR, f.rowSeparator);
    var pe, ps, pd, pr := [Fixed(ENCODING), Lit(f.encoding)], [Fixed(COLUMN_SEPARATOR), Lit([f.columnSeparator])],
                          [Fixed(COLUMN_DELIMITER), Lit([f.columnDelimiter])], [Fixed(ROW_SEPARATOR), Lit(f.rowSeparator)];
    ReadsJoined(e, pe, s, ps);
    ReadsJoined(e + s, pe + ps, d, pd);
    ReadsJoined(e + s + d, pe + ps + pd, r, pr);
    FramingText(f, e, s, d, r);
    ReadBack(e + s + d + r, pe + ps + pd + pr);
  }

  lemma FramingText(f: CsvFraming, e: string, s: string, d: string, r: string)
    requires e == ENCODING + Quoted(f.encoding, '\'') && r == ROW_SEPARATOR + Quoted(f.rowSeparator, '\'')
    requires s == COLUMN_SEPARATOR + ("'" + EscapeSqlChar(f.columnSeparator) + "'")
    requires d == COLUMN_DELIMITER + ("'" + EscapeSqlChar(f.columnDelimiter) + "'")
    ensures FramingToSql(f) == e + s + d + r
  {
    hide Quoted, EscapeSqlChar;
  }

  function NullClause(value: Option<string>): string {
    if value.None? then "" else "\nNULL = " + Quoted(value.value, '\'')
  }

  lemma NullClauseIsRead(value: Option<string>)
    ensures Lex(NullClause(value)) == Some(Tokens(if value.None? then [] else [Fixed("\nNULL = "), Lit(value.value)]))
  {
    assert NoQuote("\nNULL = ");
    if value.Some? {
      hide Lex, Tokens, Reads, NoQuote, Quoted;
      ReadsClause("\nNULL = ", value.value);
      ReadBack(NullClause(value), [Fixed("\nNULL = "), Lit(value.value)]);
    }
  }
}
