/** Connection strings (src/connection/params.rs:69-147, 422-506). */
module ConnectionUri {
  import opened Text
  import NumberText
  import Percent = PercentEncoding
  import opened ConnectionBuilder

  // ---------------------------------------------------------------------------------------------
  // Parsing
  // ---------------------------------------------------------------------------------------------

  const SCHEME := "exasol://"
  const U16_BOUND := 0x1_0000

  function RustTrimStart(s: string): string { if s != "" && IsRustSpace(s[0]) then RustTrimStart(s[1..]) else s }

  function RustTrimEnd(s: string): string { if s != "" && IsRustSpace(s[|s| - 1]) then RustTrimEnd(s[..|s| - 1]) else s }

  function StripScheme(s: string): Option<string> {
    if |s| >= |SCHEME| && s[..|SCHEME|] == SCHEME then Some(s[|SCHEME|..]) else None
  }

  /** One `key=value` of a query. */
  function ParsePair(part: string, position: nat): Result<Pair, ConnectionError> {
    var split := SplitOnce(part, '=');
    if split.None? then Err(BadQueryParameter(position))
    else
      var key, value := Percent.Decode(split.value.0), Percent.Decode(split.value.1);
      if key.None? || value.None? then Err(BadEncoding) else Ok((key.value, value.value))
  }

  /** The parameters of a query; a later pair replaces an earlier one with the same key. */
  function QueryMap(parts: seq<string>): Result<map<string, string>, ConnectionError> {
    if parts == [] then Ok(map[])
    else
      var before := QueryMap(parts[..|parts| - 1]);
      var part := parts[|parts| - 1];
      if before.Err? || part == "" then before
      else
        var pair := ParsePair(part, |parts|);
        if pair.Err? then Err(pair.error) else Ok(before.value[pair.value.0 := pair.value.1])
  }

  function QueryParts(query: Option<string>): seq<string> {
    if query.None? then [] else SplitOn(query.value, '&')
  }

  function ParseAuth(auth: string): Result<(string, Option<string>), ConnectionError> {
    var split := SplitOnce(auth, ':');
    var user := Percent.Decode(if split.None? then auth else split.value.0);
    if user.None? then Err(BadEncoding)
    else if split.None? then Ok((user.value, None))
    else
      var password := Percent.Decode(split.value.1);
      if password.None? then Err(BadEncoding) else Ok((user.value, password))
  }

  function ParsePort(s: string): Result<nat, ConnectionError> {
    var port := NumberText.ParseUnsigned(s, U16_BOUND);
    if port.None? then Err(InvalidPort) else Ok(port.value)
  }

  function ParseHostPort(hostPort: string): Result<(string, nat), ConnectionError> {
    var bracket := FindChar(hostPort, ']');
    if hostPort != "" && hostPort[0] == '[' && bracket.Some? then
      var host, portPart := hostPort[1..bracket.value], hostPort[bracket.value + 1..];
      if portPart != "" && portPart[0] == ':' then
        var port := ParsePort(portPart[1..]);
        if port.Err? then Err(port.error) else Ok((host, port.value))
      else Ok((host, DEFAULT_PORT))
    else
      var split := SplitLast(hostPort, ':');
      if split.None? then Ok((hostPort, DEFAULT_PORT))
      else
        var port := ParsePort(split.value.1);
        if port.Err? then Err(port.error) else Ok((split.value.0, port.value))
  }

  /** Credentials given outside the string. */
  datatype Given = Given(username: Option<string>, password: Option<string>)

  function Or<T>(a: Option<T>, b: Option<T>): Option<T> { if a.Some? then a else b }

  function Lookup(params: map<string, string>, key: string): Option<string> {
    if key in params then Some(params[key]) else None
  }

  const CREDENTIAL_KEYS := {"user", "username", "password", "pass"}

  /** The given name, else the userinfo's, else the query's `user`, else its `username`. */
  function Username(given: Given, userinfo: Option<string>, params: map<string, string>): Option<string> {
    Or(given.username, Or(userinfo, Or(Lookup(params, "user"), Lookup(params, "username"))))
  }

  function Password(given: Given, userinfo: Option<string>, params: map<string, string>): string {
    OrElse(Or(given.password, Or(userinfo, Or(Lookup(params, "password"), Lookup(params, "pass")))), "")
  }

  /** The order in which a hash map yields its entries. */
  type Iteration = map<string, string> -> seq<Pair>

  ghost predicate IsIteration(iterate: Iteration) { forall params :: Enumerates(iterate(params), params) }

  /** Everything the parts of the string mean together. */
  function Assemble(
    given: Given, userinfo: Option<(string, Option<string>)>, params: map<string, string>,
    hostPort: Result<(string, nat), ConnectionError>, schema: Option<string>, iterate: Iteration, driver: Driver)
    : Result<Params, ConnectionError>
  {
    var username := Username(given, if userinfo.Some? then Some(userinfo.value.0) else None, params);
    var password := Password(given, if userinfo.Some? then userinfo.value.1 else None, params);
    if username.None? then Err(UsernameRequired)
    else if hostPort.Err? then Err(hostPort.error)
    else
      var base := EMPTY_BUILDER.(host := Some(hostPort.value.0), port := Some(hostPort.value.1),
                                 username := username, password := Some(password), schema := schema);
      var built := Apply(base, iterate(params - CREDENTIAL_KEYS));
      if built.Err? then Err(built.error) else Build(built.value, driver)
  }

  /** The schema after the first slash, unless it is empty. */
  function SchemaOf(split: Option<(string, string)>): Option<string> {
    if split.None? || split.value.1 == "" then None else Some(split.value.1)
  }

  function ParseMain(
    main: string, params: map<string, string>, given: Given, iterate: Iteration, driver: Driver): Result<Params, ConnectionError>
  {
    var at := SplitLast(main, '@');
    var hostPart := if at.None? then main else at.value.1;
    var slash := SplitOnce(hostPart, '/');
    var hostPort := ParseHostPort(if slash.None? then hostPart else slash.value.0);
    if at.None? then Assemble(given, None, params, hostPort, SchemaOf(slash), iterate, driver)
    else
      var auth := ParseAuth(at.value.0);
      if auth.Err? then Err(auth.error)
      else Assemble(given, Some(auth.value), params, hostPort, SchemaOf(slash), iterate, driver)
  }

  function Parse(uri: string, given: Given, iterate: Iteration, driver: Driver): Result<Params, ConnectionError> {
    var url := StripScheme(RustTrimEnd(RustTrimStart(uri)));
    if url.None? then Err(NotExasolUri)
    else
      var question := SplitOnce(url.value, '?');
      var params := QueryMap(QueryParts(if question.None? then None else Some(question.value.1)));
      if params.Err? then Err(params.error)
      else ParseMain(if question.None? then url.value else question.value.0, params.value, given, iterate, driver)
  }

  method ParseQueryParams(query: Option<string>) returns (r: Result<map<string, string>, ConnectionError>)
    ensures r == QueryMap(QueryParts(query))
  {
    hide ParsePair, QueryParts;
    var params: map<string, string> := map[];
    var parts := QueryParts(query);
    assert parts[..|parts|] == parts;
    for index := 0 to |parts|
      invariant QueryMap(parts[..index]) == Ok(params)
    {
      assert parts[..index + 1][..index] == parts[..index];
      if parts[index] == "" {
        continue;
      }
      var pair := ParsePair(parts[index], index + 1);
      if pair.Err? {
        FirstBadPairStops(parts, index);
        return Err(pair.error);
      }
      params := params[pair.value.0 := pair.value.1];
    }
    r := Ok(params);
  }

  lemma {:induction false} FirstBadPairStops(parts: seq<string>, k: nat)
    requires k < |parts| && QueryMap(parts[..k]).Ok? && parts[k] != "" && ParsePair(parts[k], k + 1).Err?
    ensures QueryMap(parts) == Err(ParsePair(parts[k], k + 1).error)
  {
    hide ParsePair;
    var init := parts[..|parts| - 1];
    if k < |parts| - 1 {
      assert init[..k] == parts[..k];
      FirstBadPairStops(init, k);
    }
  }

  method ParseWithCredentials(uri: string, given: Given, iterate: Iteration, driver: Driver)
    returns (r: Result<Params, ConnectionError>)
    ensures r == Parse(uri, given, iterate, driver)
  {
    hide RustTrimStart, RustTrimEnd, StripScheme, QueryMap, QueryParts, ParseAuth, ParseHostPort, Apply, Build;
    var url := StripScheme(RustTrimEnd(RustTrimStart(uri)));
    if url.None? {
      return Err(NotExasolUri);
    }
    var question := SplitOnce(url.value, '?');
    var main := if question.None? then url.value else question.value.0;
    var query := if question.None? then None else Some(question.value.1);
    var parsed := ParseQueryParams(query);
    if parsed.Err? {
      return Err(parsed.error);
    }
    var params := parsed.value;
    var at := SplitLast(main, '@');
    var hostPart := if at.None? then main else at.value.1;
    var userinfoUsername: Option<string>, userinfoPassword: Option<string> := None, None;
    if at.Some? {
      var auth := ParseAuth(at.value.0);
      if auth.Err? {
        return Err(auth.error);
      }
      userinfoUsername, userinfoPassword := Some(auth.value.0), auth.value.1;
    }
    var username := Username(given, userinfoUsername, params);
    var password := Password(given, userinfoPassword, params);
    params := params - CREDENTIAL_KEYS;
    if username.None? {
      return Err(UsernameRequired);
    }
    var slash := SplitOnce(hostPart, '/');
    var hostPort := ParseHostPort(if slash.None? then hostPart else slash.value.0);
    if hostPort.Err? {
      return Err(hostPort.error);
    }
    var builder := EMPTY_BUILDER.(host := Some(hostPort.value.0), port := Some(hostPort.value.1),
                                  username := username, password := Some(password), schema := SchemaOf(slash));
    var applied := ApplyQueryParams(builder, iterate(params));
    if applied.Err? {
      return Err(applied.error);
    }
    r := Build(applied.value, driver);
  }

  // ---------------------------------------------------------------------------------------------
  // Printing
  // ---------------------------------------------------------------------------------------------

  /** A host by name or address, or a literal in brackets (section 3.2.2 of RFC 3986). */
  datatype Host = Named(name: string) | Bracketed(literal: string)

  datatype Userinfo = Userinfo(user: string, password: Option<string>)

  datatype Uri = Uri(userinfo: Option<Userinfo>, host: Host, port: Option<nat>, schema: Option<string>, query: seq<Pair>)

  function HostText(host: Host): string { if host.Named? then host.name else host.literal }

  function PrintUserinfo(u: Userinfo): string {
    Percent.Encode(u.user) + if u.password.None? then "" else ":" + Percent.Encode(u.password.value)
  }

  function PrintHostPort(host: Host, port: Option<nat>): string {
    (if host.Named? then host.name else "[" + host.literal + "]") +
    if port.None? then "" else ":" + NumberText.Decimal(port.value)
  }

  function PrintHostPart(uri: Uri): string {
    PrintHostPort(uri.host, uri.port) + if uri.schema.None? then "" else "/" + uri.schema.value
  }

  function PrintMain(uri: Uri): string {
    if uri.userinfo.None? then PrintHostPart(uri) else PrintUserinfo(uri.userinfo.value) + "@" + PrintHostPart(uri)
  }

  function PrintPair(pair: Pair): string { Percent.Encode(pair.0) + "=" + Percent.Encode(pair.1) }

  function PrintQuery(query: seq<Pair>): string
    requires query != []
  {
    if |query| == 1 then PrintPair(query[0]) else PrintPair(query[0]) + "&" + PrintQuery(query[1..])
  }

  function Print(uri: Uri): string {
    SCHEME + (PrintMain(uri) + if uri.query == [] then "" else "?" + PrintQuery(uri.query))
  }

  predicate IsSeparator(c: char) { c == '/' || c == '@' || c == '?' }

  predicate FreeOfSeparators(s: string) { forall c :: c in s ==> !IsSeparator(c) }

  predicate IsHost(host: Host, port: Option<nat>) {
    FreeOfSeparators(HostText(host)) &&
    match host
    case Named(name) => name != "" && name[0] != '[' && (port.None? ==> ':' !in name)
    case Bracketed(literal) => ']' !in literal
  }

  predicate IsSchema(schema: string) { schema != "" && '@' !in schema && '?' !in schema }

  predicate EndsInSpace(s: string) { s != "" && IsRustSpace(s[|s| - 1]) }

  /** The strings that can be printed so that nothing is ambiguous. White space matters only where the
      text ends, because the parser trims it. */
  predicate WellFormed(uri: Uri) {
    IsHost(uri.host, uri.port) && (uri.port.Some? ==> uri.port.value < U16_BOUND) &&
    (uri.schema.Some? ==> IsSchema(uri.schema.value)) &&
    (uri.query == [] ==> !EndsInSpace(PrintHostPart(uri)))
  }

  function MapOf(query: seq<Pair>): map<string, string> {
    if query == [] then map[] else MapOf(query[..|query| - 1])[query[|query| - 1].0 := query[|query| - 1].1]
  }

  /** What a printed string should mean. */
  function Meant(uri: Uri, given: Given, iterate: Iteration, driver: Driver): Result<Params, ConnectionError> {
    Assemble(
      given, if uri.userinfo.None? then None else Some((uri.userinfo.value.user, uri.userinfo.value.password)),
      MapOf(uri.query), Ok((HostText(uri.host), OrElse(uri.port, DEFAULT_PORT))), uri.schema, iterate, driver)
  }

  // ---------------------------------------------------------------------------------------------
  // Parsing inverts printing
  // ---------------------------------------------------------------------------------------------

  /** Encoded text contains no character that structures a string. */
  lemma EncodedIsPlain(s: string)
    ensures forall c :: c in Percent.Encode(s) ==>
              !IsSeparator(c) && c != ':' && c != '&' && c != '=' && !IsRustSpace(c)
  {
    Percent.EncodedChars(Percent.ToUtf8(s));
    var text := Percent.Encode(s);
    assert text == Percent.EncodeBytes(Percent.ToUtf8(s));
    hide Percent.Encode, Percent.ToUtf8, Percent.EncodeBytes, Percent.IsEncodedChar, IsSeparator, IsRustSpace;
    forall c | c in text
      ensures !IsSeparator(c) && c != ':' && c != '&' && c != '=' && !IsRustSpace(c)
    {
      EncodedCharIsPlain(c);
    }
  }

  lemma EncodedCharIsPlain(c: char)
    requires Percent.IsEncodedChar(c)
    ensures !IsSeparator(c) && c != ':' && c != '&' && c != '=' && !IsRustSpace(c)
  {
  }

  lemma DigitsArePlain(n: nat)
    ensures forall c :: c in NumberText.Decimal(n) ==> IsDigit(c)
  {
    NumberText.DecimalSpells(n);
    AllDigitsAreDigits(NumberText.Decimal(n));
  }

  lemma {:induction false} AllDigitsAreDigits(s: string)
    requires NumberText.AllDigits(s)
    ensures forall c :: c in s ==> IsDigit(c)
  {
    if s != "" {
      AllDigitsAreDigits(s[..|s| - 1]);
      assert s == s[..|s| - 1] + [s[|s| - 1]];
    }
  }

  lemma AuthIsRead(u: Userinfo)
    ensures ParseAuth(PrintUserinfo(u)) == Ok((u.user, u.password))
  {
    hide Percent.Encode, Percent.Decode, SplitOnce, FindChar;
    EncodedIsPlain(u.user);
    Percent.DecodeInvertsEncode(u.user);
    var user := Percent.Encode(u.user);
    if u.password.None? {
      assert user + "" == user;
      NoSplit(user, ':');
    } else {
      var password := Percent.Encode(u.password.value);
      SplitOnceAt(user, ':', password);
      assert user + (":" + password) == user + ":" + password;
      Percent.DecodeInvertsEncode(u.password.value);
    }
  }

  lemma NoSplit(s: string, c: char)
    requires c !in s
    ensures SplitOnce(s, c).None? && SplitLast(s, c).None?
  {
    NotFound(s, c);
  }

  lemma NamedIsRead(name: string, port: Option<nat>)
    requires IsHost(Named(name), port) && (port.Some? ==> port.value < U16_BOUND)
    ensures ParseHostPort(PrintHostPort(Named(name), port)) == Ok((name, OrElse(port, DEFAULT_PORT)))
  {
    hide NumberText.Decimal, NumberText.ParseUnsigned, FindChar, FindLast, FreeOfSeparators, SplitLast;
    if port.Some? {
      var digits := NumberText.Decimal(port.value);
      PortIsRead(port.value);
      SplitLastAt(name, ':', digits);
      assert name + (":" + digits) == name + ":" + digits;
    } else {
      NoSplit(name, ':');
      assert name + "" == name;
    }
  }

  lemma PortIsRead(port: nat)
    requires port < U16_BOUND
    ensures ParsePort(NumberText.Decimal(port)) == Ok(port) && ':' !in NumberText.Decimal(port)
  {
    hide NumberText.Decimal, NumberText.ParseUnsigned;
    NumberText.DecimalIsParsed(port, U16_BOUND);
    DigitsArePlain(port);
  }

  lemma BracketedIsRead(literal: string, port: Option<nat>)
    requires IsHost(Bracketed(literal), port) && (port.Some? ==> port.value < U16_BOUND)
    ensures ParseHostPort(PrintHostPort(Bracketed(literal), port)) == Ok((literal, OrElse(port, DEFAULT_PORT)))
  {
    hide NumberText.Decimal, NumberText.ParseUnsigned, FindChar, FindLast, FreeOfSeparators, SplitLast, ParsePort;
    var after := if port.None? then "" else ":" + NumberText.Decimal(port.value);
    if port.Some? { PortIsRead(port.value); }
    var text := PrintHostPort(Bracketed(literal), port);
    FoundAfter("[" + literal, ']', after);
    assert text == "[" + literal + "]" + after;
    assert text[1..|literal| + 1] == literal && text[|literal| + 2..] == after;
    assert port.Some? ==> after[1..] == NumberText.Decimal(port.value);
  }

  lemma HostPortIsRead(host: Host, port: Option<nat>)
    requires IsHost(host, port) && (port.Some? ==> port.value < U16_BOUND)
    ensures ParseHostPort(PrintHostPort(host, port)) == Ok((HostText(host), OrElse(port, DEFAULT_PORT)))
  {
    hide IsHost, ParseHostPort, PrintHostPort;
    match host
    case Named(name) => NamedIsRead(name, port);
    case Bracketed(literal) => BracketedIsRead(literal, port);
  }

  lemma HostPortHasNoSlash(host: Host, port: Option<nat>)
    requires IsHost(host, port)
    ensures FreeOfSeparators(PrintHostPort(host, port))
  {
    if port.Some? { DigitsArePlain(port.value); }
    hide NumberText.Decimal;
    var text := PrintHostPort(host, port);
    forall c | c in text
      ensures !IsSeparator(c)
    {
      assert c in HostText(host) || c == '[' || c == ']' || c == ':' || (port.Some? && c in NumberText.Decimal(port.value));
    }
  }

  /** Splitting the printed host part at its first slash. */
  lemma HostPartIsRead(uri: Uri)
    requires WellFormed(uri)
    ensures var hostPart := PrintHostPart(uri);
            var slash := SplitOnce(hostPart, '/');
            '@' !in hostPart && '?' !in hostPart && SchemaOf(slash) == uri.schema &&
            ParseHostPort(if slash.None? then hostPart else slash.value.0)
            == Ok((HostText(uri.host), OrElse(uri.port, DEFAULT_PORT)))
  {
    hide ParseHostPort, PrintHostPort, SplitOnce, EndsInSpace;
    var hostPort := PrintHostPort(uri.host, uri.port);
    HostPortHasNoSlash(uri.host, uri.port);
    HostPortIsRead(uri.host, uri.port);
    assert '/' !in hostPort && '@' !in hostPort && '?' !in hostPort;
    if uri.schema.None? {
      NoSplit(hostPort, '/');
      assert PrintHostPart(uri) == hostPort;
    } else {
      SplitOnceAt(hostPort, '/', uri.schema.value);
      assert PrintHostPart(uri) == hostPort + "/" + uri.schema.value;
    }
  }

  lemma UserinfoIsPlain(u: Userinfo)
    ensures '?' !in PrintUserinfo(u)
  {
    EncodedIsPlain(u.user);
    if u.password.Some? { EncodedIsPlain(u.password.value); }
    hide Percent.Encode;
  }

  lemma MainIsRead(uri: Uri, params: map<string, string>, given: Given, iterate: Iteration, driver: Driver)
    requires WellFormed(uri)
    ensures '?' !in PrintMain(uri)
    ensures ParseMain(PrintMain(uri), params, given, iterate, driver)
            == Assemble(given, if uri.userinfo.None? then None else Some((uri.userinfo.value.user, uri.userinfo.value.password)),
                        params, Ok((HostText(uri.host), OrElse(uri.port, DEFAULT_PORT))), uri.schema, iterate, driver)
  {
    hide Assemble, ParseHostPort, ParseAuth, PrintHostPart, PrintUserinfo, SplitOnce, SplitLast, WellFormed, SchemaOf;
    HostPartIsRead(uri);
    var hostPart := PrintHostPart(uri);
    if uri.userinfo.None? {
      NoSplit(hostPart, '@');
    } else {
      var auth := PrintUserinfo(uri.userinfo.value);
      UserinfoIsPlain(uri.userinfo.value);
      AuthIsRead(uri.userinfo.value);
      SplitLastAt(auth, '@', hostPart);
    }
  }

  lemma PairIsRead(pair: Pair, position: nat)
    ensures PrintPair(pair) != "" && '&' !in PrintPair(pair) && ParsePair(PrintPair(pair), position) == Ok(pair)
    ensures !EndsInSpace(PrintPair(pair))
  {
    hide Percent.Encode, Percent.Decode, SplitOnce;
    EncodedIsPlain(pair.0);
    EncodedIsPlain(pair.1);
    Percent.DecodeInvertsEncode(pair.0);
    Percent.DecodeInvertsEncode(pair.1);
    var key, value := Percent.Encode(pair.0), Percent.Encode(pair.1);
    SplitOnceAt(key, '=', value);
    var text := PrintPair(pair);
    if value == "" {
      assert text[|text| - 1] == '=';
    } else {
      assert text[|text| - 1] == value[|value| - 1] && value[|value| - 1] in value;
    }
  }

  function PrintPairs(query: seq<Pair>): seq<string> { seq(|query|, k requires 0 <= k < |query| => PrintPair(query[k])) }

  lemma {:induction false} QuerySplits(query: seq<Pair>)
    requires query != []
    ensures SplitOn(PrintQuery(query), '&') == PrintPairs(query) && !EndsInSpace(PrintQuery(query)) && PrintQuery(query) != ""
  {
    hide PrintPair, EndsInSpace, SplitOn;
    var first := PrintPair(query[0]);
    PairIsRead(query[0], 0);
    if |query| == 1 {
      SplitWhole(first, '&');
      assert PrintPairs(query) == [first];
    } else {
      QuerySplits(query[1..]);
      SplitFirst(first, '&', PrintQuery(query[1..]));
      assert PrintPairs(query) == [first] + PrintPairs(query[1..]);
      LastSpace(first + "&", PrintQuery(query[1..]));
    }
  }

  lemma LastSpace(head: string, tail: string)
    requires tail != ""
    ensures EndsInSpace(head + tail) <==> EndsInSpace(tail)
  {
  }

  lemma {:induction false} QueryIsRead(query: seq<Pair>)
    ensures QueryMap(PrintPairs(query)) == Ok(MapOf(query))
  {
    hide PrintPair, ParsePair;
    if query != [] {
      var n := |query| - 1;
      QueryIsRead(query[..n]);
      assert PrintPairs(query)[..n] == PrintPairs(query[..n]);
      PairIsRead(query[n], n + 1);
    }
  }

  lemma TrimKeeps(s: string)
    requires s != "" && !IsRustSpace(s[0]) && !IsRustSpace(s[|s| - 1])
    ensures RustTrimEnd(RustTrimStart(s)) == s
  {
  }

  /** Neither end of a printed string is white space, and the scheme is stripped from it. */
  lemma PrintIsTrimmed(uri: Uri)
    requires WellFormed(uri)
    ensures StripScheme(RustTrimEnd(RustTrimStart(Print(uri)))) ==
              Some(PrintMain(uri) + if uri.query == [] then "" else "?" + PrintQuery(uri.query))
  {
    hide IsHost, PrintQuery, PrintUserinfo, RustTrimEnd, RustTrimStart, IsRustSpace;
    var url := PrintMain(uri) + if uri.query == [] then "" else "?" + PrintQuery(uri.query);
    HostPartIsNotEmpty(uri);
    hide PrintHostPart;
    if uri.query != [] {
      QuerySplits(uri.query);
      LastSpace(SCHEME + (PrintMain(uri) + "?"), PrintQuery(uri.query));
      assert Print(uri) == SCHEME + (PrintMain(uri) + "?") + PrintQuery(uri.query);
    } else {
      assert PrintMain(uri) + "" == PrintMain(uri);
      if uri.userinfo.Some? {
        LastSpace(SCHEME + PrintUserinfo(uri.userinfo.value) + "@", PrintHostPart(uri));
        assert Print(uri) == SCHEME + PrintUserinfo(uri.userinfo.value) + "@" + PrintHostPart(uri);
      } else {
        LastSpace(SCHEME, PrintHostPart(uri));
      }
    }
    assert Print(uri)[0] == 'e' && !IsRustSpace('e') by { SchemeStart(); }
    TrimKeeps(Print(uri));
    assert (SCHEME + url)[..|SCHEME|] == SCHEME && (SCHEME + url)[|SCHEME|..] == url;
  }

  lemma SchemeStart()
    ensures !IsRustSpace('e') && SCHEME[0] == 'e'
  {
  }

  lemma HostPartIsNotEmpty(uri: Uri)
    requires WellFormed(uri)
    ensures PrintHostPart(uri) != ""
  {
  }

  /** Parsing inverts printing: a printed string means exactly the parts it was printed from, with
      credentials from outside taking precedence as they are. */
  lemma ParsingInvertsPrinting(uri: Uri, given: Given, iterate: Iteration, driver: Driver)
    requires WellFormed(uri)
    ensures Parse(Print(uri), given, iterate, driver) == Meant(uri, given, iterate, driver)
  {
    hide Assemble, ParseMain, PrintMain, PrintQuery, WellFormed, SplitOnce;
    hide SplitOn, RustTrimStart, RustTrimEnd, StripScheme, QueryMap, Print;
    PrintIsTrimmed(uri);
    MainIsRead(uri, MapOf(uri.query), given, iterate, driver);
    QueryIsRead(uri.query);
    var main := PrintMain(uri);
    if uri.query == [] {
      assert main + "" == main;
      NoSplit(main, '?');
      assert PrintPairs([]) == [];
    } else {
      var query := PrintQuery(uri.query);
      assert main + ("?" + query) == main + "?" + query;
      SplitOnceAt(main, '?', query);
      QuerySplits(uri.query);
    }
  }

  /** The first of the sources that has something. */
  function FirstOf(sources: seq<Option<string>>): Option<string> {
    if sources == [] then None else if sources[0].Some? then sources[0] else FirstOf(sources[1..])
  }

  function UserOf(userinfo: Option<Userinfo>): Option<string> { if userinfo.None? then None else Some(userinfo.value.user) }

  function PasswordOf(userinfo: Option<Userinfo>): Option<string> { if userinfo.None? then None else userinfo.value.password }

  /** Some query key gives the setting this value. */
  ghost predicate Gives(params: map<string, string>, setting: Setting, value: SettingValue) {
    exists key :: key in params && key in KeysOf(setting) && Says(setting, params[key], value)
  }

  /** Every query key names a setting, and its text says a value of it. */
  ghost predicate Understood(params: map<string, string>) {
    forall key :: key in params ==> exists setting, value :: key in KeysOf(setting) && Says(setting, params[key], value)
  }

  /** No setting is given two values. */
  ghost predicate NoConflict(params: map<string, string>) {
    forall setting, v, w :: setting != IdleTimeout && Gives(params, setting, v) && Gives(params, setting, w) ==> v == w
  }

  lemma GivesIffMeant(params: map<string, string>, setting: Setting, value: SettingValue)
    ensures Gives(params, setting, value) <==> exists key :: key in params && Meaning((key, params[key])) == Some((setting, value))
  {
    hide Meaning, Says, KeysOf;
    forall key | key in params
      ensures Meaning((key, params[key])) == Some((setting, value)) <==> key in KeysOf(setting) && Says(setting, params[key], value)
    {
      MeaningIsExact((key, params[key]), setting, value);
    }
  }

  lemma UnderstoodIffAccepted(params: map<string, string>)
    ensures Understood(params) <==> forall key :: key in params ==> Accepted((key, params[key]))
  {
    hide Meaning, Says, KeysOf;
    forall key | key in params && Accepted((key, params[key]))
      ensures exists setting, value :: key in KeysOf(setting) && Says(setting, params[key], value)
    {
      var meaning := Meaning((key, params[key])).value;
      MeaningIsExact((key, params[key]), meaning.0, meaning.1);
    }
    forall key, setting, value | key in params && key in KeysOf(setting) && Says(setting, params[key], value)
      ensures Accepted((key, params[key]))
    {
      MeaningIsExact((key, params[key]), setting, value);
    }
  }

  /** Without conflicts a setting holds the value that the map gives it, in every iteration order. */
  lemma SettingsFromMap(base: Builder, params: map<string, string>, pairs: seq<Pair>, setting: Setting, value: SettingValue)
    requires Enumerates(pairs, params) && NoConflict(params) && Apply(base, pairs).Ok?
    requires setting != IdleTimeout && Held(base, setting).None?
    ensures Held(Apply(base, pairs).value, setting) == Some(value) <==> Gives(params, setting, value)
  {
    hide Meaning, Apply, Held, LastValue, Gives, Says, KeysOf;
    AppliedSettings(base, pairs, setting);
    LastValueIsSomeValue(pairs, setting);
    GivesIffMeant(params, setting, value);
    assert forall pair :: pair in pairs ==> pair.0 in params && pair == (pair.0, params[pair.0]);
    var last := LastValue(pairs, setting);
    if last.Some? {
      var pair :| pair in pairs && Meaning(pair) == Some((setting, last.value));
      GivesIffMeant(params, setting, last.value);
      assert pair == (pair.0, params[pair.0]);
    } else {
      forall key | key in params
        ensures Meaning((key, params[key])) != Some((setting, value))
      {
        assert (key, params[key]) in pairs;
      }
    }
  }

  lemma {:induction false} RefusedKeyIsNamed(b: Builder, pairs: seq<Pair>)
    requires Apply(b, pairs).Err?
    ensures exists pair :: pair in pairs && !Accepted(pair) && Apply(b, pairs) == Err(InvalidParameter(pair.0))
  {
    hide Meaning;
    var init, last := pairs[..|pairs| - 1], pairs[|pairs| - 1];
    if Apply(b, init).Err? { RefusedKeyIsNamed(b, init); }
  }

  /** What the parts of a string ask for. */
  ghost predicate Asks(uri: Uri, given: Given, b: Builder) {
    var query := MapOf(uri.query);
    b.host == Some(HostText(uri.host)) && b.port == Some(OrElse(uri.port, 8563)) && b.schema == uri.schema &&
    b.username == FirstOf([given.username, UserOf(uri.userinfo), Lookup(query, "user"), Lookup(query, "username")]) &&
    b.password == Some(OrElse(FirstOf([given.password, PasswordOf(uri.userinfo), Lookup(query, "password"), Lookup(query, "pass")]), "")) &&
    forall setting, value :: setting != IdleTimeout ==>
      (Held(b, setting) == Some(value) <==> Gives(query - {"user", "username", "password", "pass"}, setting, value))
  }

  /** The builder that parsing a printed string starts from. */
  function BaseOf(uri: Uri, given: Given): Builder {
    var query := MapOf(uri.query);
    EMPTY_BUILDER.(host := Some(HostText(uri.host)), port := Some(OrElse(uri.port, DEFAULT_PORT)),
                   username := Username(given, UserOf(uri.userinfo), query),
                   password := Some(Password(given, PasswordOf(uri.userinfo), query)), schema := uri.schema)
  }

  lemma FirstOfFour(a: Option<string>, b: Option<string>, c: Option<string>, d: Option<string>)
    ensures FirstOf([a, b, c, d]) == Or(a, Or(b, Or(c, d)))
  {
    assert [a, b, c, d][1..] == [b, c, d] && [b, c, d][1..] == [c, d] && [c, d][1..] == [d];
    assert FirstOf([d]) == d && FirstOf([c, d]) == Or(c, d) && FirstOf([b, c, d]) == Or(b, Or(c, d));
  }

  lemma AssembledFromParts(uri: Uri, given: Given, iterate: Iteration, driver: Driver)
    ensures Meant(uri, given, iterate, driver) ==
              var built := Apply(BaseOf(uri, given), iterate(MapOf(uri.query) - CREDENTIAL_KEYS));
              if BaseOf(uri, given).username.None? then Err(UsernameRequired)
              else if built.Err? then Err(built.error)
              else Build(built.value, driver)
  {
    hide Apply, Build, MapOf, HostText, Password;
  }

  /** A printed string connects as the first user that the caller, the string or its query names, with
      the settings that its query gives, whatever order the hash map has: user, password, host, port
      and schema come back, and so does every setting. Without a user, or with a key or a value that
      nothing understands, it does not connect. */
  lemma FieldsComeBack(uri: Uri, given: Given, iterate: Iteration, driver: Driver) returns (b: Builder)
    requires WellFormed(uri) && IsIteration(iterate)
    requires NoConflict(MapOf(uri.query) - {"user", "username", "password", "pass"})
    ensures var r := Parse(Print(uri), given, iterate, driver);
            var settings := MapOf(uri.query) - {"user", "username", "password", "pass"};
            var user := FirstOf([given.username, UserOf(uri.userinfo), Lookup(MapOf(uri.query), "user"), Lookup(MapOf(uri.query), "username")]);
            if user.None? then r == Err(UsernameRequired)
            else if !Understood(settings) then
              exists key :: key in settings && r == Err(InvalidParameter(key)) &&
                !exists setting, value :: key in KeysOf(setting) && Says(setting, settings[key], value)
            else Asks(uri, given, b) && r == Build(b, driver)
  {
    hide Parse, Print, WellFormed, MapOf, Enumerates, Gives, NoConflict, Understood, Meaning, Build, Apply, Says, KeysOf, Held;
    ParsingInvertsPrinting(uri, given, iterate, driver);
    AssembledFromParts(uri, given, iterate, driver);
    var base, query := BaseOf(uri, given), MapOf(uri.query);
    var settings := query - {"user", "username", "password", "pass"};
    assert settings == query - CREDENTIAL_KEYS;
    var pairs := iterate(settings);
    FirstOfFour(given.username, UserOf(uri.userinfo), Lookup(query, "user"), Lookup(query, "username"));
    FirstOfFour(given.password, PasswordOf(uri.userinfo), Lookup(query, "password"), Lookup(query, "pass"));
    UnderstoodIffAccepted(settings);
    SuccessIsOrderIndependent(base, pairs, settings);
    if Apply(base, pairs).Ok? {
      b := Apply(base, pairs).value;
      AppliedSettings(base, pairs, UseTls);
      forall setting, value | setting != IdleTimeout
        ensures Held(b, setting) == Some(value) <==> Gives(settings, setting, value)
      {
        NothingHeld(uri, given, setting);
        SettingsFromMap(base, settings, pairs, setting, value);
      }
    } else {
      b := base;
      RefusedKeyIsNamed(base, pairs);
      var pair :| pair in pairs && !Accepted(pair) && Apply(base, pairs) == Err(InvalidParameter(pair.0));
      assert Enumerates(pairs, settings);
      KeyIsNotUnderstood(settings, pairs, pair);
    }
  }

  lemma NothingHeld(uri: Uri, given: Given, setting: Setting)
    ensures Held(BaseOf(uri, given), setting).None?
  {
    hide MapOf, HostText, Username, Password;
  }

  lemma KeyIsNotUnderstood(settings: map<string, string>, pairs: seq<Pair>, pair: Pair)
    requires Enumerates(pairs, settings) && pair in pairs && !Accepted(pair)
    ensures pair.0 in settings && !exists setting, value :: pair.0 in KeysOf(setting) && Says(setting, settings[pair.0], value)
  {
    hide Meaning, Says, KeysOf;
    forall setting, value
      ensures !(pair.0 in KeysOf(setting) && Says(setting, settings[pair.0], value))
    {
      MeaningIsExact(pair, setting, value);
    }
  }

  /** The keys that the error for an unknown key lists. */
  const ACCEPTED_QUERY_KEYS := [
    "timeout", "connection_timeout", "query_timeout", "tls", "use_tls", "ssl", "validate_certificate", "verify_certificate",
    "validateservercertificate", "client_name", "client_version", "certificate_fingerprint", "certificatefingerprint",
    "transport", "user", "username", "password", "pass"]

  /** These are the keys that the parser understands, except the deprecated one. */
  lemma ListedKeysAreUnderstood(key: string)
    ensures key in ACCEPTED_QUERY_KEYS <==>
              key in {"user", "username", "password", "pass"} || exists setting :: setting != IdleTimeout && key in KeysOf(setting)
  {
    if key in ACCEPTED_QUERY_KEYS && key !in {"user", "username", "password", "pass"} {
      KeyNamesSetting(key, SettingOf(key).value);
    }
  }

  lemma {:induction false} ApplyKeepsIdentity(b: Builder, pairs: seq<Pair>)
    requires Apply(b, pairs).Ok?
    ensures SameIdentity(Apply(b, pairs).value, b)
  {
    AppliedSettings(b, pairs, UseTls);
  }

  /** Credentials given outside the string are used verbatim, whatever the string says; and no
      connection is ever made for an empty or unnamed user. */
  lemma GivenCredentialsWin(uri: string, given: Given, iterate: Iteration, driver: Driver)
    requires Parse(uri, given, iterate, driver).Ok?
    ensures var params := Parse(uri, given, iterate, driver).value;
            (given.username.Some? ==> params.username == given.username.value) &&
            (given.password.Some? ==> params.password == given.password.value) && params.username != "" &&
            params.host != "" && params.port > 0 && params.connectionTimeout <= MAX_CONNECTION_TIMEOUT
  {
    hide StripScheme, RustTrimStart, RustTrimEnd, QueryMap, QueryParts;
    hide SplitOnce, SplitLast, ParseAuth, ParseHostPort, Apply, SchemaOf;
    var url := StripScheme(RustTrimEnd(RustTrimStart(uri))).value;
    var question := SplitOnce(url, '?');
    var params := QueryMap(QueryParts(if question.None? then None else Some(question.value.1))).value;
    var main := if question.None? then url else question.value.0;
    var at := SplitLast(main, '@');
    var hostPart := if at.None? then main else at.value.1;
    var slash := SplitOnce(hostPart, '/');
    var hostPort := ParseHostPort(if slash.None? then hostPart else slash.value.0);
    var userinfo := if at.None? then None else Some(ParseAuth(at.value.0).value);
    AssembledFromGiven(given, userinfo, params, hostPort, SchemaOf(slash), iterate, driver);
  }

  lemma AssembledFromGiven(
    given: Given, userinfo: Option<(string, Option<string>)>, params: map<string, string>,
    hostPort: Result<(string, nat), ConnectionError>, schema: Option<string>, iterate: Iteration, driver: Driver)
    requires Assemble(given, userinfo, params, hostPort, schema, iterate, driver).Ok?
    ensures var r := Assemble(given, userinfo, params, hostPort, schema, iterate, driver).value;
            (given.username.Some? ==> r.username == given.username.value) &&
            (given.password.Some? ==> r.password == given.password.value) && r.username != "" && r.host != "" && r.port > 0 &&
            r.connectionTimeout <= MAX_CONNECTION_TIMEOUT
  {
    hide Apply;
    var username := Username(given, if userinfo.Some? then Some(userinfo.value.0) else None, params);
    var password := Password(given, if userinfo.Some? then userinfo.value.1 else None, params);
    var base := EMPTY_BUILDER.(host := Some(hostPort.value.0), port := Some(hostPort.value.1),
                               username := username, password := Some(password), schema := schema);
    ApplyKeepsIdentity(base, iterate(params - CREDENTIAL_KEYS));
  }

  // ---------------------------------------------------------------------------------------------
  // Strings as they are written
  // ---------------------------------------------------------------------------------------------

  predicate RustBlank(s: string) { forall c :: c in s ==> IsRustSpace(c) }

  lemma {:induction false} TrimStartPast(lead: string, s: string)
    requires RustBlank(lead)
    ensures RustTrimStart(lead + s) == RustTrimStart(s)
  {
    hide IsRustSpace;
    if lead == "" {
      assert lead + s == s;
    } else {
      assert lead[0] in lead;
      TrimStartPast(lead[1..], s);
      assert (lead + s)[1..] == lead[1..] + s;
    }
  }

  lemma {:induction false} TrimEndPast(s: string, trail: string)
    requires RustBlank(trail)
    ensures RustTrimEnd(s + trail) == RustTrimEnd(s)
  {
    hide IsRustSpace;
    if trail == "" {
      assert s + trail == s;
    } else {
      var n := |trail| - 1;
      assert trail[n] in trail;
      TrimEndPast(s, trail[..n]);
      assert (s + trail)[..|s + trail| - 1] == s + trail[..n];
    }
  }

  lemma {:induction false} TrimStartBefore(s: string, trail: string)
    requires RustBlank(trail)
    ensures RustTrimStart(s + trail) == if RustTrimStart(s) == "" then "" else RustTrimStart(s) + trail
  {
    hide IsRustSpace;
    if s == "" {
      assert s + trail == trail && trail + "" == trail;
      TrimStartPast(trail, "");
    } else if IsRustSpace(s[0]) {
      TrimStartBefore(s[1..], trail);
      assert (s + trail)[1..] == s[1..] + trail;
    } else {
      assert (s + trail)[0] == s[0];
    }
  }

  /** White space around a string makes no difference. */
  lemma OuterSpaceIsIgnored(lead: string, uri: string, trail: string, given: Given, iterate: Iteration, driver: Driver)
    requires RustBlank(lead) && RustBlank(trail)
    ensures Parse(lead + (uri + trail), given, iterate, driver) == Parse(uri, given, iterate, driver)
  {
    hide RustBlank, RustTrimStart, RustTrimEnd, StripScheme, QueryMap, ParseMain;
    TrimStartPast(lead, uri + trail);
    TrimStartBefore(uri, trail);
    TrimEndPast(RustTrimStart(uri), trail);
    assert RustTrimEnd("") == "" by { NothingTrimmed(); }
  }

  lemma NothingTrimmed()
    ensures RustTrimEnd("") == ""
  {
  }

  /** Without its scheme a string is refused before anything else of it is read. */
  lemma SchemeIsRequired(uri: string, given: Given, iterate: Iteration, driver: Driver)
    requires uri == "" || (!IsRustSpace(uri[0]) && !IsRustSpace(uri[|uri| - 1]))
    requires !("exasol://" <= uri)
    ensures Parse(uri, given, iterate, driver) == Err(NotExasolUri)
  {
    hide QueryMap, ParseMain, IsRustSpace;
    assert RustTrimEnd(RustTrimStart(uri)) == uri;
  }

  /** The pieces of a string as they are written; nothing is decoded yet. */
  datatype Written = Written(user: Option<string>, password: Option<string>, hostPort: string, schema: Option<string>, query: Option<string>)

  function AuthText(w: Written): string
    requires w.user.Some?
  {
    if w.password.None? then w.user.value else w.user.value + ":" + w.password.value
  }

  function HostPartText(w: Written): string { if w.schema.None? then w.hostPort else w.hostPort + "/" + w.schema.value }

  function MainText(w: Written): string { if w.user.None? then HostPartText(w) else AuthText(w) + "@" + HostPartText(w) }

  function WrittenText(w: Written): string { if w.query.None? then MainText(w) else MainText(w) + "?" + w.query.value }

  predicate HasNone(s: string, cs: string) { forall c :: c in cs ==> c !in s }

  /** Which separators end which piece: a password may hold the ones of the host, a schema a slash, a
      query anything. */
  predicate IsWritten(w: Written) {
    (w.user.Some? ==> HasNone(w.user.value, ":?")) &&
    (w.password.Some? ==> w.user.Some? && HasNone(w.password.value, "?")) &&
    HasNone(w.hostPort, "?@/") && (w.schema.Some? ==> HasNone(w.schema.value, "?@")) &&
    (w.user.None? ==> HasNone(HostPartText(w), "@"))
  }

  lemma MainHasNoQuery(w: Written)
    requires IsWritten(w)
    ensures '?' !in MainText(w) && '@' !in HostPartText(w)
  {
    assert '?' in ":?" && '?' in "?@/" && '@' in "?@/" && '?' in "?@" && '@' in "?@" && '?' in "?";
  }

  lemma WrittenAuth(w: Written)
    requires IsWritten(w) && w.user.Some?
    ensures ParseAuth(AuthText(w)) ==
              if Percent.Decode(w.user.value).None? then Err(BadEncoding)
              else if w.password.None? then Ok((Percent.Decode(w.user.value).value, None))
              else if Percent.Decode(w.password.value).None? then Err(BadEncoding)
              else Ok((Percent.Decode(w.user.value).value, Percent.Decode(w.password.value)))
  {
    hide Percent.Decode, SplitOnce;
    var user := w.user.value;
    assert ':' in ":?";
    if w.password.None? {
      NoSplit(user, ':');
    } else {
      SplitOnceAt(user, ':', w.password.value);
    }
  }

  lemma WrittenHost(w: Written)
    requires IsWritten(w)
    ensures SplitOnce(HostPartText(w), '/') == if w.schema.None? then None else Some((w.hostPort, w.schema.value))
    ensures w.schema.None? ==> HostPartText(w) == w.hostPort
  {
    hide SplitOnce;
    assert '/' in "?@/";
    if w.schema.None? {
      NoSplit(w.hostPort, '/');
    } else {
      SplitOnceAt(w.hostPort, '/', w.schema.value);
    }
  }

  lemma WrittenMain(w: Written, params: map<string, string>, given: Given, iterate: Iteration, driver: Driver)
    requires IsWritten(w)
    ensures ParseMain(MainText(w), params, given, iterate, driver) ==
              var schema := if w.schema == Some("") then None else w.schema;
              if w.user.None? then Assemble(given, None, params, ParseHostPort(w.hostPort), schema, iterate, driver)
              else
                var auth := ParseAuth(AuthText(w));
                if auth.Err? then Err(auth.error)
                else Assemble(given, Some(auth.value), params, ParseHostPort(w.hostPort), schema, iterate, driver)
  {
    hide Assemble, ParseAuth, ParseHostPort, SplitOnce, SplitLast, AuthText, HostPartText, IsWritten;
    MainHasNoQuery(w);
    WrittenHost(w);
    if w.user.None? {
      NoSplit(HostPartText(w), '@');
    } else {
      SplitLastAt(AuthText(w), '@', HostPartText(w));
    }
  }

  /** The first question mark begins the query, the last at sign before it ends the credentials, the
      first colon of these begins the password, and the first slash after them the schema. The query is
      read before the credentials, and an empty schema is none. */
  lemma SeparatorsAreExact(w: Written, given: Given, iterate: Iteration, driver: Driver)
    requires IsWritten(w) && !EndsInSpace("exasol://" + WrittenText(w))
    ensures Parse("exasol://" + WrittenText(w), given, iterate, driver) ==
              var params := QueryMap(if w.query.None? then [] else SplitOn(w.query.value, '&'));
              if params.Err? then Err(params.error)
              else ParseMain(MainText(w), params.value, given, iterate, driver)
  {
    hide IsWritten, MainText, QueryMap, ParseMain, SplitOnce, SplitOn, RustTrimStart, RustTrimEnd;
    var text := WrittenText(w);
    var uri := "exasol://" + text;
    SchemeStart();
    assert uri[0] == "exasol://"[0];
    TrimKeeps(uri);
    assert uri[..|SCHEME|] == SCHEME && uri[|SCHEME|..] == text;
    MainHasNoQuery(w);
    if w.query.None? {
      NoSplit(MainText(w), '?');
    } else {
      SplitOnceAt(MainText(w), '?', w.query.value);
    }
  }

  /** A part of the query is split at its first equals sign, and both sides are decoded. */
  lemma PairIsExact(key: string, value: string, position: nat)
    requires '=' !in key
    ensures ParsePair(key, position) == Err(BadQueryParameter(position))
    ensures ParsePair(key + "=" + value, position) ==
              if Percent.Decode(key).Some? && Percent.Decode(value).Some?
              then Ok((Percent.Decode(key).value, Percent.Decode(value).value))
              else Err(BadEncoding)
  {
    hide Percent.Decode, SplitOnce;
    NoSplit(key, '=');
    SplitOnceAt(key, '=', value);
  }

  lemma PortIsExact(text: string, n: nat)
    ensures ParsePort(text) == Ok(n) <==> n < 65536 && NumberText.SpellsUnsigned(text, n)
    ensures ParsePort(text).Err? ==> ParsePort(text) == Err(InvalidPort)
  {
    NumberText.UnsignedIsExact(text, n, U16_BOUND);
    hide NumberText.ParseUnsigned, NumberText.SpellsUnsigned;
  }

  /** A host in brackets ends at the first closing one; only a colon right after it begins a port.
      Elsewhere the last colon does, and without one the port is 8563. */
  lemma HostPortIsExact(host: string, rest: string)
    ensures ']' !in host ==>
              ParseHostPort("[" + host + "]" + rest) ==
                if rest == "" || rest[0] != ':' then Ok((host, 8563)) else WithPort(host, ParsePort(rest[1..]))
    ensures (host == "" || host[0] != '[') ==>
              (':' !in host ==> ParseHostPort(host) == Ok((host, 8563))) &&
              (':' !in rest ==> ParseHostPort(host + ":" + rest) == WithPort(host, ParsePort(rest)))
  {
    hide FindChar, FindLast, SplitLast, ParsePort;
    if ']' !in host {
      var text := "[" + host + "]" + rest;
      FoundAfter("[" + host, ']', rest);
      assert text == ("[" + host) + [']'] + rest;
      assert text[1..|host| + 1] == host && text[|host| + 2..] == rest;
    }
    if host == "" || host[0] != '[' {
      if ':' !in host { NoSplit(host, ':'); }
      if ':' !in rest {
        SplitLastAt(host, ':', rest);
        assert (host + ":" + rest)[0] == if host == "" then ':' else host[0];
      }
    }
  }

  function WithPort(host: string, port: Result<nat, ConnectionError>): Result<(string, nat), ConnectionError> {
    match port case Ok(n) => Ok((host, n)) case Err(e) => Err(e)
  }
}
