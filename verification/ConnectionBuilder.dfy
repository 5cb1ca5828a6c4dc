/** The connection builder, and query parameters applied to it in the order a hash map yields them
    (src/connection/params.rs:204-387, 508-660). */
module ConnectionBuilder {
  import opened Text
  import NumberText

  datatype ConnectionError =
    | NotExasolUri
    | BadQueryParameter(position: nat)
    | BadEncoding
    | UsernameRequired
    | InvalidPort
    | InvalidParameter(name: string)

  /** `connectionTimeout` and `queryTimeout` are whole seconds here. */
  datatype Builder = Builder(
    host: Option<string>, port: Option<nat>, username: Option<string>, password: Option<string>, schema: Option<string>,
    connectionTimeout: Option<nat>, queryTimeout: Option<nat>, useTls: Option<bool>, validateCertificate: Option<bool>,
    fingerprint: Option<string>, clientName: Option<string>, clientVersion: Option<string>, transport: Option<string>)

  const EMPTY_BUILDER := Builder(None, None, None, None, None, None, None, None, None, None, None, None, None)

  datatype Params = Params(
    host: string, port: nat, username: string, password: string, schema: Option<string>,
    connectionTimeout: nat, queryTimeout: Option<nat>, useTls: bool, validateCertificate: bool,
    fingerprint: Option<string>, clientName: string, clientVersion: string, transport: Option<string>)

  const DEFAULT_PORT := 8563
  const DEFAULT_CONNECTION_TIMEOUT := 30
  const MAX_CONNECTION_TIMEOUT := 300

  /** What a client is called that does not say. */
  datatype Driver = Driver(name: string, version: string)

  function OrElse<T>(o: Option<T>, other: T): T { if o.Some? then o.value else other }

  function Build(b: Builder, driver: Driver): Result<Params, ConnectionError> {
    if b.host.None? then Err(InvalidParameter("host"))
    else if b.username.None? then Err(InvalidParameter("username"))
    else if b.host.value == "" then Err(InvalidParameter("host"))
    else if b.username.value == "" then Err(InvalidParameter("username"))
    else if OrElse(b.port, DEFAULT_PORT) == 0 then Err(InvalidParameter("port"))
    else if OrElse(b.connectionTimeout, DEFAULT_CONNECTION_TIMEOUT) > MAX_CONNECTION_TIMEOUT then
      Err(InvalidParameter("connection_timeout"))
    else
      Ok(Params(b.host.value, OrElse(b.port, DEFAULT_PORT), b.username.value, OrElse(b.password, ""), b.schema,
                OrElse(b.connectionTimeout, DEFAULT_CONNECTION_TIMEOUT), b.queryTimeout, OrElse(b.useTls, true),
                OrElse(b.validateCertificate, true), b.fingerprint, OrElse(b.clientName, driver.name),
                OrElse(b.clientVersion, driver.version), b.transport))
  }

  // ---------------------------------------------------------------------------------------------
  // Values of query parameters
  // ---------------------------------------------------------------------------------------------

  const U64_BOUND := 0x1_0000_0000_0000_0000

  /** Lower case, as far as it decides equality with an ASCII word: the Kelvin sign is a small k. */
  function Lower(c: char): char {
    if 'A' <= c <= 'Z' then ((c as int) + 32) as char else if c == '\U{212A}' then 'k' else c
  }

  function ToLower(s: string): string { if s == "" then "" else [Lower(s[0])] + ToLower(s[1..]) }

  function ParseBool(value: string): Option<bool> {
    var lower := ToLower(value);
    if lower in {"true", "1", "yes", "on"} then Some(true)
    else if lower in {"false", "0", "no", "off"} then Some(false)
    else None
  }

  function ParseTimeout(value: string): Option<nat> { NumberText.ParseUnsigned(value, U64_BOUND) }

  /** The settings a query key can name; the deprecated `idle_timeout` is checked and ignored. */
  datatype Setting =
    | ConnectionTimeout | QueryTimeout | IdleTimeout | UseTls | ValidateCertificate
    | ClientName | ClientVersion | Fingerprint | Transport

  function SettingOf(key: string): Option<Setting> {
    if key == "timeout" || key == "connection_timeout" then Some(ConnectionTimeout)
    else if key == "query_timeout" then Some(QueryTimeout)
    else if key == "idle_timeout" then Some(IdleTimeout)
    else if key == "tls" || key == "use_tls" || key == "ssl" then Some(UseTls)
    else if key == "validate_certificate" || key == "verify_certificate" || key == "validateservercertificate" then
      Some(ValidateCertificate)
    else if key == "client_name" then Some(ClientName)
    else if key == "client_version" then Some(ClientVersion)
    else if key == "certificate_fingerprint" || key == "certificatefingerprint" then Some(Fingerprint)
    else if key == "transport" then Some(Transport)
    else None
  }

  datatype SettingValue = Seconds(seconds: nat) | Flag(flag: bool) | Words(words: string)

  function ParseValue(setting: Setting, value: string): Option<SettingValue> {
    match setting
    case ConnectionTimeout | QueryTimeout | IdleTimeout =>
      var seconds := ParseTimeout(value);
      if seconds.Some? then Some(Seconds(seconds.value)) else None
    case UseTls | ValidateCertificate =>
      var flag := ParseBool(value);
      if flag.Some? then Some(Flag(flag.value)) else None
    case Transport =>
      var lower := ToLower(value);
      if lower in {"native", "websocket"} then Some(Words(lower)) else None
    case _ => Some(Words(value))
  }

  /** The builder after a setting got a value of its kind. */
  function Assign(b: Builder, setting: Setting, value: SettingValue): Builder {
    match (setting, value)
    case (ConnectionTimeout, Seconds(n)) => b.(connectionTimeout := Some(n))
    case (QueryTimeout, Seconds(n)) => b.(queryTimeout := Some(n))
    case (UseTls, Flag(f)) => b.(useTls := Some(f))
    case (ValidateCertificate, Flag(f)) => b.(validateCertificate := Some(f))
    case (ClientName, Words(w)) => b.(clientName := Some(w))
    case (ClientVersion, Words(w)) => b.(clientVersion := Some(w))
    case (Fingerprint, Words(w)) => b.(fingerprint := Some(w))
    case (Transport, Words(w)) => b.(transport := Some(w))
    case _ => b
  }

  /** What a builder holds for a setting. */
  function Held(b: Builder, setting: Setting): Option<SettingValue> {
    match setting
    case ConnectionTimeout => if b.connectionTimeout.Some? then Some(Seconds(b.connectionTimeout.value)) else None
    case QueryTimeout => if b.queryTimeout.Some? then Some(Seconds(b.queryTimeout.value)) else None
    case IdleTimeout => None
    case UseTls => if b.useTls.Some? then Some(Flag(b.useTls.value)) else None
    case ValidateCertificate => if b.validateCertificate.Some? then Some(Flag(b.validateCertificate.value)) else None
    case ClientName => if b.clientName.Some? then Some(Words(b.clientName.value)) else None
    case ClientVersion => if b.clientVersion.Some? then Some(Words(b.clientVersion.value)) else None
    case Fingerprint => if b.fingerprint.Some? then Some(Words(b.fingerprint.value)) else None
    case Transport => if b.transport.Some? then Some(Words(b.transport.value)) else None
  }

  // ---------------------------------------------------------------------------------------------
  // Applying query parameters
  // ---------------------------------------------------------------------------------------------

  type Pair = (string, string)

  /** The setting and value a pair stands for, if it is accepted. */
  function Meaning(pair: Pair): Option<(Setting, SettingValue)> {
    var setting := SettingOf(pair.0);
    if setting.None? then None
    else
      var value := ParseValue(setting.value, pair.1);
      if value.None? then None else Some((setting.value, value.value))
  }

  function ApplyPair(b: Builder, pair: Pair): Result<Builder, ConnectionError> {
    var meaning := Meaning(pair);
    if meaning.None? then Err(InvalidParameter(pair.0)) else Ok(Assign(b, meaning.value.0, meaning.value.1))
  }

  function Apply(b: Builder, pairs: seq<Pair>): Result<Builder, ConnectionError> {
    if pairs == [] then Ok(b)
    else
      var before := Apply(b, pairs[..|pairs| - 1]);
      if before.Err? then before else ApplyPair(before.value, pairs[|pairs| - 1])
  }

  method ApplyQueryParams(b: Builder, pairs: seq<Pair>) returns (r: Result<Builder, ConnectionError>)
    ensures r == Apply(b, pairs)
  {
    var builder := b;
    assert pairs[..|pairs|] == pairs;
    for k := 0 to |pairs|
      invariant Apply(b, pairs[..k]) == Ok(builder)
    {
      assert pairs[..k + 1][..k] == pairs[..k];
      var next := ApplyPair(builder, pairs[k]);
      if next.Err? {
        FirstRefusalStops(b, pairs, k);
        return next;
      }
      builder := next.value;
    }
    r := Ok(builder);
  }

  lemma {:induction false} FirstRefusalStops(b: Builder, pairs: seq<Pair>, k: nat)
    requires k < |pairs| && Apply(b, pairs[..k]).Ok? && ApplyPair(Apply(b, pairs[..k]).value, pairs[k]).Err?
    ensures Apply(b, pairs) == ApplyPair(Apply(b, pairs[..k]).value, pairs[k])
  {
    hide ApplyPair;
    if k < |pairs| - 1 {
      var init := pairs[..|pairs| - 1];
      assert init[..k] == pairs[..k];
      FirstRefusalStops(b, init, k);
    }
  }

  predicate Accepted(pair: Pair) { Meaning(pair).Some? }

  /** Applying succeeds exactly when every pair is valid on its own. */
  lemma {:induction false} AppliesIffAllAccepted(b: Builder, pairs: seq<Pair>)
    ensures Apply(b, pairs).Ok? <==> forall pair :: pair in pairs ==> Accepted(pair)
  {
    hide Meaning;
    if pairs != [] {
      var init, last := pairs[..|pairs| - 1], pairs[|pairs| - 1];
      AppliesIffAllAccepted(b, init);
      assert forall pair :: pair in pairs <==> pair in init || pair == last;
      assert Apply(b, init).Ok? ==> (ApplyPair(Apply(b, init).value, last).Ok? <==> Accepted(last));
      if Accepted(last) && forall pair :: pair in init ==> Accepted(pair) {
        assert forall pair :: pair in pairs ==> Accepted(pair);
      }
    }
  }

  /** The value of the last pair that names the setting. */
  function LastValue(pairs: seq<Pair>, setting: Setting): Option<SettingValue> {
    if pairs == [] then None
    else
      var meaning := Meaning(pairs[|pairs| - 1]);
      if meaning.Some? && meaning.value.0 == setting then Some(meaning.value.1)
      else LastValue(pairs[..|pairs| - 1], setting)
  }

  /** The fields that no query parameter sets. */
  predicate SameIdentity(a: Builder, b: Builder) {
    a.host == b.host && a.port == b.port && a.username == b.username && a.password == b.password && a.schema == b.schema
  }

  predicate RightKind(setting: Setting, value: SettingValue) {
    match setting
    case ConnectionTimeout | QueryTimeout | IdleTimeout => value.Seconds?
    case UseTls | ValidateCertificate => value.Flag?
    case _ => value.Words?
  }

  lemma AssignedIsHeld(b: Builder, setting: Setting, value: SettingValue, other: Setting)
    requires RightKind(setting, value)
    ensures var after := Assign(b, setting, value);
            SameIdentity(after, b) && Held(after, IdleTimeout).None? &&
            (other != IdleTimeout ==> Held(after, other) == if other == setting then Some(value) else Held(b, other))
  {
  }

  lemma MeaningHasItsKind(pair: Pair)
    requires Accepted(pair)
    ensures RightKind(Meaning(pair).value.0, Meaning(pair).value.1)
  {
    hide SettingOf, ParseTimeout, ParseBool, ToLower;
  }

  /** After applying, a setting holds the value of the last pair that names it, and what it held
      before when none does. */
  lemma {:induction false} AppliedSettings(b: Builder, pairs: seq<Pair>, setting: Setting)
    requires Apply(b, pairs).Ok? && setting != IdleTimeout
    ensures var after := Apply(b, pairs).value;
            SameIdentity(after, b) &&
            Held(after, setting) == if LastValue(pairs, setting).Some? then LastValue(pairs, setting) else Held(b, setting)
  {
    hide Meaning, Assign, Held;
    if pairs != [] {
      var init, last := pairs[..|pairs| - 1], pairs[|pairs| - 1];
      AppliedSettings(b, init, setting);
      MeaningHasItsKind(last);
      AssignedIsHeld(Apply(b, init).value, Meaning(last).value.0, Meaning(last).value.1, setting);
    }
  }

  lemma SameHeldSameBuilder(a: Builder, b: Builder)
    requires SameIdentity(a, b) && forall setting :: Held(a, setting) == Held(b, setting)
    ensures a == b
  {
    assert Held(a, ConnectionTimeout) == Held(b, ConnectionTimeout);
    assert Held(a, QueryTimeout) == Held(b, QueryTimeout);
    assert Held(a, UseTls) == Held(b, UseTls);
    assert Held(a, ValidateCertificate) == Held(b, ValidateCertificate);
    assert Held(a, ClientName) == Held(b, ClientName);
    assert Held(a, ClientVersion) == Held(b, ClientVersion);
    assert Held(a, Fingerprint) == Held(b, Fingerprint);
    assert Held(a, Transport) == Held(b, Transport);
  }

  // ---------------------------------------------------------------------------------------------
  // The order of a hash map
  // ---------------------------------------------------------------------------------------------

  /** `pairs` lists the entries of `params`, each once, in some order. */
  predicate Enumerates(pairs: seq<Pair>, params: map<string, string>) {
    (forall pair :: pair in pairs ==> pair.0 in params && params[pair.0] == pair.1) &&
    (forall key :: key in params ==> (key, params[key]) in pairs) &&
    forall i, j :: 0 <= i < j < |pairs| ==> pairs[i].0 != pairs[j].0
  }

  /** Two pairs that set the same setting set it to the same value. */
  predicate Agree(p: Pair, q: Pair) {
    Accepted(p) && Accepted(q) && Meaning(p).value.0 == Meaning(q).value.0 && Meaning(p).value.0 != IdleTimeout
    ==> Meaning(p) == Meaning(q)
  }

  /** Keys that name the same setting give it the same value. */
  predicate AliasesAgree(params: map<string, string>) {
    forall k, l :: k in params && l in params ==> Agree((k, params[k]), (l, params[l]))
  }

  lemma {:induction false} LastValueIsSomeValue(pairs: seq<Pair>, setting: Setting)
    ensures LastValue(pairs, setting).None? <==>
              forall pair :: pair in pairs && Accepted(pair) ==> Meaning(pair).value.0 != setting
    ensures LastValue(pairs, setting).Some? ==>
              exists pair :: pair in pairs && Meaning(pair) == Some((setting, LastValue(pairs, setting).value))
  {
    hide Meaning;
    if pairs != [] {
      var init, last := pairs[..|pairs| - 1], pairs[|pairs| - 1];
      LastValueIsSomeValue(init, setting);
      assert forall pair :: pair in pairs <==> pair in init || pair == last;
    }
  }

  lemma SameLastValue(a: seq<Pair>, b: seq<Pair>, params: map<string, string>, setting: Setting)
    requires Enumerates(a, params) && Enumerates(b, params) && AliasesAgree(params) && setting != IdleTimeout
    ensures LastValue(a, setting) == LastValue(b, setting)
  {
    hide Meaning, LastValue;
    LastValueIsSomeValue(a, setting);
    LastValueIsSomeValue(b, setting);
    if LastValue(a, setting).Some? {
      var p :| p in a && Meaning(p) == Some((setting, LastValue(a, setting).value));
      assert (p.0, params[p.0]) in b && p == (p.0, params[p.0]);
      var q :| q in b && Meaning(q) == Some((setting, LastValue(b, setting).value));
      assert q == (q.0, params[q.0]);
    }
  }

  /** Whether applying a map succeeds does not depend on its iteration order. */
  lemma SuccessIsOrderIndependent(b: Builder, pairs: seq<Pair>, params: map<string, string>)
    requires Enumerates(pairs, params)
    ensures Apply(b, pairs).Ok? <==> forall key :: key in params ==> Accepted((key, params[key]))
  {
    hide Meaning, Apply;
    AppliesIffAllAccepted(b, pairs);
    assert forall pair :: pair in pairs ==> pair == (pair.0, params[pair.0]);
  }

  /** When keys of one setting agree, every iteration order gives the same builder. */
  lemma SameBuilderForEveryOrder(b: Builder, one: seq<Pair>, other: seq<Pair>, params: map<string, string>)
    requires Enumerates(one, params) && Enumerates(other, params) && AliasesAgree(params) && Apply(b, one).Ok?
    ensures Apply(b, other) == Apply(b, one)
  {
    hide Meaning, Apply, Held, LastValue, Enumerates, AliasesAgree;
    SuccessIsOrderIndependent(b, one, params);
    SuccessIsOrderIndependent(b, other, params);
    var x, y := Apply(b, one).value, Apply(b, other).value;
    AppliedSettings(b, one, UseTls);
    AppliedSettings(b, other, UseTls);
    forall setting
      ensures Held(x, setting) == Held(y, setting)
    {
      if setting != IdleTimeout {
        AppliedSettings(b, one, setting);
        AppliedSettings(b, other, setting);
        SameLastValue(one, other, params, setting);
      } else {
        IdleHoldsNothing(x);
        IdleHoldsNothing(y);
      }
    }
    SameHeldSameBuilder(x, y);
  }

  lemma IdleHoldsNothing(b: Builder)
    ensures Held(b, IdleTimeout).None?
  {
  }

  lemma {:induction false} SomeOrder(params: map<string, string>) returns (pairs: seq<Pair>)
    ensures Enumerates(pairs, params)
    decreases |params|
  {
    if |params| == 0 {
      assert params == map[];
      pairs := [];
    } else {
      var key :| key in params;
      pairs := OrderEndingIn(params, key);
    }
  }

  lemma {:induction false} OrderEndingIn(params: map<string, string>, key: string) returns (pairs: seq<Pair>)
    requires key in params
    ensures Enumerates(pairs, params) && pairs != [] && pairs[|pairs| - 1] == (key, params[key])
    decreases |params|, 0
  {
    var rest := params - {key};
    assert rest.Keys == params.Keys - {key};
    assert |rest| == |rest.Keys| && |params| == |params.Keys|;
    var before := SomeOrder(rest);
    pairs := before + [(key, params[key])];
    forall k | k in params
      ensures (k, params[k]) in pairs
    {
      if k != key { assert k in rest && (k, rest[k]) in before; }
    }
    forall i, j | 0 <= i < j < |pairs|
      ensures pairs[i].0 != pairs[j].0
    {
      assert before[i] in before;
    }
  }

  /** When keys of one setting disagree, two iteration orders give different builders. */
  lemma SomeOrdersDiffer(b: Builder, params: map<string, string>) returns (one: seq<Pair>, other: seq<Pair>)
    requires !AliasesAgree(params) && forall key :: key in params ==> Accepted((key, params[key]))
    ensures Enumerates(one, params) && Enumerates(other, params) && Apply(b, one) != Apply(b, other)
  {
    hide Meaning;
    var k, l :| k in params && l in params && !Agree((k, params[k]), (l, params[l]));
    hide Enumerates, AliasesAgree, Apply, Held;
    one := OrderEndingIn(params, k);
    other := OrderEndingIn(params, l);
    SuccessIsOrderIndependent(b, one, params);
    SuccessIsOrderIndependent(b, other, params);
    var setting := Meaning((k, params[k])).value.0;
    AppliedSettings(b, one, setting);
    AppliedSettings(b, other, setting);
  }

  /** The builder is the same for every iteration order exactly when keys of one setting agree. */
  lemma OrderIndependenceIsExact(b: Builder, params: map<string, string>)
    requires forall key :: key in params ==> Accepted((key, params[key]))
    ensures AliasesAgree(params) <==>
              forall one, other :: Enumerates(one, params) && Enumerates(other, params) ==> Apply(b, one) == Apply(b, other)
  {
    hide Meaning, Apply, Enumerates, AliasesAgree;
    if AliasesAgree(params) {
      forall one, other | Enumerates(one, params) && Enumerates(other, params)
        ensures Apply(b, one) == Apply(b, other)
      {
        SuccessIsOrderIndependent(b, one, params);
        SameBuilderForEveryOrder(b, one, other, params);
      }
    } else {
      var one, other := SomeOrdersDiffer(b, params);
    }
  }

  // ---------------------------------------------------------------------------------------------
  // What a pair means
  // ---------------------------------------------------------------------------------------------

  /** The keys that name a setting. */
  function KeysOf(setting: Setting): set<string> {
    match setting
    case ConnectionTimeout => {"timeout", "connection_timeout"}
    case QueryTimeout => {"query_timeout"}
    case IdleTimeout => {"idle_timeout"}
    case UseTls => {"tls", "use_tls", "ssl"}
    case ValidateCertificate => {"validate_certificate", "verify_certificate", "validateservercertificate"}
    case ClientName => {"client_name"}
    case ClientVersion => {"client_version"}
    case Fingerprint => {"certificate_fingerprint", "certificatefingerprint"}
    case Transport => {"transport"}
  }

  lemma KeyNamesSetting(key: string, setting: Setting)
    ensures SettingOf(key) == Some(setting) <==> key in KeysOf(setting)
  {
    if key in KeysOf(setting) {
      KeyIsKnown(key, setting);
    } else {
      OtherKey(key, setting);
    }
  }

  lemma KeyIsKnown(key: string, setting: Setting)
    requires key in KeysOf(setting)
    ensures SettingOf(key) == Some(setting)
  {
    match setting
    case ConnectionTimeout =>
    case QueryTimeout =>
    case IdleTimeout =>
    case UseTls =>
    case ValidateCertificate =>
    case ClientName =>
    case ClientVersion =>
    case Fingerprint =>
    case Transport =>
  }

  lemma OtherKey(key: string, setting: Setting)
    requires key !in KeysOf(setting)
    ensures SettingOf(key) != Some(setting)
  {
  }

  /** `c` is the character `lower`, or the letter that has it as its lower case. */
  predicate SameLetter(c: char, lower: char) {
    c == lower || (exists k :: 0 <= k < 26 && c == UPPER_CASE[k] && lower == LOWER_CASE[k]) || (c == '\U{212A}' && lower == 'k')
  }

  /** `text` is a lower-case word, in letters of either case. */
  predicate IsWord(text: string, word: string) {
    |text| == |word| && forall i :: 0 <= i < |word| ==> SameLetter(text[i], word[i])
  }

  predicate IsLower(word: string) { forall i :: 0 <= i < |word| ==> !('A' <= word[i] <= 'Z') && word[i] != '\U{212A}' }

  lemma LowerIsSameLetter(c: char, lower: char)
    requires !('A' <= lower <= 'Z') && lower != '\U{212A}'
    ensures Lower(c) == lower <==> SameLetter(c, lower)
  {
    forall k | 0 <= k < 26
      ensures UPPER_CASE[k] == (65 + k) as char && LOWER_CASE[k] == (97 + k) as char
    {
      LetterAt(k);
    }
    assert |UPPER_CASE| == 26 && |LOWER_CASE| == 26;
    hide UPPER_CASE, LOWER_CASE;
    if 'A' <= c <= 'Z' { assert c == UPPER_CASE[c as int - 65]; }
  }

  lemma {:induction false} LowerIsWord(text: string, word: string)
    requires IsLower(word)
    ensures ToLower(text) == word <==> IsWord(text, word)
  {
    hide SameLetter, Lower;
    if text != "" && word != "" {
      LowerIsSameLetter(text[0], word[0]);
      LowerIsWord(text[1..], word[1..]);
      assert word == [word[0]] + word[1..] && ToLower(text) == [Lower(text[0])] + ToLower(text[1..]);
      assert ToLower(text)[0] == Lower(text[0]) && ToLower(text)[1..] == ToLower(text[1..]);
      assert forall i :: 0 < i < |word| && |text| == |word| ==> text[i] == text[1..][i - 1] && word[i] == word[1..][i - 1];
      assert forall i :: 0 <= i < |word| - 1 && |text| == |word| ==> text[1..][i] == text[i + 1] && word[1..][i] == word[i + 1];
    }
  }

  /** The words that say yes or no. */
  function WordsFor(flag: bool): set<string> { if flag then {"true", "1", "yes", "on"} else {"false", "0", "no", "off"} }

  predicate SaysFlag(text: string, flag: bool) { exists word :: word in WordsFor(flag) && IsWord(text, word) }

  lemma FlagIsRead(text: string, flag: bool)
    ensures ParseBool(text) == Some(flag) <==> SaysFlag(text, flag)
  {
    hide ToLower, IsWord;
    forall word | word in WordsFor(true) + WordsFor(false)
      ensures ToLower(text) == word <==> IsWord(text, word)
    {
      LowerIsWord(text, word);
    }
    assert forall word :: word in WordsFor(true) ==> word !in WordsFor(false);
    if SaysFlag(text, flag) {
      var word :| word in WordsFor(flag) && IsWord(text, word);
      assert word in WordsFor(true) + WordsFor(false);
    }
    if ParseBool(text) == Some(flag) {
      assert ToLower(text) in WordsFor(flag);
    }
  }

  ghost predicate SaysSeconds(text: string, n: nat) { n < 0x1_0000_0000_0000_0000 && NumberText.SpellsUnsigned(text, n) }

  lemma SecondsAreRead(text: string, n: nat)
    ensures ParseTimeout(text) == Some(n) <==> SaysSeconds(text, n)
  {
    NumberText.UnsignedIsExact(text, n, U64_BOUND);
  }

  /** `text` gives `setting` the value. */
  ghost predicate Says(setting: Setting, text: string, value: SettingValue) {
    match setting
    case ConnectionTimeout | QueryTimeout | IdleTimeout => value.Seconds? && SaysSeconds(text, value.seconds)
    case UseTls | ValidateCertificate => value.Flag? && SaysFlag(text, value.flag)
    case Transport => value.Words? && value.words in {"native", "websocket"} && IsWord(text, value.words)
    case ClientName | ClientVersion | Fingerprint => value == Words(text)
  }

  /** A pair sets a setting to a value exactly when its key names the setting and its text says the value. */
  lemma MeaningIsExact(pair: Pair, setting: Setting, value: SettingValue)
    ensures Meaning(pair) == Some((setting, value)) <==> pair.0 in KeysOf(setting) && Says(setting, pair.1, value)
  {
    hide SettingOf, KeysOf, ParseBool, ParseTimeout, ToLower, IsWord, SaysFlag, SaysSeconds;
    KeyNamesSetting(pair.0, setting);
    if value.Flag? { FlagIsRead(pair.1, value.flag); }
    if value.Seconds? { SecondsAreRead(pair.1, value.seconds); }
    LowerIsWord(pair.1, "native");
    LowerIsWord(pair.1, "websocket");
  }

  // ---------------------------------------------------------------------------------------------
  // What a connection gets
  // ---------------------------------------------------------------------------------------------

  /** What is missing or out of bounds, in the order in which it is noticed. */
  function Faults(b: Builder): seq<string> {
    (if b.host == None then ["host"] else []) + (if b.username == None then ["username"] else []) +
    (if b.host == Some("") then ["host"] else []) + (if b.username == Some("") then ["username"] else []) +
    (if b.port == Some(0) then ["port"] else []) +
    (if b.connectionTimeout.Some? && b.connectionTimeout.value > 300 then ["connection_timeout"] else [])
  }

  predicate Keeps<T(==)>(given: Option<T>, built: T, other: T) {
    (given.Some? ==> built == given.value) && (given.None? ==> built == other)
  }

  /** A connection is made exactly when nothing is wrong with the builder, and the first fault is
      reported. What the caller gave is kept; otherwise the port is 8563, the timeout 30 seconds and
      the password empty. Encryption and the check of the certificate are off only on request. */
  lemma BuildIsExact(b: Builder, driver: Driver)
    ensures var r := Build(b, driver);
            if Faults(b) != [] then r == Err(InvalidParameter(Faults(b)[0]))
            else
              r.Ok? &&
              var p := r.value;
              Some(p.host) == b.host && Some(p.username) == b.username && Keeps(b.port, p.port, 8563) &&
              Keeps(b.password, p.password, "") && Keeps(b.connectionTimeout, p.connectionTimeout, 30) &&
              (!p.useTls <==> b.useTls == Some(false)) && (!p.validateCertificate <==> b.validateCertificate == Some(false)) &&
              Keeps(b.clientName, p.clientName, driver.name) && Keeps(b.clientVersion, p.clientVersion, driver.version) &&
              p.schema == b.schema && p.queryTimeout == b.queryTimeout && p.fingerprint == b.fingerprint && p.transport == b.transport
  {
  }
}
