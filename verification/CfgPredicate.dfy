/** Deciding whether a `cfg(...)` predicate holds only in test builds
    (scripts/strip_test_coverage.py:172-211).

    The script works on text. The reference is the predicate as a tree, with the white space its
    text may carry, the set of options a build switches on, and what it means for the tree to hold. */
module CfgPredicate {
  import opened Text

  // ---------------------------------------------------------------------------------------------
  // The script's text functions
  // ---------------------------------------------------------------------------------------------

  function TrimStart(s: string): (r: string)
    ensures |r| <= |s|
  {
    if s != "" && IsPythonSpace(s[0]) then TrimStart(s[1..]) else s
  }

  function TrimEnd(s: string): (r: string)
    ensures |r| <= |s|
  {
    if s != "" && IsPythonSpace(s[|s| - 1]) then TrimEnd(s[..|s| - 1]) else s
  }

  function Strip(s: string): (r: string)
    ensures |r| <= |s|
  {
    TrimEnd(TrimStart(s))
  }

  predicate Blank(s: string) { s != "" ==> IsPythonSpace(s[0]) && Blank(s[1..]) }

  lemma {:induction false} StripBlank(s: string)
    ensures Strip(s) == "" <==> Blank(s)
  {
    TrimStartBlank(s);
    TrimEndBlank(TrimStart(s));
  }

  lemma {:induction false} TrimStartBlank(s: string)
    ensures Blank(TrimStart(s)) <==> Blank(s)
  {
    if s != "" && IsPythonSpace(s[0]) {
      TrimStartBlank(s[1..]);
    }
  }

  lemma {:induction false} TrimEndBlank(s: string)
    ensures TrimEnd(s) == "" <==> Blank(s)
  {
    if s != "" && IsPythonSpace(s[|s| - 1]) {
      TrimEndBlank(s[..|s| - 1]);
    }
    if s != "" { BlankToTheEnd(s); }
  }

  lemma {:induction false} BlankToTheEnd(s: string)
    requires s != ""
    ensures Blank(s) <==> Blank(s[..|s| - 1]) && IsPythonSpace(s[|s| - 1])
  {
    if |s| > 1 {
      BlankToTheEnd(s[1..]);
      assert s[..|s| - 1][1..] == s[1..][..|s| - 2];
    }
  }

  datatype Operator = Not | All | Any

  function Name(operator: Operator): string {
    match operator case Not => "not" case All => "all" case Any => "any"
  }

  function OperatorOf(s: string): Option<Operator> {
    if s == "not" then Some(Not) else if s == "all" then Some(All) else if s == "any" then Some(Any) else None
  }

  /** The operator and argument text of a predicate spelled like a call. */
  function ParseCall(s: string): (r: Option<(Operator, string)>)
    ensures r.Some? ==> |r.value.1| < |s|
  {
    if |s| < 3 || OperatorOf(s[..3]).None? then None
    else
      var rest := TrimStart(s[3..]);
      if |rest| >= 2 && rest[0] == '(' && rest[|rest| - 1] == ')' then
        Some((OperatorOf(s[..3]).value, rest[1..|rest| - 1]))
      else None
  }

  function Shift(c: char): int { if c == '(' then 1 else if c == ')' then -1 else 0 }

  /** Where the first comma outside brackets stands, when `depth` brackets are open; the end if nowhere. */
  function FirstComma(s: string, depth: int): (n: nat)
    ensures n <= |s|
  {
    if s == "" || (s[0] == ',' && depth == 0) then 0 else 1 + FirstComma(s[1..], depth + Shift(s[0]))
  }

  /** The parts between top-level commas. */
  function Cut(s: string): (parts: seq<string>)
    ensures parts != []
  {
    var n := FirstComma(s, 0);
    if n < |s| then [s[..n]] + Cut(s[n + 1..]) else [s]
  }

  /** A last part of white space only does not count. */
  function Split(s: string): seq<string> {
    var parts := Cut(s);
    if Strip(parts[|parts| - 1]) != "" then parts else parts[..|parts| - 1]
  }

  lemma {:induction false} PartsAreNoLonger(s: string)
    ensures forall i :: 0 <= i < |Cut(s)| ==> |Cut(s)[i]| <= |s|
  {
    var n := FirstComma(s, 0);
    if n < |s| { PartsAreNoLonger(s[n + 1..]); }
  }

  /** The parts still to come when `current` has been read and `depth` brackets are open. */
  function CutFrom(s: string, depth: int, current: string): seq<string> {
    var n := FirstComma(s, depth);
    if n < |s| then [current + s[..n]] + Cut(s[n + 1..]) else [current + s]
  }

  lemma CutFromStart(s: string)
    ensures CutFrom(s, 0, "") == Cut(s)
  {
    var n := FirstComma(s, 0);
    EmptyPlus(if n < |s| then s[..n] else s);
  }

  lemma EmptyPlus(s: string)
    ensures "" + s == s
  {
  }

  lemma CutFromComma(s: string, tail: string, parts: seq<string>, current: string)
    requires s != "" && tail == s[1..] && s[0] == ','
    ensures parts + CutFrom(s, 0, current) == parts + [current] + CutFrom(tail, 0, "")
  {
    assert current + s[..0] == current;
    CutFromStart(s[1..]);
  }

  lemma CutFromOther(s: string, c: char, tail: string, depth: int, shifted: int, current: string)
    requires s != "" && c == s[0] && tail == s[1..] && (c != ',' || depth != 0) && shifted == depth + Shift(c)
    ensures CutFrom(s, depth, current) == CutFrom(tail, shifted, current + [c])
  {
    var n := FirstComma(s[1..], depth + Shift(s[0]));
    assert FirstComma(s, depth) == n + 1;
    Slide(s, n, current);
  }

  lemma CutFromEnd(s: string, depth: int, current: string)
    requires s == ""
    ensures CutFrom(s, depth, current) == [current]
  {
    assert current + s == current;
  }

  lemma Slide(s: string, n: nat, current: string)
    requires n < |s|
    ensures current + s[..n + 1] == current + [s[0]] + s[1..][..n] && current + s == current + [s[0]] + s[1..]
    ensures n + 1 < |s| ==> s[n + 2..] == s[1..][n + 1..]
  {
  }

  method SplitTopLevel(arguments: string) returns (parts: seq<string>)
    ensures parts == Split(arguments)
  {
    parts := [];
    var depth, current := 0, "";
    CutFromStart(arguments);
    assert arguments[0..] == arguments && [] + Cut(arguments) == Cut(arguments);
    for i := 0 to |arguments|
      invariant Cut(arguments) == parts + CutFrom(arguments[i..], depth, current)
    {
      var character := arguments[i];
      assert arguments[i..][1..] == arguments[i + 1..];
      if character == ',' && depth == 0 {
        CutFromComma(arguments[i..], arguments[i + 1..], parts, current);
        parts := parts + [current];
        current := "";
        continue;
      }
      ghost var before := depth;
      if character == '(' {
        depth := depth + 1;
      } else if character == ')' {
        depth := depth - 1;
      }
      CutFromOther(arguments[i..], character, arguments[i + 1..], before, depth, current);
      current := current + [character];
    }
    CutFromEnd(arguments[|arguments|..], depth, current);
    assert (parts + [current])[..|parts|] == parts;
    if Strip(current) != "" {
      parts := parts + [current];
    }
  }

  /** What an operator makes of the verdicts on its arguments. */
  predicate Verdict(operator: Operator, verdicts: seq<bool>) {
    match operator
    case Not => false
    case All => true in verdicts
    case Any => verdicts != [] && false !in verdicts
  }

  predicate SelectsTestOnly(predicateText: string)
    decreases |predicateText|
  {
    var text := Strip(predicateText);
    if text == "test" then true
    else
      var call := ParseCall(text);
      if call.None? then false
      else
        PartsAreNoLonger(call.value.1);
        var arguments := Split(call.value.1);
        Verdict(call.value.0, seq(|arguments|, i requires 0 <= i < |arguments| => SelectsTestOnly(arguments[i])))
  }

  // ---------------------------------------------------------------------------------------------
  // Predicates as trees
  // ---------------------------------------------------------------------------------------------

  datatype Cfg = Flag(text: string) | Call(operator: Operator, gap: string, args: Args)

  /** An argument list; `More` is an argument with a comma after it, so `More(.., End(_))` ends in one. */
  datatype Args =
    | End(blank: string)
    | Last(lead: string, head: Cfg, trail: string)
    | More(lead: string, head: Cfg, trail: string, rest: Args)

  predicate IsFlag(text: string) {
    text != "" && !IsPythonSpace(text[0]) && !IsPythonSpace(text[|text| - 1]) &&
    forall i :: 0 <= i < |text| ==> text[i] != '(' && text[i] != ')' && text[i] != ','
  }

  predicate WellFormed(c: Cfg) {
    match c
    case Flag(text) => IsFlag(text)
    case Call(operator, gap, args) =>
      Blank(gap) && WellFormedArgs(args) && (operator.Not? ==> Count(args) == 1)
  }

  predicate WellFormedArgs(args: Args) {
    match args
    case End(blank) => Blank(blank)
    case Last(lead, head, trail) => Blank(lead) && WellFormed(head) && Blank(trail)
    case More(lead, head, trail, rest) => Blank(lead) && WellFormed(head) && Blank(trail) && WellFormedArgs(rest)
  }

  function Count(args: Args): nat {
    match args case End(_) => 0 case Last(_, _, _) => 1 case More(_, _, _, rest) => 1 + Count(rest)
  }

  /** The text of a predicate, followed by `after`. */
  function Print(c: Cfg, after: string): string {
    match c
    case Flag(text) => text + after
    case Call(operator, gap, args) => Name(operator) + (gap + ("(" + PrintArgs(args, ")" + after)))
  }

  function PrintArgs(args: Args, after: string): string {
    match args
    case End(blank) => blank + after
    case Last(lead, head, trail) => lead + Print(head, trail + after)
    case More(lead, head, trail, rest) => lead + Print(head, trail + ("," + PrintArgs(rest, after)))
  }

  /** The texts between the commas. */
  function ArgTexts(args: Args): seq<string> {
    match args
    case End(_) => []
    case Last(lead, head, trail) => [lead + Print(head, trail)]
    case More(lead, head, trail, rest) => [lead + Print(head, trail)] + ArgTexts(rest)
  }

  /** The structural rule of the script. */
  predicate TestOnly(c: Cfg) {
    match c
    case Flag(text) => text == "test"
    case Call(operator, _, args) => Verdict(operator, Verdicts(args))
  }

  function Verdicts(args: Args): (verdicts: seq<bool>)
    ensures |verdicts| == Count(args)
  {
    match args
    case End(_) => []
    case Last(_, head, _) => [TestOnly(head)]
    case More(_, head, _, rest) => [TestOnly(head)] + Verdicts(rest)
  }

  /** Whether a build that switches on exactly `options` satisfies the predicate. */
  predicate Holds(c: Cfg, options: set<string>) {
    match c
    case Flag(text) => text in options
    case Call(operator, _, args) =>
      match operator
      case Not => !EveryHolds(args, options)
      case All => EveryHolds(args, options)
      case Any => SomeHolds(args, options)
  }

  predicate EveryHolds(args: Args, options: set<string>) {
    match args
    case End(_) => true
    case Last(_, head, _) => Holds(head, options)
    case More(_, head, _, rest) => Holds(head, options) && EveryHolds(rest, options)
  }

  predicate SomeHolds(args: Args, options: set<string>) {
    match args
    case End(_) => false
    case Last(_, head, _) => Holds(head, options)
    case More(_, head, _, rest) => Holds(head, options) || SomeHolds(rest, options)
  }

  // ---------------------------------------------------------------------------------------------
  // Soundness and its limits
  // ---------------------------------------------------------------------------------------------

  lemma {:induction false} TestOnlyIsSound(c: Cfg, options: set<string>)
    requires TestOnly(c) && Holds(c, options)
    ensures "test" in options
  {
    match c
    case Flag(_) =>
    case Call(operator, _, args) => TestOnlyArgsAreSound(args, options);
  }

  lemma {:induction false} TestOnlyArgsAreSound(args: Args, options: set<string>)
    ensures true in Verdicts(args) && EveryHolds(args, options) ==> "test" in options
    ensures false !in Verdicts(args) && SomeHolds(args, options) ==> "test" in options
  {
    match args
    case End(_) =>
    case Last(_, head, _) =>
      if TestOnly(head) && Holds(head, options) { TestOnlyIsSound(head, options); }
    case More(_, head, _, rest) =>
      if TestOnly(head) && Holds(head, options) { TestOnlyIsSound(head, options); }
      TestOnlyArgsAreSound(rest, options);
  }

  /** No negation, and no `any()` without arguments. */
  predicate Positive(c: Cfg) {
    match c
    case Flag(_) => true
    case Call(operator, _, args) => !operator.Not? && (operator.Any? ==> Count(args) > 0) && PositiveArgs(args)
  }

  predicate PositiveArgs(args: Args) {
    match args
    case End(_) => true
    case Last(_, head, _) => Positive(head)
    case More(_, head, _, rest) => Positive(head) && PositiveArgs(rest)
  }

  function Flags(c: Cfg): set<string> {
    match c case Flag(text) => {text} case Call(_, _, args) => FlagsOf(args)
  }

  function FlagsOf(args: Args): set<string> {
    match args
    case End(_) => {}
    case Last(_, head, _) => Flags(head)
    case More(_, head, _, rest) => Flags(head) + FlagsOf(rest)
  }

  /** The flags under an odd or an even number of `not`, as wanted, when `c` itself stands under an odd
      number if `negated`. */
  function FlagsAt(c: Cfg, negated: bool, odd: bool): set<string> {
    match c
    case Flag(text) => if negated == odd then {text} else {}
    case Call(operator, _, args) => FlagsOfAt(args, negated != operator.Not?, odd)
  }

  function FlagsOfAt(args: Args, negated: bool, odd: bool): set<string> {
    match args
    case End(_) => {}
    case Last(_, head, _) => FlagsAt(head, negated, odd)
    case More(_, head, _, rest) => FlagsAt(head, negated, odd) + FlagsOfAt(rest, negated, odd)
  }

  /** No empty `any()` under an even number of `not`, and no empty `all()` under an odd number. */
  predicate NoneEmpty(c: Cfg, negated: bool) {
    match c
    case Flag(_) => true
    case Call(operator, _, args) =>
      var inner := negated != operator.Not?;
      (Count(args) == 0 ==> inner == operator.Any?) && NoneEmptyOf(args, inner)
  }

  predicate NoneEmptyOf(args: Args, negated: bool) {
    match args
    case End(_) => true
    case Last(_, head, _) => NoneEmpty(head, negated)
    case More(_, head, _, rest) => NoneEmpty(head, negated) && NoneEmptyOf(rest, negated)
  }

  /** `test` stands under no `not`. */
  predicate TestIsPlain(c: Cfg) {
    match c
    case Flag(_) => true
    case Call(operator, _, args) => if operator.Not? then "test" !in FlagsOf(args) else TestIsPlainIn(args)
  }

  predicate TestIsPlainIn(args: Args) {
    match args
    case End(_) => true
    case Last(_, head, _) => TestIsPlain(head)
    case More(_, head, _, rest) => TestIsPlain(head) && TestIsPlainIn(rest)
  }

  /** `test` is not negated, and no other flag occurs both negated and not. */
  predicate IsSeparate(c: Cfg) {
    TestIsPlain(c) && NoneEmpty(c, false) && FlagsAt(c, false, true) !! FlagsAt(c, false, false)
  }

  lemma {:induction false} FlagsAtAreFlags(c: Cfg, negated: bool, odd: bool)
    ensures FlagsAt(c, negated, odd) <= Flags(c)
  {
    match c
    case Flag(_) =>
    case Call(operator, _, args) => FlagsOfAtAreFlags(args, negated != operator.Not?, odd);
  }

  lemma {:induction false} FlagsOfAtAreFlags(args: Args, negated: bool, odd: bool)
    ensures FlagsOfAt(args, negated, odd) <= FlagsOf(args)
  {
    match args
    case End(_) =>
    case Last(_, head, _) => FlagsAtAreFlags(head, negated, odd);
    case More(_, head, _, rest) =>
      FlagsAtAreFlags(head, negated, odd);
      FlagsOfAtAreFlags(rest, negated, odd);
  }

  /** With the flags under an even number of `not` on and the others off, what stands under an even
      number holds and what stands under an odd number does not. */
  lemma {:induction false} Settled(c: Cfg, negated: bool, options: set<string>)
    requires NoneEmpty(c, negated) && FlagsAt(c, negated, false) <= options && FlagsAt(c, negated, true) !! options
    ensures Holds(c, options) <==> !negated
  {
    match c
    case Flag(text) =>
      assert text in FlagsAt(c, negated, negated);
    case Call(operator, _, args) => SettledArgs(args, negated != operator.Not?, options);
  }

  lemma {:induction false} SettledArgs(args: Args, negated: bool, options: set<string>)
    requires NoneEmptyOf(args, negated) && FlagsOfAt(args, negated, false) <= options && FlagsOfAt(args, negated, true) !! options
    ensures EveryHolds(args, options) <==> Count(args) == 0 || !negated
    ensures SomeHolds(args, options) <==> Count(args) > 0 && !negated
  {
    match args
    case End(_) =>
    case Last(_, head, _) => Settled(head, negated, options);
    case More(_, head, _, rest) =>
      Settled(head, negated, options);
      SettledArgs(rest, negated, options);
  }

  lemma {:induction false} ProductionBuild(c: Cfg, options: set<string>)
    requires TestIsPlain(c) && NoneEmpty(c, false) && "test" !in options
    requires FlagsAt(c, false, false) - {"test"} <= options && FlagsAt(c, false, true) !! options
    ensures Holds(c, options) <==> !TestOnly(c)
  {
    match c
    case Flag(_) =>
    case Call(operator, _, args) =>
      if operator.Not? {
        FlagsOfAtAreFlags(args, true, false);
        SettledArgs(args, true, options);
      } else {
        ProductionBuildArgs(args, options);
      }
  }

  lemma {:induction false} ProductionBuildArgs(args: Args, options: set<string>)
    requires TestIsPlainIn(args) && NoneEmptyOf(args, false) && "test" !in options
    requires FlagsOfAt(args, false, false) - {"test"} <= options && FlagsOfAt(args, false, true) !! options
    ensures EveryHolds(args, options) <==> true !in Verdicts(args)
    ensures SomeHolds(args, options) <==> false in Verdicts(args)
  {
    match args
    case End(_) =>
    case Last(_, head, _) => ProductionBuild(head, options);
    case More(_, head, _, rest) =>
      ProductionBuild(head, options);
      ProductionBuildArgs(rest, options);
  }

  /** Where `test` stands under no `not`, no flag occurs both negated and not, and no empty list settles
      the answer, the rule is exact: it says yes just when every satisfying build is a test build. */
  lemma TestOnlyIsExact(c: Cfg)
    requires IsSeparate(c)
    ensures TestOnly(c) <==> forall options: set<string> :: Holds(c, options) ==> "test" in options
  {
    if TestOnly(c) {
      forall options: set<string> | Holds(c, options)
        ensures "test" in options
      {
        TestOnlyIsSound(c, options);
      }
    } else {
      var options := FlagsAt(c, false, false) - {"test"};
      ProductionBuild(c, options);
      assert Holds(c, options) && "test" !in options;
    }
  }

  /** The predicates inside a predicate, itself among them. */
  function Subtrees(c: Cfg): set<Cfg> { match c case Flag(_) => {c} case Call(_, _, args) => {c} + SubtreesOf(args) }

  function SubtreesOf(args: Args): set<Cfg> {
    match args
    case End(_) => {}
    case Last(_, head, _) => Subtrees(head)
    case More(_, head, _, rest) => Subtrees(head) + SubtreesOf(rest)
  }

  predicate IsPlain(c: Cfg) { c.Call? ==> c.operator == All || (c.operator == Any && Count(c.args) > 0) }

  lemma {:induction false} PositiveIsExact(c: Cfg)
    ensures Positive(c) <==> forall t :: t in Subtrees(c) ==> IsPlain(t)
  {
    hide IsPlain, Positive;
    match c
    case Flag(_) => assert IsPlain(c) && Positive(c) by { FlagIsPlain(c); }
    case Call(_, _, args) =>
      PositiveArgsAreExact(args);
      CallIsPlain(c);
      assert c in Subtrees(c);
      assert forall t :: t in Subtrees(c) <==> t == c || t in SubtreesOf(args);
  }

  lemma FlagIsPlain(c: Cfg)
    requires c.Flag?
    ensures IsPlain(c) && Positive(c)
  {
  }

  lemma CallIsPlain(c: Cfg)
    requires c.Call?
    ensures Positive(c) <==> IsPlain(c) && PositiveArgs(c.args)
  {
  }

  lemma {:induction false} PositiveArgsAreExact(args: Args)
    ensures PositiveArgs(args) <==> forall t :: t in SubtreesOf(args) ==> IsPlain(t)
  {
    hide IsPlain, Positive;
    match args
    case End(_) =>
    case Last(_, head, _) => PositiveIsExact(head);
    case More(_, head, _, rest) =>
      PositiveIsExact(head);
      PositiveArgsAreExact(rest);
      assert forall t :: t in SubtreesOf(args) <==> t in Subtrees(head) || t in SubtreesOf(rest);
  }

  lemma {:induction false} PositiveIsSeparate(c: Cfg)
    requires Positive(c)
    ensures TestIsPlain(c) && NoneEmpty(c, false) && FlagsAt(c, false, true) == {}
  {
    match c
    case Flag(_) =>
    case Call(_, _, args) => PositiveArgsAreSeparate(args);
  }

  lemma {:induction false} PositiveArgsAreSeparate(args: Args)
    requires PositiveArgs(args)
    ensures TestIsPlainIn(args) && NoneEmptyOf(args, false) && FlagsOfAt(args, false, true) == {}
  {
    match args
    case End(_) =>
    case Last(_, head, _) => PositiveIsSeparate(head);
    case More(_, head, _, rest) =>
      PositiveIsSeparate(head);
      PositiveArgsAreSeparate(rest);
  }

  /** So it is exact without negation. */
  lemma TestOnlyIsExactWithoutNegation(c: Cfg)
    requires Positive(c)
    ensures TestOnly(c) <==> forall options: set<string> :: Holds(c, options) ==> "test" in options
  {
    hide TestOnly, Holds;
    PositiveIsSeparate(c);
    TestOnlyIsExact(c);
  }

  /** And of `all(test, not(other))` for every other flag. */
  lemma TestAndNotOther(other: string)
    requires other != "test"
    ensures IsSeparate(Call(All, "", More("", Flag("test"), "", Last(" ", Call(Not, "", Last("", Flag(other), "")), ""))))
  {
    var flag, test := Flag(other), Flag("test");
    var inner := Last("", flag, "");
    var negated := Call(Not, "", inner);
    var last := Last(" ", negated, "");
    var both := More("", test, "", last);
    assert Flags(flag) == {other} && FlagsOf(inner) == {other};
    assert FlagsAt(flag, true, true) == {other} && FlagsAt(flag, true, false) == {};
    assert FlagsOfAt(inner, true, true) == {other} && FlagsOfAt(inner, true, false) == {};
    assert FlagsAt(negated, false, true) == {other} && FlagsAt(negated, false, false) == {};
    assert FlagsOfAt(last, false, true) == {other} && FlagsOfAt(last, false, false) == {};
    assert FlagsAt(test, false, true) == {} && FlagsAt(test, false, false) == {"test"};
    assert FlagsOfAt(both, false, true) == {other} && FlagsOfAt(both, false, false) == {"test"};
    assert Count(inner) == 1 && NoneEmpty(flag, true) && NoneEmptyOf(inner, true) && NoneEmpty(negated, false);
    assert NoneEmptyOf(last, false) && Count(last) == 1 && NoneEmptyOf(both, false) && Count(both) == 2;
    assert TestIsPlain(negated) && TestIsPlainIn(last) && TestIsPlain(test) && TestIsPlainIn(both);
  }

  /** With `test` under a `not` it is only sound: `not(not(test))` holds in test builds only and is refused. */
  lemma NegationIsNotAnalysed()
    ensures var c := Call(Not, "", Last("", Call(Not, "", Last("", Flag("test"), "")), ""));
            WellFormed(c) && !TestOnly(c) && forall options: set<string> :: Holds(c, options) ==> "test" in options
  {
    var inner := Call(Not, "", Last("", Flag("test"), ""));
    var c := Call(Not, "", Last("", inner, ""));
    assert WellFormed(Flag("test"));
    assert Count(Last("", Flag("test"), "")) == 1 && Count(Last("", inner, "")) == 1;
    assert WellFormed(inner);
    forall options: set<string> | Holds(c, options)
      ensures "test" in options
    {
      assert EveryHolds(Last("", Flag("test"), ""), options) <==> "test" in options;
      assert EveryHolds(Last("", inner, ""), options) <==> "test" !in options;
    }
  }

  // ---------------------------------------------------------------------------------------------
  // The text functions read back what is printed
  // ---------------------------------------------------------------------------------------------

  lemma {:induction false} PrintThen(c: Cfg, after: string, tail: string)
    ensures Print(c, after) + tail == Print(c, after + tail)
  {
    match c
    case Flag(text) =>
    case Call(operator, gap, args) =>
      PrintArgsThen(args, ")" + after, tail);
      assert ")" + after + tail == ")" + (after + tail);
      var inside := PrintArgs(args, ")" + after);
      assert Name(operator) + (gap + ("(" + inside)) + tail == Name(operator) + (gap + ("(" + (inside + tail)));
  }

  lemma {:induction false} PrintArgsThen(args: Args, after: string, tail: string)
    ensures PrintArgs(args, after) + tail == PrintArgs(args, after + tail)
  {
    match args
    case End(blank) =>
    case Last(lead, head, trail) =>
      PrintThen(head, trail + after, tail);
      assert trail + after + tail == trail + (after + tail);
    case More(lead, head, trail, rest) =>
      var last := PrintArgs(rest, after);
      PrintArgsThen(rest, after, tail);
      PrintThen(head, trail + ("," + last), tail);
      assert trail + ("," + last) + tail == trail + ("," + (last + tail));
  }

  lemma {:induction false} PassPlain(text: string, after: string, depth: int)
    requires forall i :: 0 <= i < |text| ==> text[i] != '(' && text[i] != ')' && text[i] != ','
    ensures FirstComma(text + after, depth) == |text| + FirstComma(after, depth)
  {
    if text == "" {
      assert text + after == after;
    } else {
      PassPlain(text[1..], after, depth);
      assert (text + after)[1..] == text[1..] + after;
    }
  }

  lemma PassBlank(blank: string, after: string, depth: int)
    requires Blank(blank)
    ensures FirstComma(blank + after, depth) == |blank| + FirstComma(after, depth)
  {
    BlankIsPlain(blank);
    PassPlain(blank, after, depth);
  }

  lemma {:induction false} BlankIsPlain(s: string)
    requires Blank(s)
    ensures forall i :: 0 <= i < |s| ==> s[i] != '(' && s[i] != ')' && s[i] != ','
  {
    if s != "" {
      BlankIsPlain(s[1..]);
      assert forall i :: 0 < i < |s| ==> s[i] == s[1..][i - 1];
    }
  }

  lemma PassOne(c: char, after: string, depth: int)
    requires c != ',' || depth != 0
    ensures FirstComma([c] + after, depth) == 1 + FirstComma(after, depth + Shift(c))
  {
    assert ([c] + after)[1..] == after;
  }

  lemma PassCall(operator: Operator, gap: string, inside: string, after: string, depth: nat)
    requires Blank(gap)
    requires FirstComma(inside, depth + 1) == |inside| - 1 - |after| + FirstComma(")" + after, depth + 1)
    ensures var s := Name(operator) + (gap + ("(" + inside));
            FirstComma(s, depth) == |s| - |after| + FirstComma(after, depth)
  {
    PassPlain(Name(operator), gap + ("(" + inside), depth);
    PassBlank(gap, "(" + inside, depth);
    PassOne('(', inside, depth);
    PassOne(')', after, depth + 1);
  }

  /** No comma of a printed predicate is at top level. */
  lemma {:induction false} PassPredicate(c: Cfg, after: string, depth: nat)
    requires WellFormed(c)
    ensures FirstComma(Print(c, after), depth) == |Print(c, after)| - |after| + FirstComma(after, depth)
    decreases c, 0
  {
    match c
    case Flag(text) => PassPlain(text, after, depth);
    case Call(operator, gap, args) =>
      PassArgs(args, ")" + after, depth + 1);
      PassCall(operator, gap, PrintArgs(args, ")" + after), after, depth);
  }

  lemma {:induction false} PassArgs(args: Args, after: string, depth: nat)
    requires WellFormedArgs(args) && depth > 0
    ensures FirstComma(PrintArgs(args, after), depth) == |PrintArgs(args, after)| - |after| + FirstComma(after, depth)
    decreases args, 0
  {
    match args
    case End(blank) => PassBlank(blank, after, depth);
    case Last(lead, head, trail) => PassArgument(lead, head, trail, after, depth);
    case More(lead, head, trail, rest) =>
      PassArgs(rest, after, depth);
      PassMore(lead, head, trail, PrintArgs(rest, after), depth);
  }

  lemma {:induction false} PassMore(lead: string, head: Cfg, trail: string, last: string, depth: nat)
    requires Blank(lead) && WellFormed(head) && Blank(trail) && depth > 0
    ensures var s := lead + Print(head, trail + ("," + last));
            FirstComma(s, depth) == |s| - |last| + FirstComma(last, depth)
    decreases head, 2
  {
    PassArgument(lead, head, trail, "," + last, depth);
    PassOne(',', last, depth);
  }

  lemma {:induction false} PassArgument(lead: string, head: Cfg, trail: string, after: string, depth: nat)
    requires Blank(lead) && WellFormed(head) && Blank(trail)
    ensures var s := lead + Print(head, trail + after);
            FirstComma(s, depth) == |s| - |after| + FirstComma(after, depth)
    decreases head, 1
  {
    PassBlank(lead, Print(head, trail + after), depth);
    PassPredicate(head, trail + after, depth);
    PassBlank(trail, after, depth);
  }

  lemma SplitFirst(text: string, last: string, s: string)
    requires s == text + ("," + last) && FirstComma(s, 0) == |text|
    ensures Split(s) == [text] + Split(last)
  {
    assert s[..|text|] == text && s[|text| + 1..] == last;
    var parts := Cut(last);
    assert Cut(s) == [text] + parts;
    assert ([text] + parts)[..|parts|] == [text] + parts[..|parts| - 1];
  }

  /** Splitting at top-level commas inverts printing. */
  lemma {:induction false} SplitInvertsPrint(args: Args)
    requires WellFormedArgs(args)
    ensures Split(PrintArgs(args, "")) == ArgTexts(args)
  {
    match args
    case End(blank) =>
      PassBlank(blank, "", 0);
      assert blank + "" == blank;
      StripBlank(blank);
    case Last(lead, head, trail) =>
      PassArgument(lead, head, trail, "", 0);
      assert trail + "" == trail;
      StripPrinted(lead, head, trail);
      PrintedEnds(head);
      StripBlank(lead + Print(head, trail));
    case More(lead, head, trail, rest) =>
      var last := PrintArgs(rest, "");
      PassArgument(lead, head, trail, "," + last, 0);
      PrintThen(head, trail, "," + last);
      var text := lead + Print(head, trail);
      assert PrintArgs(args, "") == text + ("," + last) && |"," + last| == 1 + |last|;
      assert ("," + last)[0] == ',';
      SplitInvertsPrint(rest);
      SplitFirst(text, last, PrintArgs(args, ""));
  }

  lemma {:induction false} TrimStartPast(lead: string, s: string)
    requires Blank(lead) && (s != "" ==> !IsPythonSpace(s[0]))
    ensures TrimStart(lead + s) == s
  {
    if lead == "" {
      assert lead + s == s;
    } else {
      TrimStartPast(lead[1..], s);
      assert (lead + s)[1..] == lead[1..] + s;
    }
  }

  lemma {:induction false} TrimEndPast(s: string, trail: string)
    requires Blank(trail) && (s != "" ==> !IsPythonSpace(s[|s| - 1]))
    ensures TrimEnd(s + trail) == s
  {
    if trail == "" {
      assert s + trail == s;
    } else {
      var shorter := trail[..|trail| - 1];
      BlankToTheEnd(trail);
      TrimEndPast(s, shorter);
      assert (s + trail)[..|s + trail| - 1] == s + shorter;
    }
  }

  /** A printed predicate begins and ends with something other than white space. */
  lemma PrintedEnds(c: Cfg)
    requires WellFormed(c)
    ensures var s := Print(c, ""); s != "" && !IsPythonSpace(s[0]) && !IsPythonSpace(s[|s| - 1])
  {
    match c
    case Flag(text) =>
      assert text + "" == text;
    case Call(operator, gap, args) =>
      PrintArgsThen(args, "", ")");
      var body := PrintArgs(args, "");
      assert "" + ")" == ")" && ")" + "" == ")";
      assert Print(c, "") == (Name(operator) + gap + "(" + body) + ")";
  }

  lemma StripPrinted(lead: string, c: Cfg, trail: string)
    requires Blank(lead) && WellFormed(c) && Blank(trail)
    ensures Strip(lead + Print(c, trail)) == Print(c, "")
  {
    PrintedEnds(c);
    PrintThen(c, "", trail);
    assert "" + trail == trail;
    TrimStartPast(lead, Print(c, "") + trail);
    TrimEndPast(Print(c, ""), trail);
  }

  lemma ParseCallText(operator: Operator, gap: string, body: string)
    requires Blank(gap)
    ensures ParseCall(Name(operator) + (gap + ("(" + (body + ")")))) == Some((operator, body))
  {
    var rest := "(" + (body + ")");
    var s := Name(operator) + (gap + rest);
    assert s[3..] == gap + rest;
    TrimStartPast(gap, rest);
    assert rest[1..|rest| - 1] == body;
    assert s[..3] == Name(operator);
  }

  lemma ParsePrintedCall(operator: Operator, gap: string, args: Args)
    requires Blank(gap)
    ensures ParseCall(Print(Call(operator, gap, args), "")) == Some((operator, PrintArgs(args, "")))
  {
    PrintArgsThen(args, "", ")");
    assert "" + ")" == ")" && ")" + "" == ")";
    ParseCallText(operator, gap, PrintArgs(args, ""));
  }

  lemma FlagIsNotCall(text: string)
    requires IsFlag(text)
    ensures ParseCall(text).None?
  {
    if |text| >= 3 {
      TrimmedHasOnly(text[3..]);
      assert '(' !in text[3..];
    }
  }

  lemma {:induction false} TrimmedHasOnly(s: string)
    ensures forall c :: c in TrimStart(s) ==> c in s
  {
    if s != "" { TrimmedHasOnly(s[1..]); }
  }

  /** On the text of a well-formed predicate the script follows the structural rule. */
  lemma {:induction false} SelectsIsTestOnly(lead: string, c: Cfg, trail: string)
    requires Blank(lead) && WellFormed(c) && Blank(trail)
    ensures SelectsTestOnly(lead + Print(c, trail)) <==> TestOnly(c)
    decreases c
  {
    StripPrinted(lead, c, trail);
    match c
    case Flag(text) =>
      assert text + "" == text;
      FlagIsNotCall(text);
    case Call(operator, gap, args) =>
      ParsePrintedCall(operator, gap, args);
      SplitInvertsPrint(args);
      PrintedCallIsNotTest(operator, gap, args);
      SelectsArguments(args);
      SelectsCall(lead + Print(c, trail), operator, PrintArgs(args, ""), Verdicts(args));
  }

  lemma SelectsCall(text: string, operator: Operator, argumentText: string, verdicts: seq<bool>)
    requires Strip(text) != "test" && ParseCall(Strip(text)) == Some((operator, argumentText))
    requires |Split(argumentText)| == |verdicts|
    requires forall i :: 0 <= i < |verdicts| ==> SelectsTestOnly(Split(argumentText)[i]) == verdicts[i]
    ensures SelectsTestOnly(text) == Verdict(operator, verdicts)
  {
    var arguments := Split(argumentText);
    PartsAreNoLonger(argumentText);
    assert seq(|arguments|, i requires 0 <= i < |arguments| => SelectsTestOnly(arguments[i])) == verdicts;
  }

  lemma PrintedCallIsNotTest(operator: Operator, gap: string, args: Args)
    ensures Print(Call(operator, gap, args), "") != "test"
  {
    var s := Print(Call(operator, gap, args), "");
    assert s[0] == Name(operator)[0];
  }

  lemma {:induction false} SelectsArguments(args: Args)
    requires WellFormedArgs(args)
    ensures |ArgTexts(args)| == Count(args)
    ensures forall i :: 0 <= i < Count(args) ==> SelectsTestOnly(ArgTexts(args)[i]) == Verdicts(args)[i]
    decreases args
  {
    match args
    case End(_) =>
    case Last(lead, head, trail) => SelectsIsTestOnly(lead, head, trail);
    case More(lead, head, trail, rest) =>
      SelectsIsTestOnly(lead, head, trail);
      SelectsArguments(rest);
      assert ArgTexts(args)[1..] == ArgTexts(rest) && Verdicts(args)[1..] == Verdicts(rest);
  }

  /** A yes on the text of a predicate means every build that satisfies it is a test build. */
  lemma SelectedMeansTestBuild(c: Cfg, options: set<string>)
    requires WellFormed(c) && SelectsTestOnly(Print(c, "")) && Holds(c, options)
    ensures "test" in options
  {
    SelectsIsTestOnly("", c, "");
    assert "" + Print(c, "") == Print(c, "");
    TestOnlyIsSound(c, options);
  }
}
