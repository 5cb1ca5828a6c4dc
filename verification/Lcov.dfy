/** Rewriting an lcov report without test-module lines (scripts/strip_test_coverage.py:352-527).

    A report is its list of lines. Where the script would raise an exception the model yields `None`
    or an error; everything else is the text the script writes. */
module Lcov {
  import opened Text
  import NumberText
  import Cfg = CfgPredicate
  import opened TestModules

  // ---------------------------------------------------------------------------------------------
  // Reading one line
  // ---------------------------------------------------------------------------------------------

  function KeyOf(line: string): string {
    var colon := FindChar(line, ':');
    if colon.None? then line else line[..colon.value]
  }

  function Payload(line: string): Option<string> {
    var colon := FindChar(line, ':');
    if colon.None? then None else Some(line[colon.value + 1..])
  }

  /** `line.startswith(key + ":")` for a key without a colon. */
  predicate HasKey(line: string, key: string) { KeyOf(line) == key && Payload(line).Some? }

  lemma HasKeyIsPrefix(line: string, key: string)
    requires ':' !in key
    ensures HasKey(line, key) <==> key + ":" <= line
  {
    var colon := FindChar(line, ':');
    if key + ":" <= line {
      assert line == key + [':'] + line[|key| + 1..];
      FoundAfter(key, ':', line[|key| + 1..]);
    }
    if HasKey(line, key) {
      assert line == key + ":" + line[colon.value + 1..];
    }
  }

  predicate Underscored(s: string) {
    s != "" && IsDigit(s[|s| - 1]) &&
    (|s| == 1 || Underscored(if s[|s| - 2] == '_' then s[..|s| - 2] else s[..|s| - 1]))
  }

  function WithoutUnderscores(s: string): string
    requires Underscored(s)
  {
    (if |s| == 1 then "" else WithoutUnderscores(if s[|s| - 2] == '_' then s[..|s| - 2] else s[..|s| - 1])) + [s[|s| - 1]]
  }

  lemma {:induction false} OnlyDigitsLeft(s: string)
    requires Underscored(s)
    ensures NumberText.AllDigits(WithoutUnderscores(s))
  {
    if |s| == 1 {
      NumberText.Snoc("", s[0]);
    } else {
      var init := if s[|s| - 2] == '_' then s[..|s| - 2] else s[..|s| - 1];
      OnlyDigitsLeft(init);
      NumberText.Snoc(WithoutUnderscores(init), s[|s| - 1]);
    }
  }

  /** Python's `int` on ASCII text: outer white space, a sign, digits with single underscores between. */
  function ParseInt(text: string): Option<int> {
    var s := Cfg.Strip(text);
    var signed := s != "" && (s[0] == '-' || s[0] == '+');
    var magnitude := if signed then s[1..] else s;
    if !Underscored(magnitude) then None
    else
      OnlyDigitsLeft(magnitude);
      Some(NumberText.Signed(signed && s[0] == '-', NumberText.Value(WithoutUnderscores(magnitude))))
  }

  lemma {:induction false} DigitsNeedNoUnderscores(s: string)
    requires s != "" && NumberText.AllDigits(s)
    ensures Underscored(s) && WithoutUnderscores(s) == s
  {
    hide NumberText.Value;
    if |s| > 1 {
      NumberText.DigitsHaveNo(s, '_');
      assert s[|s| - 2] in s;
      DigitsNeedNoUnderscores(s[..|s| - 1]);
      assert s == s[..|s| - 1] + [s[|s| - 1]];
    }
  }

  /** The counts the script writes are numbers it can read. */
  lemma DecimalIsParsed(n: nat)
    ensures ParseInt(NumberText.Decimal(n)) == Some(n)
  {
    var s := NumberText.Decimal(n);
    hide NumberText.Decimal, NumberText.Value, NumberText.AllDigits;
    NumberText.DecimalSpells(n);
    FirstAndLastDigit(s);
    DigitsNeedNoUnderscores(s);
    assert Cfg.Strip(s) == s;
  }

  lemma FirstAndLastDigit(s: string)
    requires s != "" && NumberText.AllDigits(s)
    ensures IsDigit(s[0]) && IsDigit(s[|s| - 1])
  {
    NumberText.DropLeading(s);
  }

  // ---------------------------------------------------------------------------------------------
  // What a number looks like
  // ---------------------------------------------------------------------------------------------

  /** Groups of digits. */
  predicate AreGroups(groups: seq<string>) { groups != [] && forall k :: 0 <= k < |groups| ==> IsGroup(groups[k]) }

  predicate IsGroup(g: string) { g != "" && forall i :: 0 <= i < |g| ==> IsDigit(g[i]) }

  lemma GroupsBefore(groups: seq<string>, g: string)
    requires groups == [] || AreGroups(groups)
    requires IsGroup(g)
    ensures AreGroups(groups + [g])
  {
    hide IsGroup;
  }

  lemma GroupsInit(groups: seq<string>)
    requires AreGroups(groups)
    ensures groups[..|groups| - 1] == [] || AreGroups(groups[..|groups| - 1])
    ensures IsGroup(groups[|groups| - 1])
  {
    hide IsGroup;
  }

  /** The groups with an underscore between each two. */
  function JoinGroups(groups: seq<string>): string
    requires groups != []
  {
    var n := |groups| - 1;
    if n == 0 then groups[0] else JoinGroups(groups[..n]) + ("_" + groups[n])
  }

  function AllGroups(groups: seq<string>): string {
    if groups == [] then "" else AllGroups(groups[..|groups| - 1]) + groups[|groups| - 1]
  }

  lemma LastGroup(groups: seq<string>, c: char)
    requires groups != []
    ensures var longer := groups[..|groups| - 1] + [groups[|groups| - 1] + [c]];
            JoinGroups(longer) == JoinGroups(groups) + [c] && AllGroups(longer) == AllGroups(groups) + [c]
  {
    var n := |groups| - 1;
    var longer := groups[..n] + [groups[n] + [c]];
    assert longer[..n] == groups[..n];
  }

  lemma NewGroup(groups: seq<string>, c: char)
    requires groups != []
    ensures JoinGroups(groups + [[c]]) == JoinGroups(groups) + ['_', c] && AllGroups(groups + [[c]]) == AllGroups(groups) + [c]
  {
    assert (groups + [[c]])[..|groups|] == groups;
    assert "_" + [c] == ['_', c];
  }

  lemma OneGroup(c: char)
    ensures JoinGroups([[c]]) == [c] && AllGroups([[c]]) == [c]
  {
    assert [[c]][..0] == [];
  }

  lemma LastDigit(s: string) returns (before: string, c: char)
    requires Underscored(s)
    ensures IsDigit(c) && |before| < |s| && (before == "" ==> s == [c] && WithoutUnderscores(s) == [c])
    ensures before != "" ==>
              Underscored(before) && WithoutUnderscores(s) == WithoutUnderscores(before) + [c] &&
              (s == before + [c] || s == before + ['_', c])
  {
    c := s[|s| - 1];
    before := if |s| == 1 then "" else if s[|s| - 2] == '_' then s[..|s| - 2] else s[..|s| - 1];
    if |s| > 1 {
      assert s == s[..|s| - 1] + [c] && (s[|s| - 2] == '_' ==> s == s[..|s| - 2] + ['_', c]);
    }
  }

  lemma OneDigit(c: char)
    requires IsDigit(c)
    ensures IsGroup([c]) && AreGroups([[c]])
  {
  }

  lemma LongerGroup(g: string, c: char)
    requires IsGroup(g) && IsDigit(c)
    ensures IsGroup(g + [c])
  {
  }

  /** Digits with underscores between them are groups with an underscore between each two. */
  lemma {:induction false} GroupsOf(s: string) returns (groups: seq<string>)
    requires Underscored(s)
    ensures AreGroups(groups) && groups != [] && s == JoinGroups(groups) && WithoutUnderscores(s) == AllGroups(groups)
    decreases |s|
  {
    hide JoinGroups, AllGroups, Underscored, WithoutUnderscores, IsGroup;
    var before, c := LastDigit(s);
    OneDigit(c);
    if before == "" {
      groups := [[c]];
      OneGroup(c);
    } else {
      var earlier := GroupsOf(before);
      if s == before + [c] {
        var n := |earlier| - 1;
        groups := earlier[..n] + [earlier[n] + [c]];
        LastGroup(earlier, c);
        LongerGroup(earlier[n], c);
      } else {
        groups := earlier + [[c]];
        NewGroup(earlier, c);
      }
    }
  }

  lemma {:induction false} GroupsAreUnderscored(groups: seq<string>)
    requires AreGroups(groups)
    ensures Underscored(JoinGroups(groups)) && WithoutUnderscores(JoinGroups(groups)) == AllGroups(groups)
    decreases |groups|, |groups[|groups| - 1]|
  {
    var n := |groups| - 1;
    var last := groups[n];
    GroupsInit(groups);
    var g, c := GroupEnds(last);
    hide JoinGroups, AllGroups, AreGroups, IsGroup, Underscored, WithoutUnderscores;
    if g != "" {
      var shorter := groups[..n] + [g];
      GroupsBefore(groups[..n], g);
      assert shorter[..n] == groups[..n] && groups == groups[..n] + [last];
      GroupsAreUnderscored(shorter);
      LastGroup(shorter, c);
      EndsInDigit(JoinGroups(shorter), JoinGroups(groups), c);
    } else if n > 0 {
      assert last == [c] && groups == groups[..n] + [last];
      GroupsAreUnderscored(groups[..n]);
      NewGroup(groups[..n], c);
      EndsInGroup(JoinGroups(groups[..n]), JoinGroups(groups), c);
    } else {
      assert last == [c] && groups == [last];
      OneGroup(c);
      IsDigitAlone(c);
    }
  }

  lemma GroupEnds(group: string) returns (before: string, c: char)
    requires IsGroup(group)
    ensures IsDigit(c) && group == before + [c] && (before != "" ==> IsGroup(before))
  {
    before, c := group[..|group| - 1], group[|group| - 1];
  }

  lemma IsDigitAlone(c: char)
    requires IsDigit(c)
    ensures Underscored([c]) && WithoutUnderscores([c]) == [c]
  {
  }

  lemma EndsInGroup(before: string, s: string, c: char)
    requires Underscored(before) && IsDigit(c) && s == before + ['_', c]
    ensures Underscored(s) && WithoutUnderscores(s) == WithoutUnderscores(before) + [c]
  {
    assert s[..|s| - 2] == before && s[|s| - 2] == '_' && s[|s| - 1] == c;
  }

  lemma EndsInDigit(before: string, s: string, c: char)
    requires Underscored(before) && IsDigit(c) && s == before + [c]
    ensures Underscored(s) && WithoutUnderscores(s) == WithoutUnderscores(before) + [c]
  {
    assert s[..|s| - 1] == before && s[|s| - 2] == before[|before| - 1];
  }

  /** `text` spells `v`: white space, maybe a sign, groups of digits, white space. */
  predicate SpellsInt(text: string, lead: string, sign: string, groups: seq<string>, trail: string, v: int) {
    Cfg.Blank(lead) && Cfg.Blank(trail) && sign in {"", "+", "-"} && AreGroups(groups) &&
    text == lead + (sign + JoinGroups(groups)) + trail && NumberText.AllDigits(AllGroups(groups)) &&
    v == if sign == "-" then 0 - NumberText.Value(AllGroups(groups)) else NumberText.Value(AllGroups(groups))
  }

  lemma UnderscoredEnds(s: string)
    requires Underscored(s)
    ensures s != "" && IsDigit(s[|s| - 1]) && IsDigit(s[0])
  {
    if |s| > 1 {
      UnderscoredEnds(if s[|s| - 2] == '_' then s[..|s| - 2] else s[..|s| - 1]);
    }
  }

  lemma {:induction false} TrimmedStart(s: string) returns (lead: string)
    ensures Cfg.Blank(lead) && s == lead + Cfg.TrimStart(s)
  {
    if s != "" && IsPythonSpace(s[0]) {
      var rest := TrimmedStart(s[1..]);
      lead := [s[0]] + rest;
      assert lead[1..] == rest;
    } else {
      lead := "";
    }
  }

  lemma {:induction false} TrimmedEnd(s: string) returns (trail: string)
    ensures Cfg.Blank(trail) && s == Cfg.TrimEnd(s) + trail
  {
    if s != "" && IsPythonSpace(s[|s| - 1]) {
      var rest := TrimmedEnd(s[..|s| - 1]);
      trail := rest + [s[|s| - 1]];
      Cfg.BlankToTheEnd(trail);
      assert trail[..|trail| - 1] == rest;
    } else {
      trail := "";
    }
  }

  predicate NoOuterSpace(s: string) { s == "" || (!IsPythonSpace(s[0]) && !IsPythonSpace(s[|s| - 1])) }

  predicate IsPadded(s: string, lead: string, core: string, trail: string) {
    Cfg.Blank(lead) && Cfg.Blank(trail) && s == lead + (core + trail)
  }

  lemma {:induction false} TrimmedStarts(s: string)
    ensures var r := Cfg.TrimStart(s); r != "" ==> !IsPythonSpace(r[0])
  {
    if s != "" && IsPythonSpace(s[0]) { TrimmedStarts(s[1..]); }
  }

  lemma {:induction false} TrimmedEnds(s: string)
    ensures var r := Cfg.TrimEnd(s); r <= s && (r != "" ==> !IsPythonSpace(r[|r| - 1]))
  {
    if s != "" && IsPythonSpace(s[|s| - 1]) { TrimmedEnds(s[..|s| - 1]); }
  }

  lemma {:induction false} BlankJoined(a: string, b: string)
    requires Cfg.Blank(a) && Cfg.Blank(b)
    ensures Cfg.Blank(a + b)
  {
    if a == "" {
      assert a + b == b;
    } else {
      BlankJoined(a[1..], b);
      assert (a + b)[1..] == a[1..] + b;
    }
  }

  /** Stripping leaves what stands between the outer white space. */
  lemma StripIsExact(s: string, core: string)
    ensures Cfg.Strip(s) == core <==> NoOuterSpace(core) && exists lead, trail :: IsPadded(s, lead, core, trail)
  {
    hide Cfg.TrimStart, Cfg.TrimEnd, Cfg.Blank;
    var start := Cfg.TrimStart(s);
    if Cfg.Strip(s) == core {
      var lead := TrimmedStart(s);
      var trail := TrimmedEnd(start);
      TrimmedStarts(s);
      TrimmedEnds(start);
      assert IsPadded(s, lead, core, trail);
    }
    if lead, trail :| NoOuterSpace(core) && IsPadded(s, lead, core, trail) {
      if core == "" {
        BlankJoined(lead, trail);
        assert core + trail == trail;
        Cfg.StripBlank(s);
      } else {
        assert (core + trail)[0] == core[0];
        Cfg.TrimStartPast(lead, core + trail);
        Cfg.TrimEndPast(core, trail);
      }
    }
  }

  lemma AreSome(groups: seq<string>)
    requires AreGroups(groups)
    ensures groups != []
  {
  }

  /** Text is read as a number exactly when it spells it. */
  lemma IntIsExact(text: string, v: int)
    ensures ParseInt(text) == Some(v) <==> exists lead, sign, groups, trail :: SpellsInt(text, lead, sign, groups, trail, v)
  {
    hide NumberText.Value, Underscored, WithoutUnderscores, JoinGroups;
    hide AllGroups, AreGroups, Cfg.Blank, Cfg.TrimStart, Cfg.TrimEnd;
    if ParseInt(text) == Some(v) {
      var s := Cfg.Strip(text);
      var lead := TrimmedStart(text);
      var trail := TrimmedEnd(Cfg.TrimStart(text));
      var sign := if s != "" && (s[0] == '-' || s[0] == '+') then s[..1] else "";
      var magnitude := if sign != "" then s[1..] else s;
      var groups := GroupsOf(magnitude);
      OnlyDigitsLeft(magnitude);
      AreSome(groups);
      assert sign == "" || (sign == [s[0]] && s == sign + s[1..]);
      assert s == sign + JoinGroups(groups);
      assert text == lead + (s + trail) == lead + s + trail;
      assert SpellsInt(text, lead, sign, groups, trail, v);
    }
    if lead, sign, groups, trail :| SpellsInt(text, lead, sign, groups, trail, v) {
      SpelledIsRead(text, lead, sign, groups, trail, v);
    }
  }

  lemma SpelledIsRead(text: string, lead: string, sign: string, groups: seq<string>, trail: string, v: int)
    requires SpellsInt(text, lead, sign, groups, trail, v)
    ensures ParseInt(text) == Some(v)
  {
    hide NumberText.Value, Underscored, WithoutUnderscores, JoinGroups;
    hide AllGroups, AreGroups, Cfg.Blank, Cfg.TrimStart, Cfg.TrimEnd;
    AreSome(groups);
    GroupsAreUnderscored(groups);
    var magnitude := JoinGroups(groups);
    UnderscoredEnds(magnitude);
    var s := sign + magnitude;
    assert s[|s| - 1] == magnitude[|magnitude| - 1] && s[0] == if sign == "" then magnitude[0] else sign[0];
    assert text == lead + (s + trail);
    assert (s + trail)[0] == s[0];
    Cfg.TrimStartPast(lead, s + trail);
    Cfg.TrimEndPast(s, trail);
    assert Cfg.Strip(text) == s;
    assert sign != "" ==> s[1..] == magnitude;
    assert sign == "" ==> s == magnitude;
  }

  function Field(line: string, k: nat): Option<string> {
    var payload := Payload(line);
    if payload.None? then None
    else
      var fields := SplitOn(payload.value, ',');
      if k < |fields| then Some(fields[k]) else None
  }

  function IntField(line: string, k: nat): Option<int> {
    var field := Field(line, k);
    if field.None? then None else ParseInt(field.value)
  }

  /** The source line an entry is about. */
  function EntryLine(line: string): Option<int> { IntField(line, 0) }

  /** What follows the first comma. */
  function FunctionName(line: string): Option<string> {
    var payload := Payload(line);
    if payload.None? then None
    else
      var comma := FindChar(payload.value, ',');
      if comma.None? then None else Some(payload.value[comma.value + 1..])
  }

  function ExecutionCount(line: string): Option<int> {
    var k := if HasKey(line, "DA") then 1 else 0;
    if Field(line, k) == Some("-") then Some(0) else IntField(line, k)
  }

  function BranchTaken(line: string): Option<bool> {
    var taken := IntField(line, 3);
    if Field(line, 3) == Some("-") then Some(false)
    else if taken.None? then None else Some(taken.value > 0)
  }

  // ---------------------------------------------------------------------------------------------
  // Stripping one record
  // ---------------------------------------------------------------------------------------------

  predicate InRanges(ranges: seq<Range>, line: int) { line >= 0 && Contains(ranges, line) }

  predicate IsEntry(line: string) { HasKey(line, "DA") || HasKey(line, "BRDA") || HasKey(line, "FN") }

  predicate EntryInside(line: string, ranges: seq<Range>) {
    EntryLine(line).Some? && InRanges(ranges, EntryLine(line).value)
  }

  predicate IsTestFunction(line: string, ranges: seq<Range>) {
    HasKey(line, "FN") && EntryInside(line, ranges) && FunctionName(line).Some?
  }

  function DroppedFunctions(lines: seq<string>, ranges: seq<Range>): set<string> {
    set line | line in lines && IsTestFunction(line, ranges) :: FunctionName(line).value
  }

  predicate IsDropped(line: string, ranges: seq<Range>, dropped: set<string>) {
    if IsEntry(line) then EntryInside(line, ranges)
    else HasKey(line, "FNDA") && FunctionName(line).Some? && FunctionName(line).value in dropped
  }

  function Kept(lines: seq<string>, ranges: seq<Range>, dropped: set<string>): seq<string> {
    if lines == [] then []
    else
      var line := lines[|lines| - 1];
      Kept(lines[..|lines| - 1], ranges, dropped) + if IsDropped(line, ranges, dropped) then [] else [line]
  }

  /** The totals an lcov record states, by their keys. */
  datatype Total = LF | LH | BRF | BRH | FNF | FNH

  function TotalKey(t: Total): string {
    match t
    case LF => "LF" case LH => "LH" case BRF => "BRF" case BRH => "BRH" case FNF => "FNF" case FNH => "FNH"
  }

  function TotalOf(key: string): (t: Option<Total>)
    ensures t.Some? ==> TotalKey(t.value) == key
    ensures t.None? ==> forall u: Total :: TotalKey(u) != key
  {
    if key == "LF" then Some(LF) else if key == "LH" then Some(LH) else if key == "BRF" then Some(BRF)
    else if key == "BRH" then Some(BRH) else if key == "FNF" then Some(FNF) else if key == "FNH" then Some(FNH)
    else None
  }

  /** Which lines a total counts. */
  predicate Counts(t: Total, line: string) {
    match t
    case LF => HasKey(line, "DA")
    case LH => HasKey(line, "DA") && ExecutionCount(line).Some? && ExecutionCount(line).value > 0
    case BRF => HasKey(line, "BRDA")
    case BRH => HasKey(line, "BRDA") && BranchTaken(line) == Some(true)
    case FNF => HasKey(line, "FN")
    case FNH => HasKey(line, "FNDA") && ExecutionCount(line).Some? && ExecutionCount(line).value > 0
  }

  function Count(t: Total, lines: seq<string>): (n: nat)
    ensures n <= |lines|
  {
    if lines == [] then 0
    else Count(t, lines[..|lines| - 1]) + if Counts(t, lines[|lines| - 1]) then 1 else 0
  }

  datatype RecordTotals = RecordTotals(
    linesFound: nat, linesHit: nat, branchesFound: nat, branchesHit: nat, functionsFound: nat, functionsHit: nat)

  function Totals(lines: seq<string>): RecordTotals {
    RecordTotals(Count(LF, lines), Count(LH, lines), Count(BRF, lines), Count(BRH, lines), Count(FNF, lines), Count(FNH, lines))
  }

  function Select(totals: RecordTotals, t: Total): nat {
    match t
    case LF => totals.linesFound case LH => totals.linesHit
    case BRF => totals.branchesFound case BRH => totals.branchesHit
    case FNF => totals.functionsFound case FNH => totals.functionsHit
  }

  function RewriteTotal(line: string, totals: RecordTotals): string {
    var t := TotalOf(KeyOf(line));
    if t.None? then line else KeyOf(line) + ":" + NumberText.Decimal(Select(totals, t.value))
  }

  function Rewritten(lines: seq<string>, totals: RecordTotals): (r: seq<string>)
    ensures |r| == |lines| && forall k :: 0 <= k < |lines| ==> r[k] == RewriteTotal(lines[k], totals)
  {
    seq(|lines|, k requires 0 <= k < |lines| => RewriteTotal(lines[k], totals))
  }

  /** Deciding whether the line stays raises no exception. */
  predicate Decidable(line: string, ranges: seq<Range>) {
    if IsEntry(line) then
      EntryLine(line).Some? &&
      (HasKey(line, "FN") && EntryInside(line, ranges) ==> FunctionName(line).Some?)
    else HasKey(line, "FNDA") ==> FunctionName(line).Some?
  }

  /** Counting the line raises no exception. */
  predicate Countable(line: string) {
    if HasKey(line, "DA") || HasKey(line, "FNDA") then ExecutionCount(line).Some?
    else HasKey(line, "BRDA") ==> BranchTaken(line).Some?
  }

  predicate Readable(lines: seq<string>, ranges: seq<Range>) {
    (forall line :: line in lines ==> Decidable(line, ranges)) &&
    forall line :: line in Kept(lines, ranges, DroppedFunctions(lines, ranges)) ==> Countable(line)
  }

  datatype Stripped = Stripped(lines: seq<string>, totals: RecordTotals)

  function StripRecord(lines: seq<string>, ranges: seq<Range>): Option<Stripped> {
    if !Readable(lines, ranges) then None
    else
      var kept := Kept(lines, ranges, DroppedFunctions(lines, ranges));
      var totals := Totals(kept);
      Some(Stripped(Rewritten(kept, totals), totals))
  }

  // ---------------------------------------------------------------------------------------------
  // What stripping one record promises
  // ---------------------------------------------------------------------------------------------

  /** A line entry survives when its line is outside the ranges, an execution count when no function
      of its name is declared inside, and everything else always. */
  predicate Survives(lines: seq<string>, ranges: seq<Range>, line: string) {
    if IsEntry(line) then EntryLine(line).Some? && !InRanges(ranges, EntryLine(line).value)
    else HasKey(line, "FNDA") ==>
      forall other :: other in lines && HasKey(other, "FN") && EntryInside(other, ranges) ==>
        FunctionName(other) != FunctionName(line)
  }

  /** The positions `at`, in increasing order, are those of the survivors of `lines`. */
  predicate AreSurvivors(at: seq<nat>, lines: seq<string>, ranges: seq<Range>) {
    (forall j, k :: 0 <= j < k < |at| ==> at[j] < at[k]) &&
    (forall k :: 0 <= k < |at| ==> at[k] < |lines|) &&
    forall i :: 0 <= i < |lines| ==> (i in at <==> Survives(lines, ranges, lines[i]))
  }

  lemma DroppedMeansNotSurviving(lines: seq<string>, ranges: seq<Range>, line: string)
    requires line in lines && forall l :: l in lines ==> Decidable(l, ranges)
    ensures IsDropped(line, ranges, DroppedFunctions(lines, ranges)) <==> !Survives(lines, ranges, line)
  {
    hide HasKey, EntryLine, FunctionName, InRanges;
    var dropped := DroppedFunctions(lines, ranges);
    if !IsEntry(line) && HasKey(line, "FNDA") {
      var name := FunctionName(line).value;
      assert name in dropped <==>
               exists other :: other in lines && IsTestFunction(other, ranges) && FunctionName(other).value == name;
      if other :| other in lines && HasKey(other, "FN") && EntryInside(other, ranges) && FunctionName(other) == FunctionName(line) {
        assert IsTestFunction(other, ranges);
      }
    }
  }

  /** The positions kept by the filter. */
  function KeptAt(lines: seq<string>, ranges: seq<Range>, dropped: set<string>): seq<nat> {
    if lines == [] then []
    else
      var n := |lines| - 1;
      KeptAt(lines[..n], ranges, dropped) + if IsDropped(lines[n], ranges, dropped) then [] else [n]
  }

  /** `at` are, in increasing order, the positions of the lines that are not dropped. */
  predicate Selects(at: seq<nat>, lines: seq<string>, ranges: seq<Range>, dropped: set<string>) {
    (forall j, k :: 0 <= j < k < |at| ==> at[j] < at[k]) &&
    (forall k :: 0 <= k < |at| ==> at[k] < |lines|) &&
    forall i :: 0 <= i < |lines| ==> (i in at <==> !IsDropped(lines[i], ranges, dropped))
  }

  lemma SelectsMore(at: seq<nat>, lines: seq<string>, more: seq<string>, line: string, ranges: seq<Range>, dropped: set<string>)
    requires Selects(at, lines, ranges, dropped) && more == lines + [line]
    ensures Selects(if IsDropped(line, ranges, dropped) then at else at + [|lines|], more, ranges, dropped)
  {
    hide IsDropped;
    assert |lines| !in at;
  }

  lemma KeptAtMore(lines: seq<string>, line: string, ranges: seq<Range>, dropped: set<string>)
    ensures KeptAt(lines + [line], ranges, dropped) ==
              if IsDropped(line, ranges, dropped) then KeptAt(lines, ranges, dropped) else KeptAt(lines, ranges, dropped) + [|lines|]
  {
    hide IsDropped;
    assert (lines + [line])[..|lines|] == lines;
  }

  lemma {:induction false} KeptAtSelects(lines: seq<string>, ranges: seq<Range>, dropped: set<string>)
    ensures Selects(KeptAt(lines, ranges, dropped), lines, ranges, dropped)
  {
    if lines != [] {
      hide IsDropped, Selects, KeptAt;
      var init, last := lines[..|lines| - 1], lines[|lines| - 1];
      assert lines == init + [last];
      KeptAtSelects(init, ranges, dropped);
      KeptAtMore(init, last, ranges, dropped);
      SelectsMore(KeptAt(init, ranges, dropped), init, lines, last, ranges, dropped);
    }
  }

  /** `kept` are the lines at `at`. */
  predicate LinesAt(kept: seq<string>, lines: seq<string>, at: seq<nat>) {
    |kept| == |at| && forall k :: 0 <= k < |at| ==> at[k] < |lines| && kept[k] == lines[at[k]]
  }

  lemma LinesAtMore(kept: seq<string>, lines: seq<string>, at: seq<nat>, line: string)
    requires LinesAt(kept, lines, at)
    ensures LinesAt(kept, lines + [line], at) && LinesAt(kept + [line], lines + [line], at + [|lines|])
  {
  }

  lemma {:induction false} KeptAreLinesAt(lines: seq<string>, ranges: seq<Range>, dropped: set<string>)
    ensures LinesAt(Kept(lines, ranges, dropped), lines, KeptAt(lines, ranges, dropped))
  {
    if lines != [] {
      hide IsDropped, LinesAt;
      var n := |lines| - 1;
      var init := lines[..n];
      KeptAreLinesAt(init, ranges, dropped);
      LinesAtMore(Kept(init, ranges, dropped), init, KeptAt(init, ranges, dropped), lines[n]);
      assert init + [lines[n]] == lines;
      assert Kept(init, ranges, dropped) + [] == Kept(init, ranges, dropped);
      assert KeptAt(init, ranges, dropped) + [] == KeptAt(init, ranges, dropped);
    }
  }

  /** Two lines that differ at most in the number of a total. */
  predicate SameButForTotal(out: string, line: string) {
    out == line || (TotalOf(KeyOf(line)).Some? && KeyOf(out) == KeyOf(line))
  }

  lemma RewrittenKey(line: string, totals: RecordTotals)
    ensures KeyOf(RewriteTotal(line, totals)) == KeyOf(line)
    ensures TotalOf(KeyOf(line)).Some? ==> Payload(RewriteTotal(line, totals)).Some?
  {
    var t := TotalOf(KeyOf(line));
    if t.Some? {
      var key := TotalKey(t.value);
      assert ':' !in key;
      FoundAfter(key, ':', NumberText.Decimal(Select(totals, t.value)));
    }
  }

  /** The output is the surviving lines, in order, each unchanged but for the number of a total. */
  lemma StrippingIsExact(lines: seq<string>, ranges: seq<Range>, out: Stripped) returns (at: seq<nat>)
    requires StripRecord(lines, ranges) == Some(out)
    ensures AreSurvivors(at, lines, ranges) && |at| == |out.lines|
    ensures forall k :: 0 <= k < |at| ==> SameButForTotal(out.lines[k], lines[at[k]])
  {
    hide IsDropped, Survives, KeptAt, Kept, RewriteTotal, KeyOf, TotalOf;
    var dropped := DroppedFunctions(lines, ranges);
    at := KeptAt(lines, ranges, dropped);
    KeptAtSelects(lines, ranges, dropped);
    KeptAreLinesAt(lines, ranges, dropped);
    forall i | 0 <= i < |lines|
      ensures i in at <==> Survives(lines, ranges, lines[i])
    {
      DroppedMeansNotSurviving(lines, ranges, lines[i]);
    }
    var kept := Kept(lines, ranges, dropped);
    forall k | 0 <= k < |at|
      ensures SameButForTotal(out.lines[k], lines[at[k]])
    {
      RewriteIsSameButForTotal(kept[k], Totals(kept));
    }
  }

  lemma RewriteIsSameButForTotal(line: string, totals: RecordTotals)
    ensures SameButForTotal(RewriteTotal(line, totals), line)
  {
    hide KeyOf, Payload;
    RewrittenKey(line, totals);
  }

  /** A total line is counted by nothing, before or after rewriting. */
  lemma RewritingKeepsCounts(t: Total, line: string, totals: RecordTotals)
    ensures Counts(t, RewriteTotal(line, totals)) <==> Counts(t, line)
  {
    hide KeyOf, Payload, ExecutionCount, BranchTaken;
    RewrittenKey(line, totals);
  }

  lemma {:induction false} CountAfterRewriting(t: Total, lines: seq<string>, totals: RecordTotals)
    ensures Count(t, Rewritten(lines, totals)) == Count(t, lines)
  {
    hide Counts, RewriteTotal;
    if lines != [] {
      var n := |lines| - 1;
      CountAfterRewriting(t, lines[..n], totals);
      RewritingKeepsCounts(t, lines[n], totals);
      assert Rewritten(lines, totals)[..n] == Rewritten(lines[..n], totals);
    }
  }

  function Positions(t: Total, lines: seq<string>): set<nat> {
    set k: nat | k < |lines| && Counts(t, lines[k])
  }

  /** Counting is counting positions. */
  lemma {:induction false} CountIsCardinality(t: Total, lines: seq<string>)
    ensures Count(t, lines) == |Positions(t, lines)|
  {
    if lines == [] {
      assert Positions(t, lines) == {};
    } else {
      hide Positions, Counts;
      var init, last := lines[..|lines| - 1], lines[|lines| - 1];
      assert lines == init + [last];
      CountIsCardinality(t, init);
      PositionsStep(t, init, last);
    }
  }

  lemma PositionsStep(t: Total, lines: seq<string>, line: string)
    ensures |Positions(t, lines + [line])| == |Positions(t, lines)| + if Counts(t, line) then 1 else 0
  {
    hide Counts;
    var before, after := Positions(t, lines), Positions(t, lines + [line]);
    assert after == if Counts(t, line) then before + {|lines|} else before;
  }

  lemma SelectTotals(lines: seq<string>, t: Total)
    ensures Select(Totals(lines), t) == Count(t, lines)
  {
  }

  /** Every total the output states is the count over the output's own lines, and reads back as it. */
  lemma TotalsAreExact(lines: seq<string>, ranges: seq<Range>, out: Stripped, t: Total, k: nat)
    requires StripRecord(lines, ranges) == Some(out)
    ensures Select(out.totals, t) == Count(t, out.lines)
    ensures k < |out.lines| && KeyOf(out.lines[k]) == TotalKey(t) ==>
              out.lines[k] == TotalKey(t) + ":" + NumberText.Decimal(Count(t, out.lines)) &&
              IntField(out.lines[k], 0) == Some(Count(t, out.lines))
  {
    hide KeyOf, Counts, ParseInt, NumberText.Decimal, Readable, Kept, Count;
    var kept := Kept(lines, ranges, DroppedFunctions(lines, ranges));
    CountAfterRewriting(t, kept, out.totals);
    SelectTotals(kept, t);
    if k < |out.lines| && KeyOf(out.lines[k]) == TotalKey(t) {
      RewrittenKey(kept[k], out.totals);
      TotalLineReads(t, Count(t, out.lines));
    }
  }

  lemma TotalLineReads(t: Total, n: nat)
    ensures IntField(TotalKey(t) + ":" + NumberText.Decimal(n), 0) == Some(n)
  {
    var key, digits := TotalKey(t), NumberText.Decimal(n);
    hide ParseInt, NumberText.Decimal, NumberText.Value, SplitOn, TotalKey;
    assert ':' !in key by { ColonFreeKey(t); }
    FoundAfter(key, ':', digits);
    NumberText.DecimalSpells(n);
    NumberText.DigitsHaveNo(digits, ',');
    SplitWhole(digits, ',');
    DecimalIsParsed(n);
    assert (key + ":" + digits)[|key| + 1..] == digits;
  }

  lemma ColonFreeKey(t: Total)
    ensures ':' !in TotalKey(t)
  {
  }

  lemma {:induction false} KeptAreNotDropped(lines: seq<string>, ranges: seq<Range>, dropped: set<string>, line: string)
    requires line in Kept(lines, ranges, dropped)
    ensures line in lines && !IsDropped(line, ranges, dropped)
  {
    hide IsDropped;
    var n := |lines| - 1;
    if line in Kept(lines[..n], ranges, dropped) { KeptAreNotDropped(lines[..n], ranges, dropped, line); }
  }

  lemma {:induction false} NothingDropped(lines: seq<string>, ranges: seq<Range>, dropped: set<string>)
    requires forall line :: line in lines ==> !IsDropped(line, ranges, dropped)
    ensures Kept(lines, ranges, dropped) == lines
  {
    hide IsDropped;
    if lines != [] { NothingDropped(lines[..|lines| - 1], ranges, dropped); }
  }

  /** What one kept line becomes is kept again, as it is. */
  lemma KeptLineStays(line: string, ranges: seq<Range>, dropped: set<string>, totals: RecordTotals)
    requires Decidable(line, ranges) && Countable(line) && !IsDropped(line, ranges, dropped)
    ensures var out := RewriteTotal(line, totals);
            Decidable(out, ranges) && Countable(out) && !IsTestFunction(out, ranges) && !IsDropped(out, ranges, {}) &&
            RewriteTotal(out, totals) == out
  {
    RewrittenKey(line, totals);
    hide KeyOf, Payload, EntryLine, FunctionName, ExecutionCount, BranchTaken, InRanges;
  }

  /** Stripping a record again changes nothing. */
  lemma StrippingIsIdempotent(lines: seq<string>, ranges: seq<Range>, out: Stripped)
    requires StripRecord(lines, ranges) == Some(out)
    ensures StripRecord(out.lines, ranges) == Some(out)
  {
    hide RewriteTotal, Decidable, Countable, IsDropped, IsTestFunction, Count;
    var dropped := DroppedFunctions(lines, ranges);
    var kept := Kept(lines, ranges, dropped);
    forall line | line in out.lines
      ensures Decidable(line, ranges) && Countable(line) && !IsTestFunction(line, ranges) && !IsDropped(line, ranges, {})
      ensures RewriteTotal(line, out.totals) == line
    {
      var k :| 0 <= k < |out.lines| && out.lines[k] == line;
      assert kept[k] in kept;
      KeptAreNotDropped(lines, ranges, dropped, kept[k]);
      KeptLineStays(kept[k], ranges, dropped, out.totals);
    }
    assert DroppedFunctions(out.lines, ranges) == {};
    NothingDropped(out.lines, ranges, {});
    SameTotals(kept, out.totals);
    assert Rewritten(out.lines, out.totals) == out.lines;
  }

  lemma SameTotals(kept: seq<string>, totals: RecordTotals)
    ensures Totals(Rewritten(kept, totals)) == Totals(kept)
  {
    hide Count, Rewritten;
    CountAfterRewriting(LF, kept, totals);
    CountAfterRewriting(LH, kept, totals);
    CountAfterRewriting(BRF, kept, totals);
    CountAfterRewriting(BRH, kept, totals);
    CountAfterRewriting(FNF, kept, totals);
    CountAfterRewriting(FNH, kept, totals);
  }

  ghost predicate SameCoverage(a: seq<Range>, b: seq<Range>) {
    forall line: nat :: Contains(a, line) <==> Contains(b, line)
  }

  lemma SameDecisions(line: string, a: seq<Range>, b: seq<Range>)
    requires SameCoverage(a, b)
    ensures EntryInside(line, a) == EntryInside(line, b) && Decidable(line, a) == Decidable(line, b)
    ensures IsTestFunction(line, a) == IsTestFunction(line, b)
    ensures forall dropped :: IsDropped(line, a, dropped) == IsDropped(line, b, dropped)
  {
    hide HasKey, EntryLine, FunctionName, Contains;
  }

  lemma {:induction false} SameKept(lines: seq<string>, a: seq<Range>, b: seq<Range>, dropped: set<string>)
    requires SameCoverage(a, b)
    ensures Kept(lines, a, dropped) == Kept(lines, b, dropped)
  {
    hide IsDropped, Decidable, IsTestFunction, EntryInside;
    if lines != [] {
      var n := |lines| - 1;
      SameKept(lines[..n], a, b, dropped);
      SameDecisions(lines[n], a, b);
    }
  }

  /** Only the covered lines matter, not how ranges cut them up: merging ranges changes no output. */
  lemma OnlyCoverageMatters(lines: seq<string>, a: seq<Range>, b: seq<Range>)
    requires SameCoverage(a, b)
    ensures StripRecord(lines, a) == StripRecord(lines, b)
  {
    hide IsDropped, Decidable, IsTestFunction, EntryInside, Countable, Totals, Rewritten, SameCoverage;
    forall line
      ensures Decidable(line, a) == Decidable(line, b) && IsTestFunction(line, a) == IsTestFunction(line, b)
    {
      SameDecisions(line, a, b);
    }
    assert DroppedFunctions(lines, a) == DroppedFunctions(lines, b);
    SameKept(lines, a, b, DroppedFunctions(lines, a));
  }
}
