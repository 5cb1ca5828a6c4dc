/** Finding the line ranges of `#[cfg(test)]` modules (scripts/strip_test_coverage.py:214-345). */
module TestModules {
  import opened Text
  import opened CfgPredicate
  import Scanner = RustScanner

  // ---------------------------------------------------------------------------------------------
  // Matching brackets
  // ---------------------------------------------------------------------------------------------

  function BracketShift(c: char, opening: char, closing: char): int {
    if c == opening then 1 else if c == closing then -1 else 0
  }

  /** Openings minus closings. */
  function Depth(s: string, opening: char, closing: char): int {
    if s == "" then 0 else Depth(s[..|s| - 1], opening, closing) + BracketShift(s[|s| - 1], opening, closing)
  }

  /** A closing bracket ends the first `n` characters and leaves nothing open. */
  predicate ClosesAt(s: string, opening: char, closing: char, n: nat) {
    0 < n <= |s| && s[n - 1] == closing && opening != closing && Depth(s[..n], opening, closing) == 0
  }

  /** How many characters lead up to and include the bracket that closes `depth` open ones. */
  function ClosingLength(s: string, depth: int, opening: char, closing: char): (n: Option<nat>)
    ensures n.Some? ==> 0 < n.value <= |s|
  {
    if s == "" then None
    else
      var shifted := depth + BracketShift(s[0], opening, closing);
      if s[0] != opening && s[0] == closing && shifted == 0 then Some(1)
      else
        var rest := ClosingLength(s[1..], shifted, opening, closing);
        if rest.None? then None else Some(rest.value + 1)
  }

  lemma {:induction false} DepthPrepend(s: string, opening: char, closing: char)
    requires s != ""
    ensures Depth(s, opening, closing) == BracketShift(s[0], opening, closing) + Depth(s[1..], opening, closing)
  {
    if |s| == 1 {
      assert s[..0] == "" && s[1..] == "";
    } else {
      var init := s[..|s| - 1];
      DepthPrepend(init, opening, closing);
      assert init[1..] == s[1..][..|s| - 2];
    }
  }

  lemma {:induction false} ClosingLengthIsLeastFrom(s: string, depth: int, opening: char, closing: char, n: nat)
    requires opening != closing && 0 < n <= |s|
    ensures var hit := s[n - 1] == closing && depth + Depth(s[..n], opening, closing) == 0;
            var r := ClosingLength(s, depth, opening, closing);
            (r == Some(n) ==> hit) && (hit ==> r.Some? && r.value <= n)
  {
    var t := s[..n];
    DepthPrepend(t, opening, closing);
    assert t[0] == s[0];
    if n == 1 {
      assert t[1..] == "";
    } else {
      var shifted := depth + BracketShift(s[0], opening, closing);
      ClosingLengthIsLeastFrom(s[1..], shifted, opening, closing, n - 1);
      assert t[1..] == s[1..][..n - 1];
    }
  }

  /** The bracket found is the first that leaves nothing open. */
  lemma ClosingLengthIsLeast(s: string, opening: char, closing: char)
    requires opening != closing
    ensures var r := ClosingLength(s, 0, opening, closing);
            (r.Some? ==> ClosesAt(s, opening, closing, r.value)) &&
            forall n :: ClosesAt(s, opening, closing, n) ==> r.Some? && r.value <= n
  {
    var r := ClosingLength(s, 0, opening, closing);
    if r.Some? {
      ClosingLengthIsLeastFrom(s, 0, opening, closing, r.value);
    }
    forall n | ClosesAt(s, opening, closing, n)
      ensures r.Some? && r.value <= n
    {
      ClosingLengthIsLeastFrom(s, 0, opening, closing, n);
    }
  }

  /** From an opening bracket on, everything before the bracket found has something open. */
  lemma {:induction false} NothingClosesEarlier(s: string, opening: char, closing: char, n: nat)
    requires opening != closing && s != "" && s[0] == opening && 0 < n <= |s|
    requires var r := ClosingLength(s, 0, opening, closing); r.Some? ==> n < r.value
    ensures Depth(s[..n], opening, closing) > 0
  {
    var t := s[..n];
    if n == 1 {
      assert t[..0] == "";
    } else {
      NothingClosesEarlier(s, opening, closing, n - 1);
      assert t[..n - 1] == s[..n - 1];
      ClosingLengthIsLeastFrom(s, 0, opening, closing, n);
    }
  }

  method MatchingBracket(text: string, start: nat, opening: char, closing: char) returns (end: Option<nat>)
    requires start <= |text|
    ensures end == Matching(text, start, opening, closing)
  {
    var depth := 0;
    ghost var whole := ClosingLength(text[start..], 0, opening, closing);
    for position := start to |text|
      invariant var n := ClosingLength(text[position..], depth, opening, closing);
                whole == if n.None? then None else Some(position - start + n.value)
    {
      assert text[position..][1..] == text[position + 1..];
      if text[position] == opening {
        depth := depth + 1;
      } else if text[position] == closing {
        depth := depth - 1;
        if depth == 0 {
          return Some(position + 1);
        }
      }
    }
    return None;
  }

  // ---------------------------------------------------------------------------------------------
  // Line numbers
  // ---------------------------------------------------------------------------------------------

  /** How many newlines stand before `offset`. */
  function Newlines(text: string, offset: nat): nat
    requires offset <= |text|
  {
    if offset == 0 then 0 else Newlines(text, offset - 1) + if text[offset - 1] == '\n' then 1 else 0
  }

  function LineNumber(text: string, offset: nat): nat
    requires offset <= |text|
  {
    1 + Newlines(text, offset)
  }

  lemma {:induction false} NewlinesGrow(text: string, a: nat, b: nat)
    requires a <= b <= |text|
    ensures Newlines(text, a) <= Newlines(text, b)
  {
    if a < b { NewlinesGrow(text, a, b - 1); }
  }

  lemma {:induction false} SameNewlines(masked: string, source: string, offset: nat)
    requires Scanner.SameShape(masked, source) && offset <= |source|
    ensures Newlines(masked, offset) == Newlines(source, offset)
  {
    if offset > 0 { SameNewlines(masked, source, offset - 1); }
  }

  lemma SameLineNumber(masked: string, source: string, offset: nat)
    requires Scanner.SameShape(masked, source) && offset <= |source| == |masked|
    ensures LineNumber(masked, offset) == LineNumber(source, offset)
  {
    SameNewlines(masked, source, offset);
  }

  /** `starts` lists where the lines of the first `n` characters begin. */
  ghost predicate AreLineStarts(text: string, n: nat, starts: seq<nat>) {
    n <= |text| && |starts| == 1 + Newlines(text, n) && starts[0] == 0 &&
    forall k :: 0 <= k < |starts| ==>
      starts[k] <= n && Newlines(text, starts[k]) == k && (k > 0 ==> starts[k] > 0 && text[starts[k] - 1] == '\n')
  }

  method LineStarts(text: string) returns (starts: seq<nat>)
    ensures AreLineStarts(text, |text|, starts)
  {
    starts := [0];
    for position := 0 to |text|
      invariant AreLineStarts(text, position, starts)
    {
      if text[position] == '\n' {
        starts := starts + [position + 1];
      }
    }
  }

  method LineOf(text: string, starts: seq<nat>, offset: nat) returns (line: nat)
    requires AreLineStarts(text, |text|, starts) && offset <= |text|
    ensures line == LineNumber(text, offset)
  {
    var low, high := 0, |starts| - 1;
    while low < high
      invariant 0 <= low <= high < |starts|
      invariant starts[low] <= offset && (high + 1 < |starts| ==> offset < starts[high + 1])
    {
      var middle := (low + high + 1) / 2;
      if starts[middle] <= offset {
        low := middle;
      } else {
        high := middle - 1;
      }
    }
    NewlinesGrow(text, starts[low], offset);
    if low + 1 < |starts| {
      NewlinesGrow(text, offset, starts[low + 1] - 1);
    } else {
      NewlinesGrow(text, offset, |text|);
    }
    line := low + 1;
  }

  // ---------------------------------------------------------------------------------------------
  // Ranges of lines
  // ---------------------------------------------------------------------------------------------

  datatype Range = Range(start: nat, end: nat)

  predicate Within(r: Range, line: nat) { r.start <= line <= r.end }

  predicate Contains(ranges: seq<Range>, line: nat) { exists r :: r in ranges && Within(r, line) }

  predicate NotAfter(a: Range, b: Range) { a.start < b.start || (a.start == b.start && a.end <= b.end) }

  predicate Ordered(ranges: seq<Range>) {
    forall i, j :: 0 <= i < j < |ranges| ==> NotAfter(ranges[i], ranges[j])
  }

  function Insert(r: Range, ranges: seq<Range>): seq<Range> {
    if ranges == [] || NotAfter(r, ranges[0]) then [r] + ranges else [ranges[0]] + Insert(r, ranges[1..])
  }

  /** Python's `sorted` on pairs. */
  function Sorted(ranges: seq<Range>): seq<Range> {
    if ranges == [] then [] else Insert(ranges[0], Sorted(ranges[1..]))
  }

  lemma {:induction false} InsertKeepsOrder(r: Range, ranges: seq<Range>)
    requires Ordered(ranges)
    ensures Ordered(Insert(r, ranges)) && multiset(Insert(r, ranges)) == multiset{r} + multiset(ranges)
  {
    if ranges != [] && !NotAfter(r, ranges[0]) {
      InsertKeepsOrder(r, ranges[1..]);
      var rest := Insert(r, ranges[1..]);
      assert ranges == [ranges[0]] + ranges[1..];
      forall i | 0 <= i < |rest|
        ensures NotAfter(ranges[0], rest[i])
      {
        assert rest[i] in multiset(rest);
        assert rest[i] == r || rest[i] in ranges[1..];
      }
    }
  }

  lemma {:induction false} SortedIsOrdered(ranges: seq<Range>)
    ensures Ordered(Sorted(ranges)) && multiset(Sorted(ranges)) == multiset(ranges)
  {
    if ranges != [] {
      SortedIsOrdered(ranges[1..]);
      InsertKeepsOrder(ranges[0], Sorted(ranges[1..]));
      assert ranges == [ranges[0]] + ranges[1..];
    }
  }

  /** Each range ends before the next begins. */
  predicate Separated(ranges: seq<Range>) {
    forall i, j :: 0 <= i < j < |ranges| ==> ranges[i].end < ranges[j].start && ranges[i].start <= ranges[j].start
  }

  predicate IsStart(ranges: seq<Range>, line: nat) { exists r :: r in ranges && r.start == line }

  /** Some range begins at `line`, and every range that begins earlier ends earlier. */
  predicate StartsGroup(ranges: seq<Range>, line: nat) {
    IsStart(ranges, line) && forall r :: r in ranges && r.start < line ==> r.end < line
  }

  /** `merged` covers the lines of `ranges`, in separate pieces that begin where the groups do. */
  ghost predicate IsMerge(merged: seq<Range>, ranges: seq<Range>) {
    Separated(merged) &&
    (forall line: nat :: Contains(merged, line) <==> Contains(ranges, line)) &&
    (forall line: nat :: IsStart(merged, line) <==> StartsGroup(ranges, line))
  }

  method MergeOverlapping(ranges: seq<Range>) returns (merged: seq<Range>)
    ensures IsMerge(merged, ranges)
  {
    var ordered := Sorted(ranges);
    SortedIsOrdered(ranges);
    merged := [];
    for k := 0 to |ordered|
      invariant IsMerge(merged, ordered[..k]) && (k > 0 ==> merged != [])
    {
      var next := ordered[k];
      ghost var seen := ordered[..k];
      assert ordered[..k + 1] == seen + [next];
      if merged != [] && next.start <= merged[|merged| - 1].end {
        var last := merged[|merged| - 1];
        var grown := Range(last.start, if last.end >= next.end then last.end else next.end);
        MergeInto(merged, seen, next, grown);
        merged := merged[|merged| - 1 := grown];
      } else {
        MergeAfter(merged, seen, next);
        merged := merged + [next];
      }
    }
    assert ordered[..|ordered|] == ordered;
    SameRanges(ordered, ranges);
  }

  lemma SameRanges(a: seq<Range>, b: seq<Range>)
    requires multiset(a) == multiset(b)
    ensures forall line: nat :: Contains(a, line) <==> Contains(b, line)
    ensures forall line: nat :: StartsGroup(a, line) <==> StartsGroup(b, line)
  {
    assert forall r :: r in a <==> r in multiset(a);
    assert forall r :: r in b <==> r in multiset(b);
    assert forall r :: r in a <==> r in b;
  }

  lemma OneMore(seen: seq<Range>, next: Range, line: nat)
    requires forall r :: r in seen ==> r.start <= next.start
    ensures Contains(seen + [next], line) <==> Contains(seen, line) || Within(next, line)
    ensures line != next.start ==> (StartsGroup(seen + [next], line) <==> StartsGroup(seen, line))
    ensures StartsGroup(seen + [next], next.start) <==> forall r :: r in seen && r.start < next.start ==> r.end < next.start
  {
    assert forall r :: r in seen + [next] <==> r in seen || r == next;
  }

  lemma LastIsGreatest(merged: seq<Range>, seen: seq<Range>, next: Range)
    requires IsMerge(merged, seen) && merged != [] && forall r :: r in seen ==> r.start <= next.start
    ensures merged[|merged| - 1].start <= next.start
    ensures forall m :: m in merged ==>
              m == merged[|merged| - 1] || (m.end < merged[|merged| - 1].start && m.start <= merged[|merged| - 1].start)
  {
    assert IsStart(merged, merged[|merged| - 1].start);
  }

  /** A range that begins inside the last merged range extends it. */
  lemma MergeInto(merged: seq<Range>, seen: seq<Range>, next: Range, grown: Range)
    requires IsMerge(merged, seen) && merged != [] && forall r :: r in seen ==> r.start <= next.start
    requires var last := merged[|merged| - 1];
             next.start <= last.end && grown == Range(last.start, if last.end >= next.end then last.end else next.end)
    ensures IsMerge(merged[|merged| - 1 := grown], seen + [next])
  {
    LastIsGreatest(merged, seen, next);
    var last, others := merged[|merged| - 1], merged[..|merged| - 1];
    var after := merged[|merged| - 1 := grown];
    assert after == others + [grown] && merged == others + [last];
    forall line: nat
      ensures Contains(after, line) <==> Contains(seen + [next], line)
      ensures IsStart(after, line) <==> StartsGroup(seen + [next], line)
    {
      OneMore(seen, next, line);
      SwapLast(others, last, grown, line);
      assert Within(grown, line) <==> Within(last, line) || Within(next, line);
      assert Within(last, next.start);
      assert Contains(merged, next.start);
    }
  }

  lemma SwapLast(others: seq<Range>, last: Range, grown: Range, line: nat)
    ensures Contains(others + [last], line) <==> Contains(others, line) || Within(last, line)
    ensures Contains(others + [grown], line) <==> Contains(others, line) || Within(grown, line)
    ensures last.start == grown.start ==> (IsStart(others + [last], line) <==> IsStart(others + [grown], line))
    ensures IsStart(others + [last], line) <==> IsStart(others, line) || line == last.start
  {
    assert forall r :: r in others + [last] <==> r in others || r == last;
    assert forall r :: r in others + [grown] <==> r in others || r == grown;
  }

  /** A range that begins past everything merged so far begins a piece of its own. */
  lemma MergeAfter(merged: seq<Range>, seen: seq<Range>, next: Range)
    requires IsMerge(merged, seen) && forall r :: r in seen ==> r.start <= next.start
    requires merged != [] ==> merged[|merged| - 1].end < next.start
    ensures IsMerge(merged + [next], seen + [next])
  {
    if merged != [] { LastIsGreatest(merged, seen, next); }
    forall m | m in merged
      ensures m.end < next.start && m.start <= next.start
    {
    }
    forall r | r in seen && r.start < next.start
      ensures r.end < next.start
    {
      if r.start <= r.end {
        assert Within(r, r.end);
        assert Contains(seen, r.end);
        assert Contains(merged, r.end);
      }
    }
    forall line: nat
      ensures Contains(merged + [next], line) <==> Contains(seen + [next], line)
      ensures IsStart(merged + [next], line) <==> StartsGroup(seen + [next], line)
    {
      OneMore(seen, next, line);
      SwapLast(merged, next, next, line);
    }
  }

  // ---------------------------------------------------------------------------------------------
  // Attributes and module headers
  // ---------------------------------------------------------------------------------------------

  function Spaces(s: string): (n: nat)
    ensures n <= |s|
  {
    if s != "" && IsPythonSpace(s[0]) then 1 + Spaces(s[1..]) else 0
  }

  predicate StartsWith(s: string, c: char) { s != "" && s[0] == c }

  /** The length of `#[cfg(` at the front of `s`, white space between its tokens included. */
  function AttributeLength(s: string): (r: Option<nat>)
    ensures r.Some? ==> 0 < r.value <= |s|
  {
    if !StartsWith(s, '#') then None
    else
      var bracket := 1 + Spaces(s[1..]);
      if !StartsWith(s[bracket..], '[') then None
      else
        var name := bracket + 1 + Spaces(s[bracket + 1..]);
        if |s| < name + 3 || s[name] != 'c' || s[name + 1] != 'f' || s[name + 2] != 'g' then None
        else
          var paren := name + 3 + Spaces(s[name + 3..]);
          if StartsWith(s[paren..], '(') then Some(paren + 1) else None
  }

  predicate StartsName(c: char) { 'A' <= c <= 'Z' || 'a' <= c <= 'z' || c == '_' }

  lemma NameStartIsExact(c: char)
    ensures StartsName(c) <==> c in UPPER_CASE || c in LOWER_CASE || c == '_'
  {
    hide UPPER_CASE, LOWER_CASE;
    LettersAreExact(c);
  }

  function IdentifierRun(s: string): (n: nat)
    ensures n <= |s|
  {
    if s != "" && IsIdentifierChar(s[0]) then 1 + IdentifierRun(s[1..]) else 0
  }

  predicate StartsWord(s: string, a: char, b: char, c: char) {
    |s| >= 3 && s[0] == a && s[1] == b && s[2] == c
  }

  /** The length of a visibility at the front of `s`: `pub`, maybe with a parenthesised restriction. */
  function VisibilityLength(s: string): (n: nat)
    ensures n <= |s|
  {
    if !StartsWord(s, 'p', 'u', 'b') then 0
    else
      var paren := 3 + Spaces(s[3..]);
      if !StartsWith(s[paren..], '(') then paren
      else
        var closing := FindChar(s[paren + 1..], ')');
        if closing.None? then paren
        else
          var end := paren + 1 + closing.value + 1;
          end + Spaces(s[end..])
  }

  /** The name declared by the module header at the front of `s`, and the header's length. */
  function HeaderAt(s: string): (r: Option<(string, nat)>)
    ensures r.Some? ==> r.value.1 <= |s|
  {
    var keyword := VisibilityLength(s);
    if !StartsWord(s[keyword..], 'm', 'o', 'd') then None
    else
      var gap := Spaces(s[keyword + 3..]);
      var name := keyword + 3 + gap;
      if gap == 0 || s[name..] == "" || !StartsName(s[name]) then None
      else
        var end := name + IdentifierRun(s[name..]);
        Some((s[name..end], end + Spaces(s[end..])))
  }

  predicate At(text: string, position: nat, c: char) { position < |text| && text[position] == c }

  function Skip(text: string, start: nat): (position: nat)
    requires start <= |text|
    ensures start <= position <= |text|
  {
    start + Spaces(text[start..])
  }

  function FindFrom(text: string, start: nat, c: char): (r: Option<nat>)
    requires start <= |text|
    ensures r.Some? ==> start <= r.value < |text|
  {
    var found := FindChar(text[start..], c);
    if found.None? then None else Some(start + found.value)
  }

  /** The offset just past the bracket that matches the one at `start`. */
  function Matching(text: string, start: nat, opening: char, closing: char): (r: Option<nat>)
    requires start <= |text|
    ensures r.Some? ==> start < r.value <= |text|
  {
    var length := ClosingLength(text[start..], 0, opening, closing);
    if length.None? then None else Some(start + length.value)
  }

  function HeaderFrom(text: string, start: nat): (r: Option<(string, nat)>)
    requires start <= |text|
    ensures r.Some? ==> start <= r.value.1 <= |text|
  {
    var header := HeaderAt(text[start..]);
    if header.None? then None else Some((header.value.0, start + header.value.1))
  }

  /** The module declared after the attribute whose predicate closes just before `start`. */
  function ModuleHeader(text: string, start: nat): (r: Option<(string, nat)>)
    requires start <= |text|
    ensures r.Some? ==> start <= r.value.1 <= |text|
    decreases |text| - start
  {
    var close := Skip(text, start);
    if !At(text, close, ']') then None
    else
      var item := Skip(text, close + 1);
      if !At(text, item, '#') then HeaderFrom(text, item)
      else
        var bracket := FindFrom(text, item, '[');
        if bracket.None? then None
        else
          var closed := Matching(text, bracket.value, '[', ']');
          if closed.None? then None else ModuleHeader(text, closed.value - 1)
  }

  method SkipWhitespace(text: string, start: nat) returns (position: nat)
    requires start <= |text|
    ensures position == Skip(text, start)
  {
    position := start;
    while position < |text| && IsPythonSpace(text[position])
      invariant start <= position <= |text|
      invariant Skip(text, start) == Skip(text, position)
    {
      assert text[position..][1..] == text[position + 1..];
      position := position + 1;
    }
  }

  method FindModuleHeader(masked: string, start: nat) returns (header: Option<(string, nat)>)
    requires start <= |masked|
    ensures header == ModuleHeader(masked, start)
  {
    hide Skip, FindFrom, Matching, HeaderFrom;
    var position := start;
    while true
      invariant position <= |masked| && ModuleHeader(masked, start) == ModuleHeader(masked, position)
      decreases |masked| - position
    {
      var close := SkipWhitespace(masked, position);
      if !At(masked, close, ']') {
        return None;
      }
      var item := SkipWhitespace(masked, close + 1);
      if !At(masked, item, '#') {
        return HeaderFrom(masked, item);
      }
      var bracket := FindFrom(masked, item, '[');
      if bracket.None? {
        return None;
      }
      var closed := MatchingBracket(masked, bracket.value, '[', ']');
      if closed.None? {
        return None;
      }
      position := closed.value - 1;
    }
  }

  // ---------------------------------------------------------------------------------------------
  // Test modules
  // ---------------------------------------------------------------------------------------------

  /** A `#[cfg(test)]` module; one without a body lives in a file of its own. */
  datatype TestModule = TestModule(attribute: nat, name: string, body: Option<nat>)

  /** The test module whose attribute stands at `position`, if one does. */
  function ModuleAt(text: string, position: nat): (r: Option<TestModule>)
    requires position <= |text|
    ensures r.Some? ==> position < |text| && r.value.attribute == position
    ensures r.Some? && r.value.body.Some? ==> r.value.body.value < |text|
  {
    var attribute := AttributeLength(text[position..]);
    if attribute.None? then None else ModuleFrom(text, position, position + attribute.value)
  }

  /** The test module whose attribute stands at `position` and whose predicate text begins at `inside`. */
  function ModuleFrom(text: string, position: nat, inside: nat): (r: Option<TestModule>)
    requires position < inside <= |text|
    ensures r.Some? ==> r.value.attribute == position
    ensures r.Some? && r.value.body.Some? ==> r.value.body.value < |text|
  {
    var end := Matching(text, inside - 1, '(', ')');
    if end.None? || end.value < inside + 1 || !SelectsTestOnly(text[inside..end.value - 1]) then None
    else
      var header := ModuleHeader(text, end.value);
      if header.None? then None else DeclaredModule(text, position, header.value.0, header.value.1)
  }

  function DeclaredModule(text: string, position: nat, name: string, end: nat): (r: Option<TestModule>)
    ensures r.Some? ==> r.value.attribute == position
    ensures r.Some? && r.value.body.Some? ==> r.value.body.value < |text|
  {
    if At(text, end, '{') then Some(TestModule(position, name, Some(end)))
    else if At(text, end, ';') then Some(TestModule(position, name, None))
    else None
  }

  /** The modules at the attributes before `n`, each once and in their order. */
  ghost predicate AreModulesBefore(text: string, n: nat, modules: seq<TestModule>) {
    n <= |text| && InOrder(modules) && forall m :: m in modules <==> exists p :: 0 <= p < n && ModuleAt(text, p) == Some(m)
  }

  predicate InOrder(modules: seq<TestModule>) {
    forall i, j :: 0 <= i < j < |modules| ==> modules[i].attribute < modules[j].attribute
  }

  lemma AttributeOf(text: string, p: nat)
    requires p <= |text|
    ensures var found := ModuleAt(text, p); found.Some? ==> found.value.attribute == p
  {
  }

  lemma {:induction false} NoHashInSpaces(s: string, i: nat)
    requires i < Spaces(s)
    ensures s[i] != '#'
  {
    if i > 0 { NoHashInSpaces(s[1..], i - 1); }
  }

  /** Inside an attribute no other attribute begins. */
  lemma NoAttributeInside(s: string, i: nat)
    requires AttributeLength(s).Some? && 0 < i < AttributeLength(s).value
    ensures s[i] != '#'
  {
    hide Spaces;
    var bracket := 1 + Spaces(s[1..]);
    var name := bracket + 1 + Spaces(s[bracket + 1..]);
    if i < bracket {
      NoHashInSpaces(s[1..], i - 1);
    } else if bracket < i < name {
      NoHashInSpaces(s[bracket + 1..], i - bracket - 1);
    } else if name + 3 <= i < name + 3 + Spaces(s[name + 3..]) {
      NoHashInSpaces(s[name + 3..], i - name - 3);
    }
  }

  lemma NoModuleInside(text: string, p: nat, i: nat)
    requires p < i <= |text| && AttributeLength(text[p..]).Some? && i < p + AttributeLength(text[p..]).value
    ensures ModuleAt(text, i).None?
  {
    NoAttributeInside(text[p..], i - p);
    assert text[p..][i - p] == text[i] == text[i..][0];
  }

  lemma AttributeOpensPredicate(s: string)
    requires AttributeLength(s).Some?
    ensures s[AttributeLength(s).value - 1] == '('
  {
  }

  lemma OpenedClosesLater(s: string)
    requires s != "" && s[0] == '('
    ensures var r := ClosingLength(s, 0, '(', ')'); r.Some? ==> r.value >= 2
  {
  }

  lemma ModulesSoFar(text: string, n: nat, modules: seq<TestModule>, next: nat, longer: seq<TestModule>)
    requires AreModulesBefore(text, n, modules) && n < next <= |text|
    requires var found := ModuleAt(text, n); longer == modules + if found.Some? then [found.value] else []
    requires forall i :: n < i < next ==> ModuleAt(text, i).None?
    ensures AreModulesBefore(text, next, longer)
  {
    hide ModuleAt;
    AttributeOf(text, n);
    forall m | m in modules
      ensures m.attribute < n
    {
      var p :| 0 <= p < n && ModuleAt(text, p) == Some(m);
      AttributeOf(text, p);
    }
    assert forall i :: 0 <= i < |modules| ==> modules[i] in modules;
    forall m
      ensures m in longer <==> exists p :: 0 <= p < next && ModuleAt(text, p) == Some(m)
    {
      assert m in longer <==> m in modules || ModuleAt(text, n) == Some(m);
    }
  }

  lemma AreModulesBefore0(text: string)
    ensures AreModulesBefore(text, 0, [])
  {
  }

  method FindTestModules(masked: string) returns (modules: seq<TestModule>)
    ensures AreModulesBefore(masked, |masked|, modules)
  {
    hide ModuleFrom, AttributeLength, AreModulesBefore;
    modules := [];
    var position := 0;
    AreModulesBefore0(masked);
    while position < |masked|
      invariant position <= |masked| && AreModulesBefore(masked, position, modules)
    {
      var attribute := AttributeLength(masked[position..]);
      if attribute.None? {
        ModulesSoFar(masked, position, modules, position + 1, modules);
        position := position + 1;
        continue;
      }
      var inside := position + attribute.value;
      var found := ReadTestModule(masked, position, inside);
      var longer := modules + if found.Some? then [found.value] else [];
      forall i | position < i < inside
        ensures ModuleAt(masked, i).None?
      {
        NoModuleInside(masked, position, i);
      }
      ModulesSoFar(masked, position, modules, inside, longer);
      modules := longer;
      position := inside;
    }
  }

  method ReadTestModule(masked: string, position: nat, inside: nat) returns (found: Option<TestModule>)
    requires position < inside <= |masked| && AttributeLength(masked[position..]) == Some(inside - position)
    ensures found == ModuleFrom(masked, position, inside)
  {
    hide SelectsTestOnly, ModuleHeader, DeclaredModule;
    AttributeOpensPredicate(masked[position..]);
    assert masked[inside - 1..][0] == '(';
    OpenedClosesLater(masked[inside - 1..]);
    var predicateEnd := MatchingBracket(masked, inside - 1, '(', ')');
    if predicateEnd.None? || !SelectsTestOnly(masked[inside..predicateEnd.value - 1]) {
      return None;
    }
    var header := FindModuleHeader(masked, predicateEnd.value);
    if header.None? {
      return None;
    }
    found := DeclaredModule(masked, position, header.value.0, header.value.1);
  }

  /** The last offset of the module whose body opens at `body`: its closing brace, else the last character. */
  function SpanLast(text: string, body: nat): (last: nat)
    requires body < |text|
    ensures last < |text|
  {
    var end := ClosingLength(text[body..], 0, '{', '}');
    if end.None? then |text| - 1 else body + end.value - 1
  }

  /** `line` belongs to the inline test module whose attribute stands at `position`. */
  ghost predicate LineOfModuleAt(source: string, position: nat, line: nat) {
    var masked := Scanner.Masked(source);
    |masked| == |source| && position <= |source| &&
    var found := ModuleAt(masked, position);
    found.Some? && found.value.body.Some? &&
    LineNumber(source, position) <= line <= LineNumber(source, SpanLast(masked, found.value.body.value))
  }

  /** The lines of one inline module. */
  lemma LinesOfModule(source: string, found: TestModule, line: nat)
    requires var masked := Scanner.Masked(source);
             found.attribute <= |masked| && ModuleAt(masked, found.attribute) == Some(found)
    ensures LineOfModuleAt(source, found.attribute, line) <==>
              found.body.Some? && |source| == |Scanner.Masked(source)| &&
              LineNumber(source, found.attribute) <= line <= LineNumber(source, SpanLast(Scanner.Masked(source), found.body.value))
  {
    hide ModuleAt;
    Scanner.MaskedSource(source);
  }

  method LineRange(masked: string, starts: seq<nat>, found: TestModule) returns (range: Range)
    requires AreLineStarts(masked, |masked|, starts)
    requires found.attribute <= |masked| && found.body.Some? && found.body.value < |masked|
    ensures range == Range(LineNumber(masked, found.attribute), LineNumber(masked, SpanLast(masked, found.body.value)))
  {
    var bodyEnd := MatchingBracket(masked, found.body.value, '{', '}');
    var last := if bodyEnd.None? then |masked| - 1 else bodyEnd.value - 1;
    var first := LineOf(masked, starts, found.attribute);
    var end := LineOf(masked, starts, last);
    range := Range(first, end);
  }

  lemma NoRanges()
    ensures forall line: nat :: !Contains([], line)
  {
  }

  lemma OneMoreRange(before: seq<Range>, range: Range, line: nat)
    ensures Contains(before + [range], line) <==> Contains(before, line) || Within(range, line)
  {
    assert forall r :: r in before + [range] <==> r in before || r == range;
  }

  /** The ranges are separate and cover exactly the lines of the source's inline test modules. */
  method FindTestModuleRanges(source: string) returns (merged: seq<Range>)
    ensures Separated(merged)
    ensures forall line: nat :: Contains(merged, line) <==> exists p: nat :: LineOfModuleAt(source, p, line)
  {
    hide ModuleAt, LineOfModuleAt, SpanLast, Contains, LineNumber;
    hide Scanner.Masked, Scanner.SameShape;
    var masked := Scanner.MaskNonCode(source);
    Scanner.MaskedSource(source);
    var starts := LineStarts(masked);
    var modules := FindTestModules(masked);
    var ranges: seq<Range> := [];
    NoRanges();
    for k := 0 to |modules|
      invariant forall line: nat :: Contains(ranges, line) <==>
                  exists m :: m in modules[..k] && LineOfModuleAt(source, m.attribute, line)
    {
      var next := modules[k];
      ghost var before, known := ranges, modules[..k];
      assert next in modules && modules[..k + 1] == known + [next];
      if next.body.Some? {
        var range := LineRange(masked, starts, next);
        SameLineNumber(masked, source, next.attribute);
        SameLineNumber(masked, source, SpanLast(masked, next.body.value));
        ranges := ranges + [range];
        forall line: nat
          ensures Contains(ranges, line) <==> Contains(before, line) || Within(range, line)
        {
          OneMoreRange(before, range, line);
        }
      }
      forall line: nat
        ensures Contains(ranges, line) <==> Contains(before, line) || LineOfModuleAt(source, next.attribute, line)
      {
        LinesOfModule(source, next, line);
      }
      assert forall m :: m in known + [next] <==> m in known || m == next;
    }
    assert modules[..|modules|] == modules;
    forall line: nat
      ensures Contains(ranges, line) <==> exists p: nat :: LineOfModuleAt(source, p, line)
    {
      ModulesAreAll(source, modules, line);
    }
    merged := MergeOverlapping(ranges);
  }

  lemma ModulesAreAll(source: string, modules: seq<TestModule>, line: nat)
    requires AreModulesBefore(Scanner.Masked(source), |Scanner.Masked(source)|, modules)
    ensures (exists m :: m in modules && LineOfModuleAt(source, m.attribute, line))
            <==> exists p: nat :: LineOfModuleAt(source, p, line)
  {
    if p: nat :| LineOfModuleAt(source, p, line) {
      LineNeedsModule(source, p, line);
      var masked := Scanner.Masked(source);
      hide ModuleAt, LineOfModuleAt;
      var m := ModuleAt(masked, p).value;
      assert m in modules;
    }
  }

  lemma LineNeedsModule(source: string, p: nat, line: nat)
    requires LineOfModuleAt(source, p, line)
    ensures var masked := Scanner.Masked(source);
            p < |masked| && ModuleAt(masked, p).Some? && ModuleAt(masked, p).value.attribute == p
  {
    hide ModuleFrom, AttributeLength;
  }

  /** The files that may hold the out-of-line test modules a source declares; `parent` is the
      directory of the declaring file's modules. */
  method TestOnlyModulePaths(parent: string, source: string) returns (paths: set<string>)
    ensures forall path :: path in paths <==>
              exists p :: 0 <= p < |source| && IsOutOfLinePath(Scanner.Masked(source), parent, p, path)
  {
    hide ModuleAt;
    var masked := Scanner.MaskNonCode(source);
    Scanner.MaskedSource(source);
    var modules := FindTestModules(masked);
    paths := {};
    for k := 0 to |modules|
      invariant forall path :: path in paths <==>
                  exists i :: 0 <= i < k && modules[i].body.None? && path in PathsOf(parent, modules[i].name)
    {
      if modules[k].body.None? {
        paths := paths + PathsOf(parent, modules[k].name);
      }
    }
    forall path
      ensures path in paths <==> exists p :: 0 <= p < |source| && IsOutOfLinePath(masked, parent, p, path)
    {
      if p :| 0 <= p < |source| && IsOutOfLinePath(masked, parent, p, path) {
        assert ModuleAt(masked, p).value in modules;
      }
      if i :| 0 <= i < |modules| && modules[i].body.None? && path in PathsOf(parent, modules[i].name) {
        assert modules[i] in modules;
        var p :| 0 <= p < |masked| && ModuleAt(masked, p) == Some(modules[i]);
        assert IsOutOfLinePath(masked, parent, p, path);
      }
    }
  }

  function PathsOf(parent: string, name: string): set<string> {
    {parent + "/" + name + ".rs", parent + "/" + name + "/mod.rs"}
  }

  /** An out-of-line test module is declared at `p`, and `path` may be its file. */
  predicate IsOutOfLinePath(masked: string, parent: string, p: nat, path: string) {
    p <= |masked| && ModuleAt(masked, p).Some? && ModuleAt(masked, p).value.body.None? &&
    path in PathsOf(parent, ModuleAt(masked, p).value.name)
  }

  // ---------------------------------------------------------------------------------------------
  // From a predicate tree to a test module
  // ---------------------------------------------------------------------------------------------

  function Later(n: int, r: Option<nat>): Option<int> { if r.None? then None else Some(n + r.value) }

  predicate NoParens(s: string) { s != "" ==> s[0] != '(' && s[0] != ')' && NoParens(s[1..]) }

  lemma {:induction false} PlainHasNoParens(s: string)
    requires forall i :: 0 <= i < |s| ==> s[i] != '(' && s[i] != ')' && s[i] != ','
    ensures NoParens(s)
  {
    if s != "" { PlainHasNoParens(s[1..]); }
  }

  lemma {:induction false} BlankHasNoParens(s: string)
    requires Blank(s)
    ensures NoParens(s)
  {
    if s != "" { BlankHasNoParens(s[1..]); }
  }

  lemma {:induction false} BracketsPast(text: string, after: string, depth: int)
    requires NoParens(text)
    ensures ClosingLength(text + after, depth, '(', ')') == Later(|text|, ClosingLength(after, depth, '(', ')'))
  {
    if text == "" {
      assert text + after == after;
    } else {
      BracketsPast(text[1..], after, depth);
      assert (text + after)[1..] == text[1..] + after;
    }
  }

  lemma BracketPast(c: char, after: string, depth: int)
    requires !(c == ')' && depth == 1)
    ensures ClosingLength([c] + after, depth, '(', ')')
            == Later(1, ClosingLength(after, depth + BracketShift(c, '(', ')'), '(', ')'))
  {
    assert ([c] + after)[1..] == after;
  }

  /** The brackets of a printed predicate match, so a scan with one open bracket reads past it. */
  lemma {:induction false} BracketsPastPredicate(c: Cfg, after: string, depth: nat)
    requires WellFormed(c) && depth > 0
    ensures ClosingLength(Print(c, after), depth, '(', ')')
            == Later(|Print(c, after)| - |after|, ClosingLength(after, depth, '(', ')'))
    decreases c, 0
  {
    hide ClosingLength, NoParens, Blank;
    match c
    case Flag(text) =>
      PlainHasNoParens(text);
      BracketsPast(text, after, depth);
    case Call(operator, gap, args) =>
      var inside := PrintArgs(args, ")" + after);
      BracketsPastArgs(args, ")" + after, depth + 1);
      BracketPast(')', after, depth + 1);
      BracketPast('(', inside, depth);
      BlankHasNoParens(gap);
      BracketsPast(gap, "(" + inside, depth);
      PlainHasNoParens(Name(operator));
      BracketsPast(Name(operator), gap + ("(" + inside), depth);
  }

  lemma {:induction false} BracketsPastArgs(args: Args, after: string, depth: nat)
    requires WellFormedArgs(args) && depth > 0
    ensures ClosingLength(PrintArgs(args, after), depth, '(', ')')
            == Later(|PrintArgs(args, after)| - |after|, ClosingLength(after, depth, '(', ')'))
    decreases args, 0
  {
    hide ClosingLength, NoParens, Blank;
    match args
    case End(blank) =>
      BlankHasNoParens(blank);
      BracketsPast(blank, after, depth);
    case Last(lead, head, trail) => BracketsPastArgument(lead, head, trail, after, depth);
    case More(lead, head, trail, rest) =>
      var last := PrintArgs(rest, after);
      BracketsPastArgs(rest, after, depth);
      BracketPast(',', last, depth);
      BracketsPastArgument(lead, head, trail, "," + last, depth);
  }

  lemma {:induction false} BracketsPastArgument(lead: string, head: Cfg, trail: string, after: string, depth: nat)
    requires Blank(lead) && WellFormed(head) && Blank(trail) && depth > 0
    ensures var s := lead + Print(head, trail + after);
            ClosingLength(s, depth, '(', ')') == Later(|s| - |after|, ClosingLength(after, depth, '(', ')'))
    decreases head, 1
  {
    hide ClosingLength, NoParens, Blank, Print, WellFormed;
    BlankHasNoParens(lead);
    BlankHasNoParens(trail);
    BracketsPast(lead, Print(head, trail + after), depth);
    BracketsPastPredicate(head, trail + after, depth);
    BracketsPast(trail, after, depth);
  }

  lemma AttributeText(rest: string)
    ensures AttributeLength("#[cfg(" + rest) == Some(6)
  {
    var s := "#[cfg(" + rest;
    assert s[1..][0] == '[' && s[2..][0] == 'c' && s[5..][0] == '(';
  }

  lemma CloserCloses(rest: string)
    ensures ClosingLength(")" + rest, 1, '(', ')') == Some(1)
  {
  }

  lemma PredicateIsBracketed(lead: string, c: Cfg, trail: string, rest: string)
    requires Blank(lead) && WellFormed(c) && Blank(trail)
    ensures ClosingLength("(" + (lead + Print(c, trail + (")" + rest))), 0, '(', ')')
            == Some(2 + |lead + Print(c, trail)|)
  {
    hide ClosingLength, NoParens, Blank, Print, WellFormed;
    var inside := lead + Print(c, trail + (")" + rest));
    BracketPast('(', inside, 0);
    BracketsPastArgument(lead, c, trail, ")" + rest, 1);
    PrintThen(c, trail, ")" + rest);
    CloserCloses(rest);
  }

  lemma AttributeSlices(text: string, position: nat, argument: string, rest: string)
    requires position <= |text| && text[position..] == "#[cfg(" + (argument + (")" + rest))
    ensures var inside := position + 6;
            inside + |argument| + 1 + |rest| == |text| &&
            text[inside - 1..] == "(" + (argument + (")" + rest)) && text[inside..inside + |argument|] == argument
  {
    var s := text[position..];
    assert text[position + 5..] == s[5..] && text[position + 6..] == s[6..];
    assert text[position + 6..][..|argument|] == argument;
  }

  lemma ArgumentThenRest(lead: string, c: Cfg, trail: string, rest: string)
    ensures lead + Print(c, trail + (")" + rest)) == lead + Print(c, trail) + (")" + rest)
  {
    PrintThen(c, trail, ")" + rest);
    hide Print;
    assert lead + (Print(c, trail) + (")" + rest)) == lead + Print(c, trail) + (")" + rest);
  }

  lemma ModuleFromPredicate(text: string, position: nat, inside: nat, end: nat, argument: string)
    requires position < inside < end <= |text| && Matching(text, inside - 1, '(', ')') == Some(end)
    requires text[inside..end - 1] == argument
    ensures ModuleFrom(text, position, inside) ==
              var header := ModuleHeader(text, end);
              if SelectsTestOnly(argument) && header.Some? then
                DeclaredModule(text, position, header.value.0, header.value.1)
              else None
  {
    hide Matching, SelectsTestOnly, ModuleHeader, DeclaredModule;
  }

  /** An attribute spelled from a predicate tree marks a test module exactly when the tree is
      test-only and a module header with a body or a semicolon follows. */
  lemma PrintedAttributeIsRead(text: string, position: nat, lead: string, c: Cfg, trail: string, rest: string, end: nat)
    requires Blank(lead) && WellFormed(c) && Blank(trail) && position <= |text| && end + |rest| == |text|
    requires text[position..] == "#[cfg(" + (lead + Print(c, trail + (")" + rest)))
    ensures var header := ModuleHeader(text, end);
            ModuleAt(text, position) ==
              if TestOnly(c) && header.Some? then DeclaredModule(text, position, header.value.0, header.value.1) else None
  {
    hide ClosingLength, SelectsTestOnly, TestOnly, ModuleHeader, DeclaredModule, AttributeLength, Print, WellFormed, Blank;
    var argument := lead + Print(c, trail);
    ArgumentThenRest(lead, c, trail, rest);
    AttributeSlices(text, position, argument, rest);
    AttributeText(argument + (")" + rest));
    PredicateIsBracketed(lead, c, trail, rest);
    SelectsIsTestOnly(lead, c, trail);
    assert Matching(text, position + 5, '(', ')') == Some(end);
    hide Matching, ModuleFrom;
    ModuleFromPredicate(text, position, position + 6, end, argument);
    assert AttributeLength(text[position..]) == Some(6);
  }
}
