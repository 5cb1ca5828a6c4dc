/** What the text of a test module looks like (scripts/strip_test_coverage.py:38-41, 253-312): a grammar
    of attributes, visibilities and module headers, independent of the functions that read them. */
module TestItems {
  import opened Text
  import opened CfgPredicate
  import opened TestModules
  import Scanner = RustScanner

  // ---------------------------------------------------------------------------------------------
  // White space
  // ---------------------------------------------------------------------------------------------

  predicate EndsBlank(rest: string) { rest == "" || !IsPythonSpace(rest[0]) }

  lemma {:induction false} SpacesRead(blank: string, rest: string)
    requires Blank(blank) && EndsBlank(rest)
    ensures Spaces(blank + rest) == |blank|
  {
    if blank == "" {
      assert blank + rest == rest;
    } else {
      SpacesRead(blank[1..], rest);
      assert (blank + rest)[1..] == blank[1..] + rest;
    }
  }

  lemma {:induction false} SpacesSplit(s: string)
    ensures var n := Spaces(s); Blank(s[..n]) && EndsBlank(s[n..]) && s == s[..n] + s[n..]
  {
    if s != "" && IsPythonSpace(s[0]) {
      SpacesSplit(s[1..]);
      var n := Spaces(s[1..]);
      assert s[..n + 1][1..] == s[1..][..n] && s[n + 1..] == s[1..][n..];
    }
  }

  // ---------------------------------------------------------------------------------------------
  // Brackets
  // ---------------------------------------------------------------------------------------------

  /** Nothing is closed that was not opened, and everything opened is closed. */
  predicate Balanced(body: string, opening: char, closing: char) {
    Depth(body, opening, closing) == 0 && forall k :: 0 <= k <= |body| ==> Depth(body[..k], opening, closing) >= 0
  }

  lemma DepthBehind(opening: char, closing: char, s: string)
    requires opening != closing
    ensures Depth([opening] + s, opening, closing) == 1 + Depth(s, opening, closing)
  {
    DepthPrepend([opening] + s, opening, closing);
    assert ([opening] + s)[1..] == s;
  }

  /** A balanced text in brackets is closed by the bracket after it. */
  lemma BalancedIsClosed(s: string, body: string, rest: string, opening: char, closing: char)
    requires opening != closing && Balanced(body, opening, closing) && s == [opening] + (body + ([closing] + rest))
    ensures ClosingLength(s, 0, opening, closing) == Some(|body| + 2)
  {
    var n := |body| + 2;
    var whole := [opening] + body;
    assert s[..n] == whole + [closing] && s[..n][..n - 1] == whole && s[n - 1] == closing;
    DepthBehind(opening, closing, body);
    assert ClosesAt(s, opening, closing, n);
    ClosingLengthIsLeast(s, opening, closing);
    var r := ClosingLength(s, 0, opening, closing).value;
    if r < n {
      assert s[..r] == [opening] + body[..r - 1];
      DepthBehind(opening, closing, body[..r - 1]);
    }
  }

  /** And what a bracket closes is balanced. */
  lemma ClosedIsBalanced(s: string, n: nat, opening: char, closing: char) returns (body: string)
    requires opening != closing && s != "" && s[0] == opening && ClosingLength(s, 0, opening, closing) == Some(n)
    ensures Balanced(body, opening, closing) && n == |body| + 2 && s == [opening] + (body + ([closing] + s[n..]))
  {
    ClosingLengthIsLeast(s, opening, closing);
    assert ClosesAt(s, opening, closing, n);
    assert n >= 2;
    body := s[1..n - 1];
    var whole := [opening] + body;
    assert s[..n] == whole + [closing] && s[..n][..n - 1] == whole;
    DepthBehind(opening, closing, body);
    forall k | 0 <= k <= |body|
      ensures Depth(body[..k], opening, closing) >= 0
    {
      NothingClosesEarlier(s, opening, closing, k + 1);
      assert s[..k + 1] == [opening] + body[..k];
      DepthBehind(opening, closing, body[..k]);
    }
    assert s == [opening] + (body + ([closing] + s[n..]));
  }

  // ---------------------------------------------------------------------------------------------
  // The attribute
  // ---------------------------------------------------------------------------------------------

  /** `#[cfg(`, with white space between its tokens. */
  function PrintAttribute(b0: string, b1: string, b2: string, after: string): string {
    "#" + (b0 + ("[" + (b1 + ("cfg" + (b2 + ("(" + after))))))
  }

  lemma Dropped(s: string, a: nat, b: nat)
    requires a + b <= |s|
    ensures s[a..][b..] == s[a + b..]
  {
  }

  /** What is left of the text when white space at its front is dropped. */
  function DropBlank(s: string): string { s[Spaces(s)..] }

  lemma BlankIsDropped(blank: string, tail: string)
    requires Blank(blank) && EndsBlank(tail)
    ensures DropBlank(blank + tail) == tail
  {
    SpacesRead(blank, tail);
  }

  lemma DroppedIsBlank(s: string) returns (blank: string)
    ensures Blank(blank) && EndsBlank(DropBlank(s)) && s == blank + DropBlank(s)
  {
    SpacesSplit(s);
    blank := s[..Spaces(s)];
  }

  /** What follows a token and white space. */
  function Behind(token: string, s: string): Option<string> {
    if token <= s then Some(DropBlank(s[|token|..])) else None
  }

  lemma BehindPrinted(token: string, blank: string, tail: string)
    requires Blank(blank) && EndsBlank(tail)
    ensures Behind(token, token + (blank + tail)) == Some(tail)
  {
    hide DropBlank;
    BlankIsDropped(blank, tail);
    assert (token + (blank + tail))[|token|..] == blank + tail;
  }

  lemma BehindIsPrinted(token: string, s: string, tail: string) returns (blank: string)
    requires Behind(token, s) == Some(tail)
    ensures Blank(blank) && EndsBlank(tail) && s == token + (blank + tail)
  {
    hide DropBlank;
    blank := DroppedIsBlank(s[|token|..]);
    assert s == token + s[|token|..];
  }

  /** What follows an attribute's opening parenthesis. */
  function BehindAttribute(s: string): Option<string> {
    var bracket := Behind("#", s);
    if bracket.None? then None
    else
      var name := Behind("[", bracket.value);
      if name.None? then None
      else
        var paren := Behind("cfg", name.value);
        if paren.None? || !("(" <= paren.value) then None else Some(paren.value[1..])
  }

  lemma TokenAt(s: string, at: nat, token: string)
    requires at <= |s|
    ensures Behind(token, s[at..]) ==
              if at + |token| <= |s| && s[at..at + |token|] == token then
                Some(s[at + |token| + Spaces(s[at + |token|..])..])
              else None
  {
    hide Spaces;
    var here := s[at..];
    if at + |token| <= |s| {
      assert here[..|token|] == s[at..at + |token|];
      Dropped(s, at, |token|);
      Dropped(s, at + |token|, Spaces(s[at + |token|..]));
    }
  }

  lemma OneChar(s: string, at: nat, c: char)
    requires at <= |s|
    ensures StartsWith(s[at..], c) <==> at + 1 <= |s| && s[at..at + 1] == [c]
  {
  }

  lemma ThreeChars(s: string, at: nat)
    requires at <= |s|
    ensures (at + 3 <= |s| && s[at..at + 3] == "cfg") <==>
              (|s| >= at + 3 && s[at] == 'c' && s[at + 1] == 'f' && s[at + 2] == 'g')
  {
    if |s| >= at + 3 { assert s[at..at + 3] == [s[at], s[at + 1], s[at + 2]]; }
  }

  /** The length of an attribute says what follows it. */
  lemma AttributeLengthIsBehind(s: string)
    ensures var n := AttributeLength(s);
            BehindAttribute(s) == if n.None? then None else Some(s[n.value..])
  {
    hide Spaces, Behind, StartsWith;
    assert s[0..] == s;
    TokenAt(s, 0, "#");
    OneChar(s, 0, '#');
    if StartsWith(s, '#') {
      var bracket := 1 + Spaces(s[1..]);
      TokenAt(s, bracket, "[");
      OneChar(s, bracket, '[');
      if StartsWith(s[bracket..], '[') {
        var name := bracket + 1 + Spaces(s[bracket + 1..]);
        TokenAt(s, name, "cfg");
        ThreeChars(s, name);
        if |s| >= name + 3 {
          var paren := name + 3 + Spaces(s[name + 3..]);
          OneChar(s, paren, '(');
          ParenAt(s, paren);
        }
      }
    }
  }

  lemma ParenAt(s: string, at: nat)
    requires at <= |s|
    ensures "(" <= s[at..] <==> at + 1 <= |s| && s[at..at + 1] == "("
    ensures at + 1 <= |s| ==> s[at..][1..] == s[at + 1..]
  {
  }

  lemma TokenEndsBlank(token: string, after: string)
    requires token != "" && token[0] in "[(#]{;cmp"
    ensures EndsBlank(token + after)
  {
  }

  lemma AttributeIsRead(b0: string, b1: string, b2: string, after: string)
    requires Blank(b0) && Blank(b1) && Blank(b2)
    ensures BehindAttribute(PrintAttribute(b0, b1, b2, after)) == Some(after)
  {
    hide Blank, Behind, EndsBlank;
    var paren := "(" + after;
    var name := "cfg" + (b2 + paren);
    var bracket := "[" + (b1 + name);
    TokenEndsBlank("(", after);
    TokenEndsBlank("cfg", b2 + paren);
    TokenEndsBlank("[", b1 + name);
    BehindPrinted("#", b0, bracket);
    BehindPrinted("[", b1, name);
    BehindPrinted("cfg", b2, paren);
    assert paren[1..] == after;
  }

  lemma AttributeIsPrinted(s: string, after: string) returns (b0: string, b1: string, b2: string)
    requires BehindAttribute(s) == Some(after)
    ensures Blank(b0) && Blank(b1) && Blank(b2) && s == PrintAttribute(b0, b1, b2, after)
  {
    hide Blank, Behind, EndsBlank;
    var bracket := Behind("#", s).value;
    var name := Behind("[", bracket).value;
    var paren := Behind("cfg", name).value;
    b0 := BehindIsPrinted("#", s, bracket);
    b1 := BehindIsPrinted("[", bracket, name);
    b2 := BehindIsPrinted("cfg", name, paren);
    assert paren == "(" + after;
  }

  // ---------------------------------------------------------------------------------------------
  // The module header
  // ---------------------------------------------------------------------------------------------

  datatype Visibility = Inherited | Public(gap: string) | Restricted(gap: string, inside: string, last: string)

  predicate IsVisibility(v: Visibility) {
    match v
    case Inherited => true
    case Public(gap) => Blank(gap)
    case Restricted(gap, inside, last) => Blank(gap) && ')' !in inside && Blank(last)
  }

  function PrintVisibility(v: Visibility, after: string): string {
    match v
    case Inherited => after
    case Public(gap) => "pub" + (gap + after)
    case Restricted(gap, inside, last) => "pub" + (gap + ("(" + (inside + (")" + (last + after)))))
  }

  predicate IsName(name: string) {
    name != "" && StartsName(name[0]) && forall i :: 0 <= i < |name| ==> IsIdentifierChar(name[i])
  }

  /** The name does not go on in what follows it. */
  predicate EndsName(rest: string) { rest == "" || !IsIdentifierChar(rest[0]) }

  /** A module header up to what declares its body. */
  datatype Header = Header(visibility: Visibility, gap: string, name: string, last: string)

  predicate IsHeader(h: Header) {
    IsVisibility(h.visibility) && Blank(h.gap) && h.gap != "" && IsName(h.name) && Blank(h.last)
  }

  function PrintHeader(h: Header, after: string): string {
    PrintVisibility(h.visibility, "mod" + (h.gap + (h.name + (h.last + after))))
  }

  function BehindRestriction(s: string): string {
    if !("(" <= s) then s
    else
      var closing := FindChar(s[1..], ')');
      if closing.None? then s else DropBlank(s[1..][closing.value + 1..])
  }

  function BehindVisibility(s: string): string {
    var public := Behind("pub", s);
    if public.None? then s else BehindRestriction(public.value)
  }

  /** The name that a header declares and what follows it. */
  function BehindHeader(s: string): Option<(string, string)> {
    var keyword := BehindVisibility(s);
    var name := Behind("mod", keyword);
    if name.None? || |name.value| + 3 == |keyword| || name.value == "" || !StartsName(name.value[0]) then None
    else
      var n := IdentifierRun(name.value);
      Some((name.value[..n], DropBlank(name.value[n..])))
  }

  lemma WordIsPrefix(s: string)
    ensures StartsWord(s, 'p', 'u', 'b') <==> "pub" <= s
    ensures StartsWord(s, 'm', 'o', 'd') <==> "mod" <= s
  {
    if |s| >= 3 { assert s[..3] == [s[0], s[1], s[2]]; }
  }

  lemma CharIsPrefix(s: string)
    ensures StartsWith(s, '(') <==> "(" <= s
  {
    if s != "" { assert s[..1] == [s[0]]; }
  }

  lemma DropBlankAt(s: string, at: nat)
    requires at <= |s|
    ensures DropBlank(s[at..]) == s[at + Spaces(s[at..])..]
  {
    hide Spaces;
    Dropped(s, at, Spaces(s[at..]));
  }

  /** What `VisibilityLength` adds for a restriction that stands at `paren`. */
  lemma RestrictionIsBehind(s: string, paren: nat, r: string, u: string)
    requires paren < |s| && r == s[paren..] && u == s[paren + 1..]
    ensures var closing := FindChar(u, ')');
            BehindRestriction(r) ==
              if !("(" <= r) || closing.None? then r
              else
                var end := paren + 1 + closing.value + 1;
                s[end + Spaces(s[end..])..]
  {
    hide DropBlank, FindChar;
    if "(" <= r {
      Dropped(s, paren, 1);
      assert r[1..] == u;
      var closing := FindChar(u, ')');
      if closing.Some? {
        var end := paren + 1 + closing.value + 1;
        Dropped(s, paren + 1, closing.value + 1);
        DropBlankAt(s, end);
      }
    }
  }

  lemma VisibilitySteps(s: string, paren: nat, r: string)
    requires "pub" <= s && paren == 3 + Spaces(s[3..]) && r == s[paren..]
    ensures VisibilityLength(s) ==
              if !("(" <= r) then paren
              else
                var closing := FindChar(s[paren + 1..], ')');
                if closing.None? then paren
                else
                  var end := paren + 1 + closing.value + 1;
                  end + Spaces(s[end..])
  {
    hide Spaces, FindChar, StartsWord, StartsWith;
    WordIsPrefix(s);
    CharIsPrefix(r);
  }

  lemma VisibilityLengthIsBehind(s: string)
    ensures BehindVisibility(s) == s[VisibilityLength(s)..]
  {
    hide Spaces, BehindRestriction, FindChar, DropBlank, StartsWord, StartsWith;
    WordIsPrefix(s);
    if "pub" <= s {
      hide VisibilityLength;
      var paren := 3 + Spaces(s[3..]);
      var r := s[paren..];
      DropBlankAt(s, 3);
      VisibilitySteps(s, paren, r);
      if "(" <= r {
        RestrictionIsBehind(s, paren, r, s[paren + 1..]);
      } else {
        assert BehindRestriction(r) == r by { NoRestriction(r); }
      }
    }
  }

  lemma NoRestriction(s: string)
    requires !("(" <= s)
    ensures BehindRestriction(s) == s
  {
  }

  lemma HeaderAtIsBehind(s: string)
    ensures var h := HeaderAt(s);
            BehindHeader(s) == if h.None? then None else Some((h.value.0, s[h.value.1..]))
  {
    hide Spaces, VisibilityLength, BehindVisibility, IdentifierRun, StartsWord, DropBlank, StartsName;
    VisibilityLengthIsBehind(s);
    var keyword := VisibilityLength(s);
    WordIsPrefix(s[keyword..]);
    if "mod" <= s[keyword..] {
      Dropped(s, keyword, 3);
      DropBlankAt(s, keyword + 3);
      var name := keyword + 3 + Spaces(s[keyword + 3..]);
      var end := name + IdentifierRun(s[name..]);
      Dropped(s, name, IdentifierRun(s[name..]));
      DropBlankAt(s, end);
      assert s[name..][..end - name] == s[name..end];
    }
  }

  lemma {:induction false} NameIsRead(name: string, rest: string)
    requires (forall i :: 0 <= i < |name| ==> IsIdentifierChar(name[i])) && EndsName(rest)
    ensures IdentifierRun(name + rest) == |name|
  {
    hide IsIdentifierChar;
    if name == "" {
      assert name + rest == rest;
    } else {
      NameIsRead(name[1..], rest);
      assert (name + rest)[1..] == name[1..] + rest;
    }
  }

  lemma {:induction false} RunIsName(s: string)
    ensures var n := IdentifierRun(s); (forall i :: 0 <= i < n ==> IsIdentifierChar(s[i])) && EndsName(s[n..])
  {
    hide IsIdentifierChar;
    if s != "" && IsIdentifierChar(s[0]) {
      RunIsName(s[1..]);
      var n := IdentifierRun(s[1..]);
      assert s[n + 1..] == s[1..][n..];
      forall i | 0 <= i < n + 1 ensures IsIdentifierChar(s[i]) { if i > 0 { assert s[1..][i - 1] == s[i]; } }
    }
  }

  lemma NameEndsBlank(name: string, after: string)
    requires IsName(name)
    ensures EndsBlank(name + after)
  {
  }

  lemma VisibilityIsRead(v: Visibility, after: string)
    requires IsVisibility(v) && "mod" <= after
    ensures BehindVisibility(PrintVisibility(v, after)) == after
  {
    hide Blank, Behind, DropBlank, EndsBlank, FindChar;
    assert after[0] == "mod"[0];
    assert EndsBlank(after) by { ModEndsBlank(after); }
    match v
    case Inherited => assert Behind("pub", after).None? by { ModIsNotPub(after); }
    case Public(gap) =>
      BehindPrinted("pub", gap, after);
      assert !("(" <= after);
    case Restricted(gap, inside, last) =>
      var closing := inside + (")" + (last + after));
      var paren := "(" + closing;
      TokenEndsBlank("(", closing);
      BehindPrinted("pub", gap, paren);
      assert paren[1..] == closing && "(" <= paren;
      assert closing == inside + [')'] + (last + after);
      FoundAfter(inside, ')', last + after);
      assert closing[|inside| + 1..] == last + after;
      BlankIsDropped(last, after);
  }

  lemma ModEndsBlank(after: string)
    requires "mod" <= after
    ensures EndsBlank(after)
  {
    assert after[0] == "mod"[0];
  }

  lemma ModIsNotPub(after: string)
    requires "mod" <= after
    ensures Behind("pub", after).None?
  {
    assert after[0] == "mod"[0] != "pub"[0];
  }

  /** A printed header is read as its name and what follows it. */
  lemma HeaderIsRead(h: Header, after: string)
    requires IsHeader(h) && EndsBlank(after) && (h.last == "" ==> EndsName(after))
    ensures BehindHeader(PrintHeader(h, after)) == Some((h.name, after))
  {
    hide Blank, Behind, DropBlank, EndsBlank, BehindVisibility, IdentifierRun, IsVisibility, IsIdentifierChar;
    var rest := h.last + after;
    var name := h.name + rest;
    var keyword := "mod" + (h.gap + name);
    VisibilityIsRead(h.visibility, keyword);
    NameEndsBlank(h.name, rest);
    BehindPrinted("mod", h.gap, name);
    assert EndsName(rest) by { LastEndsName(h.last, after); }
    NameIsRead(h.name, rest);
    assert name[..|h.name|] == h.name && name[|h.name|..] == rest;
    BlankIsDropped(h.last, after);
    assert name[0] == h.name[0];
  }

  lemma LastEndsName(last: string, after: string)
    requires Blank(last) && (last == "" ==> EndsName(after))
    ensures EndsName(last + after)
  {
    if last == "" {
      assert last + after == after;
    } else {
      assert (last + after)[0] == last[0];
    }
  }

  lemma VisibilityIsPrinted(s: string, after: string) returns (v: Visibility)
    requires BehindVisibility(s) == after
    ensures IsVisibility(v) && s == PrintVisibility(v, after)
  {
    hide Blank, Behind, DropBlank, EndsBlank;
    var public := Behind("pub", s);
    if public.None? {
      v := Inherited;
    } else {
      var r := public.value;
      var gap := BehindIsPrinted("pub", s, r);
      if !("(" <= r) || FindChar(r[1..], ')').None? {
        v := Public(gap);
      } else {
        var closing := FindChar(r[1..], ')').value;
        var inside := r[1..][..closing];
        var last := DroppedIsBlank(r[1..][closing + 1..]);
        v := Restricted(gap, inside, last);
        assert r == "(" + r[1..];
        assert r[1..] == inside + (")" + r[1..][closing + 1..]);
      }
    }
  }

  /** And what is read as a header is printed so. */
  lemma HeaderIsPrinted(s: string, name: string, after: string) returns (h: Header)
    requires BehindHeader(s) == Some((name, after))
    ensures IsHeader(h) && h.name == name && s == PrintHeader(h, after) && EndsBlank(after) && (h.last == "" ==> EndsName(after))
  {
    hide Blank, Behind, DropBlank, EndsBlank, BehindVisibility, IdentifierRun, IsVisibility, IsIdentifierChar;
    var keyword := BehindVisibility(s);
    var v := VisibilityIsPrinted(s, keyword);
    var r := Behind("mod", keyword).value;
    var gap := BehindIsPrinted("mod", keyword, r);
    var n := IdentifierRun(r);
    RunIsName(r);
    var last := DroppedIsBlank(r[n..]);
    h := Header(v, gap, name, last);
    assert r == name + r[n..];
    assert n > 0 by { RunStarts(r); }
    if last == "" { assert r[n..] == after; }
    assert IsName(name) by { forall i | 0 <= i < |name| ensures IsIdentifierChar(name[i]) {} }
  }

  lemma RunStarts(s: string)
    requires s != "" && StartsName(s[0])
    ensures IdentifierRun(s) > 0
  {
  }

  // ---------------------------------------------------------------------------------------------
  // Further attributes
  // ---------------------------------------------------------------------------------------------

  /** Another attribute between the first one and the module. */
  datatype Outer = Outer(gap: string, body: string, last: string)

  predicate IsOuter(o: Outer) { '[' !in o.gap && Balanced(o.body, '[', ']') && Blank(o.last) }

  predicate AreOuters(outers: seq<Outer>) { forall o :: o in outers ==> IsOuter(o) }

  function PrintOuter(o: Outer, after: string): string { "#" + (o.gap + ("[" + (o.body + ("]" + (o.last + after))))) }

  function PrintOuters(outers: seq<Outer>, after: string): string {
    if outers == [] then after else PrintOuter(outers[0], PrintOuters(outers[1..], after))
  }

  /** What stands after the parenthesis of an attribute, up to the module header. */
  function PrintClosed(b3: string, b4: string, outers: seq<Outer>, h: Header, after: string): string {
    b3 + ("]" + (b4 + PrintOuters(outers, PrintHeader(h, after))))
  }

  /** The name of the module after an attribute whose predicate closes before `s`, and what follows
      its header. */
  function BehindClosed(s: string): (r: Option<(string, string)>)
    decreases |s|
  {
    var item := Behind("]", DropBlank(s));
    if item.None? then None
    else if !("#" <= item.value) then BehindHeader(item.value)
    else
      var bracket := FindChar(item.value, '[');
      if bracket.None? then None
      else
        var rest := item.value[bracket.value..];
        var closed := ClosingLength(rest, 0, '[', ']');
        if closed.None? then None
        else
          assert |item.value| < |s| by { ItemIsShorter(s); }
          BehindClosed(rest[closed.value - 1..])
  }

  lemma ItemIsShorter(s: string)
    requires Behind("]", DropBlank(s)).Some?
    ensures |Behind("]", DropBlank(s)).value| < |s|
  {
  }

  lemma HashIsPrefix(text: string, at: nat, c: char)
    requires at <= |text|
    ensures At(text, at, c) <==> [c] <= text[at..]
  {
    if at < |text| { assert text[at..][..1] == [text[at]]; }
  }

  lemma SkipIsDrop(text: string, at: nat)
    requires at <= |text|
    ensures DropBlank(text[at..]) == text[Skip(text, at)..]
  {
    DropBlankAt(text, at);
  }

  lemma SuffixAt(text: string, at: nat)
    requires at <= |text|
    ensures text[|text| - |text[at..]|..] == text[at..] && |text[at..]| == |text| - at
  {
  }

  lemma CloseIsBehind(text: string, start: nat, close: nat, item: nat)
    requires start <= |text| && close == Skip(text, start) && (At(text, close, ']') ==> item == Skip(text, close + 1))
    ensures Behind("]", DropBlank(text[start..])) == if At(text, close, ']') then Some(text[item..]) else None
  {
    hide Spaces, Skip, DropBlank;
    SkipIsDrop(text, start);
    HashIsPrefix(text, close, ']');
    if At(text, close, ']') {
      Dropped(text, close, 1);
      SkipIsDrop(text, close + 1);
    }
  }

  /** Where the attribute at `item` closes, in both readings. */
  lemma OuterIsBehind(text: string, item: nat, x: string)
    requires item <= |text| && x == text[item..]
    ensures var bracket, found := FindChar(x, '['), FindFrom(text, item, '[');
            if bracket.None? then found.None?
            else
              bracket.value <= |x| && found == Some(item + bracket.value) &&
              var closed, matching := ClosingLength(x[bracket.value..], 0, '[', ']'), Matching(text, found.value, '[', ']');
              if closed.None? then matching.None?
              else
                matching == Some(found.value + closed.value) && 0 < closed.value <= |x[bracket.value..]| &&
                x[bracket.value..][closed.value - 1..] == text[matching.value - 1..]
  {
    hide ClosingLength, FindChar;
    var bracket := FindChar(x, '[');
    if bracket.Some? {
      Dropped(text, item, bracket.value);
      var closed := ClosingLength(x[bracket.value..], 0, '[', ']');
      if closed.Some? { Dropped(text, item + bracket.value, closed.value - 1); }
    }
  }

  /** The position-driven reading of the header is the reading of the suffix. */
  lemma {:induction false} ModuleHeaderIsBehind(text: string, start: nat)
    requires start <= |text|
    ensures var h := ModuleHeader(text, start);
            BehindClosed(text[start..]) == if h.None? then None else Some((h.value.0, text[h.value.1..]))
    decreases |text| - start
  {
    hide Skip, DropBlank, Behind, HeaderFrom, BehindHeader, ClosingLength, FindChar, FindFrom, Matching;
    var close := Skip(text, start);
    var item := if At(text, close, ']') then Skip(text, close + 1) else 0;
    CloseIsBehind(text, start, close, item);
    if At(text, close, ']') {
      var x := text[item..];
      HashIsPrefix(text, item, '#');
      if At(text, item, '#') {
        OuterIsBehind(text, item, x);
        var bracket := FindFrom(text, item, '[');
        if bracket.Some? {
          var closed := Matching(text, bracket.value, '[', ']');
          if closed.Some? { ModuleHeaderIsBehind(text, closed.value - 1); }
        }
      } else {
        HeaderFromIsBehind(text, item);
      }
    }
  }

  lemma HeaderFromIsBehind(text: string, start: nat)
    requires start <= |text|
    ensures var h := HeaderFrom(text, start);
            BehindHeader(text[start..]) == if h.None? then None else Some((h.value.0, text[h.value.1..]))
  {
    hide HeaderAt, BehindHeader;
    HeaderAtIsBehind(text[start..]);
    var h := HeaderAt(text[start..]);
    if h.Some? { Dropped(text, start, h.value.1); }
  }

  lemma HeaderStarts(h: Header, after: string)
    requires IsHeader(h)
    ensures var s := PrintHeader(h, after); s != "" && (s[0] == 'p' || s[0] == 'm') && EndsBlank(s) && !("#" <= s)
  {
    hide Blank, IsName, IsVisibility;
    var s := PrintHeader(h, after);
    assert s[0] == 'p' || s[0] == 'm';
  }

  lemma OutersEndBlank(outers: seq<Outer>, h: Header, after: string)
    requires IsHeader(h)
    ensures EndsBlank(PrintOuters(outers, PrintHeader(h, after)))
    ensures outers != [] ==> "#" <= PrintOuters(outers, PrintHeader(h, after))
  {
    hide IsHeader, PrintHeader;
    HeaderStarts(h, after);
    if outers != [] { assert PrintOuters(outers, PrintHeader(h, after))[0] == '#'; }
  }

  lemma ClosedStep(b3: string, b4: string, x: string)
    requires Blank(b3) && Blank(b4) && EndsBlank(x)
    ensures Behind("]", DropBlank(b3 + ("]" + (b4 + x)))) == Some(x)
  {
    hide Blank, EndsBlank, DropBlank, Behind;
    TokenEndsBlank("]", b4 + x);
    BlankIsDropped(b3, "]" + (b4 + x));
    BehindPrinted("]", b4, x);
  }

  /** Past one further attribute. */
  lemma OuterIsRead(o: Outer, after: string)
    requires IsOuter(o)
    ensures var x, closed := PrintOuter(o, after), "[" + (o.body + ("]" + (o.last + after)));
            FindChar(x, '[') == Some(|o.gap| + 1) && x[|o.gap| + 1..] == closed &&
            ClosingLength(closed, 0, '[', ']') == Some(|o.body| + 2) && closed[|o.body| + 1..] == "]" + (o.last + after)
  {
    hide Balanced, ClosingLength, FindChar, Blank;
    var closed := "[" + (o.body + ("]" + (o.last + after)));
    var rest := o.body + ("]" + (o.last + after));
    assert PrintOuter(o, after) == ("#" + o.gap) + ['['] + rest;
    FoundAfter("#" + o.gap, '[', rest);
    BalancedIsClosed(closed, o.body, o.last + after, '[', ']');
    assert closed[|o.body| + 1..] == "]" + (o.last + after);
  }

  lemma {:induction false} ClosedIsRead(b3: string, b4: string, outers: seq<Outer>, h: Header, after: string)
    requires Blank(b3) && Blank(b4) && AreOuters(outers) && IsHeader(h) && EndsBlank(after) && (h.last == "" ==> EndsName(after))
    ensures BehindClosed(PrintClosed(b3, b4, outers, h, after)) == Some((h.name, after))
    decreases |outers|
  {
    hide Blank, IsHeader, EndsBlank, DropBlank, Behind, BehindHeader;
    hide PrintHeader, ClosingLength, FindChar, EndsName, IsOuter, PrintOuter;
    var header := PrintHeader(h, after);
    var x := PrintOuters(outers, header);
    OutersEndBlank(outers, h, after);
    ClosedStep(b3, b4, x);
    if outers == [] {
      HeaderStarts(h, after);
      HeaderIsRead(h, after);
    } else {
      var o, rest := outers[0], outers[1..];
      assert o in outers && forall p :: p in rest ==> p in outers;
      OuterIsRead(o, PrintOuters(rest, header));
      assert "" + ("]" + (o.last + PrintOuters(rest, header))) == "]" + (o.last + PrintOuters(rest, header));
      assert Blank("") && Blank(o.last) by { OuterBlanks(o); }
      ClosedIsRead("", o.last, rest, h, after);
    }
  }

  lemma OuterBlanks(o: Outer)
    requires IsOuter(o)
    ensures Blank("") && Blank(o.last)
  {
  }

  lemma {:induction false} ClosedIsPrinted(s: string, name: string, after: string)
    returns (b3: string, b4: string, outers: seq<Outer>, h: Header)
    requires BehindClosed(s) == Some((name, after))
    ensures Blank(b3) && Blank(b4) && AreOuters(outers) && IsHeader(h) && h.name == name
    ensures s == PrintClosed(b3, b4, outers, h, after) && EndsBlank(after) && (h.last == "" ==> EndsName(after))
    decreases |s|
  {
    hide Blank, IsHeader, EndsBlank, DropBlank, Behind, BehindHeader;
    hide PrintHeader, ClosingLength, FindChar, EndsName, IsOuter, PrintOuter;
    b3 := DroppedIsBlank(s);
    var x := Behind("]", DropBlank(s)).value;
    b4 := BehindIsPrinted("]", DropBlank(s), x);
    if !("#" <= x) {
      outers := [];
      h := HeaderIsPrinted(x, name, after);
    } else {
      var bracket := FindChar(x, '[').value;
      var rest := x[bracket..];
      var closed := ClosingLength(rest, 0, '[', ']').value;
      ItemIsShorter(s);
      var b, last, more;
      b, last, more, h := ClosedIsPrinted(rest[closed - 1..], name, after);
      var o := OuterIsPrinted(x, bracket, closed, b, last, PrintOuters(more, PrintHeader(h, after)));
      outers := [o] + more;
      assert outers[1..] == more;
      assert AreOuters(outers) by { assert forall p :: p in outers <==> p == o || p in more; }
    }
  }

  lemma OuterIsPrinted(x: string, bracket: nat, closed: nat, b: string, last: string, after: string) returns (o: Outer)
    requires "#" <= x && FindChar(x, '[') == Some(bracket) && bracket <= |x| && ClosingLength(x[bracket..], 0, '[', ']') == Some(closed)
    requires 0 < closed <= |x[bracket..]| && x[bracket..][closed - 1..] == b + ("]" + (last + after)) && Blank(b) && Blank(last)
    ensures IsOuter(o) && x == PrintOuter(o, after)
  {
    hide Blank, ClosingLength, Balanced;
    var rest := x[bracket..];
    assert x[0] == '#' && rest[0] == '[';
    var body := ClosedIsBalanced(rest, closed, '[', ']');
    assert rest[closed - 1..] == "]" + rest[closed..];
    assert b == "" by { NoBlankBracket(b, "]" + (last + after), rest[closed - 1..]); }
    assert rest[closed - 1..] == "]" + (last + after);
    assert rest[closed..] == last + after by { assert rest[closed - 1..][1..] == rest[closed..]; }
    o := Outer(x[1..bracket], body, last);
    assert x == "#" + (o.gap + rest);
    assert '[' !in o.gap by { assert forall i :: 0 <= i < |o.gap| ==> o.gap[i] == x[1 + i]; }
  }

  lemma NoBlankBracket(b: string, tail: string, s: string)
    requires Blank(b) && s == b + tail && s != "" && s[0] == ']'
    ensures b == ""
  {
  }

  // ---------------------------------------------------------------------------------------------
  // Test modules
  // ---------------------------------------------------------------------------------------------

  /** A module with its attributes: `#[cfg(argument)]`, further attributes, a header, and then a brace
      or a semicolon. */
  datatype Item = Item(
    b0: string, b1: string, b2: string, argument: string, b3: string, b4: string,
    outers: seq<Outer>, header: Header, inline: bool)

  predicate IsItem(i: Item) {
    Blank(i.b0) && Blank(i.b1) && Blank(i.b2) && Balanced(i.argument, '(', ')') && Blank(i.b3) && Blank(i.b4) &&
    AreOuters(i.outers) && IsHeader(i.header)
  }

  /** The item up to what declares its body, and then `rest`. */
  function PrintDeclaration(i: Item, rest: string): string {
    PrintAttribute(i.b0, i.b1, i.b2, i.argument + (")" + PrintClosed(i.b3, i.b4, i.outers, i.header, rest)))
  }

  function PrintItem(i: Item, after: string): string {
    PrintDeclaration(i, (if i.inline then "{" else ";") + after)
  }

  /** The name of the test module at the front of `s`, whether it has a body, and what follows the
      brace or the semicolon. */
  function BehindModule(s: string): Option<(string, bool, string)> {
    var inside := BehindAttribute(s);
    if inside.None? then None
    else
      var paren := "(" + inside.value;
      var closed := ClosingLength(paren, 0, '(', ')');
      if closed.None? || closed.value < 2 || !SelectsTestOnly(paren[1..closed.value - 1]) then None
      else
        var header := BehindClosed(paren[closed.value..]);
        if header.None? then None
        else
          var (name, rest) := header.value;
          if "{" <= rest then Some((name, true, rest[1..]))
          else if ";" <= rest then Some((name, false, rest[1..]))
          else None
  }

  lemma DeclaredIsBehind(text: string, position: nat, name: string, end: nat, rest: string)
    requires end <= |text| && rest == text[end..]
    ensures DeclaredModule(text, position, name, end) ==
              if "{" <= rest then Some(TestModule(position, name, Some(|text| - |rest|)))
              else if ";" <= rest then Some(TestModule(position, name, None))
              else None
  {
    HashIsPrefix(text, end, '{');
    HashIsPrefix(text, end, ';');
  }

  lemma PredicateIsBehind(text: string, inside: nat, paren: string)
    requires 0 < inside <= |text| && paren == "(" + text[inside..] && text[inside - 1] == '('
    ensures paren == text[inside - 1..]
    ensures var closed, end := ClosingLength(paren, 0, '(', ')'), Matching(text, inside - 1, '(', ')');
            if closed.None? then end.None?
            else
              closed.value <= |paren| && end == Some(inside - 1 + closed.value) && paren[closed.value..] == text[end.value..] &&
              (closed.value >= 2 ==> paren[1..closed.value - 1] == text[inside..end.value - 1])
  {
    hide ClosingLength;
    assert paren == text[inside - 1..];
    var closed := ClosingLength(paren, 0, '(', ')');
    if closed.Some? {
      Dropped(text, inside - 1, closed.value);
    }
  }

  /** The position-driven reading of a module is the reading of the suffix. */
  lemma ModuleAtIsBehind(text: string, position: nat)
    requires position <= |text|
    ensures ModuleAt(text, position) ==
              match BehindModule(text[position..])
              case None => None
              case Some((name, inline, rest)) =>
                if |rest| + 1 <= |text| then Some(TestModule(position, name, if inline then Some(|text| - |rest| - 1) else None)) else None
  {
    hide AttributeLength, BehindAttribute, ClosingLength, Matching, SelectsTestOnly, ModuleHeader, BehindClosed, DeclaredModule;
    var s := text[position..];
    AttributeLengthIsBehind(s);
    var attribute := AttributeLength(s);
    if attribute.Some? {
      var inside := position + attribute.value;
      Dropped(text, position, attribute.value);
      AttributeEndsOpen(text, position, inside);
      var paren := "(" + text[inside..];
      PredicateIsBehind(text, inside, paren);
      var end := Matching(text, inside - 1, '(', ')');
      if end.Some? && end.value >= inside + 1 && SelectsTestOnly(text[inside..end.value - 1]) {
        ModuleHeaderIsBehind(text, end.value);
        var header := ModuleHeader(text, end.value);
        if header.Some? {
          DeclaredIsBehind(text, position, header.value.0, header.value.1, text[header.value.1..]);
        }
      }
    }
  }

  lemma AttributeEndsOpen(text: string, position: nat, inside: nat)
    requires position <= inside <= |text| && AttributeLength(text[position..]) == Some(inside - position)
    ensures 0 < inside && text[inside - 1] == '('
  {
    hide Spaces;
    AttributeOpensPredicate(text[position..]);
  }

  lemma BodyIsRead(inline: bool, after: string)
    ensures var rest := (if inline then "{" else ";") + after;
            EndsBlank(rest) && EndsName(rest) && rest[1..] == after && ("{" <= rest <==> inline) && (";" <= rest <==> !inline)
  {
    var rest := (if inline then "{" else ";") + after;
    assert rest[0] == if inline then '{' else ';';
  }

  /** A declaration ends where what follows it does not go on with it. */
  predicate EndsDeclaration(i: Item, rest: string) { EndsBlank(rest) && (i.header.last == "" ==> EndsName(rest)) }

  /** What follows a declaration says which kind of module it is, if any. */
  lemma DeclarationIsRead(i: Item, rest: string)
    requires IsItem(i) && EndsDeclaration(i, rest)
    ensures BehindModule(PrintDeclaration(i, rest)) ==
              if !SelectsTestOnly(i.argument) then None
              else if "{" <= rest then Some((i.header.name, true, rest[1..]))
              else if ";" <= rest then Some((i.header.name, false, rest[1..]))
              else None
  {
    hide Blank, Balanced, ClosingLength, SelectsTestOnly, BehindAttribute;
    hide BehindClosed, PrintAttribute, PrintClosed, IsHeader, EndsBlank, EndsName;
    var closed := PrintClosed(i.b3, i.b4, i.outers, i.header, rest);
    var inside := i.argument + (")" + closed);
    AttributeIsRead(i.b0, i.b1, i.b2, inside);
    var paren := "(" + inside;
    BalancedIsClosed(paren, i.argument, closed, '(', ')');
    assert paren[1..|i.argument| + 1] == i.argument && paren[|i.argument| + 2..] == closed;
    ClosedIsRead(i.b3, i.b4, i.outers, i.header, rest);
  }

  /** A printed item is read as its name and its body when its predicate is selected. */
  lemma ItemIsRead(i: Item, after: string)
    requires IsItem(i) && SelectsTestOnly(i.argument)
    ensures BehindModule(PrintItem(i, after)) == Some((i.header.name, i.inline, after))
  {
    hide IsItem, SelectsTestOnly, PrintDeclaration, EndsBlank, EndsName, BehindModule;
    BodyIsRead(i.inline, after);
    DeclarationIsRead(i, (if i.inline then "{" else ";") + after);
  }

  /** What is read as a test module is printed as an item whose predicate is selected. */
  lemma ItemIsPrinted(s: string, name: string, inline: bool, after: string) returns (i: Item)
    requires BehindModule(s) == Some((name, inline, after))
    ensures IsItem(i) && SelectsTestOnly(i.argument) && i.header.name == name && i.inline == inline && s == PrintItem(i, after)
  {
    hide Blank, Balanced, ClosingLength, SelectsTestOnly, BehindAttribute, BehindClosed;
    hide PrintAttribute, PrintClosed, IsHeader, EndsBlank, EndsName, AreOuters;
    var inside := BehindAttribute(s).value;
    var b0, b1, b2 := AttributeIsPrinted(s, inside);
    var paren := "(" + inside;
    var closed := ClosingLength(paren, 0, '(', ')').value;
    var argument := ClosedIsBalanced(paren, closed, '(', ')');
    assert paren[1..closed - 1] == argument;
    assert inside == argument + (")" + paren[closed..]) by { assert paren[1..] == inside; }
    var rest := BehindClosed(paren[closed..]).value.1;
    var b3, b4, outers, h := ClosedIsPrinted(paren[closed..], name, rest);
    assert rest == (if inline then "{" else ";") + after;
    i := Item(b0, b1, b2, argument, b3, b4, outers, h, inline);
  }

  /** `m` is the module that `i` declares at `position`, before `after`. */
  predicate IsItemAt(text: string, position: nat, i: Item, after: string, m: TestModule) {
    IsItem(i) && position + |after| < |text| && text[position..] == PrintItem(i, after) && m.attribute == position &&
    m.name == i.header.name && m.body == if i.inline then Some(|text| - |after| - 1) else None
  }

  lemma PrintedIsLonger(i: Item, after: string)
    ensures |after| < |PrintItem(i, after)|
  {
    hide PrintHeader;
    var rest := (if i.inline then "{" else ";") + after;
    HeaderIsLonger(i.header, rest);
    OutersAreLonger(i.outers, PrintHeader(i.header, rest));
  }

  lemma HeaderIsLonger(h: Header, after: string)
    ensures |after| < |PrintHeader(h, after)|
  {
  }

  lemma {:induction false} OutersAreLonger(outers: seq<Outer>, after: string)
    ensures |after| <= |PrintOuters(outers, after)|
  {
    if outers != [] { OutersAreLonger(outers[1..], after); }
  }

  /** A test module is found at a position exactly when an item with a selected predicate is printed
      there; its name is the item's, and its body is at the item's brace, or elsewhere when the item
      ends in a semicolon. */
  lemma ModuleAtIsExact(text: string, position: nat, m: TestModule)
    requires position <= |text|
    ensures ModuleAt(text, position) == Some(m) <==>
              exists i: Item, after :: SelectsTestOnly(i.argument) && IsItemAt(text, position, i, after, m)
  {
    hide ModuleAt, BehindModule, IsItem, SelectsTestOnly, PrintItem;
    ModuleAtIsBehind(text, position);
    if ModuleAt(text, position) == Some(m) {
      var (name, inline, after) := BehindModule(text[position..]).value;
      var i := ItemIsPrinted(text[position..], name, inline, after);
      PrintedIsLonger(i, after);
      assert IsItemAt(text, position, i, after, m);
    }
    if i: Item, after :| SelectsTestOnly(i.argument) && IsItemAt(text, position, i, after, m) {
      ItemIsRead(i, after);
    }
  }

  // ---------------------------------------------------------------------------------------------
  // Modules under a predicate tree
  // ---------------------------------------------------------------------------------------------

  /** The attribute's argument is spelled from a predicate tree. */
  predicate Spells(i: Item, lead: string, c: Cfg, trail: string) {
    WellFormed(c) && Blank(lead) && Blank(trail) && i.argument == lead + Print(c, trail)
  }

  /** Everything about an item but its argument. */
  predicate IsFrame(i: Item) {
    Blank(i.b0) && Blank(i.b1) && Blank(i.b2) && Blank(i.b3) && Blank(i.b4) && AreOuters(i.outers) && IsHeader(i.header)
  }

  lemma PrintedIsBalanced(lead: string, c: Cfg, trail: string)
    requires WellFormed(c) && Blank(lead) && Blank(trail)
    ensures Balanced(lead + Print(c, trail), '(', ')')
  {
    hide Print, WellFormed, Blank, ClosingLength, Balanced;
    var argument := lead + Print(c, trail);
    ArgumentThenRest(lead, c, trail, "");
    PredicateIsBracketed(lead, c, trail, "");
    var s := "(" + (argument + (")" + ""));
    var body := ClosedIsBalanced(s, |argument| + 2, '(', ')');
    assert body == argument by { assert s[1..|argument| + 1] == argument && s[1..|body| + 1] == body; }
  }

  lemma SpelledIsItem(i: Item, lead: string, c: Cfg, trail: string)
    requires IsFrame(i) && Spells(i, lead, c, trail)
    ensures IsItem(i) && (SelectsTestOnly(i.argument) <==> TestOnly(c))
  {
    hide Print, WellFormed, Blank, Balanced, SelectsTestOnly, TestOnly, AreOuters, IsHeader;
    PrintedIsBalanced(lead, c, trail);
    SelectsIsTestOnly(lead, c, trail);
  }

  /** A module under a predicate tree is a test module exactly when the tree is test-only and a brace
      or a semicolon follows: its body is at the brace, or elsewhere. */
  lemma PrintedModuleIsRead(text: string, position: nat, i: Item, lead: string, c: Cfg, trail: string, rest: string)
    requires IsFrame(i) && Spells(i, lead, c, trail) && EndsDeclaration(i, rest)
    requires position <= |text| && text[position..] == PrintDeclaration(i, rest) && |rest| <= |text|
    ensures ModuleAt(text, position) ==
              if !TestOnly(c) || rest == "" then None
              else if rest[0] == '{' then Some(TestModule(position, i.header.name, Some(|text| - |rest|)))
              else if rest[0] == ';' then Some(TestModule(position, i.header.name, None))
              else None
  {
    hide ModuleAt, BehindModule, IsFrame, Spells, IsItem, EndsDeclaration, SelectsTestOnly, TestOnly, PrintDeclaration;
    SpelledIsItem(i, lead, c, trail);
    DeclarationIsRead(i, rest);
    ModuleAtIsBehind(text, position);
    if rest != "" { assert rest[..1] == [rest[0]]; }
  }

  /** The last offset of a body whose brace stands at `brace`: its least balanced closing brace, or
      the last character when there is none. */
  ghost predicate IsLastOf(text: string, brace: nat, last: nat) {
    brace <= last < |text| &&
    if ClosesAt(text[brace..], '{', '}', last - brace + 1) then
      forall n :: ClosesAt(text[brace..], '{', '}', n) ==> last - brace + 1 <= n
    else
      last == |text| - 1 && forall n :: !ClosesAt(text[brace..], '{', '}', n)
  }

  lemma SpanIsLast(text: string, brace: nat)
    requires brace < |text|
    ensures IsLastOf(text, brace, SpanLast(text, brace))
  {
    hide ClosingLength, ClosesAt;
    ClosingLengthIsLeast(text[brace..], '{', '}');
  }

  lemma LastIsOne(text: string, brace: nat, a: nat, b: nat)
    requires IsLastOf(text, brace, a) && IsLastOf(text, brace, b)
    ensures a == b
  {
    hide ClosesAt;
  }

  /** The lines of an inline module under a predicate tree run from its attribute's to the last of its
      body's when the tree is test-only; there are none when it is not. */
  lemma LinesOfPrintedModule(
    source: string, masked: string, position: nat,
    i: Item, lead: string, c: Cfg, trail: string, after: string, last: nat, line: nat)
    requires masked == Scanner.Masked(source) && |masked| == |source| && i.inline && IsFrame(i) && Spells(i, lead, c, trail)
    requires position + |after| < |masked| && masked[position..] == PrintItem(i, after)
    requires IsLastOf(masked, |masked| - |after| - 1, last)
    ensures LineOfModuleAt(source, position, line) <==>
              TestOnly(c) && LineNumber(source, position) <= line <= LineNumber(source, last)
  {
    hide ModuleAt, IsFrame, Spells, SelectsTestOnly, TestOnly;
    hide PrintDeclaration, IsLastOf, SpanLast, EndsBlank, EndsName, LineNumber;
    hide Scanner.Masked;
    var rest := "{" + after;
    BodyIsRead(true, after);
    assert EndsDeclaration(i, rest);
    PrintedModuleIsRead(masked, position, i, lead, c, trail, rest);
    if TestOnly(c) {
      SpanIsLast(masked, |source| - |after| - 1);
      LastIsOne(masked, |source| - |after| - 1, last, SpanLast(masked, |source| - |after| - 1));
    }
  }

  /** A module under a test-only tree that ends in a semicolon may have two files: its own, or `mod.rs`
      in a directory of its name; other items have none. */
  lemma FilesOfPrintedModule(
    masked: string, parent: string, position: nat, i: Item, lead: string, c: Cfg, trail: string, after: string, path: string)
    requires IsFrame(i) && Spells(i, lead, c, trail)
    requires position <= |masked| && masked[position..] == PrintItem(i, after) && |after| < |masked|
    ensures IsOutOfLinePath(masked, parent, position, path) <==>
              TestOnly(c) && !i.inline &&
              (path == parent + ("/" + (i.header.name + ".rs")) || path == parent + ("/" + (i.header.name + "/mod.rs")))
  {
    hide ModuleAt, IsFrame, Spells, SelectsTestOnly, TestOnly, PrintDeclaration, EndsBlank, EndsName;
    var rest := (if i.inline then "{" else ";") + after;
    BodyIsRead(i.inline, after);
    assert EndsDeclaration(i, rest);
    PrintedModuleIsRead(masked, position, i, lead, c, trail, rest);
    PathsAre(parent, i.header.name, path);
  }

  lemma PathsAre(parent: string, name: string, path: string)
    ensures path in PathsOf(parent, name) <==>
              path == parent + ("/" + (name + ".rs")) || path == parent + ("/" + (name + "/mod.rs"))
  {
    assert parent + "/" + name + ".rs" == parent + ("/" + (name + ".rs"));
    assert parent + "/" + name + "/mod.rs" == parent + ("/" + (name + "/mod.rs"));
  }
}
