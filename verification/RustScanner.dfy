/** Blanking comments and literals in Rust source (scripts/strip_test_coverage.py:59-169).

    The reference is a token grammar that says which texts are one complete comment or literal, and
    what it means for a list of segments to cut up a source. `Lex` is the only such list, and the
    in-place, position-driven loop of the script renders exactly it. */
module RustScanner {
  import opened Text

  datatype Kind = Code | LineComment | BlockComment | RawString | StringLiteral | CharLiteral

  datatype Segment = Segment(kind: Kind, text: string)

  // ---------------------------------------------------------------------------------------------
  // The grammar of complete tokens
  // ---------------------------------------------------------------------------------------------

  /** The inside of a block comment: characters and nested comments. */
  datatype Body = Empty | Char(c: char, rest: Body) | Nested(inner: Body, rest: Body)

  /** The text of a comment body, followed by `after`. */
  function SpellBody(b: Body, after: string): (s: string)
    ensures |s| >= |after|
  {
    match b
    case Empty => after
    case Char(c, rest) => [c] + SpellBody(rest, after)
    case Nested(inner, rest) => "/*" + SpellBody(inner, "*/" + SpellBody(rest, after))
  }

  predicate Begins(s: string, first: char, second: char) {
    |s| >= 2 && s[0] == first && s[1] == second
  }

  predicate OpensComment(s: string) { Begins(s, '/', '*') }

  predicate ClosesComment(s: string) { Begins(s, '*', '/') }

  predicate StartsMarker(s: string) { OpensComment(s) || ClosesComment(s) }

  /** No plain character of `b` begins a comment marker in the text `b` is followed by. */
  predicate Unambiguous(b: Body, after: string) {
    match b
    case Empty => true
    case Char(c, rest) => !StartsMarker([c] + SpellBody(rest, after)) && Unambiguous(rest, after)
    case Nested(inner, rest) =>
      Unambiguous(inner, "*/" + SpellBody(rest, after)) && Unambiguous(rest, after)
  }

  ghost predicate IsBlockComment(t: string) {
    exists b: Body :: Unambiguous(b, "*/") && t == "/*" + SpellBody(b, "*/")
  }

  /** One element of a string literal's body. */
  datatype Piece = Plain(c: char) | Escaped(c: char)

  predicate PieceOk(p: Piece) { p.Plain? ==> p.c != '"' && p.c != '\\' }

  function SpellPieces(ps: seq<Piece>): string {
    if ps == [] then ""
    else (if ps[0].Plain? then [ps[0].c] else ['\\', ps[0].c]) + SpellPieces(ps[1..])
  }

  ghost predicate IsStringLiteral(t: string) {
    exists ps: seq<Piece> ::
      (forall p :: p in ps ==> PieceOk(p)) && t == "\"" + SpellPieces(ps) + "\""
  }

  function Hashes(s: string): (n: nat)
    ensures n <= |s| && (forall i :: 0 <= i < n ==> s[i] == '#') && (n < |s| ==> s[n] != '#')
  {
    if s == "" || s[0] != '#' then 0 else 1 + Hashes(s[1..])
  }

  function RawPrefixLength(s: string): (n: nat)
    ensures n <= |s| && n <= 2
  {
    if s != "" && s[0] == 'r' then 1 else if Begins(s, 'b', 'r') || Begins(s, 'c', 'r') then 2 else 0
  }

  /** The number of `#` in the raw-string opener that `s` begins with, if it begins with one. */
  function RawOpener(s: string): (r: Option<nat>)
    ensures r.Some? ==> RawPrefixLength(s) + r.value + 1 <= |s|
  {
    var prefix := RawPrefixLength(s);
    var n := Hashes(s[prefix..]);
    if prefix > 0 && Quoted(s[prefix + n..]) then Some(n) else None
  }

  /** A quote and `hashes` times `#` stand at position `i`. */
  predicate TerminatorAt(s: string, i: nat, hashes: nat) {
    i + hashes + 1 <= |s| && s[i] == '"' && forall j :: i < j <= i + hashes ==> s[j] == '#'
  }

  /** The prefixes that make a string literal raw. */
  const RAW_PREFIXES := {"r", "br", "cr"}

  function RawTerminator(hashes: nat): string { "\"" + Repeat('#', hashes) }

  /** A raw string with this many hashes opens at the front of `s`. */
  ghost predicate OpensRaw(s: string, hashes: nat) {
    exists p :: p in RAW_PREFIXES && p + Repeat('#', hashes) + "\"" <= s
  }

  /** `t` is a prefix, hashes and a quote, a body, and the first quote that as many hashes follow. */
  predicate SpellsRaw(t: string, p: string, hashes: nat, body: string) {
    t == p + Repeat('#', hashes) + "\"" + body + RawTerminator(hashes) &&
    forall i :: 0 <= i < |body| ==> !(RawTerminator(hashes) <= (body + RawTerminator(hashes))[i..])
  }

  ghost predicate IsRawString(t: string) {
    exists p, hashes: nat, body :: p in RAW_PREFIXES && SpellsRaw(t, p, hashes, body)
  }

  /** The part of a character escape after its backslash. */
  predicate IsEscape(e: string) {
    if Begins(e, 'u', '{') then e[|e| - 1] == '}' && forall i :: 0 <= i < |e| - 1 ==> e[i] != '}'
    else if e != "" && e[0] == 'x' then |e| == 3
    else |e| == 1
  }

  predicate IsCharLiteral(t: string) {
    |t| >= 3 && t[0] == '\'' && t[|t| - 1] == '\'' &&
    if t[1] == '\\' then IsEscape(t[2..|t| - 1]) else |t| == 3
  }

  ghost predicate Complete(kind: Kind, t: string) {
    match kind
    case BlockComment => IsBlockComment(t)
    case RawString => IsRawString(t)
    case StringLiteral => IsStringLiteral(t)
    case CharLiteral => IsCharLiteral(t)
    case _ => false
  }

  // ---------------------------------------------------------------------------------------------
  // What a segmentation is
  // ---------------------------------------------------------------------------------------------

  predicate Quoted(s: string) { s != "" && s[0] == '"' }

  predicate Ticked(s: string) { s != "" && s[0] == '\'' }

  /** Which comment or literal begins at the front of `s`; `Code` when none does. */
  ghost function Opens(afterIdentifier: bool, s: string): Kind
    requires s != ""
  {
    if Begins(s, '/', '/') then LineComment
    else if OpensComment(s) then BlockComment
    else if !afterIdentifier && (exists hashes: nat :: OpensRaw(s, hashes)) then RawString
    else if Quoted(s) then StringLiteral
    else if exists n :: 0 <= n <= |s| && IsCharLiteral(s[..n]) then CharLiteral
    else Code
  }

  /** Whether the token of this kind at the front of `s` has length `n`: the complete token, or
      everything when no complete token is there. */
  ghost predicate HasLength(kind: Kind, s: string, n: nat) {
    n <= |s| &&
    match kind
    case Code => n == 1
    case LineComment => (forall i :: 0 <= i < n ==> s[i] != '\n') && (n < |s| ==> s[n] == '\n')
    case _ => Complete(kind, s[..n]) || (n == |s| && forall m :: 0 <= m <= |s| ==> !Complete(kind, s[..m]))
  }

  predicate EndsIdentifier(t: string) { t != "" && IsIdentifierChar(t[|t| - 1]) }

  ghost predicate IsSegmentation(segments: seq<Segment>, afterIdentifier: bool, s: string) {
    if segments == [] then s == ""
    else
      var first := segments[0];
      s != "" && first.text != "" && first.text <= s &&
      first.kind == Opens(afterIdentifier, s) && HasLength(first.kind, s, |first.text|) &&
      IsSegmentation(segments[1..], EndsIdentifier(first.text), s[|first.text|..])
  }

  // ---------------------------------------------------------------------------------------------
  // The deterministic lexer
  // ---------------------------------------------------------------------------------------------

  function LineLength(s: string): (n: nat)
    ensures n <= |s| && (forall i :: 0 <= i < n ==> s[i] != '\n') && (n < |s| ==> s[n] == '\n')
  {
    var newline := FindChar(s, '\n');
    if newline.None? then |s| else newline.value
  }

  /** How much of `s` belongs to a block comment that is open `depth` times. */
  function CommentLength(s: string, depth: nat): (n: nat)
    ensures n <= |s|
  {
    if depth == 0 || s == "" then 0
    else if OpensComment(s) then 2 + CommentLength(s[2..], depth + 1)
    else if ClosesComment(s) then 2 + CommentLength(s[2..], depth - 1)
    else 1 + CommentLength(s[1..], depth)
  }

  predicate CommentCloses(s: string, depth: nat) {
    if depth == 0 then true
    else if s == "" then false
    else if OpensComment(s) then CommentCloses(s[2..], depth + 1)
    else if ClosesComment(s) then CommentCloses(s[2..], depth - 1)
    else CommentCloses(s[1..], depth)
  }

  /** How much of `s` belongs to a string literal whose opening quote has been read. */
  function StringLength(s: string): (n: nat)
    ensures n <= |s|
  {
    if s == "" then 0
    else if s[0] == '"' then 1
    else if s[0] == '\\' then if |s| == 1 then 1 else 2 + StringLength(s[2..])
    else 1 + StringLength(s[1..])
  }

  function FindTerminator(s: string, from: nat, hashes: nat): (r: Option<nat>)
    ensures r.Some? ==> from <= r.value && TerminatorAt(s, r.value, hashes)
    ensures forall i :: from <= i && (r.Some? ==> i < r.value) ==> !TerminatorAt(s, i, hashes)
    decreases |s| - from
  {
    if from >= |s| then None
    else if TerminatorAt(s, from, hashes) then Some(from)
    else FindTerminator(s, from + 1, hashes)
  }

  /** A raw string as the lexer recognises it. */
  predicate IsRawToken(t: string) {
    var opener := RawOpener(t);
    opener.Some? &&
    var start := RawPrefixLength(t) + opener.value + 1;
    var last := |t| - (opener.value + 1);
    start <= last && TerminatorAt(t, last, opener.value) &&
    forall i :: start <= i < last ==> !TerminatorAt(t, i, opener.value)
  }

  function RawLength(s: string): (n: nat)
    requires RawOpener(s).Some?
    ensures 0 < n <= |s|
  {
    var hashes := RawOpener(s).value;
    var start := RawPrefixLength(s) + hashes + 1;
    var end := FindTerminator(s, start, hashes);
    if end.None? then |s| else end.value + hashes + 1
  }

  function EscapeLength(s: string): nat {
    if Begins(s, 'u', '{') then
      var closing := FindChar(s, '}');
      if closing.None? then |s| else closing.value + 1
    else if s != "" && s[0] == 'x' then 3
    else 1
  }

  function CharLiteralLength(s: string): (r: Option<nat>)
    requires Ticked(s)
    ensures r.Some? ==> 0 < r.value <= |s|
  {
    if |s| >= 2 && s[1] == '\\' then
      var end := 2 + EscapeLength(s[2..]);
      if end < |s| && s[end] == '\'' then Some(end + 1) else None
    else if |s| >= 3 && s[2] == '\'' then Some(3)
    else None
  }

  function First(afterIdentifier: bool, s: string): (first: Segment)
    requires s != ""
    ensures first.text != "" && first.text <= s
  {
    if Begins(s, '/', '/') then Segment(LineComment, s[..LineLength(s)])
    else if OpensComment(s) then Segment(BlockComment, s[..2 + CommentLength(s[2..], 1)])
    else if !afterIdentifier && RawOpener(s).Some? then Segment(RawString, s[..RawLength(s)])
    else if Quoted(s) then Segment(StringLiteral, s[..1 + StringLength(s[1..])])
    else if Ticked(s) && CharLiteralLength(s).Some? then
      Segment(CharLiteral, s[..CharLiteralLength(s).value])
    else Segment(Code, s[..1])
  }

  function Lex(afterIdentifier: bool, s: string): seq<Segment>
    decreases |s|
  {
    if s == "" then []
    else
      var first := First(afterIdentifier, s);
      [first] + Lex(EndsIdentifier(first.text), s[|first.text|..])
  }

  // ---------------------------------------------------------------------------------------------
  // The lexer finds the only segmentation
  // ---------------------------------------------------------------------------------------------

  /** What follows a body's end marker does not change how the body reads. */
  lemma {:induction false} BodyThenTail(b: Body, after: string, tail: string)
    requires after != ""
    ensures SpellBody(b, after) + tail == SpellBody(b, after + tail)
    ensures Unambiguous(b, after) <==> Unambiguous(b, after + tail)
  {
    match b
    case Empty =>
    case Char(c, rest) =>
      BodyThenTail(rest, after, tail);
      assert ([c] + SpellBody(rest, after)) + tail == [c] + SpellBody(rest, after + tail);
    case Nested(inner, rest) =>
      BodyThenTail(rest, after, tail);
      var close := "*/" + SpellBody(rest, after);
      assert close + tail == "*/" + SpellBody(rest, after + tail);
      BodyThenTail(inner, close, tail);
      assert ("/*" + SpellBody(inner, close)) + tail == "/*" + SpellBody(inner, close + tail);
  }

  lemma {:induction false} ScanPastBody(b: Body, after: string, depth: nat)
    requires depth > 0 && Unambiguous(b, after)
    ensures CommentLength(SpellBody(b, after), depth)
            == |SpellBody(b, after)| - |after| + CommentLength(after, depth)
    ensures CommentCloses(SpellBody(b, after), depth) <==> CommentCloses(after, depth)
  {
    match b
    case Empty =>
    case Char(c, rest) =>
      ScanPastBody(rest, after, depth);
      assert SpellBody(b, after)[1..] == SpellBody(rest, after);
    case Nested(inner, rest) =>
      var close := "*/" + SpellBody(rest, after);
      ScanPastBody(inner, close, depth + 1);
      ScanPastBody(rest, after, depth);
      assert close[2..] == SpellBody(rest, after);
      assert SpellBody(b, after)[2..] == SpellBody(inner, close);
  }

  /** `b` spells what precedes the end marker that `n` characters of `s` lead up to. */
  ghost predicate Spells(b: Body, s: string, n: nat) {
    n + 2 <= |s| && s == SpellBody(b, s[n..]) && ClosesComment(s[n..]) && Unambiguous(b, s[n..])
  }

  lemma SpellsNested(s: string, inner: Body, m: nat, rest: Body, k: nat)
    requires OpensComment(s) && Spells(inner, s[2..], m) && Spells(rest, s[m + 4..], k)
    ensures Spells(Nested(inner, rest), s, m + 4 + k)
  {
    NestedSlices(s, m, k);
    NestedText(s, inner, s[2..][m..], rest, s[m + 4..], s[m + 4..][k..]);
  }

  lemma NestedSlices(s: string, m: nat, k: nat)
    requires OpensComment(s) && m + 4 + k <= |s| && ClosesComment(s[2..][m..])
    ensures s == "/*" + s[2..] && s[2..][m..] == "*/" + s[m + 4..] && s[m + 4..][k..] == s[m + 4 + k..]
  {
  }

  lemma NestedText(s: string, inner: Body, close: string, rest: Body, tail: string, after: string)
    requires s == "/*" + SpellBody(inner, close) && close == "*/" + tail && tail == SpellBody(rest, after)
    requires Unambiguous(inner, close) && Unambiguous(rest, after)
    ensures s == SpellBody(Nested(inner, rest), after) && Unambiguous(Nested(inner, rest), after)
  {
  }

  lemma SpellsChar(s: string, rest: Body, k: nat)
    requires s != "" && !StartsMarker(s) && Spells(rest, s[1..], k)
    ensures Spells(Char(s[0], rest), s, k + 1)
  {
    assert s[k + 1..] == s[1..][k..];
    assert s == [s[0]] + s[1..];
  }

  /** The scanner, open `depth` times, comes down one level at the marker a body leads up to. */
  lemma ComesDown(b: Body, s: string, n: nat, depth: nat)
    requires depth > 0 && Spells(b, s, n)
    ensures CommentLength(s, depth) == n + 2 + CommentLength(s[n + 2..], depth - 1)
    ensures CommentCloses(s, depth) <==> CommentCloses(s[n + 2..], depth - 1)
  {
    ScanPastBody(b, s[n..], depth);
    assert s[n..][2..] == s[n + 2..];
  }

  /** Splits what closes one level of nesting into a body and the marker after it. */
  lemma {:induction false} BodyOf(s: string, depth: nat) returns (b: Body, n: nat)
    requires depth > 0 && CommentCloses(s, depth)
    ensures Spells(b, s, n)
    decreases |s|, 1
  {
    if OpensComment(s) {
      b, n := NestedBodyOf(s, depth);
      return;
    } else if ClosesComment(s) {
      b, n := Empty, 0;
      assert s[0..] == s;
      return;
    } else {
      var rest, k := BodyOf(s[1..], depth);
      b, n := Char(s[0], rest), k + 1;
      SpellsChar(s, rest, k);
    }
  }

  lemma {:induction false} NestedBodyOf(s: string, depth: nat) returns (b: Body, n: nat)
    requires depth > 0 && OpensComment(s) && CommentCloses(s[2..], depth + 1)
    ensures Spells(b, s, n)
    decreases |s|, 0
  {
    hide CommentLength, CommentCloses, SpellBody, Unambiguous;
    var inner, m := BodyOf(s[2..], depth + 1);
    ComesDown(inner, s[2..], m, depth + 1);
    assert s[2..][m + 2..] == s[m + 4..];
    var rest, k := BodyOf(s[m + 4..], depth);
    b, n := Nested(inner, rest), m + 4 + k;
    SpellsNested(s, inner, m, rest, k);
  }

  lemma {:induction false} UnclosedComment(s: string, depth: nat)
    requires !CommentCloses(s, depth)
    ensures CommentLength(s, depth) == |s|
  {
    if s == "" {
    } else if OpensComment(s) {
      UnclosedComment(s[2..], depth + 1);
    } else if ClosesComment(s) {
      UnclosedComment(s[2..], depth - 1);
    } else {
      UnclosedComment(s[1..], depth);
    }
  }

  lemma BlockCommentPrefix(s: string, n: nat)
    requires n <= |s| && IsBlockComment(s[..n])
    ensures OpensComment(s) && n == 2 + CommentLength(s[2..], 1)
  {
    hide CommentLength, Unambiguous;
    var b: Body :| Unambiguous(b, "*/") && s[..n] == "/*" + SpellBody(b, "*/");
    var tail := s[n..];
    BodyThenTail(b, "*/", tail);
    assert s[2..] == s[..n][2..] + tail;
    assert s[..n][2..] == SpellBody(b, "*/");
    assert s[2..] == SpellBody(b, "*/" + tail);
    ScanPastBody(b, "*/" + tail, 1);
    MarkerLength(tail);
  }

  lemma MarkerLength(tail: string)
    ensures CommentLength("*/" + tail, 1) == 2
  {
    assert ("*/" + tail)[2..] == tail;
  }

  lemma BlockCommentFound(s: string)
    requires OpensComment(s)
    ensures var n := 2 + CommentLength(s[2..], 1); IsBlockComment(s[..n]) || n == |s|
  {
    if CommentCloses(s[2..], 1) {
      BlockCommentClosed(s);
    } else {
      UnclosedComment(s[2..], 1);
    }
  }

  lemma BlockCommentClosed(s: string)
    requires OpensComment(s) && CommentCloses(s[2..], 1)
    ensures IsBlockComment(s[..2 + CommentLength(s[2..], 1)])
  {
    hide CommentCloses;
      var b, k := BodyOf(s[2..], 1);
      var tail := s[k + 4..];
      ComesDown(b, s[2..], k, 1);
      assert s[2..][k..] == "*/" + tail;
      BodyThenTail(b, "*/", tail);
      assert SpellBody(b, "*/") == s[2..][..k + 2];
      assert s[..k + 4] == "/*" + SpellBody(b, "*/");
  }

  lemma {:induction false} ScanPastPieces(ps: seq<Piece>, after: string)
    requires forall p :: p in ps ==> PieceOk(p)
    requires Quoted(after)
    ensures StringLength(SpellPieces(ps) + after) == |SpellPieces(ps)| + 1
  {
    hide StringLength;
    if ps == [] {
      assert "" + after == after;
      QuoteEnds(after);
    } else {
      ScanPastPieces(ps[1..], after);
      assert PieceOk(ps[0]);
      ScanPastPiece(ps[0], SpellPieces(ps[1..]), after);
    }
  }

  lemma QuoteEnds(s: string)
    requires Quoted(s)
    ensures StringLength(s) == 1
  {
  }

  lemma ScanPastPiece(p: Piece, rest: string, after: string)
    requires PieceOk(p)
    ensures var head := if p.Plain? then [p.c] else ['\\', p.c];
            StringLength(head + rest + after) == |head| + StringLength(rest + after)
  {
    var s := (if p.Plain? then [p.c] else ['\\', p.c]) + rest + after;
    if p.Plain? {
      assert s[1..] == rest + after;
    } else {
      assert s[2..] == rest + after;
    }
  }

  lemma {:induction false} PiecesOf(s: string) returns (ps: seq<Piece>)
    ensures StringLength(s) == |s| ||
            ((forall p :: p in ps ==> PieceOk(p)) && s[..StringLength(s)] == SpellPieces(ps) + "\"")
  {
    ps := [];
    if s != "" && s[0] != '"' {
      var first := if s[0] == '\\' && |s| > 1 then Escaped(s[1]) else Plain(s[0]);
      var width := if first.Plain? then 1 else 2;
      var rest := PiecesOf(s[width..]);
      ps := [first] + rest;
      assert ps[1..] == rest;
      if StringLength(s) < |s| {
        assert StringLength(s) == width + StringLength(s[width..]);
        assert s[..StringLength(s)] == s[..width] + s[width..][..StringLength(s[width..])];
      }
    }
  }

  lemma StringPrefix(s: string, n: nat)
    requires n <= |s| && IsStringLiteral(s[..n])
    ensures Quoted(s) && n == 1 + StringLength(s[1..])
  {
    var ps: seq<Piece> :|
      (forall p :: p in ps ==> PieceOk(p)) && s[..n] == "\"" + SpellPieces(ps) + "\"";
    var after := "\"" + s[n..];
    assert s == s[..n] + s[n..];
    assert s[1..] == SpellPieces(ps) + after;
    ScanPastPieces(ps, after);
  }

  lemma StringFound(s: string)
    requires Quoted(s)
    ensures var n := 1 + StringLength(s[1..]); IsStringLiteral(s[..n]) || n == |s|
  {
    var ps := PiecesOf(s[1..]);
    var n := StringLength(s[1..]);
    if n < |s| - 1 {
      assert s[..1 + n] == "\"" + SpellPieces(ps) + "\"" by {
        assert s[..1 + n] == [s[0]] + s[1..][..n];
      }
    }
  }

  /** An opener is recognised by looking no further than its quote. */
  lemma OpenerIsLocal(s: string, n: nat)
    requires n <= |s|
    ensures RawOpener(s[..n]).Some? ==>
              RawOpener(s) == RawOpener(s[..n]) && RawPrefixLength(s) == RawPrefixLength(s[..n])
    ensures RawOpener(s).Some? && RawPrefixLength(s) + RawOpener(s).value + 1 <= n ==>
              RawOpener(s[..n]) == RawOpener(s) && RawPrefixLength(s[..n]) == RawPrefixLength(s)
  {
    var prefix := RawPrefixLength(s);
    HashesAreLocal(s[prefix..], s[..n][if prefix <= n then prefix else n..]);
    if RawOpener(s[..n]).Some? {
      assert RawPrefixLength(s[..n]) == prefix;
    }
  }

  lemma {:induction false} HashesAreLocal(s: string, t: string)
    requires t <= s
    ensures Hashes(t) == if Hashes(s) <= |t| then Hashes(s) else |t|
  {
    if t != "" && t[0] == '#' {
      HashesAreLocal(s[1..], t[1..]);
    }
  }

  lemma TerminatorIsLocal(s: string, n: nat, hashes: nat)
    requires n <= |s|
    ensures forall i: nat ::
              TerminatorAt(s[..n], i, hashes) <==> TerminatorAt(s, i, hashes) && i + hashes + 1 <= n
  {
    var t := s[..n];
    assert forall j :: 0 <= j < n ==> t[j] == s[j];
  }

  lemma RawTokenPrefix(s: string, n: nat)
    requires n <= |s| && IsRawToken(s[..n])
    ensures RawOpener(s).Some? && n == RawLength(s)
  {
    OpenerIsLocal(s, n);
    TerminatorIsLocal(s, n, RawOpener(s).value);
  }

  lemma RawTokenFound(s: string)
    requires RawOpener(s).Some?
    ensures IsRawToken(s[..RawLength(s)]) || RawLength(s) == |s|
  {
    var n := RawLength(s);
    OpenerIsLocal(s, n);
    TerminatorIsLocal(s, n, RawOpener(s).value);
  }

  lemma {:induction false} HashRun(s: string, n: nat, tail: string)
    requires s == Repeat('#', n) + tail && (tail == "" || tail[0] != '#')
    ensures Hashes(s) == n && s[n..] == tail
  {
    if n == 0 {
      assert s == tail;
    } else {
      assert s[0] == '#' && s[1..] == Repeat('#', n - 1) + tail;
      HashRun(s[1..], n - 1, tail);
      assert s[n..] == s[1..][n - 1..];
    }
  }

  lemma RawOpenerRead(s: string, p: string, n: nat)
    requires p in RAW_PREFIXES && p + Repeat('#', n) + "\"" <= s
    ensures RawPrefixLength(s) == |p| && RawOpener(s) == Some(n)
  {
    var opener := p + Repeat('#', n) + "\"";
    var tail := s[|p| + n..];
    assert s[..|opener|] == opener;
    assert s[|p| + n] == opener[|p| + n] == '"';
    forall i | 0 <= i < |p| ensures s[i] == p[i] { assert opener[i] == p[i]; }
    assert s[|p|..] == Repeat('#', n) + tail by {
      forall i | |p| <= i < |p| + n ensures s[i] == '#' { assert opener[i] == Repeat('#', n)[i - |p|]; }
    }
    HashRun(s[|p|..], n, tail);
  }

  /** The lexer recognises exactly the raw openers: one of the prefixes, hashes and a quote. */
  lemma RawOpenerIsExact(s: string, n: nat)
    ensures RawOpener(s) == Some(n) <==> OpensRaw(s, n)
  {
    if RawOpener(s) == Some(n) {
      var prefix := RawPrefixLength(s);
      var p := s[..prefix];
      assert p == (if prefix == 1 then "r" else if s[0] == 'b' then "br" else "cr");
      assert s[prefix..][n..] == s[prefix + n..];
      var opener := p + Repeat('#', n) + "\"";
      forall i | 0 <= i < |opener| ensures opener[i] == s[i] {
        if prefix <= i < prefix + n { assert s[i] == s[prefix..][i - prefix]; }
      }
      assert opener <= s;
    }
    if OpensRaw(s, n) {
      var p :| p in RAW_PREFIXES && p + Repeat('#', n) + "\"" <= s;
      RawOpenerRead(s, p, n);
    }
  }

  lemma TerminatorIsText(s: string, i: nat, hashes: nat)
    requires i <= |s|
    ensures TerminatorAt(s, i, hashes) <==> RawTerminator(hashes) <= s[i..]
  {
    var t := RawTerminator(hashes);
    if t <= s[i..] {
      assert forall j :: 0 <= j < |t| ==> s[i..][j] == t[j];
      forall j | i < j <= i + hashes ensures s[j] == '#' { assert s[i..][j - i] == t[j - i]; }
    }
    if TerminatorAt(s, i, hashes) {
      forall j | 0 <= j < |t| ensures s[i..][j] == t[j] { assert s[i..][j] == s[i + j]; }
    }
  }

  /** What the lexer recognises is the grammar's raw string. */
  lemma RawTokenIsExact(t: string)
    ensures IsRawToken(t) <==> IsRawString(t)
  {
    hide TerminatorAt, Hashes;
    if IsRawToken(t) { RawTokenSpells(t); }
    if IsRawString(t) {
      var p, hashes: nat, body :| p in RAW_PREFIXES && SpellsRaw(t, p, hashes, body);
      SpelledIsToken(t, p, hashes, body);
    }
  }

  lemma RawTokenSpells(t: string)
    requires IsRawToken(t)
    ensures IsRawString(t)
  {
    hide TerminatorAt, Hashes, RawOpener, RawPrefixLength;
    var hashes := RawOpener(t).value;
    RawOpenerIsExact(t, hashes);
    var p :| p in RAW_PREFIXES && p + Repeat('#', hashes) + "\"" <= t;
    RawOpenerRead(t, p, hashes);
    var start, last := |p| + hashes + 1, |t| - (hashes + 1);
    var opener, body, terminator := p + Repeat('#', hashes) + "\"", t[start..last], RawTerminator(hashes);
    TerminatorIsText(t, last, hashes);
    assert t[last..] == terminator;
    assert t[..start] == opener;
    assert t == opener + body + terminator;
    assert t[start..] == body + terminator;
    forall i | 0 <= i < |body|
      ensures !(terminator <= (body + terminator)[i..])
    {
      TerminatorIsText(t, start + i, hashes);
      assert t[start..][i..] == t[start + i..];
    }
    assert SpellsRaw(t, p, hashes, body);
  }

  lemma SpelledIsToken(t: string, p: string, hashes: nat, body: string)
    requires p in RAW_PREFIXES && SpellsRaw(t, p, hashes, body)
    ensures IsRawToken(t)
  {
    hide TerminatorAt, Hashes, RawOpener, RawPrefixLength;
    var opener, terminator := p + Repeat('#', hashes) + "\"", RawTerminator(hashes);
    assert t == opener + (body + terminator);
    assert opener <= t;
    RawOpenerRead(t, p, hashes);
    var start, last := |opener|, |t| - (hashes + 1);
    assert t[start..] == body + terminator;
    assert t[last..] == terminator;
    TerminatorIsText(t, last, hashes);
    forall i | start <= i < last
      ensures !TerminatorAt(t, i, hashes)
    {
      TerminatorIsText(t, i, hashes);
      assert t[i..] == (body + terminator)[i - start..];
    }
  }

  lemma RawPrefix(s: string, n: nat)
    requires n <= |s| && IsRawString(s[..n])
    ensures RawOpener(s).Some? && n == RawLength(s)
  {
    RawTokenIsExact(s[..n]);
    RawTokenPrefix(s, n);
  }

  lemma RawFound(s: string)
    requires RawOpener(s).Some?
    ensures IsRawString(s[..RawLength(s)]) || RawLength(s) == |s|
  {
    RawTokenFound(s);
    RawTokenIsExact(s[..RawLength(s)]);
  }

  lemma EscapeIsLocal(s: string, n: nat)
    requires n < |s| && s[n] == '\'' && IsEscape(s[..n])
    ensures EscapeLength(s) == n
  {
    var e := s[..n];
    assert forall i :: 0 <= i < n ==> s[i] == e[i];
  }

  lemma EscapeFound(s: string)
    requires EscapeLength(s) < |s|
    ensures IsEscape(s[..EscapeLength(s)])
  {
    var e := s[..EscapeLength(s)];
    assert forall i :: 0 <= i < |e| ==> s[i] == e[i];
  }

  lemma CharPrefix(s: string, n: nat)
    requires n <= |s| && IsCharLiteral(s[..n])
    ensures Ticked(s) && CharLiteralLength(s) == Some(n)
  {
    var t := s[..n];
    if t[1] == '\\' {
      assert t[2..n - 1] == s[2..][..n - 3];
      EscapeIsLocal(s[2..], n - 3);
    }
  }

  lemma CharFound(s: string)
    requires Ticked(s) && CharLiteralLength(s).Some?
    ensures IsCharLiteral(s[..CharLiteralLength(s).value])
  {
    var n := CharLiteralLength(s).value;
    if s[1] == '\\' {
      EscapeFound(s[2..]);
      assert s[..n][2..n - 1] == s[2..][..n - 3];
    }
  }

  lemma FirstKindIsExact(afterIdentifier: bool, s: string)
    requires s != ""
    ensures First(afterIdentifier, s).kind == Opens(afterIdentifier, s)
  {
    hide RawOpener, OpensRaw;
    if RawOpener(s).Some? { RawOpenerIsExact(s, RawOpener(s).value); }
    if hashes: nat :| OpensRaw(s, hashes) { RawOpenerIsExact(s, hashes); }
    if n :| 0 <= n <= |s| && IsCharLiteral(s[..n]) {
      CharPrefix(s, n);
    }
    if Ticked(s) && CharLiteralLength(s).Some? {
      CharFound(s);
    }
  }

  /** The first token the lexer takes is the one the grammar allows, and the only one. */
  lemma FirstIsExact(afterIdentifier: bool, s: string, n: nat)
    requires s != "" && n <= |s|
    ensures HasLength(First(afterIdentifier, s).kind, s, n) <==> n == |First(afterIdentifier, s).text|
  {
    var first := First(afterIdentifier, s);
    if !first.kind.Code? && !first.kind.LineComment? {
      CompleteIsFirst(afterIdentifier, s, |first.text|);
      assert first.text == s[..|first.text|];
      forall m | 0 <= m <= |s| && Complete(first.kind, s[..m])
        ensures m == |first.text|
      {
        CompleteIsFirst(afterIdentifier, s, m);
      }
    }
  }

  lemma CompleteIsFirst(afterIdentifier: bool, s: string, n: nat)
    requires s != "" && n <= |s|
    ensures var first := First(afterIdentifier, s);
            !first.kind.Code? && !first.kind.LineComment? ==>
              (Complete(first.kind, s[..n]) ==> n == |first.text|) &&
              (Complete(first.kind, first.text) || |first.text| == |s|)
  {
    var first := First(afterIdentifier, s);
    match first.kind
    case Code =>
    case LineComment =>
    case BlockComment =>
      BlockCommentFound(s);
      if IsBlockComment(s[..n]) { BlockCommentPrefix(s, n); }
    case RawString =>
      RawFound(s);
      if IsRawString(s[..n]) { RawPrefix(s, n); }
    case StringLiteral =>
      StringFound(s);
      if IsStringLiteral(s[..n]) { StringPrefix(s, n); }
    case CharLiteral =>
      CharFound(s);
      if IsCharLiteral(s[..n]) { CharPrefix(s, n); }
  }

  /** `Lex` is the one and only way to cut a source into code, comments and literals. */
  lemma {:induction false} LexIsTheOnlySegmentation(segments: seq<Segment>, afterIdentifier: bool, s: string)
    ensures IsSegmentation(segments, afterIdentifier, s) <==> segments == Lex(afterIdentifier, s)
    decreases |s|, |segments|
  {
    if s != "" && segments != [] {
      var first := First(afterIdentifier, s);
      var given := segments[0];
      FirstKindIsExact(afterIdentifier, s);
      FirstIsExact(afterIdentifier, s, |first.text|);
      if given.text <= s {
        FirstIsExact(afterIdentifier, s, |given.text|);
        assert given.text == s[..|given.text|] && first.text == s[..|first.text|];
      }
      assert segments == [given] + segments[1..];
      if given == first {
        LexIsTheOnlySegmentation(segments[1..], EndsIdentifier(first.text), s[|first.text|..]);
      }
    }
  }

  // ---------------------------------------------------------------------------------------------
  // Rendering
  // ---------------------------------------------------------------------------------------------

  function Blanked(t: string): (r: string)
    ensures |r| == |t| && forall i :: 0 <= i < |t| ==> r[i] == if t[i] == '\n' then '\n' else ' '
  {
    seq(|t|, i requires 0 <= i < |t| => if t[i] == '\n' then '\n' else ' ')
  }

  function RenderFirst(first: Segment): string {
    if first.kind.Code? then first.text else Blanked(first.text)
  }

  function Render(segments: seq<Segment>): string {
    if segments == [] then "" else RenderFirst(segments[0]) + Render(segments[1..])
  }

  lemma RenderStep(afterIdentifier: bool, s: string)
    requires s != ""
    ensures var first := First(afterIdentifier, s);
            Render(Lex(afterIdentifier, s))
            == RenderFirst(first) + Render(Lex(EndsIdentifier(first.text), s[|first.text|..]))
  {
    var first := First(afterIdentifier, s);
    assert Lex(afterIdentifier, s)[1..] == Lex(EndsIdentifier(first.text), s[|first.text|..]);
  }

  /** The masked source. */
  function Masked(source: string): string { Render(Lex(false, source)) }

  /** `m` is `s` with some characters turned to spaces and every newline kept. */
  predicate SameShape(m: string, s: string) {
    |m| == |s| && forall i :: 0 <= i < |s| ==> (m[i] == '\n' <==> s[i] == '\n') && (m[i] == s[i] || m[i] == ' ')
  }

  lemma SameShapeJoined(m: string, s: string, m': string, s': string)
    requires SameShape(m, s) && SameShape(m', s')
    ensures SameShape(m + m', s + s')
  {
  }

  /** Masking moves nothing: every character stays or becomes a space, and newlines all stay. */
  lemma {:induction false} MaskingKeepsOffsets(afterIdentifier: bool, s: string)
    ensures SameShape(Render(Lex(afterIdentifier, s)), s)
    decreases |s|
  {
    if s != "" {
      var first := First(afterIdentifier, s);
      var rest := s[|first.text|..];
      MaskingKeepsOffsets(EndsIdentifier(first.text), rest);
      RenderStep(afterIdentifier, s);
      assert s == first.text + rest;
      SameShapeJoined(RenderFirst(first), first.text, Render(Lex(EndsIdentifier(first.text), rest)), rest);
    }
  }

  /** No quote, and no slash that a slash or a star follows. */
  predicate HasNoOpeners(m: string) {
    forall i :: 0 <= i < |m| ==>
      m[i] != '"' && (m[i] == '/' && i + 1 < |m| ==> m[i + 1] != '/' && m[i + 1] != '*')
  }

  lemma JoinedWithoutOpeners(head: string, tail: string)
    requires HasNoOpeners(head) && HasNoOpeners(tail)
    requires head != "" && tail != "" && head[|head| - 1] == '/' ==> tail[0] != '/' && tail[0] != '*'
    ensures HasNoOpeners(head + tail)
  {
    var m := head + tail;
    forall i | 0 <= i < |m|
      ensures m[i] != '"' && (m[i] == '/' && i + 1 < |m| ==> m[i + 1] != '/' && m[i + 1] != '*')
    {
      assert i >= |head| ==> m[i] == tail[i - |head|];
    }
  }

  lemma FirstHasNoOpeners(afterIdentifier: bool, s: string, tail: string)
    requires s != "" && SameShape(tail, s[|First(afterIdentifier, s).text|..])
    ensures var head := RenderFirst(First(afterIdentifier, s));
            HasNoOpeners(head) && head != "" &&
            (tail != "" && head[|head| - 1] == '/' ==> tail[0] != '/' && tail[0] != '*')
  {
    var first := First(afterIdentifier, s);
    if first.kind.Code? {
      assert first.text == s[..1];
      assert tail != "" ==> tail[0] == s[1] || tail[0] == ' ';
    }
  }

  /** No comment or string opener survives masking. */
  lemma {:induction false} MaskedHasNoOpeners(afterIdentifier: bool, s: string)
    ensures HasNoOpeners(Render(Lex(afterIdentifier, s)))
    decreases |s|
  {
    if s != "" {
      var first := First(afterIdentifier, s);
      var after, rest := EndsIdentifier(first.text), s[|first.text|..];
      MaskedHasNoOpeners(after, rest);
      MaskingKeepsOffsets(after, rest);
      RenderStep(afterIdentifier, s);
      FirstHasNoOpeners(afterIdentifier, s, Render(Lex(after, rest)));
      JoinedWithoutOpeners(RenderFirst(first), Render(Lex(after, rest)));
    }
  }

  /** What masking promises of a whole source: every offset and line stays, and no opener is left. */
  lemma MaskedSource(source: string)
    ensures |Masked(source)| == |source| && SameShape(Masked(source), source) && HasNoOpeners(Masked(source))
  {
    hide SameShape, HasNoOpeners, Render, Lex;
    MaskingKeepsOffsets(false, source);
    MaskedHasNoOpeners(false, source);
    SameShapeSameLength(Masked(source), source);
  }

  lemma SameShapeSameLength(m: string, s: string)
    requires SameShape(m, s)
    ensures |m| == |s|
  {
  }

  // ---------------------------------------------------------------------------------------------
  // The script's loops
  // ---------------------------------------------------------------------------------------------

  function BlankedBetween(cs: string, start: nat, end: nat): string
    requires start <= end <= |cs|
  {
    cs[..start] + Blanked(cs[start..end]) + cs[end..]
  }

  method Blank(characters: array<char>, start: nat, end: nat)
    requires start <= end <= characters.Length
    modifies characters
    ensures characters[..] == BlankedBetween(old(characters[..]), start, end)
  {
    for index := start to end
      invariant forall i :: 0 <= i < start || index <= i < characters.Length ==> characters[i] == old(characters[i])
      invariant forall i :: start <= i < index ==>
                  characters[i] == if old(characters[i]) == '\n' then '\n' else ' '
    {
      if characters[index] != '\n' {
        characters[index] := ' ';
      }
    }
    BlankedPointwise(old(characters[..]), start, end, characters[..]);
  }

  lemma BlankedPointwise(before: string, start: nat, end: nat, after: string)
    requires start <= end <= |before| == |after|
    requires forall i :: 0 <= i < |before| ==>
               after[i] == if start <= i < end then (if before[i] == '\n' then '\n' else ' ') else before[i]
    ensures after == BlankedBetween(before, start, end)
  {
    var cs := BlankedBetween(before, start, end);
    assert |cs| == |after|;
    forall i | 0 <= i < |cs|
      ensures cs[i] == after[i]
    {
      assert start <= i < end ==> cs[i] == Blanked(before[start..end])[i - start];
    }
  }

  method EndOfLineComment(source: string, start: nat) returns (end: nat)
    requires start <= |source|
    ensures end == start + LineLength(source[start..])
  {
    var newline := FindChar(source[start..], '\n');
    end := if newline.None? then |source| else start + newline.value;
  }

  method EndOfBlockComment(source: string, start: nat) returns (end: nat)
    requires start <= |source| && OpensComment(source[start..])
    ensures end == start + 2 + CommentLength(source[start + 2..], 1)
  {
    var depth := 1;
    end := start + 2;
    while end < |source| && depth > 0
      invariant start + 2 <= end <= |source| && depth >= 0
      invariant start + 2 + CommentLength(source[start + 2..], 1) == end + CommentLength(source[end..], depth)
    {
      assert source[end..][1..] == source[end + 1..];
      if OpensComment(source[end..]) {
        assert source[end..][2..] == source[end + 2..];
        depth := depth + 1;
        end := end + 2;
      } else if ClosesComment(source[end..]) {
        assert source[end..][2..] == source[end + 2..];
        depth := depth - 1;
        end := end + 2;
      } else {
        end := end + 1;
      }
    }
  }

  method EndOfString(source: string, start: nat) returns (end: nat)
    requires start < |source|
    ensures end == start + 1 + StringLength(source[start + 1..])
  {
    var position := start + 1;
    while position < |source|
      invariant start + 1 <= position <= |source| + 1
      invariant position <= |source| ==>
                  start + 1 + StringLength(source[start + 1..]) == position + StringLength(source[position..])
      invariant position > |source| ==> start + 1 + StringLength(source[start + 1..]) == |source|
    {
      assert source[position..][1..] == source[position + 1..];
      if source[position] == '\\' {
        if position + 2 <= |source| {
          assert source[position..][2..] == source[position + 2..];
        }
        position := position + 2;
        continue;
      }
      if source[position] == '"' {
        return position + 1;
      }
      position := position + 1;
    }
    return |source|;
  }

  predicate AfterIdentifier(source: string, position: nat)
    requires position <= |source|
  {
    EndsIdentifier(source[..position])
  }

  /** Where the token at `position` ends, and whether it is a comment or literal. */
  method EndOfToken(source: string, position: nat) returns (end: nat, literal: bool)
    requires position < |source|
    ensures position < end <= |source|
    ensures var first := First(AfterIdentifier(source, position), source[position..]);
            end == position + |first.text| && literal == !first.kind.Code?
  {
    var character, rest := source[position], source[position..];
    end, literal := position + 1, true;
    if character == '/' && Begins(rest, '/', '/') {
      end := EndOfLineComment(source, position);
    } else if character == '/' && OpensComment(rest) {
      end := EndOfBlockComment(source, position);
      assert source[position + 2..] == rest[2..];
    } else if character in {'r', 'b', 'c'} && !AfterIdentifier(source, position) && RawOpener(rest).Some? {
      end := position + RawLength(rest);
    } else if character == '"' {
      end := EndOfString(source, position);
      assert source[position + 1..] == rest[1..];
    } else if character == '\'' && CharLiteralLength(rest).Some? {
      end := position + CharLiteralLength(rest).value;
    } else {
      literal := false;
    }
  }

  /** The characters before `position` are final and the others untouched. */
  ghost predicate MaskedUpTo(cs: string, source: string, position: nat) {
    position <= |source| && |cs| == |source| && cs[position..] == source[position..] &&
    Masked(source) == cs[..position] + Render(Lex(AfterIdentifier(source, position), source[position..]))
  }

  /** The script's loop: it overwrites a copy of the source in place and ends with the rendering of
      the only segmentation of the source. */
  method MaskNonCode(source: string) returns (masked: string)
    ensures masked == Masked(source)
  {
    hide First, Lex, Render, BlankedBetween, MaskedUpTo;
    var characters := new char[|source|](i requires 0 <= i < |source| => source[i]);
    var position := 0;
    assert characters[..] == source;
    MaskStarted(source);
    while position < |source|
      invariant 0 <= position <= |source| && fresh(characters) && characters.Length == |source|
      invariant MaskedUpTo(characters[..], source, position)
    {
      ghost var before := characters[..];
      var end, literal := EndOfToken(source, position);
      if literal {
        Blank(characters, position, end);
      }
      MaskStep(before, source, position, end);
      position := end;
    }
    masked := characters[..];
    MaskFinished(masked, source);
  }

  lemma MaskStarted(source: string)
    ensures MaskedUpTo(source, source, 0)
  {
    assert source[0..] == source;
  }

  lemma MaskFinished(cs: string, source: string)
    requires MaskedUpTo(cs, source, |source|)
    ensures cs == Masked(source)
  {
    assert source[|source|..] == "";
    assert cs[..|source|] == cs;
  }

  lemma MaskStep(cs: string, source: string, position: nat, end: nat)
    requires position < end <= |source| && MaskedUpTo(cs, source, position)
    requires end == position + |First(AfterIdentifier(source, position), source[position..]).text|
    ensures var first := First(AfterIdentifier(source, position), source[position..]);
            MaskedUpTo(if first.kind.Code? then cs else BlankedBetween(cs, position, end), source, end)
  {
    hide First, Lex, Render;
    var first := First(AfterIdentifier(source, position), source[position..]);
    TokenStep(source, position, end);
    Splice(cs, source, position, end, RenderFirst(first), Render(Lex(AfterIdentifier(source, end), source[end..])));
  }

  lemma Splice(cs: string, source: string, position: nat, end: nat, shown: string, rest: string)
    requires position <= end <= |source| == |cs| && cs[position..] == source[position..]
    requires |shown| == end - position
    ensures var next := cs[..position] + shown + cs[end..];
            |next| == |source| && next[end..] == source[end..] &&
            next[..end] + rest == cs[..position] + (shown + rest)
    ensures shown == source[position..end] ==> cs[..position] + shown + cs[end..] == cs
    ensures cs[position..end] == source[position..end]
  {
    assert cs[end..] == cs[position..][end - position..];
    assert source[end..] == source[position..][end - position..];
    assert cs[position..end] == cs[position..][..end - position];
    assert source[position..end] == source[position..][..end - position];
    assert (cs[..position] + shown + cs[end..])[..end] == cs[..position] + shown;
  }

  lemma TokenStep(source: string, position: nat, end: nat)
    requires position < end <= |source|
    requires end == position + |First(AfterIdentifier(source, position), source[position..]).text|
    ensures var first := First(AfterIdentifier(source, position), source[position..]);
            first.text == source[position..end] &&
            Render(Lex(AfterIdentifier(source, position), source[position..]))
            == RenderFirst(first) + Render(Lex(AfterIdentifier(source, end), source[end..]))
  {
    hide First, Lex, Render, RenderFirst;
    var rest := source[position..];
    var first := First(AfterIdentifier(source, position), rest);
    assert first.text == rest[..|first.text|] == source[position..end];
    RenderStep(AfterIdentifier(source, position), rest);
    assert rest[|first.text|..] == source[end..];
    assert source[end - 1] == first.text[|first.text| - 1];
  }
}
