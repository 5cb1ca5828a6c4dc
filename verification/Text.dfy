/** Strings as both the Python script and the Rust driver see them: sequences of characters, with
    the few library operations the models rely on. */
module Text {

  datatype Option<+T> = None | Some(value: T)

  datatype Result<+T, +E> = Ok(value: T) | Err(error: E)

  function Repeat(c: char, n: nat): (r: string)
    ensures |r| == n && forall i :: 0 <= i < n ==> r[i] == c
  {
    seq(n, _ => c)
  }

  /** The first position at or after which `pattern` occurs, as `str.find` reports it. */
  function Find(s: string, pattern: string): (r: Option<nat>)
    ensures r.Some? ==> r.value + |pattern| <= |s| && pattern <= s[r.value..]
    ensures r.Some? ==> forall i :: 0 <= i < r.value ==> !(pattern <= s[i..])
    ensures r.None? ==> forall i :: 0 <= i <= |s| ==> !(pattern <= s[i..])
  {
    if pattern <= s then Some(0)
    else if s == "" then None
    else
      var later := Find(s[1..], pattern);
      assert forall i :: 0 < i <= |s| ==> s[i..] == s[1..][i - 1..];
      if later.Some? then Some(later.value + 1) else None
  }

  /** The first position of `c`, as `str.find` on a one-character pattern reports it. */
  function FindChar(s: string, c: char): (r: Option<nat>)
    ensures r.Some? ==> r.value < |s| && s[r.value] == c && forall i :: 0 <= i < r.value ==> s[i] != c
    ensures r.None? ==> forall i :: 0 <= i < |s| ==> s[i] != c
  {
    if s == "" then None
    else if s[0] == c then Some(0)
    else
      var later := FindChar(s[1..], c);
      if later.Some? then Some(later.value + 1) else None
  }

  /** The parts between occurrences of `separator`, as `split` on one character gives them. */
  function SplitOn(s: string, separator: char): (parts: seq<string>)
    ensures parts != []
  {
    var at := FindChar(s, separator);
    if at.None? then [s] else [s[..at.value]] + SplitOn(s[at.value + 1..], separator)
  }

  lemma SplitWhole(s: string, separator: char)
    requires separator !in s
    ensures SplitOn(s, separator) == [s]
  {
  }

  lemma SplitFirst(head: string, separator: char, rest: string)
    requires separator !in head
    ensures SplitOn(head + [separator] + rest, separator) == [head] + SplitOn(rest, separator)
  {
    var s := head + [separator] + rest;
    FoundAfter(head, separator, rest);
    assert s[..|head|] == head && s[|head| + 1..] == rest;
  }

  lemma FoundAfter(head: string, c: char, rest: string)
    requires c !in head
    ensures FindChar(head + [c] + rest, c) == Some(|head|)
  {
    var s := head + [c] + rest;
    assert s[|head|] == c;
    assert forall i :: 0 <= i < |head| ==> s[i] == head[i] && head[i] in head;
  }

  /** The last position of `c`, as `rfind` reports it. */
  function FindLast(s: string, c: char): (r: Option<nat>)
    ensures r.Some? ==> r.value < |s| && s[r.value] == c && c !in s[r.value + 1..]
    ensures r.None? ==> c !in s
  {
    if s == "" then None
    else if s[|s| - 1] == c then Some(|s| - 1)
    else
      var r := FindLast(s[..|s| - 1], c);
      assert s == s[..|s| - 1] + [s[|s| - 1]];
      assert r.Some? ==> s[r.value + 1..] == s[..|s| - 1][r.value + 1..] + [s[|s| - 1]];
      r
  }

  /** What stands before and after the first separator. */
  function SplitOnce(s: string, separator: char): Option<(string, string)> {
    var at := FindChar(s, separator);
    if at.None? then None else Some((s[..at.value], s[at.value + 1..]))
  }

  /** What stands before and after the last separator. */
  function SplitLast(s: string, separator: char): Option<(string, string)> {
    var at := FindLast(s, separator);
    if at.None? then None else Some((s[..at.value], s[at.value + 1..]))
  }

  lemma SplitOnceAt(head: string, separator: char, rest: string)
    requires separator !in head
    ensures SplitOnce(head + [separator] + rest, separator) == Some((head, rest))
  {
    FoundAfter(head, separator, rest);
    var s := head + [separator] + rest;
    assert s[..|head|] == head && s[|head| + 1..] == rest;
  }

  lemma {:induction false} LastFound(s: string, c: char, k: nat)
    requires k < |s| && s[k] == c && c !in s[k + 1..]
    ensures FindLast(s, c) == Some(k)
  {
    if k < |s| - 1 {
      var init := s[..|s| - 1];
      assert s[|s| - 1] == s[k + 1..][|s| - k - 2];
      assert s[k + 1..] == init[k + 1..] + [s[|s| - 1]];
      LastFound(init, c, k);
    }
  }

  lemma SplitLastAt(head: string, separator: char, rest: string)
    requires separator !in rest
    ensures SplitLast(head + [separator] + rest, separator) == Some((head, rest))
  {
    var s := head + [separator] + rest;
    assert s[|head|] == separator && s[..|head|] == head && s[|head| + 1..] == rest;
    LastFound(s, separator, |head|);
  }

  lemma NotFound(s: string, c: char)
    requires c !in s
    ensures FindChar(s, c).None? && FindLast(s, c).None?
  {
  }

  /** White space as Python's `str.isspace`, `str.strip` and the regular-expression class `\s` see it. */
  predicate IsPythonSpace(c: char) {
    '\t' <= c <= '\r' || '\U{1C}' <= c <= ' ' || IsWideSpace(c)
  }

  /** White space as Rust's `char::is_whitespace` and `str::trim` see it. */
  predicate IsRustSpace(c: char) {
    '\t' <= c <= '\r' || c == ' ' || IsWideSpace(c)
  }

  predicate IsWideSpace(c: char) {
    c == '\U{85}' || c == '\U{A0}' || c == '\U{1680}' || '\U{2000}' <= c <= '\U{200A}' ||
    c == '\U{2028}' || c == '\U{2029}' || c == '\U{202F}' || c == '\U{205F}' || c == '\U{3000}'
  }

  predicate IsDigit(c: char) { '0' <= c <= '9' }

  predicate IsIdentifierChar(c: char) {
    'A' <= c <= 'Z' || 'a' <= c <= 'z' || IsDigit(c) || c == '_'
  }

  /** The 25 code points of `White_Space` in the Unicode Character Database, which Rust goes by; Python
      also takes the four separators U+001C to U+001F. */
  lemma SpacesAreExact(c: char)
    ensures IsRustSpace(c) <==>
              c as int in {0x9, 0xA, 0xB, 0xC, 0xD, 0x20, 0x85, 0xA0, 0x1680, 0x2000, 0x2001, 0x2002, 0x2003, 0x2004, 0x2005, 0x2006,
                           0x2007, 0x2008, 0x2009, 0x200A, 0x2028, 0x2029, 0x202F, 0x205F, 0x3000}
    ensures IsPythonSpace(c) <==> IsRustSpace(c) || c as int in {0x1C, 0x1D, 0x1E, 0x1F}
  {
  }

  const UPPER_CASE := "ABCDEFGHIJKLMNOPQRSTUVWXYZ"
  const LOWER_CASE := "abcdefghijklmnopqrstuvwxyz"

  lemma LetterAt(k: nat)
    requires k < 26
    ensures UPPER_CASE[k] == (65 + k) as char && LOWER_CASE[k] == (97 + k) as char
  {
  }

  lemma LettersAreExact(c: char)
    ensures c in UPPER_CASE <==> 'A' <= c <= 'Z'
    ensures c in LOWER_CASE <==> 'a' <= c <= 'z'
  {
    assert |UPPER_CASE| == 26 && |LOWER_CASE| == 26;
    if 'A' <= c <= 'Z' {
      LetterAt(c as int - 65);
    } else if 'a' <= c <= 'z' {
      LetterAt(c as int - 97);
    }
    forall k | 0 <= k < 26
      ensures UPPER_CASE[k] == (65 + k) as char && LOWER_CASE[k] == (97 + k) as char
    {
      LetterAt(k);
    }
    hide UPPER_CASE, LOWER_CASE;
  }

  /** The characters that a word of an identifier may have. */
  lemma IdentifierCharIsExact(c: char)
    ensures IsIdentifierChar(c) <==> c in UPPER_CASE || c in LOWER_CASE || c in "0123456789" || c == '_'
  {
    hide UPPER_CASE, LOWER_CASE;
    LettersAreExact(c);
  }
}
