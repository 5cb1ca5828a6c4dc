/** Hex decoding of arbitrary text (src/arrow_conversion/builders.rs:406-416). The driver cuts the
    text's UTF-8 every two bytes, and cutting inside a character stops the program. */
module HexText {
  import opened Text
  import opened NumberText
  import opened PercentEncoding

  datatype Outcome = Decoded(bytes: seq<Byte>) | Invalid | Panic

  predicate IsContinuation(b: Byte) { 0x80 <= b < 0xC0 }

  function ReadBytes(first: Byte, second: Byte): Option<Byte> {
    if first < 0x80 && second < 0x80 then ReadPair(first as char, second as char) else None
  }

  /** Pair by pair, up to the first that is unreadable or ends inside a character. */
  function DecodePairs(bytes: seq<Byte>): Outcome
    requires |bytes| % 2 == 0
  {
    if bytes == [] then Decoded([])
    else if |bytes| > 2 && IsContinuation(bytes[2]) then Panic
    else
      var first := ReadBytes(bytes[0], bytes[1]);
      if first.None? then Invalid
      else
        var rest := DecodePairs(bytes[2..]);
        if rest.Decoded? then Decoded([first.value] + rest.bytes) else rest
  }

  function DecodeText(s: string): Outcome {
    var bytes := ToUtf8(s);
    if |bytes| % 2 == 1 then Invalid else DecodePairs(bytes)
  }

  /** A cut two bytes into `s` falls inside its first or its second character. */
  predicate CutsCharacter(s: string) {
    s != "" && (|Utf8(s[0])| > 2 || (|Utf8(s[0])| == 1 && |s| >= 2 && |Utf8(s[1])| > 1))
  }

  lemma Utf8Shape(c: char)
    ensures !IsContinuation(Utf8(c)[0])
    ensures forall i :: 1 <= i < |Utf8(c)| ==> IsContinuation(Utf8(c)[i])
    ensures |Utf8(c)| == 1 <==> c as int < 0x80
    ensures |Utf8(c)| == 1 ==> Utf8(c) == [c as int]
    ensures |Utf8(c)| > 1 ==> Utf8(c)[0] >= 0x80
  {
  }

  lemma NextStarts(s: string)
    ensures ToUtf8(s) != [] <==> s != ""
    ensures s != "" ==> !IsContinuation(ToUtf8(s)[0]) && ToUtf8(s) == Utf8(s[0]) + ToUtf8(s[1..])
  {
    if s != "" { Utf8Shape(s[0]); }
  }

  lemma WideCharacter(s: string)
    requires s != "" && |ToUtf8(s)| % 2 == 0 && |Utf8(s[0])| > 2
    ensures DecodePairs(ToUtf8(s)) == Panic
  {
    hide Utf8;
    Utf8Shape(s[0]);
    NextStarts(s);
    assert ToUtf8(s)[2] == Utf8(s[0])[2];
  }

  lemma TwoByteCharacter(s: string)
    requires s != "" && |ToUtf8(s)| % 2 == 0 && |Utf8(s[0])| == 2
    ensures DecodePairs(ToUtf8(s)) == Invalid
  {
    hide Utf8, ToUtf8;
    Utf8Shape(s[0]);
    NextStarts(s);
    NextStarts(s[1..]);
    var bytes := ToUtf8(s);
    assert bytes[0] == Utf8(s[0])[0] && (|bytes| > 2 ==> bytes[2] == ToUtf8(s[1..])[0]);
  }

  /** The text's bytes begin with those of two characters, the first of one byte. */
  lemma TwoCharacters(s: string)
    requires s != "" && |ToUtf8(s)| % 2 == 0 && |Utf8(s[0])| == 1
    ensures |s| >= 2 && ToUtf8(s) == [s[0] as int] + (Utf8(s[1]) + ToUtf8(s[2..]))
  {
    hide Utf8, ToUtf8;
    Utf8Shape(s[0]);
    NextStarts(s);
    NextStarts(s[1..]);
    assert s[1..][0] == s[1] && s[1..][1..] == s[2..];
  }

  lemma WideSecond(s: string)
    requires |s| >= 2 && |ToUtf8(s)| % 2 == 0 && |Utf8(s[0])| == 1 && |Utf8(s[1])| > 1
    ensures DecodePairs(ToUtf8(s)) == Panic
  {
    hide Utf8, ToUtf8;
    TwoCharacters(s);
    Utf8Shape(s[1]);
    assert ToUtf8(s)[2] == Utf8(s[1])[1];
  }

  lemma NarrowPair(s: string)
    requires |s| >= 2 && |ToUtf8(s)| % 2 == 0 && |Utf8(s[0])| == 1 && |Utf8(s[1])| == 1
    ensures |ToUtf8(s[2..])| % 2 == 0
    ensures DecodePairs(ToUtf8(s)) == Continued(ReadPair(s[0], s[1]), DecodePairs(ToUtf8(s[2..])))
  {
    hide Utf8, ToUtf8, ReadPair;
    TwoCharacters(s);
    Utf8Shape(s[0]);
    Utf8Shape(s[1]);
    NextStarts(s[2..]);
    var bytes, last := ToUtf8(s), ToUtf8(s[2..]);
    assert bytes == [s[0] as int, s[1] as int] + last;
    assert bytes[2..] == last && (|bytes| > 2 ==> bytes[2] == last[0]);
  }

  function Continued(first: Option<Byte>, rest: Outcome): Outcome {
    if first.None? then Invalid else if rest.Decoded? then Decoded([first.value] + rest.bytes) else rest
  }

  /** What the first two bytes of a text decide, in terms of its characters. */
  lemma DecodeStep(s: string)
    requires s != "" && |ToUtf8(s)| % 2 == 0
    ensures CutsCharacter(s) ==> DecodePairs(ToUtf8(s)) == Panic
    ensures !CutsCharacter(s) ==>
              if |s| == 1 || |Utf8(s[0])| == 2 then DecodePairs(ToUtf8(s)) == Invalid
              else |ToUtf8(s[2..])| % 2 == 0 &&
                   DecodePairs(ToUtf8(s)) == Continued(ReadPair(s[0], s[1]), DecodePairs(ToUtf8(s[2..])))
  {
    hide Utf8, ToUtf8, DecodePairs, ReadPair, Continued;
    if |Utf8(s[0])| > 2 {
      WideCharacter(s);
    } else if |Utf8(s[0])| == 2 {
      TwoByteCharacter(s);
    } else {
      TwoCharacters(s);
      if |Utf8(s[1])| > 1 {
        WideSecond(s);
      } else {
        NarrowPair(s);
      }
    }
  }

  lemma OnlyAsciiReads(first: char, second: char)
    ensures ReadPair(first, second).Some? ==> |Utf8(first)| == 1 && |Utf8(second)| == 1
  {
  }

  lemma NothingDecodes()
    ensures DecodePairs(ToUtf8("")) == Decoded([])
  {
  }

  lemma {:induction false} PairsAreExact(s: string, bytes: seq<Byte>)
    requires |ToUtf8(s)| % 2 == 0
    ensures DecodePairs(ToUtf8(s)) == Decoded(bytes) <==> DecodeHex(s) == Some(bytes)
    decreases |s|
  {
    hide Utf8, ToUtf8, ReadPair, DecodePairs;
    if s == "" {
      NothingDecodes();
    } else {
      DecodeStep(s);
      if |s| > 1 {
        OnlyAsciiReads(s[0], s[1]);
        if ReadPair(s[0], s[1]).Some? {
          PairsAreExact(s[2..], if bytes == [] then [] else bytes[1..]);
          match DecodePairs(ToUtf8(s[2..]))
          case Decoded(rest) => PairsAreExact(s[2..], rest);
          case _ =>
        }
      }
    }
  }

  lemma {:induction false} DecodesOnlyAscii(s: string)
    requires DecodeHex(s).Some?
    ensures |ToUtf8(s)| == |s| && |s| % 2 == 0
  {
    hide Utf8, ReadPair;
    if s != "" {
      OnlyAsciiReads(s[0], s[1]);
      DecodesOnlyAscii(s[2..]);
      assert s[1..][1..] == s[2..];
    }
  }

  /** Text of any characters decodes to the bytes that its hex spelling says. */
  lemma DecodeTextIsExact(s: string, bytes: seq<Byte>)
    ensures DecodeText(s) == Decoded(bytes) <==> DecodeHex(s) == Some(bytes)
  {
    hide Utf8, ToUtf8, ReadPair, DecodePairs, DecodeHex;
    if DecodeHex(s).Some? { DecodesOnlyAscii(s); }
    if |ToUtf8(s)| % 2 == 0 { PairsAreExact(s, bytes); }
  }

  /** After `k` characters of readable pairs the next cut falls inside a character. */
  predicate CutsAfter(s: string, k: nat) { k <= |s| && DecodeHex(s[..k]).Some? && CutsCharacter(s[k..]) }

  lemma CutsLater(s: string, k: nat)
    requires k >= 2 && |s| >= 2
    ensures CutsAfter(s, k) <==> ReadPair(s[0], s[1]).Some? && CutsAfter(s[2..], k - 2)
  {
    hide ReadPair, CutsCharacter;
    if k <= |s| { assert s[..k][2..] == s[2..][..k - 2] && s[k..] == s[2..][k - 2..]; }
  }

  lemma CutsNow(s: string)
    ensures CutsAfter(s, 0) <==> CutsCharacter(s)
  {
    hide CutsCharacter;
    assert s[0..] == s && s[..0] == "";
  }

  lemma {:induction false} PairsPanicIff(s: string)
    requires |ToUtf8(s)| % 2 == 0
    ensures DecodePairs(ToUtf8(s)) == Panic <==> exists k: nat :: CutsAfter(s, k)
    decreases |s|
  {
    hide Utf8, ToUtf8, ReadPair, DecodePairs, CutsAfter, CutsCharacter;
    CutsNow(s);
    if s == "" {
      NothingDecodes();
      NothingIsCut();
    } else {
      DecodeStep(s);
      if CutsCharacter(s) {
        assert CutsAfter(s, 0);
      } else if |s| >= 2 && ReadPair(s[0], s[1]).Some? {
        ReadableIsNarrow(s);
        PairsPanicIff(s[2..]);
        forall k: nat
          ensures CutsAfter(s, k) <==> k >= 2 && CutsAfter(s[2..], k - 2)
        {
          if k >= 2 { CutsLater(s, k); } else { ShortPrefix(s, k); }
        }
        if k: nat :| CutsAfter(s[2..], k) { assert CutsAfter(s, k + 2); }
      } else {
        forall k: nat
          ensures !CutsAfter(s, k)
        {
          if k >= 2 && |s| >= 2 { CutsLater(s, k); } else { ShortPrefix(s, k); }
        }
      }
    }
  }

  lemma ReadableIsNarrow(s: string)
    requires |s| >= 2 && ReadPair(s[0], s[1]).Some?
    ensures |Utf8(s[0])| == 1
  {
    OnlyAsciiReads(s[0], s[1]);
  }

  lemma NothingIsCut()
    ensures forall k: nat :: !CutsAfter("", k)
  {
  }

  lemma ShortPrefix(s: string, k: nat)
    requires s != "" && !CutsCharacter(s) && (k < 2 || |s| < 2)
    ensures !CutsAfter(s, k)
  {
    hide CutsCharacter, ReadPair;
    if k == 0 { CutsNow(s); }
    if k == 1 { assert |s[..1]| == 1; }
  }

  /** Decoding stops the program exactly when the text has an even number of bytes and, after readable
      pairs alone, a cut falls inside a character. */
  lemma DecodePanicsIff(s: string)
    ensures DecodeText(s) == Panic <==> |ToUtf8(s)| % 2 == 0 && exists k: nat :: CutsAfter(s, k)
  {
    hide Utf8, ToUtf8, DecodePairs, CutsAfter;
    if |ToUtf8(s)| % 2 == 0 { PairsPanicIff(s); }
  }

  /** It does so on the four bytes of `aéa`. */
  lemma AccentPanics()
    ensures DecodeText("a\U{E9}a") == Panic
  {
    var s := "a\U{E9}a";
    assert s[1..] == "\U{E9}a" && s[1..][1..] == "a" && s[1..][1..][1..] == "";
    assert Utf8(s[1]) == [0xC3, 0xA9];
    assert ToUtf8("a") == Utf8('a') + ToUtf8("") by { assert "a"[1..] == ""; }
    assert ToUtf8(s) == [0x61] + ([0xC3, 0xA9] + ([0x61] + []));
  }
}
