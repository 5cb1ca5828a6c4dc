/** UTF-8 and percent encoding (section 2.1 of RFC 3986), as the driver decodes the user, the
    password and the query of a connection string (src/connection/params.rs:422-477). */
module PercentEncoding {
  import opened Text
  import opened NumberText

  // ---------------------------------------------------------------------------------------------
  // UTF-8
  // ---------------------------------------------------------------------------------------------

  function Utf8(c: char): (bytes: seq<Byte>)
    ensures 1 <= |bytes| <= 4
  {
    var u := c as int;
    if u < 0x80 then [u]
    else if u < 0x800 then [0xC0 + u / 0x40, 0x80 + u % 0x40]
    else if u < 0x1_0000 then [0xE0 + u / 0x1000, 0x80 + u / 0x40 % 0x40, 0x80 + u % 0x40]
    else [0xF0 + u / 0x4_0000, 0x80 + u / 0x1000 % 0x40, 0x80 + u / 0x40 % 0x40, 0x80 + u % 0x40]
  }

  function ToUtf8(s: string): seq<Byte> { if s == "" then [] else Utf8(s[0]) + ToUtf8(s[1..]) }

  predicate IsScalar(u: int) { 0 <= u < 0xD800 || 0xE000 <= u < 0x11_0000 }

  function Payload(b: Byte, marker: int): int { b as int - marker }

  /** The code point the bytes would spell, by the length their first byte announces. */
  function Announced(bytes: seq<Byte>): (u: Option<int>)
  {
    if bytes == [] then None
    else
      var b := bytes[0];
      if b < 0x80 then Some(b as int)
      else if 0xC0 <= b < 0xE0 && |bytes| >= 2 then Some(Payload(b, 0xC0) * 0x40 + Payload(bytes[1], 0x80))
      else if 0xE0 <= b < 0xF0 && |bytes| >= 3 then
        Some(Payload(b, 0xE0) * 0x1000 + Payload(bytes[1], 0x80) * 0x40 + Payload(bytes[2], 0x80))
      else if 0xF0 <= b < 0xF8 && |bytes| >= 4 then
        Some(Payload(b, 0xF0) * 0x4_0000 + Payload(bytes[1], 0x80) * 0x1000 + Payload(bytes[2], 0x80) * 0x40
             + Payload(bytes[3], 0x80))
      else None
  }

  /** The first character of valid UTF-8: its shortest encoding must stand there. */
  function FirstChar(bytes: seq<Byte>): (c: Option<char>)
    ensures c.Some? ==> Utf8(c.value) <= bytes
  {
    var u := Announced(bytes);
    if u.Some? && IsScalar(u.value) && Utf8(u.value as char) <= bytes then Some(u.value as char) else None
  }

  function FromUtf8(bytes: seq<Byte>): Option<string> {
    if bytes == [] then Some("")
    else
      var first := FirstChar(bytes);
      if first.None? then None
      else
        var rest := FromUtf8(bytes[|Utf8(first.value)|..]);
        if rest.None? then None else Some([first.value] + rest.value)
  }

  lemma Recomposed(u: nat)
    ensures u / 0x40 * 0x40 + u % 0x40 == u
    ensures u / 0x1000 * 0x1000 + u / 0x40 % 0x40 * 0x40 + u % 0x40 == u
    ensures u / 0x4_0000 * 0x4_0000 + u / 0x1000 % 0x40 * 0x1000 + u / 0x40 % 0x40 * 0x40 + u % 0x40 == u
  {
    assert u / 0x1000 == u / 0x40 / 0x40;
    assert u / 0x4_0000 == u / 0x1000 / 0x40;
  }

  lemma AnnouncedByEncoding(c: char, bytes: seq<Byte>)
    requires |bytes| >= |Utf8(c)| && forall i :: 0 <= i < |Utf8(c)| ==> bytes[i] == Utf8(c)[i]
    ensures Announced(bytes) == Some(c as int)
  {
    Recomposed(c as int);
  }

  lemma FirstCharOfEncoding(c: char, bytes: seq<Byte>)
    requires Utf8(c) <= bytes
    ensures FirstChar(bytes) == Some(c)
  {
    hide Utf8, Announced;
    var e := Utf8(c);
    assert forall i :: 0 <= i < |e| ==> bytes[i] == e[i];
    AnnouncedByEncoding(c, bytes);
  }

  /** Bytes decode to a text exactly when they are its encoding. */
  lemma {:induction false} FromUtf8IsExact(bytes: seq<Byte>, s: string)
    ensures FromUtf8(bytes) == Some(s) <==> ToUtf8(s) == bytes
    decreases |bytes|
  {
    hide Utf8, FirstChar;
    if bytes != [] {
      if s != "" && Utf8(s[0]) <= bytes {
        FirstCharOfEncoding(s[0], bytes);
      }
      var first := FirstChar(bytes);
      if first.Some? && s != "" && first.value == s[0] {
        var n := |Utf8(s[0])|;
        FromUtf8IsExact(bytes[n..], s[1..]);
        assert bytes == Utf8(s[0]) + bytes[n..];
        assert s == [s[0]] + s[1..];
        assert ToUtf8(s)[n..] == ToUtf8(s[1..]);
      }
    }
  }

  // ---------------------------------------------------------------------------------------------
  // Percent encoding
  // ---------------------------------------------------------------------------------------------

  predicate IsUnreserved(c: char) {
    'A' <= c <= 'Z' || 'a' <= c <= 'z' || IsDigit(c) || c == '-' || c == '_' || c == '.' || c == '~'
  }

  function HexByte(b: Byte): Option<nat> { if b < 0x80 then HexValue(b as char) else None }

  const PERCENT: Byte := '%' as int

  /** An escape is replaced by its byte; a percent sign that begins none stays. */
  function DecodeBytes(bytes: seq<Byte>): (r: seq<Byte>)
    ensures |r| <= |bytes|
  {
    if bytes == [] then []
    else if bytes[0] == PERCENT && |bytes| >= 3 && HexByte(bytes[1]).Some? && HexByte(bytes[2]).Some? then
      [HexByte(bytes[1]).value * 16 + HexByte(bytes[2]).value] + DecodeBytes(bytes[3..])
    else [bytes[0]] + DecodeBytes(bytes[1..])
  }

  function Decode(s: string): Option<string> { FromUtf8(DecodeBytes(ToUtf8(s))) }

  /** An escape of two hex digits, or a byte that stands for itself. */
  datatype Element = Raw(b: Byte) | Escape(high: char, low: char)

  predicate IsHexChar(c: char) { c in "0123456789ABCDEFabcdef" }

  function Spell(elements: seq<Element>): seq<Byte> {
    if elements == [] then []
    else
      var rest := Spell(elements[1..]);
      match elements[0]
      case Raw(b) => [b] + rest
      case Escape(high, low) => if high as int < 256 && low as int < 256 then ['%' as int, high as int, low as int] + rest else rest
  }

  /** Two bytes that spell hex digits. */
  predicate OpensEscape(bytes: seq<Byte>) { |bytes| >= 2 && IsHexChar(bytes[0] as char) && IsHexChar(bytes[1] as char) }

  /** Escapes have hex digits, and no percent sign that stands for itself begins an escape. */
  predicate AreElements(elements: seq<Element>) {
    elements != [] ==>
      AreElements(elements[1..]) &&
      match elements[0]
      case Raw(b) => !(b == '%' as int && OpensEscape(Spell(elements[1..])))
      case Escape(high, low) => IsHexChar(high) && IsHexChar(low)
  }

  function Meant(elements: seq<Element>): seq<Byte>
    requires AreElements(elements)
  {
    if elements == [] then []
    else
      match elements[0]
      case Raw(b) => [b] + Meant(elements[1..])
      case Escape(high, low) =>
        HexCharIsRead(high);
        HexCharIsRead(low);
        [HexValue(high).value * 16 + HexValue(low).value] + Meant(elements[1..])
  }

  lemma HexCharIsRead(c: char)
    ensures HexValue(c).Some? <==> IsHexChar(c)
    ensures HexValue(c).Some? ==> HexValue(c).value < 16 && c as int < 0x80
  {
    var hex := "0123456789ABCDEFabcdef";
    if IsDigit(c) {
      assert hex[c as int - 48] == c;
    } else if 'A' <= c <= 'F' {
      assert hex[c as int - 55] == c;
    } else if 'a' <= c <= 'f' {
      assert hex[c as int - 81] == c;
    }
  }

  lemma HexByteIsRead(b: Byte)
    ensures HexByte(b).Some? <==> IsHexChar(b as char)
    ensures HexByte(b).Some? ==> HexByte(b) == HexValue(b as char)
  {
    hide HexValue, IsHexChar;
    HexCharIsRead(b as char);
  }

  lemma RawDecodes(b: Byte, rest: seq<Byte>)
    requires !(b == '%' as int && OpensEscape(rest))
    ensures DecodeBytes([b] + rest) == [b] + DecodeBytes(rest)
  {
    hide HexByte, IsHexChar;
    if |rest| >= 2 {
      HexByteIsRead(rest[0]);
      HexByteIsRead(rest[1]);
    }
    assert ([b] + rest)[1..] == rest;
  }

  lemma EscapeIsRead(high: char, low: char, rest: seq<Byte>)
    requires IsHexChar(high) && IsHexChar(low) && high as int < 0x80 && low as int < 0x80
    requires HexValue(high).Some? && HexValue(low).Some? && HexValue(high).value < 16 && HexValue(low).value < 16
    ensures DecodeBytes(['%' as int, high as int, low as int] + rest)
            == [HexValue(high).value * 16 + HexValue(low).value] + DecodeBytes(rest)
  {
    hide HexValue, IsHexChar;
    var bytes := ['%' as int, high as int, low as int] + rest;
    HexByteIsRead(high as int);
    HexByteIsRead(low as int);
    assert bytes[3..] == rest;
  }

  lemma {:induction false} ElementsDecode(elements: seq<Element>)
    requires AreElements(elements)
    ensures DecodeBytes(Spell(elements)) == Meant(elements)
  {
    hide DecodeBytes, HexValue, IsHexChar, OpensEscape;
    if elements == [] {
      assert DecodeBytes([]) == [] by { NoBytes(); }
    } else {
      ElementsDecode(elements[1..]);
      var rest := Spell(elements[1..]);
      match elements[0]
      case Raw(b) => RawDecodes(b, rest);
      case Escape(high, low) =>
        HexCharIsRead(high);
        HexCharIsRead(low);
        EscapeIsRead(high, low, rest);
    }
  }

  lemma NoBytes()
    ensures DecodeBytes([]) == []
  {
  }

  lemma {:induction false} SomeElements(bytes: seq<Byte>) returns (elements: seq<Element>)
    ensures AreElements(elements) && Spell(elements) == bytes
  {
    hide IsHexChar, HexValue;
    if bytes == [] {
      elements := [];
    } else if bytes[0] == '%' as int && OpensEscape(bytes[1..]) {
      var rest := SomeElements(bytes[3..]);
      elements := [Escape(bytes[1] as char, bytes[2] as char)] + rest;
      assert elements[1..] == rest;
      assert bytes == ['%' as int, bytes[1], bytes[2]] + bytes[3..];
    } else {
      var rest := SomeElements(bytes[1..]);
      elements := [Raw(bytes[0])] + rest;
      assert elements[1..] == rest;
    }
  }

  /** Decoding replaces each escape, with digits in either letter case, by its byte, and nothing else. */
  lemma DecodeBytesIsExact(bytes: seq<Byte>, decoded: seq<Byte>)
    ensures DecodeBytes(bytes) == decoded <==>
              exists elements :: AreElements(elements) && Spell(elements) == bytes && Meant(elements) == decoded
  {
    hide DecodeBytes, AreElements, Spell, Meant;
    var elements := SomeElements(bytes);
    ElementsDecode(elements);
    if other :| AreElements(other) && Spell(other) == bytes && Meant(other) == decoded {
      ElementsDecode(other);
    }
  }

  function EncodeByte(b: Byte): string {
    if b < 0x80 && IsUnreserved(b as char) then [b as char]
    else ['%', HexDigit(b / 16, true), HexDigit(b % 16, true)]
  }

  function EncodeBytes(bytes: seq<Byte>): string {
    if bytes == [] then "" else EncodeByte(bytes[0]) + EncodeBytes(bytes[1..])
  }

  /** Every byte of the text's UTF-8 that is not unreserved is escaped. */
  function Encode(s: string): string { EncodeBytes(ToUtf8(s)) }

  lemma {:induction false} Utf8Joined(a: string, b: string)
    ensures ToUtf8(a + b) == ToUtf8(a) + ToUtf8(b)
  {
    hide Utf8;
    if a == "" {
      assert a + b == b;
    } else {
      Utf8Joined(a[1..], b);
      assert (a + b)[1..] == a[1..] + b;
    }
  }

  lemma PlainByteDecodes(b: Byte, tail: seq<Byte>)
    requires b < 0x80 && IsUnreserved(b as char)
    ensures DecodeBytes([b] + tail) == [b] + DecodeBytes(tail)
  {
    assert ([b] + tail)[1..] == tail;
  }

  lemma HexDigitReads(d: nat)
    requires d < 16
    ensures HexValue(HexDigit(d, true)) == Some(d) && HexDigit(d, true) as int < 0x80
  {
  }

  lemma EscapeDecodes(b: Byte, tail: seq<Byte>)
    ensures DecodeBytes([PERCENT, HexDigit(b / 16, true) as int, HexDigit(b % 16, true) as int] + tail) == [b] + DecodeBytes(tail)
  {
    HexDigitReads(b / 16);
    HexDigitReads(b % 16);
    var bytes := [PERCENT, HexDigit(b / 16, true) as int, HexDigit(b % 16, true) as int] + tail;
    assert bytes[3..] == tail;
  }

  lemma OneAscii(c: char)
    requires c as int < 0x80
    ensures ToUtf8([c]) == [c as int]
  {
    assert [c][1..] == "";
    assert ToUtf8("") == [];
  }

  lemma EncodedByteIsAscii(b: Byte)
    ensures ToUtf8(EncodeByte(b)) ==
              if b < 0x80 && IsUnreserved(b as char) then [b]
              else [PERCENT, HexDigit(b / 16, true) as int, HexDigit(b % 16, true) as int]
  {
    if b < 0x80 && IsUnreserved(b as char) {
      OneAscii(b as char);
    } else {
      var x, y := HexDigit(b / 16, true), HexDigit(b % 16, true);
      HexDigitReads(b / 16);
      HexDigitReads(b % 16);
      OneAscii('%');
      OneAscii(x);
      OneAscii(y);
      Utf8Joined(['%'], [x, y]);
      Utf8Joined([x], [y]);
      assert ['%', x, y] == ['%'] + [x, y] && [x, y] == [x] + [y];
    }
  }

  lemma {:induction false} EncodedBytesDecode(bytes: seq<Byte>)
    ensures DecodeBytes(ToUtf8(EncodeBytes(bytes))) == bytes
  {
    hide DecodeBytes, Utf8, HexDigit, IsUnreserved, EncodeByte, ToUtf8;
    if bytes == [] {
      NothingDecodes();
    } else {
      EncodedBytesDecode(bytes[1..]);
      var tail := ToUtf8(EncodeBytes(bytes[1..]));
      Utf8Joined(EncodeByte(bytes[0]), EncodeBytes(bytes[1..]));
      EncodedByteIsAscii(bytes[0]);
      if bytes[0] < 0x80 && IsUnreserved(bytes[0] as char) {
        PlainByteDecodes(bytes[0], tail);
      } else {
        EscapeDecodes(bytes[0], tail);
      }
    }
  }

  lemma NothingDecodes()
    ensures ToUtf8("") == [] && DecodeBytes([]) == []
  {
  }

  /** Decoding inverts encoding for every text. */
  lemma DecodeInvertsEncode(s: string)
    ensures Decode(Encode(s)) == Some(s)
  {
    hide DecodeBytes, EncodeBytes, ToUtf8, FromUtf8;
    EncodedBytesDecode(ToUtf8(s));
    FromUtf8IsExact(ToUtf8(s), s);
  }

  predicate IsEncodedChar(c: char) { IsUnreserved(c) || c == '%' }

  /** Encoded text holds none of the characters that structure a URI. */
  lemma {:induction false} EncodedChars(bytes: seq<Byte>)
    ensures forall c :: c in EncodeBytes(bytes) ==> IsEncodedChar(c)
  {
    if bytes != [] {
      EncodedChars(bytes[1..]);
      EncodedByteChars(bytes[0]);
    }
  }

  lemma EncodedByteChars(b: Byte)
    ensures forall c :: c in EncodeByte(b) ==> IsEncodedChar(c)
  {
  }

  /** An escape that decodes to bytes that are not UTF-8 is refused, and one that is cut off stays. */
  lemma MalformedEscapes()
    ensures Decode("%FF") == None && Decode("%4") == Some("%4")
  {
    assert ToUtf8("%FF") == [0x25, 0x46, 0x46] by {
      OneAscii('%'); OneAscii('F');
      Utf8Joined("%", "FF"); Utf8Joined("F", "F");
      assert "%FF" == "%" + "FF" && "FF" == "F" + "F";
    }
    assert [0x25, 0x46, 0x46][3..] == [];
    assert DecodeBytes([0x25, 0x46, 0x46]) == [0xFF];
    assert Announced([0xFF]) == None;
    assert ToUtf8("%4") == [0x25, 0x34] by {
      OneAscii('%'); OneAscii('4');
      Utf8Joined("%", "4");
      assert "%4" == "%" + "4";
    }
    assert [0x25, 0x34][1..] == [0x34] && [0x34][1..] == [];
    assert DecodeBytes([0x34]) == [0x34];
    assert DecodeBytes([0x25, 0x34]) == [0x25, 0x34];
    FromUtf8IsExact([0x25, 0x34], "%4");
  }
}
