/** Numbers as text: decimal values bound as parameters (src/adbc_ffi.rs:1900-1921), the precision
    check and hex decoding of result values (src/arrow_conversion/builders.rs:154-192, 407-416) and
    server release versions (src/connection/version.rs:15-42, src/connection/session.rs:119-128). */
module NumberText {
  import opened Text

  // ---------------------------------------------------------------------------------------------
  // Decimal digits
  // ---------------------------------------------------------------------------------------------

  function Digit(d: nat): char
    requires d < 10
  {
    ('0' as int + d) as char
  }

  function DigitValue(c: char): (d: nat)
    requires IsDigit(c)
    ensures d < 10
  {
    c as int - '0' as int
  }

  predicate AllDigits(s: string) { s == "" || (IsDigit(s[|s| - 1]) && AllDigits(s[..|s| - 1])) }

  /** The number digits spell. */
  function Value(s: string): nat
    requires AllDigits(s)
  {
    if s == "" then 0 else 10 * Value(s[..|s| - 1]) + DigitValue(s[|s| - 1])
  }

  function Pow10(n: nat): (p: nat)
    ensures p > 0
  {
    if n == 0 then 1 else 10 * Pow10(n - 1)
  }

  /** The shortest digits that spell `n`. */
  function Decimal(n: nat): (s: string)
    ensures s != ""
  {
    if n < 10 then [Digit(n)] else Decimal(n / 10) + [Digit(n % 10)]
  }

  lemma Snoc(s: string, c: char)
    requires AllDigits(s) && IsDigit(c)
    ensures AllDigits(s + [c]) && Value(s + [c]) == 10 * Value(s) + DigitValue(c)
  {
    assert (s + [c])[..|s|] == s;
  }

  lemma {:induction false} DecimalSpells(n: nat)
    ensures AllDigits(Decimal(n)) && Value(Decimal(n)) == n
  {
    if n < 10 {
      Snoc("", Digit(n));
      assert "" + [Digit(n)] == Decimal(n);
    } else {
      DecimalSpells(n / 10);
      Snoc(Decimal(n / 10), Digit(n % 10));
    }
  }

  lemma {:induction false} Concatenation(a: string, b: string)
    requires AllDigits(a) && AllDigits(b)
    ensures AllDigits(a + b) && Value(a + b) == Value(a) * Pow10(|b|) + Value(b)
  {
    if b == "" {
      assert a + b == a;
    } else {
      var init := b[..|b| - 1];
      Concatenation(a, init);
      Snoc(a + init, b[|b| - 1]);
      assert a + b == a + init + [b[|b| - 1]];
      Shifted(Value(a), Pow10(|b| - 1), Value(init), DigitValue(b[|b| - 1]));
    }
  }

  lemma Shifted(a: nat, p: nat, b: nat, d: nat)
    ensures 10 * (a * p + b) + d == a * (10 * p) + (10 * b + d)
  {
  }

  lemma {:induction false} ValueBelowPower(s: string)
    requires AllDigits(s)
    ensures Value(s) < Pow10(|s|)
  {
    if s != "" { ValueBelowPower(s[..|s| - 1]); }
  }

  lemma {:induction false} ZerosAreWorthless(n: nat)
    ensures AllDigits(Repeat('0', n)) && Value(Repeat('0', n)) == 0
  {
    if n > 0 {
      ZerosAreWorthless(n - 1);
      Snoc(Repeat('0', n - 1), '0');
      assert Repeat('0', n) == Repeat('0', n - 1) + ['0'];
    }
  }

  /** A number below 10^width has at most `width` digits. */
  lemma {:induction false} DecimalWidth(n: nat, width: nat)
    requires width > 0 && n < Pow10(width)
    ensures |Decimal(n)| <= width
  {
    if n >= 10 {
      assert width > 1;
      DecimalWidth(n / 10, width - 1);
    }
  }

  // ---------------------------------------------------------------------------------------------
  // Decimal128 values as parameter text
  // ---------------------------------------------------------------------------------------------

  /** Division as Rust does it: towards zero. */
  function TruncatedQuotient(a: int, b: nat): int
    requires b > 0
  {
    if a >= 0 then a / b else -((-a) / b)
  }

  function TruncatedRemainder(a: int, b: nat): int
    requires b > 0
  {
    a - TruncatedQuotient(a, b) * b
  }

  function Absolute(a: int): nat { if a < 0 then -a else a }

  function SignedDecimal(n: int): string { if n < 0 then "-" + Decimal(-n) else Decimal(n) }

  /** `{:0>width$}` */
  function ZeroPadded(s: string, width: nat): string {
    if |s| >= width then s else Repeat('0', width - |s|) + s
  }

  const MAX_DECIMAL128_SCALE := 38

  /** The text bound for a Decimal128 value. */
  function FormatDecimal(raw: int, scale: int): string
    requires scale <= MAX_DECIMAL128_SCALE
  {
    if scale <= 0 then SignedDecimal(raw)
    else
      var divisor := Pow10(scale);
      var whole := TruncatedQuotient(raw, divisor);
      var frac := Absolute(TruncatedRemainder(raw, divisor));
      (if raw < 0 && whole == 0 then "-" else "") + SignedDecimal(whole) + "." + ZeroPadded(Decimal(frac), scale)
  }

  function Signed(negative: bool, magnitude: nat): int { if negative then 0 - magnitude else magnitude }

  /** How a server reads decimal text: the unscaled number and how many digits follow the point. */
  function ReadDecimal(text: string): Option<(int, nat)> {
    if text != "" && text[0] == '-' then ReadMagnitude(true, text[1..]) else ReadMagnitude(false, text)
  }

  function ReadMagnitude(negative: bool, text: string): Option<(int, nat)> {
    var point := FindChar(text, '.');
    if point.None? then
      if text != "" && AllDigits(text) then Some((Signed(negative, Value(text)), 0)) else None
    else ReadParts(negative, text[..point.value], text[point.value + 1..])
  }

  function ReadParts(negative: bool, whole: string, fraction: string): Option<(int, nat)> {
    if whole != "" && fraction != "" && AllDigits(whole) && AllDigits(fraction) then
      Some((Signed(negative, Value(whole) * Pow10(|fraction|) + Value(fraction)), |fraction|))
    else None
  }

  lemma {:induction false} DigitsHaveNo(s: string, c: char)
    requires AllDigits(s) && !IsDigit(c)
    ensures c !in s
  {
    if s != "" {
      DigitsHaveNo(s[..|s| - 1], c);
      assert s == s[..|s| - 1] + [s[|s| - 1]];
    }
  }

  lemma PointIsFound(whole: string, fraction: string)
    requires '.' !in whole
    ensures var text := whole + "." + fraction;
            FindChar(text, '.') == Some(|whole|) && text[..|whole|] == whole && text[|whole| + 1..] == fraction
  {
    FoundAfter(whole, '.', fraction);
  }

  lemma SignIsRead(negative: bool, magnitude: string)
    requires magnitude != "" && magnitude[0] != '-'
    ensures ReadDecimal((if negative then "-" else "") + magnitude) == ReadMagnitude(negative, magnitude)
  {
    hide ReadMagnitude;
    if negative {
      assert ("-" + magnitude)[1..] == magnitude;
    } else {
      assert "" + magnitude == magnitude;
    }
  }

  lemma ReadsBackWhole(negative: bool, whole: string)
    requires whole != "" && AllDigits(whole)
    ensures ReadDecimal((if negative then "-" else "") + whole) == Some((Signed(negative, Value(whole)), 0))
  {
    hide AllDigits, Value, ReadDecimal, FindChar;
    DigitsHaveNo(whole, '.');
    DigitsHaveNo(whole, '-');
    assert whole[0] in whole;
    SignIsRead(negative, whole);
  }

  lemma ReadsBackParts(negative: bool, whole: string, fraction: string)
    requires whole != "" && AllDigits(whole) && fraction != "" && AllDigits(fraction)
    ensures ReadDecimal((if negative then "-" else "") + (whole + "." + fraction))
            == Some((Signed(negative, Value(whole) * Pow10(|fraction|) + Value(fraction)), |fraction|))
  {
    hide AllDigits, Value, Pow10, ReadDecimal, FindChar, ReadParts;
    DigitsHaveNo(whole, '.');
    DigitsHaveNo(whole, '-');
    var text := whole + "." + fraction;
    assert text[0] == whole[0] && whole[0] in whole;
    SignIsRead(negative, text);
    PointIsFound(whole, fraction);
    PartsAreRead(negative, whole, fraction);
  }

  lemma PartsAreRead(negative: bool, whole: string, fraction: string)
    requires whole != "" && AllDigits(whole) && fraction != "" && AllDigits(fraction)
    ensures ReadParts(negative, whole, fraction)
            == Some((Signed(negative, Value(whole) * Pow10(|fraction|) + Value(fraction)), |fraction|))
  {
    hide AllDigits, Value, Pow10;
  }

  lemma SplitByPower(raw: int, p: nat)
    requires p > 0
    ensures var q, r := TruncatedQuotient(raw, p), Absolute(TruncatedRemainder(raw, p));
            r < p && Absolute(q) * p + r == Absolute(raw) && (raw >= 0 ==> q >= 0) && (raw < 0 ==> q <= 0)
  {
    var a := Absolute(raw);
    assert a == (a / p) * p + a % p;
  }

  /** The fraction is padded to exactly `width` digits and spells the same number. */
  lemma PaddedFraction(frac: nat, width: nat)
    requires width > 0 && frac < Pow10(width)
    ensures var s := ZeroPadded(Decimal(frac), width); |s| == width && AllDigits(s) && Value(s) == frac
  {
    hide AllDigits, Value, Pow10, Decimal;
    var digits := Decimal(frac);
    DecimalWidth(frac, width);
    DecimalSpells(frac);
    var zeros := Repeat('0', width - |digits|);
    ZerosAreWorthless(width - |digits|);
    Concatenation(zeros, digits);
    if |digits| < width {
      assert ZeroPadded(digits, width) == zeros + digits;
    }
  }

  /** Decimal text is exact: it reads back as the raw value, with `scale` digits after the point. */
  lemma DecimalTextIsExact(raw: int, scale: nat)
    requires scale <= MAX_DECIMAL128_SCALE
    ensures ReadDecimal(FormatDecimal(raw, scale)) == Some((raw, scale))
  {
    hide AllDigits, Value, Decimal, ReadDecimal, TruncatedQuotient, TruncatedRemainder, ZeroPadded;
    if scale == 0 {
      DecimalSpells(Absolute(raw));
      ReadsBackWhole(raw < 0, Decimal(Absolute(raw)));
      assert "" + Decimal(Absolute(raw)) == Decimal(Absolute(raw));
    } else {
      var p := Pow10(scale);
      var whole, frac := TruncatedQuotient(raw, p), Absolute(TruncatedRemainder(raw, p));
      SplitByPower(raw, p);
      PaddedFraction(frac, scale);
      var digits, fraction := Decimal(Absolute(whole)), ZeroPadded(Decimal(frac), scale);
      DecimalSpells(Absolute(whole));
      ReadsBackParts(raw < 0, digits, fraction);
      FormattedParts(raw, scale);
    }
  }

  /** A value prints as its sign, its whole part and exactly `scale` digits of fraction. */
  lemma FormattedParts(raw: int, scale: nat)
    requires 0 < scale <= MAX_DECIMAL128_SCALE
    ensures var p := Pow10(scale);
            FormatDecimal(raw, scale)
            == (if raw < 0 then "-" else "")
               + (Decimal(Absolute(TruncatedQuotient(raw, p))) + "."
                  + ZeroPadded(Decimal(Absolute(TruncatedRemainder(raw, p))), scale))
  {
    hide Decimal, ZeroPadded, Pow10, TruncatedRemainder;
    var p := Pow10(scale);
    var whole := TruncatedQuotient(raw, p);
    var digits := Decimal(Absolute(whole));
    SplitByPower(raw, p);
    var fraction := ZeroPadded(Decimal(Absolute(TruncatedRemainder(raw, p))), scale);
    assert SignedDecimal(whole) == (if whole < 0 then "-" else "") + digits by {
      assert "" + digits == digits;
    }
    assert "" + SignedDecimal(whole) + "." + fraction == SignedDecimal(whole) + "." + fraction;
    assert "-" + digits + "." + fraction == "-" + (digits + "." + fraction);
    assert "" + (digits + "." + fraction) == digits + "." + fraction;
  }

  /** Distinct values print differently. */
  lemma DecimalTextIsInjective(raw: int, other: int, scale: nat)
    requires scale <= MAX_DECIMAL128_SCALE && FormatDecimal(raw, scale) == FormatDecimal(other, scale)
    ensures raw == other
  {
    DecimalTextIsExact(raw, scale);
    DecimalTextIsExact(other, scale);
  }

  // ---------------------------------------------------------------------------------------------
  // The precision check
  // ---------------------------------------------------------------------------------------------

  function OnlyDigits(s: string): (digits: string)
    ensures |digits| <= |s|
  {
    if s == "" then ""
    else OnlyDigits(s[..|s| - 1]) + if IsDigit(s[|s| - 1]) then [s[|s| - 1]] else ""
  }

  function TrimZeros(s: string): string { if s != "" && s[0] == '0' then TrimZeros(s[1..]) else s }

  datatype Precision = Fits | TooManySignificant(count: nat) | TooManyDigits(count: nat)

  /** Whether decimal text fits a precision, and which test refuses it. */
  function ValidatePrecision(text: string, precision: nat): Precision {
    var digits := OnlyDigits(text);
    var significant := TrimZeros(digits);
    var count := if significant == "" then 1 else |significant|;
    if count > precision then TooManySignificant(count)
    else if |digits| > precision + 1 then TooManyDigits(|digits|)
    else Fits
  }

  lemma {:induction false} OnlyDigitsAreDigits(s: string)
    ensures AllDigits(OnlyDigits(s))
  {
    if s != "" {
      OnlyDigitsAreDigits(s[..|s| - 1]);
      if IsDigit(s[|s| - 1]) {
        Snoc(OnlyDigits(s[..|s| - 1]), s[|s| - 1]);
      } else {
        assert OnlyDigits(s[..|s| - 1]) + "" == OnlyDigits(s[..|s| - 1]);
      }
    }
  }

  lemma {:induction false} DropLeading(s: string)
    requires s != "" && AllDigits(s)
    ensures IsDigit(s[0]) && AllDigits(s[1..]) && Value(s) == DigitValue(s[0]) * Pow10(|s| - 1) + Value(s[1..])
  {
    if |s| > 1 {
      var init := s[..|s| - 1];
      DropLeading(init);
      assert s[1..] == init[1..] + [s[|s| - 1]];
      Snoc(init[1..], s[|s| - 1]);
      Shifted(DigitValue(s[0]), Pow10(|s| - 2), Value(init[1..]), DigitValue(s[|s| - 1]));
    } else {
      assert s[..0] == "" && s[1..] == "";
    }
  }

  lemma {:induction false} TrimZerosKeepsValue(s: string)
    requires AllDigits(s)
    ensures AllDigits(TrimZeros(s)) && Value(TrimZeros(s)) == Value(s)
    ensures TrimZeros(s) != "" ==> TrimZeros(s)[0] != '0'
  {
    if s != "" && s[0] == '0' {
      DropLeading(s);
      TrimZerosKeepsValue(s[1..]);
    }
  }

  lemma {:induction false} PowersGrow(a: nat, b: nat)
    requires a <= b
    ensures Pow10(a) <= Pow10(b)
  {
    if a < b { PowersGrow(a, b - 1); }
  }

  lemma AtLeastOnePower(d: nat, p: nat)
    requires d >= 1
    ensures d * p >= p
  {
  }

  /** Without leading zeros the digit count tells on which side of a power of ten a number lies. */
  lemma SignificantDigitsBound(s: string, precision: nat)
    requires AllDigits(s) && s != "" && s[0] != '0'
    ensures |s| > precision <==> Value(s) >= Pow10(precision)
  {
    ValueBelowPower(s);
    DropLeading(s);
    AtLeastOnePower(DigitValue(s[0]), Pow10(|s| - 1));
    if |s| > precision {
      PowersGrow(precision, |s| - 1);
    } else {
      PowersGrow(|s|, precision);
    }
  }

  /** The first test refuses exactly the digit strings whose number is at least 10^precision; text
      that passes it is still refused exactly when it has more than precision + 1 digits. */
  lemma PrecisionCheckIsExact(text: string, precision: nat)
    requires precision >= 1
    ensures AllDigits(OnlyDigits(text))
    ensures ValidatePrecision(text, precision).TooManySignificant? <==> Value(OnlyDigits(text)) >= Pow10(precision)
    ensures ValidatePrecision(text, precision).Fits? <==>
              Value(OnlyDigits(text)) < Pow10(precision) && |OnlyDigits(text)| <= precision + 1
  {
    var digits := OnlyDigits(text);
    OnlyDigitsAreDigits(text);
    TrimZerosKeepsValue(digits);
    var significant := TrimZeros(digits);
    if significant == "" {
      PowersGrow(1, precision);
    } else {
      SignificantDigitsBound(significant, precision);
    }
  }

  lemma {:induction false} OnlyDigitsJoined(a: string, b: string)
    ensures OnlyDigits(a + b) == OnlyDigits(a) + OnlyDigits(b)
  {
    if b == "" {
      assert a + b == a && OnlyDigits(a) + "" == OnlyDigits(a);
    } else {
      var init, c := b[..|b| - 1], b[|b| - 1];
      OnlyDigitsJoined(a, init);
      assert a + b == (a + init) + [c] && b == init + [c];
      DigitsOf(a + init, c);
    }
  }

  lemma {:induction false} DigitsStay(s: string)
    requires AllDigits(s)
    ensures OnlyDigits(s) == s
  {
    if s != "" {
      DigitsStay(s[..|s| - 1]);
      assert s == s[..|s| - 1] + [s[|s| - 1]];
    }
  }

  lemma SignAndPoint()
    ensures OnlyDigits("-") == "" && OnlyDigits("") == "" && OnlyDigits(".") == ""
  {
    DigitsOf("", '-');
    DigitsOf("", '.');
    assert "" + ['-'] == "-" && "" + ['.'] == ".";
  }

  /** The digits of a printed value: those of its whole part and of its padded fraction. */
  lemma DigitsOfDecimalText(raw: int, scale: nat, whole: string, fraction: string)
    requires 0 < scale <= MAX_DECIMAL128_SCALE
    requires whole == Decimal(Absolute(TruncatedQuotient(raw, Pow10(scale))))
    requires fraction == ZeroPadded(Decimal(Absolute(TruncatedRemainder(raw, Pow10(scale)))), scale)
    ensures OnlyDigits(FormatDecimal(raw, scale)) == whole + fraction && AllDigits(whole + fraction)
    ensures |fraction| == scale && Value(whole + fraction) == Absolute(raw)
  {
    FormattedParts(raw, scale);
    hide AllDigits, Value, Decimal, FormatDecimal, TruncatedQuotient, TruncatedRemainder, ZeroPadded, OnlyDigits, Pow10;
    var sign := if raw < 0 then "-" else "";
    SplitByPower(raw, Pow10(scale));
    PaddedFraction(Absolute(TruncatedRemainder(raw, Pow10(scale))), scale);
    DecimalSpells(Absolute(TruncatedQuotient(raw, Pow10(scale))));
    SignAndPoint();
    OnlyDigitsJoined(sign, whole + "." + fraction);
    OnlyDigitsJoined(whole + ".", fraction);
    OnlyDigitsJoined(whole, ".");
    DigitsStay(whole);
    DigitsStay(fraction);
    Concatenation(whole, fraction);
    assert whole + "" == whole && "" + (whole + fraction) == whole + fraction;
  }

  lemma {:induction false} PowersMultiply(a: nat, b: nat)
    ensures Pow10(a + b) == Pow10(a) * Pow10(b)
  {
    if b > 0 {
      PowersMultiply(a, b - 1);
      Shifted(Pow10(a), Pow10(b - 1), 0, 0);
    }
  }

  lemma ProductsGrow(a: nat, b: nat, p: nat)
    ensures a <= b ==> a * p <= b * p
  {
  }

  lemma QuotientBelow(q: nat, p: nat, r: nat, high: nat)
    requires p > 0 && q * p + r < high * p
    ensures q < high
  {
    ProductsGrow(high, q, p);
  }

  /** Text with a value's own fraction digits, as a DECIMAL(precision, scale) column holds it, is
      accepted exactly when the value fits the column: its leading zero never costs it. */
  lemma DecimalTextFits(raw: int, precision: nat, scale: nat)
    requires 1 <= precision && scale <= precision && scale <= MAX_DECIMAL128_SCALE
    ensures ValidatePrecision(FormatDecimal(raw, scale), precision).Fits? <==> Absolute(raw) < Pow10(precision)
  {
    hide AllDigits, Value, Decimal, FormatDecimal, TruncatedQuotient;
    hide TruncatedRemainder, ZeroPadded, OnlyDigits, ValidatePrecision, Pow10;
    var text := FormatDecimal(raw, scale);
    PrecisionCheckIsExact(text, precision);
    if scale == 0 {
      DigitsOfWhole(raw);
      if Absolute(raw) < Pow10(precision) { DecimalWidth(Absolute(raw), precision); }
    } else {
      var p := Pow10(scale);
      var q := Absolute(TruncatedQuotient(raw, p));
      var whole, fraction := Decimal(q), ZeroPadded(Decimal(Absolute(TruncatedRemainder(raw, p))), scale);
      DigitsOfDecimalText(raw, scale, whole, fraction);
      if Absolute(raw) < Pow10(precision) {
        SplitByPower(raw, p);
        PowersMultiply(precision - scale, scale);
        QuotientBelow(q, p, Absolute(TruncatedRemainder(raw, p)), Pow10(precision - scale));
        PowersGrow(precision - scale, precision - scale + 1);
        DecimalWidth(q, precision - scale + 1);
      }
    }
  }

  lemma DigitsOfWhole(raw: int)
    ensures OnlyDigits(FormatDecimal(raw, 0)) == Decimal(Absolute(raw)) && AllDigits(Decimal(Absolute(raw)))
    ensures Value(Decimal(Absolute(raw))) == Absolute(raw)
  {
    hide AllDigits, Value, Decimal, OnlyDigits;
    var digits := Decimal(Absolute(raw));
    DecimalSpells(Absolute(raw));
    DigitsStay(digits);
    SignAndPoint();
    OnlyDigitsJoined("-", digits);
    assert "" + digits == digits;
  }

  /** Other text is refused for its leading zeros alone, although its number fits. */
  lemma LeadingZerosAreCounted()
    ensures ValidatePrecision("0.001", 2) == TooManyDigits(4)
    ensures AllDigits(OnlyDigits("0.001")) && Value(OnlyDigits("0.001")) < Pow10(2)
  {
    DigitsOf("0", '.');
    DigitsOf("0.", '0');
    DigitsOf("0.0", '0');
    DigitsOf("0.00", '1');
    DigitsOf("", '0');
    var digits := OnlyDigits("0.001");
    assert "" + ['0'] == "0" && "0" + ['.'] == "0." && "0." + ['0'] == "0.0" && "0.0" + ['0'] == "0.00"
           && "0.00" + ['1'] == "0.001";
    assert digits == "0001" && digits[1..] == "001" && digits[1..][1..] == "01" && digits[1..][1..][1..] == "1";
    assert TrimZeros("1") == "1" && TrimZeros("01") == "1" && TrimZeros("001") == "1" && TrimZeros("0001") == "1";
    PrecisionCheckIsExact("0.001", 2);
  }

  lemma DigitsOf(s: string, c: char)
    ensures OnlyDigits(s + [c]) == OnlyDigits(s) + if IsDigit(c) then [c] else ""
  {
    assert (s + [c])[..|s|] == s;
  }

  // ---------------------------------------------------------------------------------------------
  // Hexadecimal bytes
  // ---------------------------------------------------------------------------------------------

  function HexValue(c: char): Option<nat> {
    if IsDigit(c) then Some(DigitValue(c))
    else if 'a' <= c <= 'f' then Some(c as int - 'a' as int + 10)
    else if 'A' <= c <= 'F' then Some(c as int - 'A' as int + 10)
    else None
  }

  function HexDigit(d: nat, upper: bool): char
    requires d < 16
  {
    if d < 10 then Digit(d) else ((if upper then 'A' as int else 'a' as int) + d - 10) as char
  }

  type Byte = b: nat | b < 256

  /** Two characters as Rust's radix-16 parser reads them, which takes a leading plus sign. */
  function ReadPair(first: char, second: char): (b: Option<Byte>)
  {
    var high, low := HexValue(first), HexValue(second);
    if low.None? then None
    else if first == '+' then Some(low.value)
    else if high.None? then None
    else Some(16 * high.value + low.value)
  }

  function DecodeHex(s: string): Option<seq<Byte>> {
    if s == "" then Some([])
    else if |s| % 2 == 1 then None
    else
      var first, rest := ReadPair(s[0], s[1]), DecodeHex(s[2..]);
      if first.None? || rest.None? then None else Some([first.value] + rest.value)
  }

  function EncodeHex(bytes: seq<Byte>, upper: bool): string {
    if bytes == [] then ""
    else [HexDigit(bytes[0] / 16, upper), HexDigit(bytes[0] % 16, upper)] + EncodeHex(bytes[1..], upper)
  }

  /** `s` is a hex spelling of `bytes`, its letters in either case. */
  predicate SpellsHex(s: string, bytes: seq<Byte>) {
    |s| == 2 * |bytes| &&
    forall k :: 0 <= k < |bytes| ==>
      HexValue(s[2 * k]) == Some(bytes[k] / 16) && HexValue(s[2 * k + 1]) == Some(bytes[k] % 16)
  }

  lemma {:induction false} EncodingSpells(bytes: seq<Byte>, upper: bool)
    ensures SpellsHex(EncodeHex(bytes, upper), bytes)
  {
    if bytes != [] {
      EncodingSpells(bytes[1..], upper);
      SpellsPairwise(EncodeHex(bytes, upper), bytes);
      assert EncodeHex(bytes, upper)[2..] == EncodeHex(bytes[1..], upper);
    }
  }

  lemma SpellsPairwise(s: string, bytes: seq<Byte>)
    requires bytes != [] && |s| >= 2
    ensures SpellsHex(s, bytes) <==>
              HexValue(s[0]) == Some(bytes[0] / 16) && HexValue(s[1]) == Some(bytes[0] % 16) && SpellsHex(s[2..], bytes[1..])
  {
    hide HexValue;
    var tail, rest := s[2..], bytes[1..];
    if |s| == 2 * |bytes| {
      forall k | 0 <= k < |rest|
        ensures tail[2 * k] == s[2 * (k + 1)] && tail[2 * k + 1] == s[2 * (k + 1) + 1] && rest[k] == bytes[k + 1]
      {
      }
      if SpellsHex(tail, rest) && HexValue(s[0]) == Some(bytes[0] / 16) && HexValue(s[1]) == Some(bytes[0] % 16) {
        forall k | 0 <= k < |bytes|
          ensures HexValue(s[2 * k]) == Some(bytes[k] / 16) && HexValue(s[2 * k + 1]) == Some(bytes[k] % 16)
        {
          if k > 0 { assert tail[2 * (k - 1)] == s[2 * k] && tail[2 * (k - 1) + 1] == s[2 * k + 1]; }
        }
      }
      if SpellsHex(s, bytes) {
        assert s[2 * 0] == s[0] && s[2 * 0 + 1] == s[1];
      }
    }
  }

  lemma PairIsExact(first: char, second: char, b: Byte)
    ensures HexValue(first) == Some(b / 16) && HexValue(second) == Some(b % 16)
            <==> ReadPair(first, second) == Some(b) && first != '+' && second != '+'
  {
  }

  /** Decoding accepts the hex spellings and gives back their bytes; what else it accepts has a plus sign. */
  lemma {:induction false} DecodeHexIsExact(s: string, bytes: seq<Byte>)
    ensures SpellsHex(s, bytes) <==> DecodeHex(s) == Some(bytes) && '+' !in s
  {
    hide HexValue, ReadPair, SpellsHex;
    if s == "" || bytes == [] {
      EmptySpelling(s, bytes);
    } else if |s| == 1 {
      OddSpelling(s, bytes);
    } else {
      DecodeHexIsExact(s[2..], bytes[1..]);
      SpellsPairwise(s, bytes);
      PairIsExact(s[0], s[1], bytes[0]);
      assert s == [s[0], s[1]] + s[2..];
      assert bytes == [bytes[0]] + bytes[1..];
      if |s| % 2 == 1 { OddSpelling(s, bytes); }
    }
  }

  lemma EmptySpelling(s: string, bytes: seq<Byte>)
    requires s == "" || bytes == []
    ensures SpellsHex(s, bytes) <==> s == "" && bytes == []
  {
  }

  lemma OddSpelling(s: string, bytes: seq<Byte>)
    requires |s| % 2 == 1
    ensures !SpellsHex(s, bytes)
  {
  }

  /** Decoding inverts encoding, in either letter case. */
  lemma DecodeInvertsEncode(bytes: seq<Byte>, upper: bool)
    ensures DecodeHex(EncodeHex(bytes, upper)) == Some(bytes)
  {
    EncodingSpells(bytes, upper);
    DecodeHexIsExact(EncodeHex(bytes, upper), bytes);
  }

  /** A plus sign stands for a zero digit, so some accepted text spells no bytes. */
  lemma PlusIsAccepted(bytes: seq<Byte>)
    ensures DecodeHex("+f") == Some([15]) && !SpellsHex("+f", bytes)
  {
    assert "+f"[2..] == "" && DecodeHex("") == Some([]) && ReadPair('+', 'f') == Some(15);
    assert [15] + [] == [15];
    DecodeHexIsExact("+f", bytes);
    assert "+f"[0] in "+f";
  }

  // ---------------------------------------------------------------------------------------------
  // Release versions
  // ---------------------------------------------------------------------------------------------

  const U32_BOUND := 0x1_0000_0000

  /** Rust's unsigned parser: an optional plus sign, then digits whose number is below `bound`. */
  function ParseUnsigned(s: string, bound: nat): (r: Option<nat>)
    ensures r.Some? ==> r.value < bound
  {
    var digits := if s != "" && s[0] == '+' then s[1..] else s;
    if digits != "" && AllDigits(digits) && Value(digits) < bound then Some(Value(digits)) else None
  }

  /** Digits, maybe after a plus sign, of the number `n`. */
  ghost predicate SpellsUnsigned(text: string, n: nat) {
    exists digits :: (text == digits || text == "+" + digits) && IsNumber(digits, n)
  }

  predicate IsNumber(digits: string, n: nat) { digits != "" && AllDigits(digits) && Value(digits) == n }

  lemma UnsignedIsExact(text: string, n: nat, bound: nat)
    ensures ParseUnsigned(text, bound) == Some(n) <==> n < bound && SpellsUnsigned(text, n)
  {
    hide Value;
    if SpellsUnsigned(text, n) {
      var digits :| (text == digits || text == "+" + digits) && IsNumber(digits, n);
      DigitsHaveNo(digits, '+');
      assert digits[0] in digits;
      if text == "+" + digits { assert text[1..] == digits; }
    }
    if ParseUnsigned(text, bound) == Some(n) {
      var digits := if text != "" && text[0] == '+' then text[1..] else text;
      assert (text == digits || text == "+" + digits) && IsNumber(digits, n);
    }
  }

  function LeadingDigits(s: string): string {
    if s != "" && IsDigit(s[0]) then [s[0]] + LeadingDigits(s[1..]) else ""
  }

  datatype Version = Version(major: nat, minor: nat, patch: nat)

  function ParsePatch(parts: seq<string>): Option<nat> {
    if |parts| <= 2 then Some(0)
    else
      var digits := LeadingDigits(parts[2]);
      if digits == "" then None else ParseUnsigned(digits, U32_BOUND)
  }

  function ParseReleaseVersion(s: string): Option<Version> {
    var parts := SplitOn(s, '.');
    if |parts| < 2 then None
    else
      var major, minor, patch := ParseUnsigned(parts[0], U32_BOUND), ParseUnsigned(parts[1], U32_BOUND), ParsePatch(parts);
      if major.None? || minor.None? || patch.None? then None else Some(Version(major.value, minor.value, patch.value))
  }

  /** Lexicographic order on the three numbers. */
  predicate AtLeast(v: Version, w: Version) {
    v.major > w.major ||
    (v.major == w.major && (v.minor > w.minor || (v.minor == w.minor && v.patch >= w.patch)))
  }

  /** The two-component check, blind to the patch number. */
  predicate SupportsAtLeast(v: Version, major: nat, minor: nat) {
    v.major > major || (v.major == major && v.minor >= minor)
  }

  /** The session's check on the release the server reported at login. */
  predicate SessionSupports(release: string, threshold: Version) {
    var v := ParseReleaseVersion(release);
    v.Some? && AtLeast(v.value, threshold)
  }

  const NATIVE_PARQUET_IMPORT := Version(2025, 1, 11)

  lemma {:induction false} LeadingDigitsOfNumber(digits: string, suffix: string)
    requires AllDigits(digits) && (suffix != "" ==> !IsDigit(suffix[0]))
    ensures LeadingDigits(digits + suffix) == digits
  {
    hide Value;
    if digits == "" {
      assert digits + suffix == suffix;
    } else {
      DropLeading(digits);
      LeadingDigitsOfNumber(digits[1..], suffix);
      assert (digits + suffix)[1..] == digits[1..] + suffix;
    }
  }

  lemma FirstPartOf(digits: string, suffix: string)
    requires '.' !in digits
    ensures SplitOn(digits + suffix, '.')[0] == digits + SplitOn(suffix, '.')[0]
    ensures var first := SplitOn(suffix, '.')[0]; first != "" ==> suffix != "" && first[0] == suffix[0]
  {
    var at := FindChar(suffix, '.');
    if at.None? {
      SplitWhole(digits + suffix, '.');
    } else {
      var head, rest := suffix[..at.value], suffix[at.value + 1..];
      assert suffix == head + ['.'] + rest;
      assert digits + suffix == digits + head + ['.'] + rest;
      assert '.' !in head;
      SplitFirst(digits + head, '.', rest);
    }
  }

  lemma DecimalIsParsed(n: nat, bound: nat)
    ensures ParseUnsigned(Decimal(n), bound) == (if n < bound then Some(n) else None) && '.' !in Decimal(n)
  {
    hide AllDigits, Value, Decimal;
    DecimalSpells(n);
    DigitsHaveNo(Decimal(n), '.');
    DigitsHaveNo(Decimal(n), '+');
    assert Decimal(n)[0] in Decimal(n);
  }

  predicate FitsU32(v: Version) { v.major < U32_BOUND && v.minor < U32_BOUND && v.patch < U32_BOUND }

  function PrintVersion(v: Version, suffix: string): string {
    Decimal(v.major) + "." + (Decimal(v.minor) + "." + (Decimal(v.patch) + suffix))
  }

  /** A printed version is recovered, whatever follows it, unless that begins with a digit; a number
      that does not fit 32 bits makes it unreadable. */
  lemma VersionIsRecovered(v: Version, suffix: string)
    requires suffix != "" ==> !IsDigit(suffix[0])
    ensures ParseReleaseVersion(PrintVersion(v, suffix)) ==
              if v.major < 4_294_967_296 && v.minor < 4_294_967_296 && v.patch < 4_294_967_296 then Some(v) else None
  {
    hide AllDigits, Value, Decimal, SplitOn, ParseUnsigned, LeadingDigits;
    DecimalIsParsed(v.major, U32_BOUND);
    DecimalIsParsed(v.minor, U32_BOUND);
    DecimalIsParsed(v.patch, U32_BOUND);
    var third := Decimal(v.patch) + suffix;
    SplitFirst(Decimal(v.major), '.', Decimal(v.minor) + "." + third);
    SplitFirst(Decimal(v.minor), '.', third);
    FirstPartOf(Decimal(v.patch), suffix);
    DecimalSpells(v.patch);
    LeadingDigitsOfNumber(Decimal(v.patch), SplitOn(suffix, '.')[0]);
    var parts := SplitOn(PrintVersion(v, suffix), '.');
    assert parts[0] == Decimal(v.major) && parts[1] == Decimal(v.minor) && parts[2] == SplitOn(third, '.')[0];
  }

  /** Without a third part the patch number is 0. */
  lemma PatchDefaultsToZero(major: nat, minor: nat)
    requires major < U32_BOUND && minor < U32_BOUND
    ensures ParseReleaseVersion(Decimal(major) + "." + Decimal(minor)) == Some(Version(major, minor, 0))
  {
    hide AllDigits, Value, Decimal, SplitOn, ParseUnsigned;
    DecimalIsParsed(major, U32_BOUND);
    DecimalIsParsed(minor, U32_BOUND);
    SplitFirst(Decimal(major), '.', Decimal(minor));
    SplitWhole(Decimal(minor), '.');
    var parts := SplitOn(Decimal(major) + "." + Decimal(minor), '.');
    assert |parts| == 2 && parts[0] == Decimal(major) && parts[1] == Decimal(minor);
  }

  /** On a printed release the session's three-component check at patch 0 and the two-component check
      say the same, whatever the patch number and what follows it. */
  lemma SessionCheckAgrees(v: Version, suffix: string, major: nat, minor: nat)
    requires FitsU32(v) && (suffix != "" ==> !IsDigit(suffix[0]))
    ensures SessionSupports(PrintVersion(v, suffix), Version(major, minor, 0)) <==> SupportsAtLeast(v, major, minor)
  {
    hide ParseReleaseVersion, PrintVersion;
    VersionIsRecovered(v, suffix);
  }

  /** The native Parquet gate on a printed release is the order on the numbers, suffix or not. */
  lemma ParquetGate(v: Version, suffix: string)
    requires FitsU32(v) && (suffix != "" ==> !IsDigit(suffix[0]))
    ensures SessionSupports(PrintVersion(v, suffix), NATIVE_PARQUET_IMPORT) <==>
              v.major > 2025 || (v.major == 2025 && (v.minor > 1 || (v.minor == 1 && v.patch >= 11)))
  {
    hide ParseReleaseVersion, PrintVersion;
    VersionIsRecovered(v, suffix);
  }
}
