/** `Number(s)` for a string: the StringToNumber operation of ECMAScript (section 7.1.4.1.1 of
    ECMA-262). Surrounding whitespace is ignored and the empty text is zero; otherwise the
    text must be a whole StringNumericLiteral: a `0x`, `0o` or `0b` integer, or an optionally
    signed decimal literal with optional fraction and exponent, or `Infinity`. Anything else is
    `NaN`. Values are kept as exact reals. */
module JsNumber {
  import opened Types
  import opened JsString

  datatype Number = NaN | Finite(value: real) | Infinite(negative: bool)

  /** A finite number without a fractional part: the only values a stored integer equals. */
  predicate IsIntegral(x: Number) {
    x.Finite? && x.value == x.value.Floor as real
  }

  /** The integer a number equals, when there is one. */
  function IntegerOf(x: Number): (r: Option<int>)
    ensures r.Some? <==> IsIntegral(x)
    ensures r.Some? ==> x == Finite(r.value as real)
  {
    if IsIntegral(x) then Some(x.value.Floor) else None
  }

  // ---------------------------------------------------------------- digits

  /** The value of a digit character in radices up to 36; 36 for any other character. */
  function DigitValue(c: char): nat {
    if '0' <= c <= '9' then c as int - '0' as int
    else if 'a' <= c <= 'z' then c as int - 'a' as int + 10
    else if 'A' <= c <= 'Z' then c as int - 'A' as int + 10
    else 36
  }

  predicate AllDigitsIn(s: string, radix: nat) {
    forall i :: 0 <= i < |s| ==> DigitValue(s[i]) < radix
  }

  function RadixValue(s: string, radix: nat): nat
    requires AllDigitsIn(s, radix)
  {
    if |s| == 0 then 0
    else RadixValue(s[..|s| - 1], radix) * radix + DigitValue(s[|s| - 1])
  }

  /** A non-empty run of digits of the radix, and its value. */
  function ParseDigits(s: string, radix: nat): (r: Option<nat>)
    ensures r.Some? <==> |s| > 0 && AllDigitsIn(s, radix)
  {
    if |s| > 0 && AllDigitsIn(s, radix) then Some(RadixValue(s, radix)) else None
  }

  predicate AllDecimal(s: string) {
    forall i :: 0 <= i < |s| ==> IsDigit(s[i])
  }

  /** The index of the first `.`, or `|s|`. */
  function DotIndex(s: string): (k: nat)
    ensures k <= |s|
    ensures forall i :: 0 <= i < k ==> s[i] != '.'
    ensures k < |s| ==> s[k] == '.'
  {
    if |s| == 0 || s[0] == '.' then 0 else 1 + DotIndex(s[1..])
  }

  predicate IsExponentMark(c: char) { c == 'e' || c == 'E' }

  /** The index of the first `e` or `E`, or `|s|`. */
  function ExponentIndex(s: string): (k: nat)
    ensures k <= |s|
    ensures forall i :: 0 <= i < k ==> !IsExponentMark(s[i])
    ensures k < |s| ==> IsExponentMark(s[k])
  {
    if |s| == 0 || IsExponentMark(s[0]) then 0 else 1 + ExponentIndex(s[1..])
  }

  // ---------------------------------------------------------------- scaling

  function Pow10(k: nat): (r: nat)
    ensures r >= 1
  {
    if k == 0 then 1 else 10 * Pow10(k - 1)
  }

  /** `m × 10^e`. */
  function Scale(m: nat, e: int): real {
    if e >= 0 then (m * Pow10(e)) as real else m as real / Pow10(-e) as real
  }

  // ---------------------------------------------------------------- the grammar

  /** The mantissa of a decimal literal: digits, optionally a `.` and more digits, with at
      least one digit in all. The result is the value of all the digits and the number of
      them after the point. */
  function ParseMantissa(s: string): Option<(nat, nat)> {
    var d := DotIndex(s);
    var whole := s[..d];
    var fraction := if d < |s| then s[d + 1..] else "";
    if AllDecimal(whole) && AllDecimal(fraction) && |whole| + |fraction| > 0 then
      Some((DecimalValue(whole + fraction), |fraction|))
    else None
  }

  /** SignedInteger: an optional sign and at least one decimal digit. */
  function ParseExponent(s: string): Option<int> {
    if |s| > 0 && (s[0] == '-' || s[0] == '+') then
      var digits := s[1..];
      var v: int := if IsDecimal(digits) then DecimalValue(digits) else 0;
      if IsDecimal(digits) then Some(if s[0] == '-' then -v else v)
      else None
    else if IsDecimal(s) then Some(DecimalValue(s))
    else None
  }

  /** StrUnsignedDecimalLiteral: `Infinity`, or a mantissa with an optional exponent. */
  function UnsignedDecimal(b: string): Number {
    if b == "Infinity" then Infinite(false)
    else
      var k := ExponentIndex(b);
      var m := ParseMantissa(b[..k]);
      var e := if k == |b| then Some(0) else ParseExponent(b[k + 1..]);
      if m.Some? && e.Some? then Finite(Scale(m.value.0, e.value - m.value.1)) else NaN
  }

  function Negate(x: Number): Number {
    match x
    case NaN => NaN
    case Finite(v) => Finite(-v)
    case Infinite(n) => Infinite(!n)
  }

  /** StrDecimalLiteral: an optional sign before the unsigned literal. */
  function DecimalLiteral(t: string): Number {
    if |t| > 0 && t[0] == '+' then UnsignedDecimal(t[1..])
    else if |t| > 0 && t[0] == '-' then Negate(UnsignedDecimal(t[1..]))
    else UnsignedDecimal(t)
  }

  /** The radix a `0x`, `0o` or `0b` prefix announces; such literals take no sign. */
  function PrefixRadix(t: string): Option<nat> {
    if |t| < 2 || t[0] != '0' then None
    else if t[1] == 'x' || t[1] == 'X' then Some(16)
    else if t[1] == 'o' || t[1] == 'O' then Some(8)
    else if t[1] == 'b' || t[1] == 'B' then Some(2)
    else None
  }

  /** StringNumericLiteral once the surrounding whitespace is gone. A prefixed literal whose
      digits do not fit its radix is not a decimal literal either (its second character is a
      letter), so it is `NaN`. */
  function NumericLiteral(t: string): Number {
    if t == "" then Finite(0.0)
    else
      match PrefixRadix(t)
      case Some(radix) =>
        (match ParseDigits(t[2..], radix)
         case Some(n) => Finite(n as real)
         case None => NaN)
      case None => DecimalLiteral(t)
  }

  /** `Number(s)`. */
  function ToNumber(s: string): Number {
    NumericLiteral(Trim(s))
  }

  // ---------------------------------------------------------------- properties

  /** A digit run is a mantissa without a point. */
  lemma MantissaOfDigits(t: string)
    requires IsDecimal(t)
    ensures ParseMantissa(t) == Some((DecimalValue(t), 0))
  {
    assert DotIndex(t) == |t|;
    assert t[..|t|] + "" == t;
  }

  /** A digit run is an unsigned decimal literal without an exponent. */
  lemma UnsignedOfDigits(t: string)
    requires IsDecimal(t)
    ensures UnsignedDecimal(t) == Finite(DecimalValue(t) as real)
  {
    assert IsDigit(t[0]);
    assert t != "Infinity";
    assert ExponentIndex(t) == |t|;
    assert t[..|t|] == t;
    MantissaOfDigits(t);
  }

  /** A digit run carries no radix prefix and no sign. */
  lemma DigitsAreDecimalLiteral(t: string)
    requires IsDecimal(t)
    ensures PrefixRadix(t).None? && DecimalLiteral(t) == UnsignedDecimal(t)
  {
    assert IsDigit(t[0]);
    assert |t| >= 2 ==> IsDigit(t[1]);
  }

  /** Printable ASCII characters other than the space. */
  predicate IsVisible(c: char) { '!' <= c <= '~' }

  /** A text that starts and ends with a printable character is read as it stands. */
  lemma NumberOfTrimmed(s: string)
    requires |s| > 0 && IsVisible(s[0]) && IsVisible(s[|s| - 1])
    ensures ToNumber(s) == NumericLiteral(s)
  {
    TrimOfTrimmed(s);
  }

  /** A run of decimal digits reads as its value: no prefix, sign, point or exponent. */
  lemma NumberOfDigits(t: string)
    requires IsDecimal(t)
    ensures ToNumber(t) == Finite(DecimalValue(t) as real)
  {
    assert IsDigit(t[0]) && IsDigit(t[|t| - 1]);
    NumberOfTrimmed(t);
    DigitsAreDecimalLiteral(t);
    UnsignedOfDigits(t);
  }

  /** `Number(String(n)) == n`. */
  lemma NumberOfDecimal(n: nat)
    ensures ToNumber(DecimalText(n)) == Finite(n as real)
  {
    NumberOfDigits(DecimalText(n));
    DecimalRoundTrip(n);
  }

  /** A sign in front of a digit run is honoured. */
  lemma NumberOfSigned(t: string)
    requires IsDecimal(t)
    ensures ToNumber("+" + t) == Finite(DecimalValue(t) as real)
    ensures ToNumber("-" + t) == Finite(-(DecimalValue(t) as real))
  {
    SignedLiteral("+", t);
    SignedLiteral("-", t);
  }

  lemma SignedLiteral(sign: string, t: string)
    requires sign == "+" || sign == "-"
    requires IsDecimal(t)
    ensures ToNumber(sign + t) == Finite(if sign == "+" then DecimalValue(t) as real else -(DecimalValue(t) as real))
  {
    var s := sign + t;
    assert s[|s| - 1] == t[|t| - 1] && IsDigit(t[|t| - 1]);
    NumberOfTrimmed(s);
    SignedNumericLiteral(sign, t);
  }

  lemma SignedNumericLiteral(sign: string, t: string)
    requires sign == "+" || sign == "-"
    requires IsDecimal(t)
    ensures NumericLiteral(sign + t) == Finite(if sign == "+" then DecimalValue(t) as real else -(DecimalValue(t) as real))
  {
    var s := sign + t;
    assert s[0] == sign[0];
    assert s[1..] == t;
    UnsignedOfDigits(t);
  }

  /** Appending zeros multiplies the value by a power of ten. */
  lemma {:induction false} AppendZeros(s: string, z: string)
    requires AllDecimal(s) && forall i :: 0 <= i < |z| ==> z[i] == '0'
    ensures AllDecimal(s + z)
    ensures DecimalValue(s + z) == DecimalValue(s) * Pow10(|z|)
    decreases |z|
  {
    var sz := s + z;
    if |z| > 0 {
      var z' := z[..|z| - 1];
      AppendZeros(s, z');
      assert sz[..|sz| - 1] == s + z';
      assert sz[|sz| - 1] == '0';
      calc {
        DecimalValue(sz);
        DecimalValue(s + z') * 10;
        DecimalValue(s) * Pow10(|z'|) * 10;
        DecimalValue(s) * Pow10(|z|);
      }
    } else {
      assert sz == s;
    }
  }

  /** Dividing `n × 10^k` by `10^k` gives `n` back. */
  lemma ScaleCancel(n: nat, k: nat)
    ensures Scale(n * Pow10(k), 0 - k) == n as real
  {
    var p := Pow10(k) as real;
    assert (n * Pow10(k)) as real == n as real * p;
    if k > 0 {
      assert (n as real * p) / p == n as real;
    }
  }

  /** A mantissa with a point followed only by zeros has the value of its whole part. */
  lemma MantissaWithZeroFraction(t: string, z: string)
    requires IsDecimal(t) && forall i :: 0 <= i < |z| ==> z[i] == '0'
    ensures var s := t + "." + z;
      && ExponentIndex(s) == |s|
      && ParseMantissa(s) == Some((DecimalValue(t) * Pow10(|z|), |z|))
  {
    var s := t + "." + z;
    assert s[|t|] == '.';
    assert forall i :: 0 <= i < |t| ==> s[i] == t[i];
    assert DotIndex(s) == |t|;
    assert s[..|t|] == t && s[|t| + 1..] == z;
    AppendZeros(t, z);
    assert forall i :: 0 <= i < |s| ==> !IsExponentMark(s[i]);
  }

  /** A literal that starts with a digit followed by a digit, a point or an exponent mark
      has neither a radix prefix nor a sign. */
  lemma LeadingDigitLiteral(s: string)
    requires |s| >= 1 && IsDigit(s[0])
    requires |s| >= 2 ==> IsDigit(s[1]) || s[1] == '.' || s[1] == 'e'
    ensures NumericLiteral(s) == UnsignedDecimal(s)
  {
  }

  lemma ZeroFractionLiteral(t: string, z: string)
    requires IsDecimal(t) && forall i :: 0 <= i < |z| ==> z[i] == '0'
    ensures UnsignedDecimal(t + "." + z) == Finite(DecimalValue(t) as real)
  {
    var s := t + "." + z;
    assert IsDigit(s[0]);
    assert s != "Infinity";
    MantissaWithZeroFraction(t, z);
    assert s[..|s|] == s;
    ScaleCancel(DecimalValue(t), |z|);
  }

  /** A point followed only by zeros (or by nothing) does not change the value: `3.`, `3.0`
      and `3.00` are all 3. */
  lemma NumberOfZeroFraction(t: string, z: string)
    requires IsDecimal(t) && forall i :: 0 <= i < |z| ==> z[i] == '0'
    ensures ToNumber(t + "." + z) == Finite(DecimalValue(t) as real)
  {
    var s := t + "." + z;
    assert s[0] == t[0] && IsDigit(t[0]);
    assert s[|s| - 1] == '.' || s[|s| - 1] == '0';
    NumberOfTrimmed(s);
    assert s[1] == '.' || IsDigit(s[1]);
    LeadingDigitLiteral(s);
    ZeroFractionLiteral(t, z);
  }

  lemma ExponentLiteral(t: string, x: string)
    requires IsDecimal(t) && IsDecimal(x)
    ensures UnsignedDecimal(t + "e" + x) == Finite((DecimalValue(t) * Pow10(DecimalValue(x))) as real)
  {
    var s := t + "e" + x;
    assert IsDigit(s[0]);
    assert s != "Infinity";
    ExponentAfterDigits(t, x);
    MantissaOfDigits(t);
    ExponentOfDigits(x);
  }

  lemma ExponentAfterDigits(t: string, x: string)
    requires IsDecimal(t)
    ensures var s := t + "e" + x; ExponentIndex(s) == |t| && s[..|t|] == t && s[|t| + 1..] == x
  {
    var s := t + "e" + x;
    assert s[|t|] == 'e';
    assert forall i :: 0 <= i < |t| ==> s[i] == t[i];
  }

  lemma ExponentOfDigits(x: string)
    requires IsDecimal(x)
    ensures ParseExponent(x) == Some(DecimalValue(x))
  {
    assert IsDigit(x[0]);
  }

  /** An exponent scales by a power of ten: `3e0` is 3 and `3e2` is 300. */
  lemma NumberOfExponent(t: string, x: string)
    requires IsDecimal(t) && IsDecimal(x)
    ensures ToNumber(t + "e" + x) == Finite((DecimalValue(t) * Pow10(DecimalValue(x))) as real)
  {
    var s := t + "e" + x;
    assert s[0] == t[0] && IsDigit(t[0]);
    assert s[|s| - 1] == x[|x| - 1] && IsDigit(x[|x| - 1]);
    NumberOfTrimmed(s);
    assert s[1] == 'e' || IsDigit(s[1]);
    LeadingDigitLiteral(s);
    ExponentLiteral(t, x);
  }

  lemma HexLiteral(h: string)
    requires |h| > 0 && AllDigitsIn(h, 16)
    ensures NumericLiteral("0x" + h) == Finite(RadixValue(h, 16) as real)
  {
    var s := "0x" + h;
    assert PrefixRadix(s) == Some(16);
    assert s[2..] == h;
  }

  /** A `0x` literal is read in radix sixteen. */
  lemma NumberOfHex(h: string)
    requires |h| > 0 && AllDigitsIn(h, 16)
    ensures ToNumber("0x" + h) == Finite(RadixValue(h, 16) as real)
  {
    var s := "0x" + h;
    assert s[|s| - 1] == h[|h| - 1] && DigitValue(h[|h| - 1]) < 16;
    NumberOfTrimmed(s);
    HexLiteral(h);
  }

  /** Whitespace around the text is ignored. */
  lemma NumberIgnoresPadding(s: string, a: string, b: string)
    requires forall i :: 0 <= i < |a| ==> IsWhitespace(a[i])
    requires forall i :: 0 <= i < |b| ==> IsWhitespace(b[i])
    ensures ToNumber(a + s + b) == ToNumber(s)
  {
    TrimOfPadded(s, a, b);
  }
}
