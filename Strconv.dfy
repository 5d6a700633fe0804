/** The two `strconv` parsers scoring calls, over exact numbers:
    `ParseFloat(s, 64)` on decimal literals and `Atoi` on a 64-bit platform.
    Each has a printer beside it and a lemma that parsing what it prints
    gives the number back. */
module Strconv {
  import opened Wrappers
  import opened Digits
  import opened Decimals

  const MinInt64: int := -0x8000_0000_0000_0000
  const MaxInt64: int := 0x7fff_ffff_ffff_ffff

  predicate HasSign(s: string) {
    |s| > 0 && (s[0] == '+' || s[0] == '-')
  }

  predicate IsNegative(s: string) {
    HasSign(s) && s[0] == '-'
  }

  /** `s` without its optional leading sign. */
  function Unsigned(s: string): (body: string)
    ensures s == (if HasSign(s) then [s[0]] else []) + body
  {
    if HasSign(s) then s[1..] else s
  }

  /** The length of the run of digits `s` starts with. */
  function SpanDigits(s: string): (n: nat)
    ensures n <= |s| && AllDigits(s[..n])
    ensures n < |s| ==> !IsDigit(s[n])
  {
    if s == [] || !IsDigit(s[0]) then 0
    else
      var n := 1 + SpanDigits(s[1..]);
      assert forall i | 1 <= i < n :: s[i] == s[1..][i - 1];
      n
  }

  lemma SpanDigitsOfDigits(a: string, b: string)
    requires AllDigits(a)
    requires b == [] || !IsDigit(b[0])
    ensures SpanDigits(a + b) == |a|
  {
    if a != [] {
      assert (a + b)[1..] == a[1..] + b;
      SpanDigitsOfDigits(a[1..], b);
    }
  }

  /** `strconv.Atoi`: an optional sign then at least one decimal digit and
      nothing else; a value outside the 64-bit range is an error. */
  function Atoi(s: string): (r: Option<int>)
    ensures r.Some? ==> MinInt64 <= r.value <= MaxInt64
    ensures r.Some? ==> (r.value < 0 ==> IsNegative(s))
  {
    var body := Unsigned(s);
    if body == [] || !AllDigits(body) then None
    else
      var v: int := if IsNegative(s) then -(DigitsValue(body) as int) else DigitsValue(body);
      if MinInt64 <= v <= MaxInt64 then Some(v) else None
  }

  /** `Atoi` reads a run of digits, leading zeros included, as the number
      they spell, after a `+` as well, and negated after a `-`; a value
      outside the 64-bit range is an error. */
  lemma AtoiDigits(digits: string)
    requires digits != [] && AllDigits(digits)
    ensures var v: int := DigitsValue(digits);
      && Atoi(digits) == (if v <= MaxInt64 then Some(v) else None)
      && Atoi("+" + digits) == (if v <= MaxInt64 then Some(v) else None)
      && Atoi("-" + digits) == (if MinInt64 <= -v then Some(-v) else None)
  {
    assert !HasSign(digits);
    AtoiOfParts(digits, digits, false);
    AtoiOfParts("+" + digits, digits, false);
    AtoiOfParts("-" + digits, digits, true);
  }

  /** A text whose unsigned part is a run of digits reads as their value,
      negated when the text starts with `-`, if that lies in the 64-bit range. */
  lemma AtoiOfParts(s: string, digits: string, negative: bool)
    requires Unsigned(s) == digits && (IsNegative(s) <==> negative)
    requires digits != [] && AllDigits(digits)
    ensures var v: int := if negative then -(DigitsValue(digits) as int) else DigitsValue(digits);
      Atoi(s) == if MinInt64 <= v <= MaxInt64 then Some(v) else None
  {
  }

  /** What `Atoi` accepts is an optional sign and at least one digit, and
      nothing else; the value is what the digits spell, with that sign. */
  lemma AtoiAccepts(s: string)
    requires Atoi(s).Some?
    ensures Unsigned(s) != [] && AllDigits(Unsigned(s))
    ensures Atoi(s).value == if IsNegative(s) then -(DigitsValue(Unsigned(s)) as int) else DigitsValue(Unsigned(s))
  {
  }

  /** `strconv.Itoa`: the shortest decimal form of `n`. */
  function Itoa(n: int): (s: string)
    ensures MinInt64 <= n <= MaxInt64 ==> Atoi(s) == Some(n)
  {
    var digits := NatToDigits(if n < 0 then -n else n, 1);
    AtoiOfMagnitude(n, digits);
    if n < 0 then "-" + digits else digits
  }

  /** The digits of `|n|`, after a `-` when `n` is negative, read as `n`. */
  lemma AtoiOfMagnitude(n: int, digits: string)
    requires digits != [] && AllDigits(digits) && DigitsValue(digits) == if n < 0 then -n else n
    ensures MinInt64 <= n <= MaxInt64 ==> Atoi(if n < 0 then "-" + digits else digits) == Some(n)
  {
    AtoiDigits(digits);
  }

  /** The exponent suffix of a decimal literal: nothing, or `e`/`E`, a sign
      and at least one digit. */
  function ParseExponent(s: string): (r: Option<int>)
    ensures s == [] ==> r == Some(0)
  {
    if s == [] then Some(0)
    else if s[0] == 'e' || s[0] == 'E' then
      var t := s[1..];
      var digits := Unsigned(t);
      if digits == [] || !AllDigits(digits) then None
      else
        var e: int := if IsNegative(t) then -(DigitsValue(digits) as int) else DigitsValue(digits);
        Some(e)
    else None
  }

  /** `mant / 10^scale * 10^exp` as a decimal. */
  function Shift(mant: int, scale: nat, exp: int): (d: Decimal)
    ensures exp == 0 ==> d == Decimal(mant, scale)
  {
    if exp >= scale then Decimal(mant * Pow10(exp - scale), 0)
    else Decimal(mant, scale - exp)
  }

  /** The digits of a literal's mantissa read left to right with the
      decimal point dropped, how many of them follow the point, and the
      text after the mantissa. */
  datatype Mantissa = Mantissa(digits: string, fracLen: nat, tail: string)

  /** Digits, then optionally a point and more digits. */
  function ScanMantissa(body: string): (m: Mantissa)
    ensures AllDigits(m.digits) && m.fracLen <= |m.digits|
  {
    var n := SpanDigits(body);
    var rest := body[n..];
    if rest != [] && rest[0] == '.' then
      var k := SpanDigits(rest[1..]);
      Mantissa(body[..n] + rest[1..][..k], k, rest[1..][k..])
    else
      Mantissa(body[..n], 0, rest)
  }

  /** `strconv.ParseFloat(s, 64)` on decimal literals: an optional sign,
      digits with at most one decimal point and at least one digit, then an
      optional exponent, and nothing else. The result keeps every digit:
      the number of fraction digits written is its scale. */
  function ParseFloat(s: string): (r: Option<Decimal>)
    ensures s == [] ==> r.None?
  {
    var m := ScanMantissa(Unsigned(s));
    if m.digits == [] then None
    else
      match ParseExponent(m.tail)
      case None => None
      case Some(e) =>
        var mag: int := DigitsValue(m.digits);
        Some(Shift(if IsNegative(s) then -mag else mag, m.fracLen, e))
  }

  /** What `ParseFloat` accepts and nothing else: an optional sign, then
      whole digits, optionally a point and fraction digits, at least one
      digit in all, then either nothing or `e`/`E` with an optional sign and
      at least one digit. */
  lemma ParseFloatAccepts(s: string) returns (whole: string, point: string, frac: string, exponent: string)
    requires ParseFloat(s).Some?
    ensures Unsigned(s) == whole + point + frac + exponent
    ensures AllDigits(whole) && AllDigits(frac) && whole + frac != []
    ensures point == "." || (point == "" && frac == "")
    ensures exponent == [] || ((exponent[0] == 'e' || exponent[0] == 'E')
      && Unsigned(exponent[1..]) != [] && AllDigits(Unsigned(exponent[1..])))
  {
    whole, point, frac, exponent := ScanMantissaParts(Unsigned(s));
    ParseExponentAccepts(exponent);
  }

  /** The pieces `ScanMantissa` cuts its text into. */
  lemma ScanMantissaParts(body: string) returns (whole: string, point: string, frac: string, tail: string)
    ensures body == whole + point + frac + tail
    ensures AllDigits(whole) && AllDigits(frac)
    ensures point == "." || (point == "" && frac == "")
    ensures ScanMantissa(body) == Mantissa(whole + frac, |frac|, tail)
  {
    var n := SpanDigits(body);
    var rest := body[n..];
    whole := body[..n];
    if rest != [] && rest[0] == '.' {
      point := ".";
      frac, tail := ScanFraction(body, n);
    } else {
      point, frac, tail := "", "", rest;
      assert body == whole + rest;
      assert whole + frac == whole;
    }
  }

  /** The fraction digits and the tail after a point at position `n`. */
  lemma ScanFraction(body: string, n: nat) returns (frac: string, tail: string)
    requires n == SpanDigits(body) && n < |body| && body[n] == '.'
    ensures body == body[..n] + "." + frac + tail
    ensures AllDigits(frac)
    ensures ScanMantissa(body) == Mantissa(body[..n] + frac, |frac|, tail)
  {
    var after := body[n..][1..];
    var k := SpanDigits(after);
    frac := after[..k];
    tail := after[k..];
    CutAroundPoint(body, n, k);
  }

  /** Cutting `body` around position `n` and then `k` further on. */
  lemma CutAroundPoint(body: string, n: nat, k: nat)
    requires n < |body| && body[n] == '.' && k <= |body| - n - 1
    ensures body == body[..n] + "." + body[n..][1..][..k] + body[n..][1..][k..]
  {
    var after := body[n..][1..];
    assert after == body[n + 1..];
    assert after[..k] == body[n + 1..n + 1 + k];
    assert after[k..] == body[n + 1 + k..];
  }

  /** What `ParseExponent` accepts: nothing, or `e`/`E`, an optional sign
      and at least one digit. */
  lemma ParseExponentAccepts(e: string)
    requires ParseExponent(e).Some?
    ensures e == [] || ((e[0] == 'e' || e[0] == 'E') && Unsigned(e[1..]) != [] && AllDigits(Unsigned(e[1..])))
  {
  }

  /** A literal without exponent: an optional `-`, the whole digits, and
      when there are fraction digits a point followed by them. */
  function PlainLiteral(negative: bool, whole: string, frac: string): (s: string)
    requires AllDigits(whole) && AllDigits(frac) && whole != []
    ensures |s| >= 1
  {
    (if negative then "-" else "") + whole + (if frac == [] then "" else "." + frac)
  }

  /** A plain literal parses to its digits read as one number, scaled by
      the number of fraction digits. */
  lemma {:induction false} ParsePlainLiteral(negative: bool, whole: string, frac: string)
    requires AllDigits(whole) && AllDigits(frac) && whole != []
    ensures AllDigits(whole + frac)
    ensures ParseFloat(PlainLiteral(negative, whole, frac))
         == Some(Decimal(if negative then -(DigitsValue(whole + frac) as int) else DigitsValue(whole + frac), |frac|))
  {
    var body := whole + (if frac == [] then "" else "." + frac);
    PlainLiteralSign(negative, whole, frac);
    ScanPlainMantissa(whole, frac);
    ParseFromParts(PlainLiteral(negative, whole, frac), body, whole + frac, |frac|, negative);
  }

  /** A text whose unsigned part scans to a whole mantissa, with no text
      after it, parses to the mantissa's digits with its sign. */
  lemma ParseFromParts(s: string, body: string, digits: string, fracLen: nat, negative: bool)
    requires Unsigned(s) == body && (IsNegative(s) <==> negative)
    requires ScanMantissa(body) == Mantissa(digits, fracLen, []) && digits != []
    ensures AllDigits(digits)
    ensures ParseFloat(s) == Some(Decimal(if negative then -(DigitsValue(digits) as int) else DigitsValue(digits), fracLen))
  {
  }

  lemma PlainLiteralSign(negative: bool, whole: string, frac: string)
    requires AllDigits(whole) && AllDigits(frac) && whole != []
    ensures Unsigned(PlainLiteral(negative, whole, frac)) == whole + (if frac == [] then "" else "." + frac)
    ensures IsNegative(PlainLiteral(negative, whole, frac)) <==> negative
  {
    var body := whole + (if frac == [] then "" else "." + frac);
    var s := (if negative then "-" else "") + body;
    assert s == PlainLiteral(negative, whole, frac);
    assert Unsigned(s) == body && (IsNegative(s) <==> negative);
  }

  lemma ParseWithoutExponent(s: string, digits: string, fracLen: nat)
    requires ScanMantissa(Unsigned(s)) == Mantissa(digits, fracLen, [])
    requires AllDigits(digits) && digits != []
    ensures ParseFloat(s) == Some(Decimal(if IsNegative(s) then -(DigitsValue(digits) as int) else DigitsValue(digits), fracLen))
  {
  }

  lemma ScanPlainMantissa(whole: string, frac: string)
    requires AllDigits(whole) && AllDigits(frac)
    ensures ScanMantissa(whole + (if frac == [] then "" else "." + frac)) == Mantissa(whole + frac, |frac|, [])
  {
    var point := if frac == [] then "" else "." + frac;
    var body := whole + point;
    SpanDigitsOfDigits(whole, point);
    assert body[..|whole|] == whole && body[|whole|..] == point;
    if frac == [] {
      assert whole + frac == whole;
    } else {
      assert point[1..] == frac;
      SpanDigitsOfDigits(frac, []);
      assert frac + [] == frac;
      assert frac[..|frac|] == frac && frac[|frac|..] == [];
    }
  }

  /** A decimal written out plainly: a `-` for a negative value, the whole
      part, and when the scale is positive a point followed by exactly
      `scale` fraction digits. */
  function FormatDecimal(d: Decimal): (s: string)
    ensures |s| >= 1
  {
    var mag: nat := if d.mant < 0 then -d.mant else d.mant;
    var p := Pow10(d.scale);
    DivBounds(mag, p);
    var frac := if d.scale == 0 then "" else NatToDigits(mag % p, d.scale);
    PlainLiteral(d.mant < 0, NatToDigits(mag / p, 1), frac)
  }

  /** Parsing a printed decimal gives back exactly that decimal, scale included. */
  lemma {:induction false} ParseFormatRoundTrip(d: Decimal)
    ensures ParseFloat(FormatDecimal(d)) == Some(d)
  {
    var whole, frac := FormatDecimalParts(d);
    ParsePlainLiteral(d.mant < 0, whole, frac);
  }

  /** The whole and fraction digits `FormatDecimal` writes: together they
      spell the magnitude, and there are `scale` fraction digits. */
  lemma {:induction false} FormatDecimalParts(d: Decimal) returns (whole: string, frac: string)
    ensures AllDigits(whole) && AllDigits(frac) && whole != []
    ensures FormatDecimal(d) == PlainLiteral(d.mant < 0, whole, frac)
    ensures |frac| == d.scale
    ensures AllDigits(whole + frac)
    ensures DigitsValue(whole + frac) == if d.mant < 0 then -d.mant else d.mant
  {
    var mag: nat := if d.mant < 0 then -d.mant else d.mant;
    var p := Pow10(d.scale);
    DivBounds(mag, p);
    var q, r := mag / p, mag % p;
    whole := NatToDigits(q, 1);
    frac := if d.scale == 0 then "" else NatToDigits(r, d.scale);
    assert |frac| == d.scale && DigitsValue(frac) == r by {
      if d.scale == 0 {
        assert p == 1;
      }
    }
    DigitsValueAppend(whole, frac);
    assert DigitsValue(whole + frac) == q * p + r;
  }
}
