/** Decimal digit strings: their value, and the canonical digit string of
    a natural number. Shared by the number and clock parsers. */
module Digits {

  predicate IsDigit(c: char) {
    '0' <= c <= '9'
  }

  predicate AllDigits(s: string) {
    forall i | 0 <= i < |s| :: IsDigit(s[i])
  }

  function DigitValue(c: char): (d: nat)
    requires IsDigit(c)
    ensures d < 10
  {
    (c as int) - ('0' as int)
  }

  function DigitChar(d: nat): (c: char)
    requires d < 10
    ensures IsDigit(c) && DigitValue(c) == d
  {
    (('0' as int) + d) as char
  }

  function Pow10(n: nat): (p: nat)
    ensures p >= 1
  {
    if n == 0 then 1 else 10 * Pow10(n - 1)
  }

  /** The number a string of decimal digits denotes, most significant first. */
  function DigitsValue(s: string): (v: nat)
    requires AllDigits(s)
    ensures v < Pow10(|s|)
  {
    if s == [] then 0 else DigitsValue(s[..|s| - 1]) * 10 + DigitValue(s[|s| - 1])
  }

  lemma DigitsValueSnoc(s: string, c: char)
    requires AllDigits(s) && IsDigit(c)
    ensures AllDigits(s + [c])
    ensures DigitsValue(s + [c]) == DigitsValue(s) * 10 + DigitValue(c)
  {
    assert (s + [c])[..|s|] == s;
  }

  /** The digits of `a + b` denote `a`'s value shifted left by `|b|` places plus `b`'s. */
  lemma {:induction false} DigitsValueAppend(a: string, b: string)
    requires AllDigits(a) && AllDigits(b)
    ensures AllDigits(a + b)
    ensures DigitsValue(a + b) == DigitsValue(a) * Pow10(|b|) + DigitsValue(b)
  {
    if b == [] {
      assert a + b == a;
    } else {
      var b' := b[..|b| - 1];
      var c := b[|b| - 1];
      assert b == b' + [c];
      assert a + b == (a + b') + [c];
      DigitsValueAppend(a, b');
      DigitsValueSnoc(a + b', c);
      DigitsValueSnoc(b', c);
      ShiftArith(DigitsValue(a), Pow10(|b'|), DigitsValue(b'), DigitValue(c));
    }
  }

  lemma ShiftArith(x: int, p: int, y: int, d: int)
    ensures (x * p + y) * 10 + d == x * (10 * p) + (y * 10 + d)
  {
  }

  /** Quotient and remainder of natural numbers are natural numbers. */
  lemma DivBounds(a: nat, b: nat)
    requires b > 0
    ensures 0 <= a / b <= a && 0 <= a % b < b
    ensures a == (a / b) * b + a % b
  {
    var q, r := a / b, a % b;
    assert a == q * b + r && 0 <= r < b;
    if q < 0 {
      NegativeTimesPositive(q, b);
    } else {
      NaturalTimesPositive(q, b);
    }
  }

  lemma NegativeTimesPositive(x: int, b: int)
    requires x <= -1 && b >= 1
    ensures x * b <= -b
  {
  }

  lemma NaturalTimesPositive(x: int, b: int)
    requires x >= 0 && b >= 1
    ensures x * b >= x
  {
  }

  /** The decimal digits of `n`, left-padded with zeros to at least `width`
      characters; never empty. */
  function NatToDigits(n: nat, width: nat): (s: string)
    ensures AllDigits(s) && DigitsValue(s) == n
    ensures 1 <= |s| && width <= |s|
    ensures 1 <= width && n < Pow10(width) ==> |s| == width
    decreases n + width
  {
    if n < 10 && width <= 1 then
      [DigitChar(n)]
    else
      var prefix := NatToDigits(n / 10, if width == 0 then 0 else width - 1);
      DigitsValueSnoc(prefix, DigitChar(n % 10));
      assert 1 <= width && n < Pow10(width) ==> n / 10 < Pow10(width - 1);
      prefix + [DigitChar(n % 10)]
  }
}
