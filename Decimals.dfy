/** Exact decimal numbers, the model's replacement for the `float64` values
    `strconv.ParseFloat` returns. The three tests the scoring rules apply to
    such a number are computed in integers here, and each is proved to agree
    with the Go expression it replaces, evaluated on the exact value. */
module Decimals {
  import opened Digits
  import GoMath

  /** The number `mant / 10^scale`. */
  datatype Decimal = Decimal(mant: int, scale: nat)

  function Value(d: Decimal): real {
    d.mant as real / Pow10(d.scale) as real
  }

  /** Integer part has no remainder: `total == math.Floor(total)`. */
  predicate IsWhole(d: Decimal) {
    d.mant % Pow10(d.scale) == 0
  }

  /** Four times the value is whole: `math.Mod(total, 0.25) == 0`. */
  predicate IsQuarterMultiple(d: Decimal) {
    (4 * d.mant) % Pow10(d.scale) == 0
  }

  /** `math.Ceil(price * 0.2)`: the value divided by five, rounded up. */
  function CeilFifth(d: Decimal): int {
    -((-d.mant) / (5 * Pow10(d.scale)))
  }

  /** The floor of an exact quotient is Dafny's (floor) integer division. */
  lemma FloorOfQuotient(a: int, b: int)
    requires b > 0
    ensures GoMath.Floor(a as real / b as real) == a / b
    ensures a as real / b as real == (a / b) as real <==> a % b == 0
  {
    var q, r := a / b, a % b;
    var x := a as real / b as real;
    assert a == q * b + r && 0 <= r < b;
    assert x * b as real == a as real;
    assert (q as real + r as real / b as real) * b as real == q as real * b as real + r as real;
    assert x == q as real + r as real / b as real;
    assert 0.0 <= r as real / b as real < 1.0;
  }

  lemma WholeIffFloor(d: Decimal)
    ensures IsWhole(d) <==> Value(d) == GoMath.Floor(Value(d)) as real
  {
    FloorOfQuotient(d.mant, Pow10(d.scale));
  }

  lemma QuarterIffMod(d: Decimal)
    ensures IsQuarterMultiple(d) <==> GoMath.Mod(Value(d), 0.25) == 0.0
  {
    var p := Pow10(d.scale);
    var v := Value(d);
    assert v / 0.25 == (4 * d.mant) as real / p as real;
    FloorOfQuotient(4 * d.mant, p);
    FloorOfQuotient(-4 * d.mant, p);
    assert (-4 * d.mant) as real / p as real == -(v / 0.25);
    NegRemZero(4 * d.mant, p);
  }

  lemma NegRemZero(a: int, b: int)
    requires b > 0
    ensures (-a) % b == 0 <==> a % b == 0
  {
    if a % b == 0 {
      MultipleHasNoRemainder(-(a / b), b);
    }
    if (-a) % b == 0 {
      MultipleHasNoRemainder(-((-a) / b), b);
    }
  }

  /** A multiple of `b` leaves no remainder. */
  lemma MultipleHasNoRemainder(k: int, b: int)
    requires b > 0
    ensures (k * b) % b == 0
  {
    var q, r := (k * b) / b, (k * b) % b;
    assert r == (k - q) * b;
    if k - q >= 1 {
      assert false;
    } else if k - q <= -1 {
      assert false;
    }
  }

  lemma CeilFifthIsCeil(d: Decimal)
    ensures CeilFifth(d) == GoMath.Ceil(Value(d) * 0.2)
  {
    var p := Pow10(d.scale);
    assert -(Value(d) * 0.2) == (-d.mant) as real / (5 * p) as real;
    FloorOfQuotient(-d.mant, 5 * p);
  }

  /** Every whole number is a multiple of a quarter. */
  lemma WholeIsQuarterMultiple(d: Decimal)
    requires IsWhole(d)
    ensures IsQuarterMultiple(d)
  {
    var p := Pow10(d.scale);
    var k := d.mant / p;
    assert d.mant == k * p;
    assert 4 * d.mant == (4 * k) * p;
    MultipleHasNoRemainder(4 * k, p);
  }

  /** A non-negative value rounds up to a non-negative number of fifths. */
  lemma CeilFifthNonNegative(d: Decimal)
    requires d.mant >= 0
    ensures CeilFifth(d) >= 0
  {
  }
}
