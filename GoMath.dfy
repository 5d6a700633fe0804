/** The Go arithmetic the scoring rules are written in, over exact numbers:
    `math.Floor`, `math.Ceil`, `math.Mod` on reals in place of `float64`,
    and the integer remainder operator `%`, which truncates toward zero. */
module GoMath {

  /** `math.Floor`: the greatest integer not above `x`. */
  function Floor(x: real): (f: int)
    ensures f as real <= x < f as real + 1.0
  {
    x.Floor
  }

  /** `math.Ceil`: the least integer not below `x`. */
  function Ceil(x: real): (c: int)
    ensures c as real - 1.0 < x <= c as real
  {
    -((-x).Floor)
  }

  /** Rounding toward zero, which `math.Mod` uses for its quotient. */
  function Trunc(x: real): (t: int)
    ensures 0.0 <= x ==> 0 <= t && t as real <= x < t as real + 1.0
    ensures x < 0.0 ==> t <= 0 && t as real - 1.0 < x <= t as real
  {
    if x >= 0.0 then x.Floor else -((-x).Floor)
  }

  /** `math.Mod(x, y)`: the remainder of `x / y` whose quotient is rounded
      toward zero, so it has the sign of `x` and magnitude below `|y|`. */
  function Mod(x: real, y: real): (m: real)
    requires y != 0.0
    ensures x == y * Trunc(x / y) as real + m
    ensures m == 0.0 <==> x / y == Trunc(x / y) as real
    ensures 0.0 <= x ==> 0.0 <= m < (if y > 0.0 then y else -y)
    ensures x < 0.0 ==> -(if y > 0.0 then y else -y) < m <= 0.0
  {
    ModBounds(x, y);
    x - y * Trunc(x / y) as real
  }

  /** The remainder left by the truncated quotient has the sign of `x` and
      is smaller in magnitude than `y`. */
  lemma ModBounds(x: real, y: real)
    requires y != 0.0
    ensures var m := x - y * Trunc(x / y) as real;
      && (0.0 <= x ==> 0.0 <= m < (if y > 0.0 then y else -y))
      && (x < 0.0 ==> -(if y > 0.0 then y else -y) < m <= 0.0)
  {
    var q := x / y;
    var t := Trunc(q) as real;
    assert x == q * y;
    if y > 0.0 && 0.0 <= x {
      assert 0.0 <= q;
      ScaledFraction(x, y, q, t);
    } else if y > 0.0 {
      assert q < 0.0;
      ScaledFraction(-x, y, -q, -t);
    } else if 0.0 <= x {
      assert q <= 0.0;
      ScaledFraction(x, -y, -q, -t);
    } else {
      assert 0.0 < q;
      ScaledFraction(-x, -y, q, t);
    }
  }

  /** When `x` is `q` times a positive `y` and `q` lies in `[lo, lo + 1)`,
      `x` lies in `[y * lo, y * lo + y)`. */
  lemma ScaledFraction(x: real, y: real, q: real, lo: real)
    requires 0.0 < y && x == q * y && lo <= q < lo + 1.0
    ensures y * lo <= x < y * lo + y
  {
    var f := q - lo;
    assert x - y * lo == f * y;
    assert y - f * y == (1.0 - f) * y;
    assert 0.0 <= f * y;
    assert 0.0 < (1.0 - f) * y;
  }

  /** Go's `a % b` on `int`: the remainder of division truncated toward
      zero, whose sign is that of `a` (Dafny's `%` is Euclidean). */
  function Rem(a: int, b: int): (r: int)
    requires b != 0
    ensures exists q :: a == q * b + r
    ensures 0 <= a ==> 0 <= r < if b > 0 then b else -b
    ensures a < 0 ==> -(if b > 0 then b else -b) < r <= 0
  {
    var m := if b > 0 then b else -b;
    if a >= 0 then
      var r := a % m;
      assert a == (a / m) * m + r;
      assert a == (if b > 0 then a / m else -(a / m)) * b + r;
      r
    else
      var r := -((-a) % m);
      assert -a == ((-a) / m) * m - r;
      assert a == (if b > 0 then -((-a) / m) else (-a) / m) * b + r;
      r
  }
  /** `a % 2 == 1` in Go holds exactly for the positive odd numbers. */
  lemma RemTwoIsOne(a: int)
    ensures Rem(a, 2) == 1 <==> a > 0 && a % 2 == 1
  {
    if a >= 0 {
      assert Rem(a, 2) == a % 2;
    }
  }

}
