/**
 * Small facts about products and quotients of reals. Each is stated over
 * plain scalars so that a proof about points or walls can name the one
 * product step it needs without handing the solver the whole polynomial.
 */
module Reals {

  /** Multiplying by a non-negative real keeps order. */
  lemma MulMonotone(a: real, b: real, p: real)
    requires a <= b && 0.0 <= p
    ensures a * p <= b * p
  {
    assert b * p - a * p == (b - a) * p;
  }

  /** The same with the non-negative factor on the left. */
  lemma MulMonotoneLeft(p: real, a: real, b: real)
    requires a <= b && 0.0 <= p
    ensures p * a <= p * b
  {
    assert p * b - p * a == p * (b - a);
  }

  /** A product of a unit fraction and a non-negative number lies between 0 and that number. */
  lemma MulBetween(u: real, m: real)
    requires 0.0 <= u <= 1.0 && 0.0 <= m
    ensures 0.0 <= u * m <= m
  {
    assert m - u * m == (1.0 - u) * m;
  }

  /** Two unit fractions that sum to at most 1, of a non-negative number, are non-negative and sum to at most it. */
  lemma MulSumBetween(a: real, b: real, m: real)
    requires 0.0 <= a && 0.0 <= b && a + b <= 1.0 && 0.0 <= m
    ensures 0.0 <= a * m && 0.0 <= b * m && a * m + b * m <= m
  {
    MulNonNegative(a, m);
    MulNonNegative(b, m);
    var r := 1.0 - a - b;
    MulNonNegative(r, m);
    assert r * m == m - a * m - b * m;
  }

  /** The mirror image of `MulSumBetween` for a non-positive number. */
  lemma MulSumBetweenNonPositive(a: real, b: real, m: real)
    requires 0.0 <= a && 0.0 <= b && a + b <= 1.0 && m <= 0.0
    ensures a * m <= 0.0 && b * m <= 0.0 && m <= a * m + b * m
  {
    var n := -m;
    MulSumBetween(a, b, n);
    MulNegate(a, m, n);
    MulNegate(b, m, n);
  }

  /** The same bound for the complement of a unit fraction: `0 <= u * (1 - s) <= 1 - s`. */
  lemma MulBetweenComplement(u: real, s: real)
    requires 0.0 <= u <= 1.0 && 0.0 <= s <= 1.0
    ensures 0.0 <= u * (1.0 - s) <= 1.0 - s
  {
    assert (1.0 - s) - u * (1.0 - s) == (1.0 - u) * (1.0 - s);
    MulNonNegative(1.0 - u, 1.0 - s);
    MulNonNegative(u, 1.0 - s);
  }

  /** The product of two non-negative reals is non-negative. */
  lemma MulNonNegative(u: real, v: real)
    requires 0.0 <= u && 0.0 <= v
    ensures 0.0 <= u * v
  {
  }

  /** Negating one factor negates the product. */
  lemma MulNegate(t: real, x: real, y: real)
    requires y == -x
    ensures t * y == -(t * x)
  {
  }

  /** A number no larger in size than a positive divisor gives a quotient between -1 and 1. */
  lemma QuotientInUnit(y: real, x: real)
    requires 0.0 < x && -x <= y <= x
    ensures -1.0 <= y / x <= 1.0
  {
    var q := y / x;
    assert q * x == y;
    assert (1.0 - q) * x == x - y && (q + 1.0) * x == y + x;
  }

  /** The quotient of a non-negative number by a positive one is non-negative. */
  lemma DivNonNegative(n: real, z: real)
    requires 0.0 <= n && 0.0 < z
    ensures 0.0 <= n / z
  {
    assert n / z * z == n;
  }
}
