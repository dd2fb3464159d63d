/**
 * Integer conversions and accumulations used throughout the renderer, stated
 * with C++ semantics over Dafny's unbounded `int` and exact `real`.
 */
module Numeric {

  /** C++ `(int)r`: truncation toward zero (Dafny's `.Floor` rounds toward minus infinity). */
  function Trunc(r: real): (n: int)
    ensures 0.0 <= r ==> 0 <= n && n as real <= r < n as real + 1.0
    ensures r < 0.0 ==> n <= 0 && n as real - 1.0 < r <= n as real
  {
    if r >= 0.0 then r.Floor else -((-r).Floor)
  }

  /** Truncation is odd: it commutes with negation. */
  lemma TruncNeg(r: real)
    ensures Trunc(-r) == -Trunc(r)
  {
  }

  /** Truncating a whole number gives it back. */
  lemma TruncWhole(n: int)
    ensures Trunc(n as real) == n
  {
  }

  /** Truncation is monotone. */
  lemma TruncMonotone(a: real, b: real)
    requires a <= b
    ensures Trunc(a) <= Trunc(b)
  {
  }

  /** C++ `n / 2` on `int`: the quotient is truncated toward zero. */
  function Half(n: int): (h: int)
    ensures 0 <= n ==> 0 <= h && 2 * h <= n <= 2 * h + 1
    ensures n < 0 ==> h <= 0 && 2 * h - 1 <= n <= 2 * h
  {
    if n >= 0 then n / 2 else -((-n) / 2)
  }

  /** C++ `a % b` on `int`: the remainder takes the sign of the dividend. */
  function CRem(a: int, b: int): (r: int)
    requires b != 0
    ensures 0 <= a ==> 0 <= r < if b > 0 then b else -b
    ensures a < 0 ==> -(if b > 0 then b else -b) < r <= 0
  {
    if a >= 0 then a % b else -((-a) % b)
  }

  /** The value of an accumulator `v` after `n` executions of `v += step`. */
  function Stepped(start: real, step: real, n: nat): real
    decreases n
  {
    if n == 0 then start else Stepped(start + step, step, n - 1)
  }

  /** Repeated `+=` of a fixed step is exact over the reals: it is the closed form. */
  lemma {:induction false} SteppedClosedForm(start: real, step: real, n: nat)
    ensures Stepped(start, step, n) == start + n as real * step
    decreases n
  {
    if n > 0 {
      SteppedClosedForm(start + step, step, n - 1);
    }
  }

  /**
   * Linear interpolation by accumulated steps hits the far endpoint exactly:
   * `d` steps of `(b - a) / d` starting at `a` end at `b`.
   */
  lemma SteppedReachesEnd(a: real, b: real, d: nat)
    requires d > 0
    ensures Stepped(a, (b - a) / d as real, d) == b
  {
    SteppedClosedForm(a, (b - a) / d as real, d);
  }

  /** Multiplying by a non-negative factor keeps order. */
  lemma MulLe(a: int, b: int, p: int)
    requires a <= b && 0 <= p
    ensures a * p <= b * p
  {
    var d := b - a;
    assert b * p == a * p + d * p;
    assert 0 <= d * p;
  }

  /**
   * Division with a positive divisor splits `i` uniquely: if `i == q*p + r`
   * with `0 <= r < p`, then `q` is the quotient and `r` the remainder.
   */
  lemma DivModUnique(i: int, p: int, q: int, r: int)
    requires 0 < p && 0 <= r < p && i == q * p + r
    ensures i / p == q && i % p == r
  {
    var q', r' := i / p, i % p;
    assert i == q' * p + r' && 0 <= r' < p;
    if q' < q {
      MulLe(q' + 1, q, p);
    } else if q < q' {
      MulLe(q + 1, q', p);
    }
  }

  /** An index into `n` rows of `p` entries splits into a row below `n` and a column below `p`. */
  lemma IndexSplit(i: int, p: int, n: int)
    requires 0 < p && 0 <= i < n * p
    ensures 0 <= i / p < n && 0 <= i % p < p
    ensures i == i / p * p + i % p
  {
    if i / p >= n {
      MulLe(n, i / p, p);
    }
  }

  /** Row `y` of `n` rows of `p` entries occupies `[y*p, y*p + p)`, inside `[0, n*p)`. */
  lemma RowBounds(p: int, n: int, y: int)
    requires 0 <= p && 0 <= y < n
    ensures 0 <= y * p && y * p + p <= n * p
  {
    MulLe(y + 1, n, p);
    MulLe(0, y, p);
    assert (y + 1) * p == y * p + p;
  }
}
