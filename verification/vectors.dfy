/**
 * The 2D vector class `Vec2<T>` over exact reals. The class's getters are the
 * datatype's destructors `x` and `y`; every mutating member (`+=`, `rotate`,
 * `setX`, ...) becomes a function that returns the updated vector.
 * `std::cos`/`std::sin` are not modelled: `Rotate` takes the cosine and sine
 * of the angle as parameters.
 */
module Vectors {

  datatype Vec2 = Vec2(x: real, y: real)

  /** Default constructor: the zero vector, the identity of `+`. */
  function Zero(): (z: Vec2)
    ensures forall v :: Add(v, z) == v && Add(z, v) == v
  {
    Vec2(0.0, 0.0)
  }

  /** `Vec2(T v)`: both components set to `v`. */
  function Splat(v: real): (r: Vec2)
    ensures r.x == r.y == v
  {
    Vec2(v, v)
  }

  /** Squared Euclidean length, `x*x + y*y`. */
  function Norm2(v: Vec2): (n: real)
    ensures n >= 0.0
  {
    v.x * v.x + v.y * v.y
  }

  /** `dot`: sum of componentwise products. */
  function Dot(a: Vec2, b: Vec2): real
  {
    a.x * b.x + a.y * b.y
  }

  /** 2D cross product (the z-component of the 3D cross product); not a member of the class. */
  function Cross(a: Vec2, b: Vec2): real
  {
    a.x * b.y - a.y * b.x
  }

  /** `operator+`: componentwise sum. */
  function Add(a: Vec2, b: Vec2): Vec2
  {
    Vec2(a.x + b.x, a.y + b.y)
  }

  /** `operator-` (binary): its inverse is `operator+`. */
  function Sub(a: Vec2, b: Vec2): (r: Vec2)
    ensures Add(r, b) == a
  {
    Vec2(a.x - b.x, a.y - b.y)
  }

  /** `operator*(float s)`: both components multiplied by `s`. */
  function Scale(v: Vec2, s: real): Vec2
  {
    Vec2(v.x * s, v.y * s)
  }

  /** `operator/(float s)`: undone by scaling with `s`. */
  function Div(v: Vec2, s: real): (r: Vec2)
    requires s != 0.0
    ensures Scale(r, s) == v
  {
    Vec2(v.x / s, v.y / s)
  }

  /** Unary `operator-`, defined in the class as `*this * -1.0`: the additive inverse. */
  function Neg(v: Vec2): (r: Vec2)
    ensures Add(v, r) == Zero()
  {
    Scale(v, -1.0)
  }

  /** `rotate(amount)` with `c == cos(amount)` and `s == sin(amount)`. */
  function Rotate(v: Vec2, c: real, s: real): Vec2
  {
    var rx := c * v.x - s * v.y;
    var ry := s * v.x + c * v.y;
    Vec2(rx, ry)
  }

  /** `operator+=`: same value as `operator+`. */
  function AddAssign(v: Vec2, w: Vec2): (r: Vec2)
    ensures r == Add(v, w)
  {
    var x := v.x + w.x;
    var y := v.y + w.y;
    Vec2(x, y)
  }

  /** `operator-=`: same value as binary `operator-`. */
  function SubAssign(v: Vec2, w: Vec2): (r: Vec2)
    ensures r == Sub(v, w)
  {
    var x := v.x - w.x;
    var y := v.y - w.y;
    Vec2(x, y)
  }

  /** `operator*=`: same value as `operator*`. */
  function ScaleAssign(v: Vec2, s: real): (r: Vec2)
    ensures r == Scale(v, s)
  {
    var x := v.x * s;
    var y := v.y * s;
    Vec2(x, y)
  }

  /** `operator/=`: same value as `operator/`. */
  function DivAssign(v: Vec2, s: real): (r: Vec2)
    requires s != 0.0
    ensures r == Div(v, s)
  {
    var x := v.x / s;
    var y := v.y / s;
    Vec2(x, y)
  }

  /** `setX`: only the x component changes. */
  function SetX(v: Vec2, x: real): (r: Vec2)
    ensures r.x == x && r.y == v.y
  {
    v.(x := x)
  }

  /** `setY`: only the y component changes. */
  function SetY(v: Vec2, y: real): (r: Vec2)
    ensures r.y == y && r.x == v.x
  {
    v.(y := y)
  }

  /** `(a - b) + b == a`, `(a + b) - b == a`, and subtraction is addition of the negation. */
  lemma SubAddRoundTrip(a: Vec2, b: Vec2)
    ensures Add(Sub(a, b), b) == a
    ensures Sub(Add(a, b), b) == a
    ensures Sub(a, b) == Add(a, Neg(b))
  {
  }

  /** `dot` is symmetric. */
  lemma DotSymmetric(a: Vec2, b: Vec2)
    ensures Dot(a, b) == Dot(b, a)
  {
  }

  /** `dot` is linear in its first argument (and so, by symmetry, in both). */
  lemma DotBilinear(a: Vec2, b: Vec2, c: Vec2, s: real)
    ensures Dot(Add(a, b), c) == Dot(a, c) + Dot(b, c)
    ensures Dot(Scale(a, s), c) == s * Dot(a, c)
    ensures Dot(c, Add(a, b)) == Dot(c, a) + Dot(c, b)
    ensures Dot(c, Scale(a, s)) == s * Dot(c, a)
  {
  }

  /** Unary minus is scaling by -1, and scaling multiplies both components. */
  lemma NegIsScaleByMinusOne(v: Vec2, s: real)
    ensures Neg(v) == Scale(v, -1.0) == Vec2(-v.x, -v.y)
    ensures Scale(v, s).x == s * v.x && Scale(v, s).y == s * v.y
  {
  }

  /**
   * Scaling keeps the direction: the result is parallel to `v`, its
   * projection onto `v` is `s` times the squared length of `v`, and its
   * squared length is `s*s` times that of `v`.
   */
  lemma ScaleParallel(v: Vec2, s: real)
    ensures Cross(v, Scale(v, s)) == 0.0
    ensures Dot(v, Scale(v, s)) == s * Norm2(v)
    ensures Norm2(Scale(v, s)) == s * s * Norm2(v)
  {
  }

  /**
   * For a genuine angle (`c*c + s*s == 1`) rotation keeps the length; for any
   * `(c, s)` the cosine-like projection of the result onto `v` is `c` times
   * the squared length and the sine-like cross product is `s` times it.
   */
  lemma RotateKeepsLength(v: Vec2, c: real, s: real)
    ensures c * c + s * s == 1.0 ==> Norm2(Rotate(v, c, s)) == Norm2(v)
    ensures Dot(v, Rotate(v, c, s)) == c * Norm2(v)
    ensures Cross(v, Rotate(v, c, s)) == s * Norm2(v)
  {
    var r := Rotate(v, c, s);
    assert Norm2(r) == (c * c + s * s) * Norm2(v);
  }

  /** Rotating by -pi/2 (`c == 0`, `s == -1`) maps `(x, y)` to `(y, -x)`. */
  lemma RotateQuarterTurnClockwise(v: Vec2)
    ensures Rotate(v, 0.0, -1.0) == Vec2(v.y, -v.x)
  {
  }

  /** Rotating by +pi/2 (`c == 0`, `s == 1`) maps `(x, y)` to `(-y, x)`. */
  lemma RotateQuarterTurnCounterClockwise(v: Vec2)
    ensures Rotate(v, 0.0, 1.0) == Vec2(-v.y, v.x)
  {
  }

  /** Rotating by an angle and then by its negation gives back the vector. */
  lemma RotateInverse(v: Vec2, c: real, s: real)
    requires c * c + s * s == 1.0
    ensures Rotate(Rotate(v, c, s), c, -s) == v
  {
    var r := Rotate(v, c, s);
    assert c * r.x + s * r.y == (c * c + s * s) * v.x;
    assert -s * r.x + c * r.y == (c * c + s * s) * v.y;
  }

  /** Rotation keeps the difference of two points: it distributes over `-`. */
  lemma RotateSub(a: Vec2, b: Vec2, c: real, s: real)
    ensures Rotate(Sub(a, b), c, s) == Sub(Rotate(a, c, s), Rotate(b, c, s))
  {
  }
}
