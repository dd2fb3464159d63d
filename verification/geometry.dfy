/**
 * The free functions of the math header: line/line intersection by Cramer's
 * rule, the deliberately loose segment/segment test built on it, and the
 * signed distance of a point from a line.
 */
module Geometry {
  import opened Optional
  import opened Reals
  import opened Vectors

  /** `lineIntersection` reports parallel lines when `|denominator|` is below this. */
  const ParallelEpsilon: real := 0.001

  /**
   * Outcome of `lineIntersection` / `lineSegmentIntersection`: the returned
   * flag and the value the by-reference `res` argument holds afterwards.
   */
  datatype Hit = Hit(found: bool, res: Vec2)

  /** `q` lies on the infinite line through `a` and `b`: `(b - a) x (q - a) == 0`. */
  predicate OnLine(a: Vec2, b: Vec2, q: Vec2)
  {
    (b.x - a.x) * (q.y - a.y) - (b.y - a.y) * (q.x - a.x) == 0.0
  }

  /** The point at parameter `t` along the segment from `a` to `b`: `a + t*(b - a)`. */
  function Lerp(a: Vec2, b: Vec2, t: real): Vec2
  {
    Vec2(a.x + t * (b.x - a.x), a.y + t * (b.y - a.y))
  }

  /** `q` lies on the closed segment from `a` to `b`. */
  ghost predicate OnSegment(a: Vec2, b: Vec2, q: Vec2)
  {
    exists t :: 0.0 <= t <= 1.0 && q == Lerp(a, b, t)
  }

  /**
   * A line in the normal form `a*x + b*y == c` that `lineIntersection` builds:
   * for the line through `p` and `q`, `A == q.y - p.y`, `B == p.x - q.x` and
   * `C == A*p.x + B*p.y`.
   */
  datatype Line = Line(a: real, b: real, c: real)

  function LineThrough(p: Vec2, q: Vec2): Line
  {
    var a := q.y - p.y;
    var b := p.x - q.x;
    Line(a, b, a * p.x + b * p.y)
  }

  /** `v` satisfies the equation `a*x + b*y == c` of `l`. */
  predicate Satisfies(l: Line, v: Vec2)
  {
    l.a * v.x + l.b * v.y == l.c
  }

  /** The determinant of two normal forms, `A1*B2 - A2*B1`. */
  function Det(l1: Line, l2: Line): real
  {
    l1.a * l2.b - l2.a * l1.b
  }

  /** The normal form describes the same line as `OnLine`. */
  lemma NormalForm(p: Vec2, q: Vec2, v: Vec2)
    ensures OnLine(p, q, v) <==> Satisfies(LineThrough(p, q), v)
  {
  }

  /** Cramer's rule: for a non-zero determinant the formulas solve both equations. */
  lemma CramerSolves(a1: real, b1: real, c1: real, a2: real, b2: real, c2: real)
    requires a1 * b2 - a2 * b1 != 0.0
    ensures var d := a1 * b2 - a2 * b1;
            var x := (b2 * c1 - b1 * c2) / d;
            var y := (a1 * c2 - a2 * c1) / d;
            a1 * x + b1 * y == c1 && a2 * x + b2 * y == c2
  {
    var d := a1 * b2 - a2 * b1;
    var x := (b2 * c1 - b1 * c2) / d;
    var y := (a1 * c2 - a2 * c1) / d;
    assert x * d == b2 * c1 - b1 * c2;
    assert y * d == a1 * c2 - a2 * c1;
    assert (a1 * x + b1 * y) * d == a1 * (x * d) + b1 * (y * d);
    assert (a1 * x + b1 * y) * d == c1 * d;
    assert (a2 * x + b2 * y) * d == a2 * (x * d) + b2 * (y * d);
    assert (a2 * x + b2 * y) * d == c2 * d;
  }

  /** Cramer's rule, converse: any solution of both equations is the Cramer point. */
  lemma CramerUnique(a1: real, b1: real, c1: real, a2: real, b2: real, c2: real, x: real, y: real)
    requires a1 * b2 - a2 * b1 != 0.0
    requires a1 * x + b1 * y == c1 && a2 * x + b2 * y == c2
    ensures var d := a1 * b2 - a2 * b1;
            x == (b2 * c1 - b1 * c2) / d && y == (a1 * c2 - a2 * c1) / d
  {
    var d := a1 * b2 - a2 * b1;
    assert b2 * (a1 * x + b1 * y) - b1 * (a2 * x + b2 * y) == x * d;
    assert a1 * (a2 * x + b2 * y) - a2 * (a1 * x + b1 * y) == y * d;
  }

  /** The Cramer solution of two normal forms with a non-zero determinant. */
  function CramerPoint(l1: Line, l2: Line): (v: Vec2)
    requires Det(l1, l2) != 0.0
    ensures Satisfies(l1, v) && Satisfies(l2, v)
  {
    var denominator := l1.a * l2.b - l2.a * l1.b;
    CramerSolves(l1.a, l1.b, l1.c, l2.a, l2.b, l2.c);
    Vec2((l2.b * l1.c - l1.b * l2.c) / denominator, (l1.a * l2.c - l2.a * l1.c) / denominator)
  }

  /** The Cramer point is the only point on both lines. */
  lemma CramerPointUnique(l1: Line, l2: Line, v: Vec2)
    requires Det(l1, l2) != 0.0 && Satisfies(l1, v) && Satisfies(l2, v)
    ensures v == CramerPoint(l1, l2)
  {
    CramerUnique(l1.a, l1.b, l1.c, l2.a, l2.b, l2.c, v.x, v.y);
  }

  /** A degenerate segment (`p == q`) has an all-zero normal form. */
  lemma DegenerateLine(p: Vec2, q: Vec2)
    requires p == q
    ensures LineThrough(p, q) == Line(0.0, 0.0, 0.0)
  {
  }

  /** The `denominator` of `lineIntersection`: the determinant of the two normal forms. */
  function Denominator(p0: Vec2, p1: Vec2, p2: Vec2, p3: Vec2): real
  {
    Det(LineThrough(p0, p1), LineThrough(p2, p3))
  }

  /**
   * The determinant is the cross product of the two direction vectors, so it
   * vanishes when either pair of points coincides.
   */
  lemma DenominatorIsCross(p0: Vec2, p1: Vec2, p2: Vec2, p3: Vec2)
    ensures Denominator(p0, p1, p2, p3) == Cross(Sub(p1, p0), Sub(p3, p2))
    ensures p0 == p1 || p2 == p3 ==> Denominator(p0, p1, p2, p3) == 0.0
  {
  }

  /**
   * `lineIntersection(p0, p1, p2, p3, res)`: intersects the line through
   * `p0`, `p1` with the line through `p2`, `p3`. Within 0.001 of zero the
   * denominator counts as zero (parallel lines) and `res` is left alone,
   * otherwise `res` becomes a point on both lines.
   */
  function LineIntersection(p0: Vec2, p1: Vec2, p2: Vec2, p3: Vec2, res: Vec2): (h: Hit)
    ensures !h.found <==> -ParallelEpsilon < Denominator(p0, p1, p2, p3) < ParallelEpsilon
    ensures !h.found ==> h.res == res
    ensures h.found ==> OnLine(p0, p1, h.res) && OnLine(p2, p3, h.res)
  {
    var l1 := LineThrough(p0, p1);
    var l2 := LineThrough(p2, p3);
    var denominator := Denominator(p0, p1, p2, p3);
    if denominator < ParallelEpsilon && denominator > -ParallelEpsilon then
      Hit(false, res)
    else
      var q := CramerPoint(l1, l2);
      NormalForm(p0, p1, q);
      NormalForm(p2, p3, q);
      Hit(true, q)
  }

  /**
   * Found intersections come from non-degenerate lines: the lines' direction
   * vectors have a cross product of at least 0.001 in magnitude.
   */
  lemma FoundMeansProperLines(p0: Vec2, p1: Vec2, p2: Vec2, p3: Vec2, res: Vec2)
    requires LineIntersection(p0, p1, p2, p3, res).found
    ensures p0 != p1 && p2 != p3
    ensures Cross(Sub(p1, p0), Sub(p3, p2)) <= -ParallelEpsilon || Cross(Sub(p1, p0), Sub(p3, p2)) >= ParallelEpsilon
  {
    DenominatorIsCross(p0, p1, p2, p3);
  }

  /** When the lines are not parallel, the reported point is their only common point. */
  lemma LineIntersectionUnique(p0: Vec2, p1: Vec2, p2: Vec2, p3: Vec2, res: Vec2, q: Vec2)
    requires LineIntersection(p0, p1, p2, p3, res).found
    requires OnLine(p0, p1, q) && OnLine(p2, p3, q)
    ensures q == LineIntersection(p0, p1, p2, p3, res).res
  {
    NormalForm(p0, p1, q);
    NormalForm(p2, p3, q);
    CramerPointUnique(LineThrough(p0, p1), LineThrough(p2, p3), q);
  }

  /**
   * One of the four ratios of `lineSegmentIntersection`. A zero denominator
   * yields infinity or NaN in IEEE arithmetic, which never lies in [0, 1]:
   * modelled as no value.
   */
  function Ratio(num: real, den: real): (r: Option<real>)
    ensures r.Some? <==> den != 0.0
    ensures r.Some? ==> r.value * den == num
  {
    if den == 0.0 then None else Some(num / den)
  }

  /** A ratio that passes the `>= 0.0 && <= 1.0` test. */
  predicate InUnit(r: Option<real>)
  {
    r.Some? && 0.0 <= r.value <= 1.0
  }

  /**
   * The loose containment test for one segment: the x-ratio OR the y-ratio of
   * `q` along the segment from `a` to `b` lies in [0, 1].
   */
  predicate LooseInSegment(a: Vec2, b: Vec2, q: Vec2)
  {
    InUnit(Ratio(q.x - a.x, b.x - a.x)) || InUnit(Ratio(q.y - a.y, b.y - a.y))
  }

  /**
   * `lineSegmentIntersection(p0, p1, p2, p3, res)`: the line intersection,
   * accepted only if it passes the loose test on both segments. When the
   * lines are parallel or the test fails, `res` keeps its value; on
   * acceptance it becomes the line intersection point.
   */
  function LineSegmentIntersection(p0: Vec2, p1: Vec2, p2: Vec2, p3: Vec2, res: Vec2): (h: Hit)
    ensures var line := LineIntersection(p0, p1, p2, p3, res);
            && (!line.found ==> !h.found)
            && (!h.found ==> h.res == res)
            && (h.found ==> h.res == line.res)
            && (h.found <==> line.found && LooseInSegment(p0, p1, line.res) && LooseInSegment(p2, p3, line.res))
  {
    var intersectionPoint := LineIntersection(p0, p1, p2, p3, Zero());
    if !intersectionPoint.found then
      Hit(false, res)
    else
      var q := intersectionPoint.res;
      var rx0 := Ratio(q.x - p0.x, p1.x - p0.x);
      var ry0 := Ratio(q.y - p0.y, p1.y - p0.y);
      var rx1 := Ratio(q.x - p2.x, p3.x - p2.x);
      var ry1 := Ratio(q.y - p2.y, p3.y - p2.y);
      if (InUnit(rx0) || InUnit(ry0)) && (InUnit(rx1) || InUnit(ry1)) then
        Hit(true, q)
      else
        Hit(false, res)
  }

  /**
   * Scalar core of the ratio test: with `d != 0` and `d*e' == d'*e`, the
   * parameter `t == e / d` reproduces both offsets, `e == t*d` and `e' == t*d'`.
   */
  lemma RatioIsParameter(d: real, d': real, e: real, e': real)
    requires d != 0.0
    requires d * e' - d' * e == 0.0
    ensures e == (e / d) * d
    ensures e' == (e / d) * d'
  {
    var t := e / d;
    assert t * d == e;
    assert d * e' == d * (t * d');
  }

  /** Dividing a multiple of `d` by `d`. */
  lemma DivCancel(t: real, d: real)
    requires d != 0.0
    ensures (t * d) / d == t
  {
  }

  /** One in-range ratio places a point of the line on the closed segment. */
  lemma LooseImpliesOnSegment(a: Vec2, b: Vec2, q: Vec2)
    requires OnLine(a, b, q)
    requires LooseInSegment(a, b, q)
    ensures OnSegment(a, b, q)
  {
    var dx, dy := b.x - a.x, b.y - a.y;
    var ex, ey := q.x - a.x, q.y - a.y;
    if InUnit(Ratio(ex, dx)) {
      RatioIsParameter(dx, dy, ex, ey);
      var t := ex / dx;
      assert q == Lerp(a, b, t);
    } else {
      assert dy * ex - dx * ey == 0.0;
      RatioIsParameter(dy, dx, ey, ex);
      var t := ey / dy;
      assert q == Lerp(a, b, t);
    }
  }

  /** Every point of a proper segment has an in-range ratio. */
  lemma OnSegmentImpliesLoose(a: Vec2, b: Vec2, q: Vec2)
    requires a != b
    requires OnSegment(a, b, q)
    ensures LooseInSegment(a, b, q)
  {
    var t :| 0.0 <= t <= 1.0 && q == Lerp(a, b, t);
    var dx, dy := b.x - a.x, b.y - a.y;
    if dx != 0.0 {
      assert q.x - a.x == t * dx;
      DivCancel(t, dx);
      assert Ratio(q.x - a.x, dx) == Some(t);
    } else {
      assert dy != 0.0;
      assert q.y - a.y == t * dy;
      DivCancel(t, dy);
      assert Ratio(q.y - a.y, dy) == Some(t);
    }
  }

  /**
   * Over exact reals the loose test is not loose at all for a point on the
   * line: one in-range ratio already places the point on the closed segment,
   * and every point of the segment has an in-range ratio.
   */
  lemma LooseTestIsExact(a: Vec2, b: Vec2, q: Vec2)
    requires a != b
    requires OnLine(a, b, q)
    ensures LooseInSegment(a, b, q) <==> OnSegment(a, b, q)
  {
    if LooseInSegment(a, b, q) {
      LooseImpliesOnSegment(a, b, q);
    }
    if OnSegment(a, b, q) {
      OnSegmentImpliesLoose(a, b, q);
    }
  }

  /**
   * `lineSegmentIntersection` accepts exactly when the two lines meet in a
   * point that lies on both closed segments.
   */
  lemma SegmentIntersectionExact(p0: Vec2, p1: Vec2, p2: Vec2, p3: Vec2, res: Vec2)
    ensures var line := LineIntersection(p0, p1, p2, p3, res);
            LineSegmentIntersection(p0, p1, p2, p3, res).found <==>
              line.found && OnSegment(p0, p1, line.res) && OnSegment(p2, p3, line.res)
  {
    var line := LineIntersection(p0, p1, p2, p3, res);
    if line.found {
      FoundMeansProperLines(p0, p1, p2, p3, res);
      LooseTestIsExact(p0, p1, line.res);
      LooseTestIsExact(p2, p3, line.res);
    }
  }

  /**
   * The position of `q` along the segment from `a` to `b` as a fraction of its
   * length, read off whichever coordinate varies along the segment.
   */
  function Fraction(a: Vec2, b: Vec2, q: Vec2): real
    requires a != b
  {
    if b.x != a.x then (q.x - a.x) / (b.x - a.x) else (q.y - a.y) / (b.y - a.y)
  }

  /** The fraction of an interpolated point is the interpolation parameter. */
  lemma FractionOfLerp(a: Vec2, b: Vec2, t: real)
    requires a != b
    ensures Fraction(a, b, Lerp(a, b, t)) == t
  {
    var q := Lerp(a, b, t);
    var dx, dy := b.x - a.x, b.y - a.y;
    if dx != 0.0 {
      assert q.x - a.x == t * dx;
      DivCancel(t, dx);
    } else {
      assert q.y - a.y == t * dy;
      DivCancel(t, dy);
    }
  }

  /** Interpolating from `b` back to `a` by `1 - t` reaches the same point. */
  lemma LerpReversed(a: Vec2, b: Vec2, t: real)
    ensures Lerp(b, a, 1.0 - t) == Lerp(a, b, t)
  {
    var dx, dy := b.x - a.x, b.y - a.y;
    assert b.x + (1.0 - t) * (a.x - b.x) == a.x + t * dx;
    assert b.y + (1.0 - t) * (a.y - b.y) == a.y + t * dy;
  }

  /**
   * For a point of the segment, `Fraction` is its parameter, lies in [0, 1],
   * and `q - a` is `Fraction` times `b - a`: so it is the ratio of lengths
   * `|q - a| / |b - a|` without any `sqrt`.
   */
  lemma FractionIsLengthRatio(a: Vec2, b: Vec2, q: Vec2)
    requires a != b
    requires OnSegment(a, b, q)
    ensures 0.0 <= Fraction(a, b, q) <= 1.0
    ensures q == Lerp(a, b, Fraction(a, b, q))
    ensures Sub(q, a) == Scale(Sub(b, a), Fraction(a, b, q))
  {
    var t :| 0.0 <= t <= 1.0 && q == Lerp(a, b, t);
    FractionOfLerp(a, b, t);
  }

  /**
   * Seen from the other end, a point of the segment sits at the complementary
   * fraction.
   */
  lemma FractionFromOtherEnd(a: Vec2, b: Vec2, q: Vec2)
    requires a != b
    requires OnSegment(a, b, q)
    ensures OnSegment(b, a, q)
    ensures Fraction(b, a, q) == 1.0 - Fraction(a, b, q)
  {
    var t :| 0.0 <= t <= 1.0 && q == Lerp(a, b, t);
    FractionOfLerp(a, b, t);
    LerpReversed(a, b, t);
    FractionOfLerp(b, a, 1.0 - t);
    assert 0.0 <= 1.0 - t <= 1.0 && q == Lerp(b, a, 1.0 - t);
  }

  /** Both endpoints belong to the closed segment. */
  lemma EndpointsOnSegment(a: Vec2, b: Vec2)
    ensures OnSegment(a, b, a) && OnSegment(a, b, b)
  {
    assert a == Lerp(a, b, 0.0);
    assert b == Lerp(a, b, 1.0);
  }

  /** Scalar core of `LerpCompose`. */
  lemma LerpComposeScalar(a: real, b: real, s: real, u: real)
    ensures var c := a + s * (b - a);
            c + u * (b - c) == a + (s + u * (1.0 - s)) * (b - a)
  {
    var c := a + s * (b - a);
    assert b - c == (1.0 - s) * (b - a);
    assert u * (b - c) == (u * (1.0 - s)) * (b - a);
  }

  /** Interpolating from an interpolated point towards `b` stays on the line through `a` and `b`. */
  lemma LerpCompose(a: Vec2, b: Vec2, s: real, u: real)
    ensures Lerp(Lerp(a, b, s), b, u) == Lerp(a, b, s + u * (1.0 - s))
  {
    LerpComposeScalar(a.x, b.x, s, u);
    LerpComposeScalar(a.y, b.y, s, u);
  }

  /**
   * A point of the piece of a segment from one of its points `c` to `b` lies
   * on the whole segment, no nearer to `a` than `c` is.
   */
  lemma SubSegment(a: Vec2, b: Vec2, c: Vec2, q: Vec2)
    requires a != b && OnSegment(a, b, c) && OnSegment(c, b, q)
    ensures OnSegment(a, b, q)
    ensures Fraction(a, b, c) <= Fraction(a, b, q)
  {
    var s :| 0.0 <= s <= 1.0 && c == Lerp(a, b, s);
    var u :| 0.0 <= u <= 1.0 && q == Lerp(c, b, u);
    var t := ComposedParameter(s, u);
    LerpCompose(a, b, s, u);
    assert q == Lerp(a, b, t) && 0.0 <= t <= 1.0;
    FractionOfLerp(a, b, s);
    FractionOfLerp(a, b, t);
    assert Fraction(a, b, c) == s && Fraction(a, b, q) == t;
  }

  /** The parameter of a point on the far piece of a segment, as a fraction of the whole. */
  function ComposedParameter(s: real, u: real): (t: real)
    requires 0.0 <= s <= 1.0 && 0.0 <= u <= 1.0
    ensures s <= t <= 1.0
  {
    MulBetweenComplement(u, s);
    s + u * (1.0 - s)
  }

  /** Two points of one line, in parameter order, keep the orientation of the line's ends: the cross product scales by the gap. */
  lemma CrossOfLerps(a: Vec2, b: Vec2, s: real, t: real)
    ensures Cross(Lerp(a, b, s), Lerp(a, b, t)) == (t - s) * Cross(a, b)
  {
    var p, q := Lerp(a, b, s), Lerp(a, b, t);
    var dx, dy := b.x - a.x, b.y - a.y;
    assert p.x * q.y == a.x * a.y + t * a.x * dy + s * dx * a.y + s * t * dx * dy;
    assert p.y * q.x == a.y * a.x + t * a.y * dx + s * dy * a.x + s * t * dy * dx;
    assert a.x * dy - a.y * dx == Cross(a, b);
  }

  /**
   * The distance with an unnormalised normal: `(point - linePoint) . normal`.
   * It is `|normal|` times the signed distance, so it has the same sign.
   */
  function ScaledDist(point: Vec2, linePoint: Vec2, normal: Vec2): real
  {
    Dot(Sub(point, linePoint), normal)
  }

  /**
   * `distFromLine(point, linePoint, lineNormal)`: the signed distance of
   * `point` from the line through `linePoint` with normal `lineNormal`. The
   * `sqrt` inside `getUnit` is replaced by the parameter `normalLength`,
   * constrained to be the length of the normal.
   */
  function DistFromLine(point: Vec2, linePoint: Vec2, lineNormal: Vec2, normalLength: real): (d: real)
    requires normalLength > 0.0 && normalLength * normalLength == Norm2(lineNormal)
    ensures d * normalLength == ScaledDist(point, linePoint, lineNormal)
    ensures d > 0.0 <==> ScaledDist(point, linePoint, lineNormal) > 0.0
    ensures d < 0.0 <==> ScaledDist(point, linePoint, lineNormal) < 0.0
    ensures point == linePoint ==> d == 0.0
  {
    var unit := Div(lineNormal, normalLength);
    assert Dot(Sub(point, linePoint), unit) * normalLength == ScaledDist(point, linePoint, lineNormal);
    Dot(Sub(point, linePoint), unit)
  }
}
