/**
 * `clip_walls`: picks the face of each view-space wall that looks at the
 * camera, drops walls with no side on that face or outside the 90-degree
 * field of view, and clips the rest against the two bounds of the view.
 *
 * The bounds are the rays at -45 and +45 degrees. Their directions and
 * normals are stored unnormalised (`(1, -1)` for `(cos 45, -sin 45)`, and
 * so on): every distance below is then a positive multiple of the distance
 * the program computes, so every sign test agrees. The clip rays end at
 * `leftBound * 100`, which is `reach` times the unnormalised direction, with
 * `reach == 100 * cos 45` passed in as a positive parameter.
 */
module Clip {
  import opened Optional
  import opened Reals
  import opened Vectors
  import opened Geometry
  import opened Map

  /** A wall after clipping: the visible face's endpoints and side, and the texture fractions cut off each end. */
  datatype ClippedWall = ClippedWall(p0: Vec2, p1: Vec2, visibleSide: int, texClipLeft: real, texClipRight: real)

  const LeftDir: Vec2 := Vec2(1.0, -1.0)
  const LeftNormal: Vec2 := Vec2(1.0, 1.0)
  const RightDir: Vec2 := Vec2(1.0, 1.0)
  const RightNormal: Vec2 := Vec2(1.0, -1.0)

  /**
   * The normals are the bound directions turned a quarter towards the inside
   * of the view: the left one by +pi/2, the right one by -pi/2.
   */
  lemma BoundNormals()
    ensures LeftNormal == Rotate(LeftDir, 0.0, 1.0)
    ensures RightNormal == Rotate(RightDir, 0.0, -1.0)
    ensures Dot(LeftDir, LeftNormal) == 0.0 && Dot(RightDir, RightNormal) == 0.0
  {
  }

  /** Distance from the left bound, positive on the inside: exactly `x + y`. */
  function LeftDist(p: Vec2): (d: real)
    ensures d == p.x + p.y
  {
    ScaledDist(p, LeftDir, LeftNormal)
  }

  /** Distance from the right bound, positive on the inside: exactly `x - y`. */
  function RightDist(p: Vec2): (d: real)
    ensures d == p.x - p.y
  {
    ScaledDist(p, RightDir, RightNormal)
  }

  /**
   * Any point of a bound ray, and any positive scale of its normal, gives a
   * distance with the same sign: the program's `leftBound` and unit normal
   * included.
   */
  lemma BoundDistancesAgree(p: Vec2, k: real, m: real)
    requires m > 0.0
    ensures ScaledDist(p, Scale(LeftDir, k), Scale(LeftNormal, m)) == m * LeftDist(p)
    ensures ScaledDist(p, Scale(RightDir, k), Scale(RightNormal, m)) == m * RightDist(p)
  {
  }

  /** The endpoints and side id of the face that looks at the camera. */
  datatype Facing = Facing(p0: Vec2, p1: Vec2, side: int)

  /**
   * Face selection: the wall's normal is `(p1 - p0)` turned by -pi/2; when
   * the camera (the origin) is on its positive side the camera sees the back,
   * so the endpoints swap and the back side is used.
   */
  function ResolveFace(w: Wall): (f: Facing)
    ensures Cross(w.p0, w.p1) < 0.0 ==> f == Facing(w.p1, w.p0, w.backId)
    ensures Cross(w.p0, w.p1) >= 0.0 ==> f == Facing(w.p0, w.p1, w.frontId)
  {
    var wallNormal := Rotate(Sub(w.p1, w.p0), 0.0, -1.0);
    if ScaledDist(Zero(), w.p0, wallNormal) > 0.0 then Facing(w.p1, w.p0, w.backId)
    else Facing(w.p0, w.p1, w.frontId)
  }

  /** The face test in closed form: the camera's distance from the wall's turned normal is `-(p0 x p1)`. */
  lemma FaceTestIsCross(a: Vec2, b: Vec2)
    ensures ScaledDist(Zero(), a, Rotate(Sub(b, a), 0.0, -1.0)) == -Cross(a, b)
  {
    var n := Rotate(Sub(b, a), 0.0, -1.0);
    assert n == Vec2(b.y - a.y, a.x - b.x);
    assert Sub(Zero(), a) == Vec2(-a.x, -a.y);
  }

  /** After face selection the camera is never on the positive side of the facing wall. */
  lemma FacingSeesFront(w: Wall)
    ensures var f := ResolveFace(w);
            Cross(f.p0, f.p1) >= 0.0 && ScaledDist(Zero(), f.p0, Rotate(Sub(f.p1, f.p0), 0.0, -1.0)) <= 0.0
  {
    var f := ResolveFace(w);
    assert Cross(w.p1, w.p0) == -Cross(w.p0, w.p1);
    FaceTestIsCross(f.p0, f.p1);
  }

  /**
   * The result of clipping one end of a wall: the program's intersection
   * test, the endpoint that survives, and the texture fraction cut off.
   */
  datatype EndClip = EndClip(hit: Hit, point: Vec2, frac: real)

  /**
   * The left clip: intersect the left bound ray with the wall; when there is
   * a hit and the wall runs from outside to inside the left bound, `p0`
   * moves to the hit and the fraction of the wall before it is cut off.
   */
  function ClipLeftEnd(w0: Vec2, w1: Vec2, reach: real): EndClip
    requires reach > 0.0
  {
    var hit := LineSegmentIntersection(Zero(), Scale(LeftDir, reach), w0, w1, Zero());
    if hit.found && LeftDist(w1) > 0.0 && LeftDist(w0) < 0.0 then EndClip(hit, hit.res, Fraction(w0, w1, hit.res))
    else EndClip(hit, w0, 0.0)
  }

  /**
   * The right clip, on the wall whose start may already be clipped to `c0`:
   * when the right bound ray meets it and the wall runs from inside to
   * outside the right bound, `p1` moves to the hit and the fraction of the
   * whole wall after it is cut off. `res` is the intersection the left test
   * left behind, which the program passes on.
   */
  function ClipRightEnd(c0: Vec2, w0: Vec2, w1: Vec2, reach: real, res: Vec2): EndClip
    requires reach > 0.0
  {
    var hit := LineSegmentIntersection(Zero(), Scale(RightDir, reach), c0, w1, res);
    if hit.found && RightDist(w0) > 0.0 && RightDist(w1) < 0.0 then EndClip(hit, hit.res, Fraction(w1, w0, hit.res))
    else EndClip(hit, w1, 0.0)
  }

  /** A point of the left clip ray is on the left bound, in front of the camera. */
  lemma OnLeftRay(reach: real, q: Vec2)
    requires reach > 0.0 && OnSegment(Zero(), Scale(LeftDir, reach), q)
    ensures LeftDist(q) == 0.0 && 0.0 <= q.x
  {
    var t :| 0.0 <= t <= 1.0 && q == Lerp(Zero(), Scale(LeftDir, reach), t);
    assert q == Vec2(t * reach, -(t * reach));
  }

  /** A point of the right clip ray is on the right bound, in front of the camera. */
  lemma OnRightRay(reach: real, q: Vec2)
    requires reach > 0.0 && OnSegment(Zero(), Scale(RightDir, reach), q)
    ensures RightDist(q) == 0.0 && 0.0 <= q.x
  {
    var t :| 0.0 <= t <= 1.0 && q == Lerp(Zero(), Scale(RightDir, reach), t);
    assert q == Vec2(t * reach, t * reach);
  }

  /**
   * The left clip either keeps `p0` with nothing cut off, or replaces it by a
   * point of the wall on the left bound, in front of the camera, with the
   * fraction cut off equal to that point's share of the wall.
   */
  lemma LeftClipSpec(w0: Vec2, w1: Vec2, reach: real)
    requires reach > 0.0
    ensures var e := ClipLeftEnd(w0, w1, reach);
            var clipped := e.hit.found && LeftDist(w0) < 0.0 < LeftDist(w1);
            && (!clipped ==> e.point == w0 && e.frac == 0.0)
            && (clipped ==>
                  && w0 != w1 && OnSegment(w0, w1, e.point)
                  && LeftDist(e.point) == 0.0 && 0.0 <= e.point.x
                  && 0.0 <= e.frac <= 1.0 && e.frac == Fraction(w0, w1, e.point)
                  && e.point == Lerp(w0, w1, e.frac))
  {
    var e := ClipLeftEnd(w0, w1, reach);
    if e.hit.found && LeftDist(w0) < 0.0 < LeftDist(w1) {
      var line := LineIntersection(Zero(), Scale(LeftDir, reach), w0, w1, Zero());
      SegmentIntersectionExact(Zero(), Scale(LeftDir, reach), w0, w1, Zero());
      OnLeftRay(reach, line.res);
      FractionIsLengthRatio(w0, w1, e.point);
    }
  }

  /**
   * The right clip, after a start `c0` on the wall: it either keeps `p1`
   * with nothing cut off, or replaces it by a point of the wall on the right
   * bound, in front of the camera and no nearer to `p0` than `c0`, with the
   * fraction cut off equal to the share of the wall after that point.
   */
  lemma RightClipSpec(c0: Vec2, w0: Vec2, w1: Vec2, reach: real, res: Vec2)
    requires reach > 0.0 && OnSegment(w0, w1, c0)
    ensures var e := ClipRightEnd(c0, w0, w1, reach, res);
            var clipped := e.hit.found && RightDist(w1) < 0.0 < RightDist(w0);
            && (!clipped ==> e.point == w1 && e.frac == 0.0)
            && (clipped ==>
                  && w0 != w1 && OnSegment(w0, w1, e.point)
                  && RightDist(e.point) == 0.0 && 0.0 <= e.point.x
                  && 0.0 <= e.frac <= 1.0 && e.frac == 1.0 - Fraction(w0, w1, e.point)
                  && Fraction(w0, w1, c0) <= Fraction(w0, w1, e.point)
                  && e.point == Lerp(w0, w1, 1.0 - e.frac))
  {
    var e := ClipRightEnd(c0, w0, w1, reach, res);
    if e.hit.found && RightDist(w1) < 0.0 < RightDist(w0) {
      var line := LineIntersection(Zero(), Scale(RightDir, reach), c0, w1, res);
      SegmentIntersectionExact(Zero(), Scale(RightDir, reach), c0, w1, res);
      OnRightRay(reach, line.res);
      SubSegment(w0, w1, c0, e.point);
      FractionIsLengthRatio(w0, w1, e.point);
      FractionFromOtherEnd(w0, w1, e.point);
    }
  }

  /**
   * One iteration of `clip_walls`: `None` when the wall is dropped, otherwise
   * the clipped wall. The left clip replaces `p0`, the right clip `p1`; each
   * fraction is measured on the facing wall as it was before clipping, and
   * the clipped wall is exactly the piece of it between the two cuts.
   */
  function ClipWall(w: Wall, reach: real): (r: Option<ClippedWall>)
    requires reach > 0.0
    ensures ResolveFace(w).side < 0 ==> r.None?
    ensures var f := ResolveFace(w);
            var left := ClipLeftEnd(f.p0, f.p1, reach);
            var right := ClipRightEnd(left.point, f.p0, f.p1, reach, left.hit.res);
            r.None? <==>
              || f.side < 0
              || (RightDist(f.p0) < 0.0 && RightDist(f.p1) < 0.0)
              || (LeftDist(f.p0) < 0.0 && LeftDist(f.p1) < 0.0)
              || (!left.hit.found && !right.hit.found && (left.point.x < 0.0 || right.point.x < 0.0))
    ensures r.Some? ==>
      var f := ResolveFace(w);
      var c := r.value;
      && c.visibleSide == f.side && c.visibleSide >= 0
      && 0.0 <= c.texClipLeft && 0.0 <= c.texClipRight && c.texClipLeft + c.texClipRight <= 1.0
      && c.p0 == Lerp(f.p0, f.p1, c.texClipLeft) && c.p1 == Lerp(f.p0, f.p1, 1.0 - c.texClipRight)
  {
    var f := ResolveFace(w);
    if f.side < 0 then None
    else
      var w0, w1 := f.p0, f.p1;
      if (RightDist(w0) < 0.0 && RightDist(w1) < 0.0) || (LeftDist(w0) < 0.0 && LeftDist(w1) < 0.0) then None
      else
        var left := ClipLeftEnd(w0, w1, reach);
        var right := ClipRightEnd(left.point, w0, w1, reach, left.hit.res);
        if !left.hit.found && !right.hit.found && (left.point.x < 0.0 || right.point.x < 0.0) then None
        else
          ClipPiecesFit(w0, w1, reach);
          Some(ClippedWall(left.point, right.point, f.side, left.frac, right.frac))
  }

  /** The two cuts of `ClipWall` never overlap, and each endpoint is the wall's point at its cut. */
  lemma ClipPiecesFit(w0: Vec2, w1: Vec2, reach: real)
    requires reach > 0.0
    ensures var left := ClipLeftEnd(w0, w1, reach);
            var right := ClipRightEnd(left.point, w0, w1, reach, left.hit.res);
            && 0.0 <= left.frac && 0.0 <= right.frac && left.frac + right.frac <= 1.0
            && left.point == Lerp(w0, w1, left.frac) && right.point == Lerp(w0, w1, 1.0 - right.frac)
  {
    var left := ClipLeftEnd(w0, w1, reach);
    LeftClipSpec(w0, w1, reach);
    EndpointsOnSegment(w0, w1);
    assert OnSegment(w0, w1, left.point);
    RightClipSpec(left.point, w0, w1, reach, left.hit.res);
    var right := ClipRightEnd(left.point, w0, w1, reach, left.hit.res);
    if left.frac != 0.0 || left.point != w0 {
      assert left.frac == Fraction(w0, w1, left.point);
    } else {
      assert left.point == Lerp(w0, w1, 0.0);
    }
    if right.frac == 0.0 && right.point == w1 {
      assert right.point == Lerp(w0, w1, 1.0);
    }
  }

  /** A wall with both facing endpoints outside the same bound of the view is dropped. */
  lemma OutsideFovDropped(w: Wall, reach: real)
    requires reach > 0.0
    requires (w.p0.x + w.p0.y < 0.0 && w.p1.x + w.p1.y < 0.0) || (w.p0.x - w.p0.y < 0.0 && w.p1.x - w.p1.y < 0.0)
    ensures ClipWall(w, reach).None?
  {
  }

  /** What every wall `clip_walls` keeps satisfies: a side to draw and two cuts that do not overlap. */
  predicate WellClipped(c: ClippedWall)
  {
    && c.visibleSide >= 0
    && 0.0 <= c.texClipLeft && 0.0 <= c.texClipRight && c.texClipLeft + c.texClipRight <= 1.0
  }

  /**
   * `clip_walls`: the clipped walls that are kept, in input order. There are
   * never more than inputs, and every kept wall is well clipped.
   */
  function ClipWalls(walls: seq<Wall>, reach: real): (out: seq<ClippedWall>)
    requires reach > 0.0
    ensures |out| <= |walls|
    ensures forall i :: 0 <= i < |out| ==> WellClipped(out[i])
    ensures (forall i :: 0 <= i < |walls| ==> ClipWall(walls[i], reach).Some?) ==> |out| == |walls|
  {
    if |walls| == 0 then []
    else
      var rest := ClipWalls(walls[1..], reach);
      assert forall i :: 0 <= i < |walls| - 1 ==> walls[1..][i] == walls[i + 1];
      match ClipWall(walls[0], reach)
      case Some(c) => [c] + rest
      case None => rest
  }

  /** `ClipWall` applied to each input wall, keeping the dropped ones as `None`. */
  function ClipResults(walls: seq<Wall>, reach: real): (rs: seq<Option<ClippedWall>>)
    requires reach > 0.0
    ensures |rs| == |walls|
    ensures forall i :: 0 <= i < |walls| ==> rs[i] == ClipWall(walls[i], reach)
  {
    seq(|walls|, i requires 0 <= i < |walls| => ClipWall(walls[i], reach))
  }

  /** `clip_walls` writes out the results of the walls `ClipWall` keeps, in input order. */
  lemma {:induction false} ClipWallsAreKept(walls: seq<Wall>, reach: real)
    requires reach > 0.0
    ensures ClipWalls(walls, reach) == Somes(ClipResults(walls, reach))
  {
    if |walls| > 0 {
      ClipWallsAreKept(walls[1..], reach);
      assert ClipResults(walls, reach)[1..] == ClipResults(walls[1..], reach);
    }
  }

  /**
   * `clip_walls` keeps the clipped result of every wall `ClipWall` keeps,
   * each once, and nothing else, in input order.
   */
  lemma ClipWallsKeepsOrder(walls: seq<Wall>, reach: real)
    requires reach > 0.0
    ensures KeptInOrder(ClipResults(walls, reach), SomeIndices(ClipResults(walls, reach)), ClipWalls(walls, reach))
  {
    ClipWallsAreKept(walls, reach);
    SomesKeepsOrder(ClipResults(walls, reach));
  }

  /**
   * A kept wall still faces the camera: its endpoints are in the facing
   * order, so `p0 x p1` is never negative. This is what later lets `p0` be
   * the left end on screen.
   */
  lemma ClippedFacesCamera(w: Wall, reach: real)
    requires reach > 0.0 && ClipWall(w, reach).Some?
    ensures var c := ClipWall(w, reach).value;
            Cross(c.p0, c.p1) >= 0.0
  {
    var f := ResolveFace(w);
    var c := ClipWall(w, reach).value;
    FacingSeesFront(w);
    FacingPiece(f.p0, f.p1, c.texClipLeft, 1.0 - c.texClipRight);
  }

  /** A piece of a facing segment, taken in parameter order, faces the same way. */
  lemma FacingPiece(a: Vec2, b: Vec2, s: real, t: real)
    requires Cross(a, b) >= 0.0 && s <= t
    ensures Cross(Lerp(a, b, s), Lerp(a, b, t)) >= 0.0
  {
    CrossOfLerps(a, b, s, t);
    MulNonNegative(t - s, Cross(a, b));
  }

  /** On a segment whose ends are both behind the camera, every point is behind it. */
  lemma BehindStaysBehind(a: Vec2, b: Vec2, q: Vec2)
    requires a.x < 0.0 && b.x < 0.0 && OnSegment(a, b, q)
    ensures q.x < 0.0
  {
    var t :| 0.0 <= t <= 1.0 && q == Lerp(a, b, t);
    assert q.x == a.x + t * (b.x - a.x);
    ConvexNegative(a.x, b.x, t);
  }

  /** Scalar core of `BehindStaysBehind`. */
  lemma ConvexNegative(x: real, y: real, t: real)
    requires x < 0.0 && y < 0.0 && 0.0 <= t <= 1.0
    ensures x + t * (y - x) < 0.0
  {
    assert x + t * (y - x) == (1.0 - t) * x + t * y;
    MulBetween(t, -y);
    MulBetween(1.0 - t, -x);
    assert t * y <= 0.0 && (1.0 - t) * x <= 0.0;
    if t == 0.0 {
      assert (1.0 - t) * x == x;
    }
  }

  /** A wall entirely behind the camera is dropped: no clip ray can meet it. */
  lemma BehindCameraDropped(w: Wall, reach: real)
    requires reach > 0.0 && w.p0.x < 0.0 && w.p1.x < 0.0
    ensures ClipWall(w, reach).None?
  {
    var f := ResolveFace(w);
    if f.side >= 0 {
      var w0, w1 := f.p0, f.p1;
      var left := ClipLeftEnd(w0, w1, reach);
      SegmentIntersectionExact(Zero(), Scale(LeftDir, reach), w0, w1, Zero());
      if left.hit.found {
        var q := LineIntersection(Zero(), Scale(LeftDir, reach), w0, w1, Zero()).res;
        OnLeftRay(reach, q);
        BehindStaysBehind(w0, w1, q);
        assert false;
      }
      assert left.point == w0;
      SegmentIntersectionExact(Zero(), Scale(RightDir, reach), w0, w1, left.hit.res);
      var right := ClipRightEnd(w0, w0, w1, reach, left.hit.res);
      if right.hit.found {
        var q := LineIntersection(Zero(), Scale(RightDir, reach), w0, w1, left.hit.res).res;
        OnRightRay(reach, q);
        BehindStaysBehind(w0, w1, q);
        assert false;
      }
    }
  }

  /**
   * A facing wall with both endpoints inside the view (between the bounds,
   * edges included) is kept whole: nothing is clipped off either end.
   */
  lemma InsideFovKeptWhole(w: Wall, reach: real)
    requires reach > 0.0 && ResolveFace(w).side >= 0
    requires -w.p0.x <= w.p0.y <= w.p0.x && -w.p1.x <= w.p1.y <= w.p1.x
    ensures var f := ResolveFace(w);
            ClipWall(w, reach) == Some(ClippedWall(f.p0, f.p1, f.side, 0.0, 0.0))
  {
    var f := ResolveFace(w);
    var w0, w1 := f.p0, f.p1;
    assert LeftDist(w0) >= 0.0 && RightDist(w0) >= 0.0 && LeftDist(w1) >= 0.0 && RightDist(w1) >= 0.0;
    assert w0.x >= 0.0 && w1.x >= 0.0;
    var left := ClipLeftEnd(w0, w1, reach);
    assert left.point == w0 && left.frac == 0.0;
    var right := ClipRightEnd(w0, w0, w1, reach, left.hit.res);
    assert right.point == w1 && right.frac == 0.0;
  }

  /**
   * A wall whose back faces the camera and that lies inside the view is kept
   * whole, drawn from `p1` to `p0` with its back side.
   */
  lemma BackFaceKeptWhole(w: Wall, reach: real)
    requires reach > 0.0 && w.backId >= 0 && Cross(w.p0, w.p1) < 0.0
    requires -w.p0.x <= w.p0.y <= w.p0.x && -w.p1.x <= w.p1.y <= w.p1.x
    ensures ClipWall(w, reach) == Some(ClippedWall(w.p1, w.p0, w.backId, 0.0, 0.0))
  {
    InsideFovKeptWhole(w, reach);
  }

  /**
   * The wall from `(2, 1)` to `(1, -1)` seen from the origin: the camera is on
   * the positive side of its turned normal, so its back face is the one
   * drawn, and both ends are inside the view, so `BackFaceKeptWhole` applies.
   */
  lemma ScenarioFace(w: Wall)
    requires w.p0.x == 2.0 && w.p0.y == 1.0 && w.p1.x == 1.0 && w.p1.y == -1.0
    ensures Cross(w.p0, w.p1) == -3.0
    ensures ResolveFace(w) == Facing(w.p1, w.p0, w.backId)
    ensures -w.p0.x <= w.p0.y <= w.p0.x && -w.p1.x <= w.p1.y <= w.p1.x
  {
  }
}
