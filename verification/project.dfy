/**
 * `gen_screen_coords`: perspective projection of each clipped wall onto the
 * screen. The horizontal position of an endpoint is its slope `y / x`
 * scaled to half the screen width about the centre column; the vertical
 * extent is the sector's ceiling and floor heights scaled by
 * `0.2 * height / x` about the centre row. Float-to-int conversions
 * truncate toward zero, and `n / 2` on `int` truncates too.
 */
module Project {
  import opened Vectors
  import opened Numeric
  import opened Reals
  import opened Map
  import opened Clip

  /** Screen-space description of one wall, as `render::screencoord`. */
  datatype ScreenCoord = ScreenCoord(
    leftX: int, rightX: int,
    topLeftY: int, bottomLeftY: int,
    topRightY: int, bottomRightY: int,
    texClipLeft: real, texClipRight: real,
    zDistLeft: real, zDistRight: real,
    sideId: int)

  /** `tan(fov / 2)` for the 90-degree field of view. */
  const TanHalfFov: real := 1.0

  /** Fraction of the screen height that one unit of height at distance 1 covers. */
  const HeightScale: real := 0.2

  /** The slope `y / (x * tanHalfFov)` of a view-space point; with the 90-degree view it is `y / x`. */
  function Slope(p: Vec2): (s: real)
    requires p.x != 0.0
    ensures s == p.y / p.x
  {
    p.y / (p.x * TanHalfFov)
  }

  /** A slope scaled to half the screen width about the centre column, truncated toward zero. */
  function ScreenX(slope: real, half: real): int
  {
    Trunc(slope * half + half)
  }

  /** Screen column of a view-space point: `(int)(y / (x * tanHalfFov) * (W / 2) + (W / 2))`. */
  function ColumnOf(p: Vec2, width: int): int
    requires p.x != 0.0
  {
    ScreenX(Slope(p), Half(width) as real)
  }

  /** Vertical scale at depth `z`: `(0.2f * buffer_height) / z`. */
  function YScale(z: real, height: int): real
    requires z != 0.0
  {
    (HeightScale * height as real) / z
  }

  /** A height scaled to screen rows and truncated toward zero: `(int)(yScale * h)`. */
  function RowOffset(scale: real, h: real): int
  {
    Trunc(scale * h)
  }

  /** Screen row of the ceiling at depth `z`: `-(int)(yScale * ceiling) + H / 2`. */
  function TopRow(z: real, ceiling: real, height: int): int
    requires z != 0.0
  {
    -RowOffset(YScale(z, height), ceiling) + Half(height)
  }

  /** Screen row of the floor at depth `z`: `(int)(yScale * -floor) + H / 2`. */
  function BottomRow(z: real, floor: real, height: int): int
    requires z != 0.0
  {
    RowOffset(YScale(z, height), -floor) + Half(height)
  }

  /** The side a clipped wall shows, and the sector that side faces, both exist. */
  predicate Resolvable(c: ClippedWall, sides: seq<Side>, sectors: seq<Sector>)
  {
    0 <= c.visibleSide < |sides| && 0 <= sides[c.visibleSide].sectorId < |sectors|
  }

  /** A clipped wall the projection can handle: its side resolves and neither end is at depth 0. */
  predicate Projectable(c: ClippedWall, sides: seq<Side>, sectors: seq<Sector>)
  {
    Resolvable(c, sides, sectors) && c.p0.x != 0.0 && c.p1.x != 0.0
  }

  /**
   * One iteration of `gen_screen_coords`: the columns of both ends, the
   * ceiling and floor rows at both ends for the sector the visible side
   * faces, and the clip fractions, depths and side id carried along.
   */
  function ProjectWall(c: ClippedWall, sides: seq<Side>, sectors: seq<Sector>, width: int, height: int): (r: ScreenCoord)
    requires Projectable(c, sides, sectors)
    ensures r.sideId == c.visibleSide
    ensures r.texClipLeft == c.texClipLeft && r.texClipRight == c.texClipRight
    ensures r.zDistLeft == c.p0.x && r.zDistRight == c.p1.x
    ensures var sector := sectors[sides[c.visibleSide].sectorId];
            sector.floorHeight == -sector.ceilingHeight ==>
              r.topLeftY + r.bottomLeftY == 2 * Half(height) && r.topRightY + r.bottomRightY == 2 * Half(height)
  {
    var sector := sectors[sides[c.visibleSide].sectorId];
    RowsSymmetric(c.p0.x, sector.ceilingHeight, height);
    RowsSymmetric(c.p1.x, sector.ceilingHeight, height);
    ScreenCoord(
      ColumnOf(c.p0, width), ColumnOf(c.p1, width),
      TopRow(c.p0.x, sector.ceilingHeight, height), BottomRow(c.p0.x, sector.floorHeight, height),
      TopRow(c.p1.x, sector.ceilingHeight, height), BottomRow(c.p1.x, sector.floorHeight, height),
      c.texClipLeft, c.texClipRight,
      c.p0.x, c.p1.x,
      c.visibleSide)
  }

  /** `gen_screen_coords`: one screen description per clipped wall, in the same order. */
  function GenScreenCoords(walls: seq<ClippedWall>, sides: seq<Side>, sectors: seq<Sector>, width: int, height: int): (out: seq<ScreenCoord>)
    requires forall i :: 0 <= i < |walls| ==> Projectable(walls[i], sides, sectors)
    ensures |out| == |walls|
    ensures forall i :: 0 <= i < |walls| ==> out[i] == ProjectWall(walls[i], sides, sectors, width, height)
  {
    seq(|walls|, i requires 0 <= i < |walls| => ProjectWall(walls[i], sides, sectors, width, height))
  }

  /** For two points in front of the camera, `a x b >= 0` means `b`'s slope is at least `a`'s. */
  lemma SlopeOrder(a: Vec2, b: Vec2)
    requires a.x > 0.0 && b.x > 0.0 && Cross(a, b) >= 0.0
    ensures a.y / a.x <= b.y / b.x
  {
    var s, t := a.y / a.x, b.y / b.x;
    var m := a.x * b.x;
    assert m > 0.0;
    assert a.y == s * a.x && b.y == t * b.x;
    assert Cross(a, b) == (t - s) * m;
  }

  /** Screen columns follow slopes: a larger slope is never left of a smaller one. */
  lemma ColumnMonotone(a: Vec2, b: Vec2, width: int)
    requires a.x > 0.0 && b.x > 0.0 && a.y / a.x <= b.y / b.x && width >= 0
    ensures ColumnOf(a, width) <= ColumnOf(b, width)
  {
    ScreenXMonotone(Slope(a), Slope(b), Half(width) as real);
  }

  /** Scalar core of `ColumnMonotone`: scaling by a non-negative half width and truncating keep the order of slopes. */
  lemma ScreenXMonotone(s: real, t: real, half: real)
    requires s <= t && 0.0 <= half
    ensures ScreenX(s, half) <= ScreenX(t, half)
  {
    MulMonotone(s, t, half);
    TruncMonotone(s * half + half, t * half + half);
  }

  /** A wall that faces the camera with both ends in front of it projects left end first. */
  lemma ColumnOrder(a: Vec2, b: Vec2, width: int)
    requires a.x > 0.0 && b.x > 0.0 && Cross(a, b) >= 0.0 && width >= 0
    ensures ColumnOf(a, width) <= ColumnOf(b, width)
  {
    SlopeOrder(a, b);
    ColumnMonotone(a, b, width);
  }

  /**
   * The view's edges and centre line land on fixed columns: the left bound
   * on column 0, the forward axis on column `W / 2`, the right bound on
   * column `2 * (W / 2)`, which is `W` itself for an even width.
   */
  lemma BoundColumns(p: Vec2, width: int)
    requires p.x > 0.0 && width >= 0
    ensures p.y == -p.x ==> ColumnOf(p, width) == 0
    ensures p.y == 0.0 ==> ColumnOf(p, width) == Half(width)
    ensures p.y == p.x ==> ColumnOf(p, width) == 2 * Half(width)
  {
    var half := Half(width) as real;
    assert p.x * TanHalfFov == p.x;
    if p.y == -p.x {
      assert p.y / p.x == -1.0;
    } else if p.y == p.x {
      assert p.y / p.x == 1.0;
      assert p.y / p.x * half + half == (2 * Half(width)) as real;
    }
  }

  /** Every point inside the view projects to a column from 0 to `W`. */
  lemma ColumnInView(p: Vec2, width: int)
    requires p.x > 0.0 && -p.x <= p.y <= p.x && width >= 0
    ensures 0 <= ColumnOf(p, width) <= width
  {
    var left, right := Vec2(p.x, -p.x), Vec2(p.x, p.x);
    assert left.y / left.x == -1.0 && right.y / right.x == 1.0;
    QuotientInUnit(p.y, p.x);
    ColumnMonotone(left, p, width);
    ColumnMonotone(p, right, width);
    BoundColumns(left, width);
    BoundColumns(right, width);
  }

  /** With a non-negative scale, the ceiling is never drawn below the floor when it is not below it in the world. */
  lemma RowsOrdered(z: real, floor: real, ceiling: real, height: int)
    requires z > 0.0 && height >= 0 && floor <= ceiling
    ensures TopRow(z, ceiling, height) <= BottomRow(z, floor, height)
  {
    YScaleNonNegative(z, height);
    RowOffsetsOrdered(YScale(z, height), floor, ceiling);
  }

  /** In front of the camera the vertical scale is non-negative. */
  lemma YScaleNonNegative(z: real, height: int)
    requires z > 0.0 && height >= 0
    ensures 0.0 <= YScale(z, height)
  {
    DivNonNegative(HeightScale * height as real, z);
  }

  /** Scalar core of `RowsOrdered`: `-(int)(s * c) <= (int)(s * -f)` when `f <= c` and `s >= 0`. */
  lemma RowOffsetsOrdered(s: real, floor: real, ceiling: real)
    requires 0.0 <= s && floor <= ceiling
    ensures -RowOffset(s, ceiling) <= RowOffset(s, -floor)
  {
    MulMonotoneLeft(s, floor, ceiling);
    assert s * floor <= s * ceiling;
    TruncMonotone(s * floor, s * ceiling);
    RowOffsetNegate(s, floor);
  }

  /** Negating the height negates its row offset, because truncation is symmetric about zero. */
  lemma RowOffsetNegate(s: real, h: real)
    ensures RowOffset(s, -h) == -RowOffset(s, h)
  {
    assert s * -h == -(s * h);
    TruncNeg(s * h);
  }

  /** Heights symmetric about the eye give rows symmetric about the centre row `H / 2`. */
  lemma RowsSymmetric(z: real, h: real, height: int)
    requires z != 0.0
    ensures TopRow(z, h, height) + BottomRow(z, -h, height) == 2 * Half(height)
  {
    RowOffsetNegate(YScale(z, height), -h);
  }

  /** Dividing a non-negative number by a larger positive depth gives a smaller result. */
  lemma DivAntitone(n: real, z1: real, z2: real)
    requires 0.0 <= n && 0.0 < z1 <= z2
    ensures n / z2 <= n / z1
  {
    var q1, q2 := n / z1, n / z2;
    assert q1 * z1 == n && q2 * z2 == n;
    if q1 < q2 {
      MulMonotone(z1, z2, q2);
      MulMonotone(q1, q2, z1);
      assert q1 * z1 < q2 * z1 by {
        assert (q2 - q1) * z1 > 0.0;
      }
    }
  }

  /** The vertical scale shrinks with depth. */
  lemma YScaleAntitone(z1: real, z2: real, height: int)
    requires 0.0 < z1 <= z2 && height >= 0
    ensures YScale(z2, height) <= YScale(z1, height)
  {
    DivAntitone(HeightScale * height as real, z1, z2);
  }

  /** A larger scale gives a row offset at least as large for a non-negative height. */
  lemma RowOffsetMonotone(s1: real, s2: real, h: real)
    requires s1 <= s2 && 0.0 <= h
    ensures RowOffset(s1, h) <= RowOffset(s2, h)
  {
    MulMonotone(s1, s2, h);
    TruncMonotone(s1 * h, s2 * h);
  }

  /** A nearer wall's ceiling reaches at least as high up the screen as a farther one's. */
  lemma NearerIsTaller(z1: real, z2: real, ceiling: real, height: int)
    requires 0.0 < z1 <= z2 && 0.0 <= ceiling && height >= 0
    ensures TopRow(z1, ceiling, height) <= TopRow(z2, ceiling, height)
  {
    YScaleAntitone(z1, z2, height);
    RowOffsetMonotone(YScale(z2, height), YScale(z1, height), ceiling);
  }

  /**
   * A clipped wall that faces the camera with both ends in front of it, and
   * inside the view, projects to an ordered column span within the screen.
   */
  lemma ProjectedSpanOrdered(c: ClippedWall, sides: seq<Side>, sectors: seq<Sector>, width: int, height: int)
    requires Resolvable(c, sides, sectors) && width >= 0
    requires c.p0.x > 0.0 && c.p1.x > 0.0 && Cross(c.p0, c.p1) >= 0.0
    ensures var r := ProjectWall(c, sides, sectors, width, height);
            r.leftX <= r.rightX
    ensures -c.p0.x <= c.p0.y <= c.p0.x && -c.p1.x <= c.p1.y <= c.p1.x ==>
            var r := ProjectWall(c, sides, sectors, width, height);
            0 <= r.leftX && r.rightX <= width
  {
    ColumnOrder(c.p0, c.p1, width);
    if -c.p0.x <= c.p0.y <= c.p0.x && -c.p1.x <= c.p1.y <= c.p1.x {
      ColumnInView(c.p0, width);
      ColumnInView(c.p1, width);
    }
  }

  /**
   * The back-face wall from `(1, -1)` to `(2, 1)` on a 640-column screen
   * spans columns 0 to 480: its near end sits on the left bound.
   */
  lemma ScenarioColumns()
    ensures ColumnOf(Vec2(1.0, -1.0), 640) == 0
    ensures ColumnOf(Vec2(2.0, 1.0), 640) == 480
  {
    assert Half(640) == 320;
    assert 1.0 / (2.0 * TanHalfFov) * 320.0 + 320.0 == 480.0;
  }
}
