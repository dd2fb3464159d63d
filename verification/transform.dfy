/**
 * `translate_walls`: moves every wall from world space into view space, where
 * the player stands at the origin and looks along +x. The heading enters as
 * its cosine `c` and sine `s`; the rotation by `-angle` uses `(c, -s)`.
 */
module Transform {
  import opened Vectors
  import opened Map

  /** A world-space point seen from the player: `(p - playerPos).rotate(-angle)`. */
  function ViewPoint(p: Vec2, playerPos: Vec2, c: real, s: real): Vec2
  {
    Rotate(Sub(p, playerPos), c, -s)
  }

  /** One wall in view space: both endpoints moved, both side ids copied. */
  function TranslateWall(w: Wall, playerPos: Vec2, c: real, s: real): (v: Wall)
    ensures v.frontId == w.frontId && v.backId == w.backId
    ensures v.p0 == ViewPoint(w.p0, playerPos, c, s) && v.p1 == ViewPoint(w.p1, playerPos, c, s)
  {
    Wall(ViewPoint(w.p0, playerPos, c, s), ViewPoint(w.p1, playerPos, c, s), w.frontId, w.backId)
  }

  /** `translate_walls`: exactly one output wall per input wall, in the same order. */
  function TranslateWalls(walls: seq<Wall>, playerPos: Vec2, c: real, s: real): (out: seq<Wall>)
    ensures |out| == |walls|
    ensures forall i :: 0 <= i < |walls| ==>
      && out[i].frontId == walls[i].frontId && out[i].backId == walls[i].backId
      && out[i].p0 == ViewPoint(walls[i].p0, playerPos, c, s)
      && out[i].p1 == ViewPoint(walls[i].p1, playerPos, c, s)
  {
    seq(|walls|, i requires 0 <= i < |walls| => TranslateWall(walls[i], playerPos, c, s))
  }

  /** The player's own position becomes the view-space origin. */
  lemma PlayerAtOrigin(playerPos: Vec2, c: real, s: real)
    ensures ViewPoint(playerPos, playerPos, c, s) == Zero()
  {
  }

  /** A point one unit ahead along the heading lands on the +x axis at distance 1. */
  lemma HeadingIsForward(playerPos: Vec2, c: real, s: real)
    requires c * c + s * s == 1.0
    ensures ViewPoint(Add(playerPos, Vec2(c, s)), playerPos, c, s) == Vec2(1.0, 0.0)
  {
    var v := Vec2(c, s);
    assert Sub(Add(playerPos, v), playerPos) == v;
    assert Rotate(v, c, -s) == Vec2(c * c + s * s, -s * c + c * s);
  }

  /** For a genuine heading the view transform is undone by rotating back and adding the player position. */
  lemma ViewPointInverse(p: Vec2, playerPos: Vec2, c: real, s: real)
    requires c * c + s * s == 1.0
    ensures Add(Rotate(ViewPoint(p, playerPos, c, s), c, s), playerPos) == p
  {
    var d := Sub(p, playerPos);
    var r := Rotate(d, c, -s);
    assert c * r.x - s * r.y == (c * c + s * s) * d.x;
    assert s * r.x + c * r.y == (c * c + s * s) * d.y;
    assert Rotate(r, c, s) == d;
    SubAddRoundTrip(p, playerPos);
  }

  /** The view transform is rigid: it keeps the squared length of every wall. */
  lemma TranslateKeepsLength(w: Wall, playerPos: Vec2, c: real, s: real)
    requires c * c + s * s == 1.0
    ensures var v := TranslateWall(w, playerPos, c, s);
            Norm2(Sub(v.p1, v.p0)) == Norm2(Sub(w.p1, w.p0))
  {
    var a, b := Sub(w.p1, playerPos), Sub(w.p0, playerPos);
    RotateSub(a, b, c, -s);
    assert Sub(a, b) == Sub(w.p1, w.p0);
    var d := Sub(w.p1, w.p0);
    var r := Rotate(d, c, -s);
    assert Norm2(r) == (c * c + s * s) * Norm2(d);
  }
}
