/**
 * `output_to_screen_buffer` and its column blit `drawVerticalWallColumn`.
 * The frame buffer is `width * height` pixels of 4 bytes, row after row; the
 * operations take it as a value and return the updated buffer. Accumulators
 * the program advances with `+=` are stated by their closed forms, which is
 * exact over the reals.
 */
module Raster {
  import opened Numeric
  import opened Reals
  import opened Map
  import opened Project

  /** A frame buffer of `width * height` 4-byte pixels. */
  predicate FrameBuffer(fb: seq<byte>, width: int, height: int)
  {
    0 <= width && 0 <= height && |fb| == width * height * BytesPerPixel
  }

  /**
   * The arguments of one `drawVerticalWallColumn` call: screen rows `yMin`
   * to `yMax` of column `x` show texture column `u`, from `bottomTex` of the
   * texture's height at `yMin` to `topTex` at `yMax`.
   */
  datatype Column = Column(yMin: int, yMax: int, x: int, u: int, topTex: real, bottomTex: real)

  /** `fraction * size`: a texture coordinate scaled to texels; non-negative for a non-negative fraction and size. */
  function Texels(fraction: real, size: int): (t: real)
    ensures 0.0 <= fraction && 0 <= size ==> 0.0 <= t
  {
    fraction * size as real
  }

  /** `(to - from) / rows`, the step that walks from `from` to `to` in `rows` steps; with no rows to walk it is 0. */
  function StepPerRow(from: real, to: real, rows: int): real
  {
    if rows == 0 then 0.0 else (to - from) / rows as real
  }

  /**
   * `from` advanced by `k` steps of `StepPerRow`: it starts at `from`, ends
   * at `to`, and in between stays between the two.
   */
  function Advance(from: real, to: real, k: int, rows: int): (v: real)
    ensures k == 0 ==> v == from
    ensures rows != 0 && k == rows ==> v == to
    ensures 0 <= k <= rows && from <= to ==> from <= v <= to
    ensures 0 <= k <= rows && to <= from ==> to <= v <= from
  {
    AdvanceBetween(from, to, k, rows);
    from + k as real * StepPerRow(from, to, rows)
  }

  /** Arithmetic behind `Advance`'s contract. */
  lemma AdvanceBetween(from: real, to: real, k: int, rows: int)
    ensures rows != 0 && k == rows ==> from + k as real * StepPerRow(from, to, rows) == to
    ensures 0 <= k <= rows && from <= to ==> from <= from + k as real * StepPerRow(from, to, rows) <= to
    ensures 0 <= k <= rows && to <= from ==> to <= from + k as real * StepPerRow(from, to, rows) <= from
  {
    if rows != 0 {
      var q := (to - from) / rows as real;
      assert rows as real * q == to - from;
      if 0 <= k <= rows {
        InterpBetween(from, to, k as real, rows as real);
      }
    } else if 0 <= k <= rows {
      assert k == 0;
    }
  }

  /** One more step adds `StepPerRow` once. */
  lemma AdvanceNext(from: real, to: real, k: int, rows: int)
    ensures Advance(from, to, k + 1, rows) == Advance(from, to, k, rows) + StepPerRow(from, to, rows)
  {
    var d := StepPerRow(from, to, rows);
    assert (k as real + 1.0) * d == k as real * d + d;
  }

  /** `Advance` is the value `v` holds after `k` executions of `v += StepPerRow(from, to, rows)` from `from`. */
  lemma AdvanceIsStepped(from: real, to: real, k: nat, rows: int)
    ensures Advance(from, to, k, rows) == Stepped(from, StepPerRow(from, to, rows), k)
  {
    SteppedClosedForm(from, StepPerRow(from, to, rows), k);
  }

  /** The step of `v` per screen row; a column of one row never steps, so its step is 0. */
  function VStep(c: Column, texHeight: int): real
  {
    StepPerRow(Texels(c.bottomTex, texHeight), Texels(c.topTex, texHeight), c.yMax - c.yMin)
  }

  /** The texture row coordinate `v` at screen row `y`: `bottomTex * texHeight` advanced one `VStep` per row below `yMin`. */
  function ColumnV(c: Column, texHeight: int, y: int): real
  {
    Advance(Texels(c.bottomTex, texHeight), Texels(c.topTex, texHeight), y - c.yMin, c.yMax - c.yMin)
  }

  /** Pixel `p` of the frame buffer lies in column `c.x`, on a row the blit draws: on screen and from `yMin` to `yMax`. */
  predicate Covers(c: Column, width: int, height: int, p: int)
  {
    && 0 < width && 0 <= c.x < width && p % width == c.x
    && c.yMin <= p / width <= c.yMax && 0 <= p / width < height
  }

  /** Where the 4 bytes of texel `(u, (int)v % texHeight)` start in the texture. */
  function TexelStart(tex: Texture, u: int, v: real): int
    requires tex.height != 0
  {
    (u + CRem(Trunc(v), tex.height) * tex.width) * BytesPerPixel
  }

  /** The byte the blit stores at frame-buffer index `i` of a covered pixel. */
  function ColumnByte(c: Column, tex: Texture, width: int, i: int): byte
    requires tex.height != 0 && width > 0
  {
    ByteAt(tex.data, TexelStart(tex, c.u, ColumnV(c, tex.height, i / BytesPerPixel / width)) + i % BytesPerPixel)
  }

  /** The frame buffer after one column blit: covered pixels take their texel, every other byte is kept. */
  function PaintColumn(fb: seq<byte>, width: int, height: int, c: Column, tex: Texture): (r: seq<byte>)
    requires tex.height != 0
    ensures |r| == |fb|
  {
    seq(|fb|, i requires 0 <= i < |fb| =>
      if Covers(c, width, height, i / BytesPerPixel) then ColumnByte(c, tex, width, i) else fb[i])
  }

  /** Arguments with which the blit reads only inside the texture. */
  predicate Blittable(c: Column, tex: Texture)
  {
    Sampleable(tex) && 0 <= c.u < tex.width && 0.0 <= c.topTex && 0.0 <= c.bottomTex
  }

  /** `v` starts at `bottomTex` of the texture height on row `yMin` and reaches `topTex` of it on row `yMax`. */
  lemma ColumnVEndpoints(c: Column, texHeight: int)
    ensures ColumnV(c, texHeight, c.yMin) == c.bottomTex * texHeight as real
    ensures c.yMin != c.yMax ==> ColumnV(c, texHeight, c.yMax) == c.topTex * texHeight as real
  {
  }

  /** Scalar core of interpolation: `a + k * ((b - a) / d)` for `0 <= k <= d` lies between `a` and `b`. */
  lemma InterpBetween(a: real, b: real, k: real, d: real)
    requires 0.0 <= k <= d && 0.0 < d
    ensures a <= b ==> a <= a + k * ((b - a) / d) <= b
    ensures b <= a ==> b <= a + k * ((b - a) / d) <= a
  {
    var q := (b - a) / d;
    assert d * q == b - a;
    if a <= b {
      assert q >= 0.0;
      MulMonotone(k, d, q);
      MulMonotone(0.0, k, q);
    } else {
      assert q < 0.0;
      MulMonotone(k, d, -q);
      MulMonotone(0.0, k, -q);
    }
  }

  /** On every drawn row of a column with non-negative texture bounds, `v` is non-negative. */
  lemma ColumnVNonNegative(c: Column, texHeight: int, y: int)
    requires 0 <= texHeight && 0.0 <= c.topTex && 0.0 <= c.bottomTex && c.yMin <= y <= c.yMax
    ensures 0.0 <= ColumnV(c, texHeight, y)
  {
  }

  /** Every texel the blit can name lies inside the texture's pixel data. */
  lemma TexelInBounds(tex: Texture, u: int, v: real)
    requires Sampleable(tex) && 0 <= u < tex.width && 0.0 <= v
    ensures 0 <= TexelStart(tex, u, v) && TexelStart(tex, u, v) + BytesPerPixel <= |tex.data|
  {
    var row := CRem(Trunc(v), tex.height);
    RowBounds(tex.width, tex.height, row);
    assert |tex.data| == (tex.height * tex.width) * BytesPerPixel;
  }

  /** Replaces the 4 bytes of one pixel starting at `at`. */
  function PutPixel(s: seq<byte>, at: int, px: seq<byte>): (r: seq<byte>)
    requires 0 <= at && at + BytesPerPixel <= |s| && |px| == BytesPerPixel
    ensures |r| == |s|
    ensures forall i :: 0 <= i < |s| ==> r[i] == if at <= i < at + BytesPerPixel then px[i - at] else s[i]
  {
    s[..at] + px + s[at + BytesPerPixel..]
  }

  /** The blit has drawn exactly the covered pixels on the rows above `y`; every other byte is as it was. */
  predicate PaintedAbove(r: seq<byte>, fb: seq<byte>, width: int, height: int, c: Column, tex: Texture, y: int)
    requires tex.height != 0
  {
    && |r| == |fb|
    && forall i :: 0 <= i < |fb| ==>
         r[i] == if Covers(c, width, height, i / BytesPerPixel) && i / BytesPerPixel / width < y
                 then ColumnByte(c, tex, width, i) else fb[i]
  }

  /** Pixel `x + y * width` splits back into column `x` and row `y`. */
  lemma PixelOf(x: int, y: int, width: int)
    requires 0 <= x < width
    ensures (x + y * width) % width == x && (x + y * width) / width == y
  {
    DivModUnique(x + y * width, width, y, x);
  }

  /** A covered pixel on row `y` is pixel `c.x + y * width`. */
  lemma CoveredPixel(c: Column, width: int, height: int, p: int)
    requires Covers(c, width, height, p)
    ensures p == c.x + p / width * width
  {
    assert p == p / width * width + p % width;
  }

  /** One iteration of the blit's row loop extends the painted rows by row `y`. */
  lemma PaintRow(r: seq<byte>, fb: seq<byte>, width: int, height: int, c: Column, tex: Texture, y: int)
    requires FrameBuffer(fb, width, height) && Blittable(c, tex)
    requires 0 <= c.x < width && 0 <= y < height && c.yMin <= y <= c.yMax
    requires PaintedAbove(r, fb, width, height, c, tex, y)
    ensures var at := (c.x + y * width) * BytesPerPixel;
            var src := TexelStart(tex, c.u, ColumnV(c, tex.height, y));
            && 0 <= at && at + BytesPerPixel <= |r|
            && 0 <= src && src + BytesPerPixel <= |tex.data|
            && PaintedAbove(PutPixel(r, at, tex.data[src..src + BytesPerPixel]), fb, width, height, c, tex, y + 1)
  {
    var p := c.x + y * width;
    var at := p * BytesPerPixel;
    RowBounds(width, height, y);
    assert |fb| == (height * width) * BytesPerPixel;
    ColumnVNonNegative(c, tex.height, y);
    var v := ColumnV(c, tex.height, y);
    TexelInBounds(tex, c.u, v);
    var src := TexelStart(tex, c.u, v);
    var px := tex.data[src..src + BytesPerPixel];
    var r' := PutPixel(r, at, px);
    PixelOf(c.x, y, width);
    forall i | 0 <= i < |fb|
      ensures r'[i] == if Covers(c, width, height, i / BytesPerPixel) && i / BytesPerPixel / width < y + 1
                       then ColumnByte(c, tex, width, i) else fb[i]
    {
      var q := i / BytesPerPixel;
      if at <= i < at + BytesPerPixel {
        assert q == p;
        assert r'[i] == px[i - at] == tex.data[src + i % BytesPerPixel];
      } else if Covers(c, width, height, q) && q / width == y {
        CoveredPixel(c, width, height, q);
        assert false;
      }
    }
  }

  /**
   * `drawVerticalWallColumn`: nothing happens for a column off the screen;
   * otherwise rows `yMin` to `yMax`, clamped to the screen, take texel
   * `(u, (int)v % texHeight)` with `v` stepping from `bottomTex * texHeight`
   * towards `topTex * texHeight`, and no other byte changes.
   */
  method DrawVerticalWallColumn(fb: seq<byte>, width: int, height: int, c: Column, tex: Texture) returns (r: seq<byte>)
    requires FrameBuffer(fb, width, height) && Blittable(c, tex)
    ensures r == PaintColumn(fb, width, height, c, tex)
  {
    if c.x < 0 || c.x >= width {
      assert forall i :: 0 <= i < |fb| ==> !Covers(c, width, height, i / BytesPerPixel);
      return fb;
    }
    var yDiff := c.yMax - c.yMin;
    var texHeight := tex.height;
    var v := Texels(c.bottomTex, texHeight);
    var vMax := Texels(c.topTex, texHeight);
    var vStep := StepPerRow(v, vMax, yDiff);
    ghost var vMin := v;
    var yMin, yMax := c.yMin, c.yMax;
    if yMin < 0 {
      var skipped := -yMin;
      AdvanceBy(v, vMax, skipped, yDiff);
      v := v + skipped as real * vStep;
      yMin := 0;
    }
    if yMax >= height {
      yMax := height - 1;
    }
    r := fb;
    var y := yMin;
    while y <= yMax
      invariant yMin <= y && (yMin <= yMax ==> y <= yMax + 1)
      invariant v == Advance(vMin, vMax, y - c.yMin, yDiff)
      invariant PaintedAbove(r, fb, width, height, c, tex, y)
    {
      PaintRow(r, fb, width, height, c, tex, y);
      var src := TexelStart(tex, c.u, v);
      r := PutPixel(r, (c.x + y * width) * BytesPerPixel, tex.data[src..src + BytesPerPixel]);
      AdvanceNext(vMin, vMax, y - c.yMin, yDiff);
      v := v + vStep;
      y := y + 1;
    }
    forall i | 0 <= i < |fb|
      ensures r[i] == PaintColumn(fb, width, height, c, tex)[i]
    {
    }
  }

  /** `Advance` in closed form: `k` steps add `k` times the step. */
  lemma AdvanceBy(from: real, to: real, k: int, rows: int)
    ensures Advance(from, to, k, rows) == from + k as real * StepPerRow(from, to, rows)
  {
  }

  /** A column off the screen leaves the frame buffer as it was. */
  lemma OffscreenColumnUnchanged(fb: seq<byte>, width: int, height: int, c: Column, tex: Texture)
    requires tex.height != 0 && (c.x < 0 || width <= c.x)
    ensures PaintColumn(fb, width, height, c, tex) == fb
  {
  }

  /**
   * Only pixels of column `x` on the screen's rows, between `yMin` and
   * `yMax`, can change: a byte that differs after the blit belongs to such a
   * pixel, and holds the texel byte.
   */
  lemma PaintColumnClamped(fb: seq<byte>, width: int, height: int, c: Column, tex: Texture, i: int)
    requires tex.height != 0 && FrameBuffer(fb, width, height) && 0 <= i < |fb|
    requires PaintColumn(fb, width, height, c, tex)[i] != fb[i]
    ensures 0 <= c.x < width && (i / BytesPerPixel) % width == c.x
    ensures 0 <= i / BytesPerPixel / width < height
    ensures c.yMin <= i / BytesPerPixel / width <= c.yMax
    ensures PaintColumn(fb, width, height, c, tex)[i] == ColumnByte(c, tex, width, i)
  {
  }

  /** The two parts of a texture span that clipping cuts away, one from each end. */
  datatype Cuts = Cuts(left: real, right: real)

  /**
   * What the cuts of a span promise: for clip fractions of a real piece they
   * lie between 0 and the span and together do not exceed it, whichever the
   * span's sign; what is left is the unclipped share; a zero fraction cuts
   * nothing.
   */
  predicate CutsFit(cuts: Cuts, clipLeft: real, clipRight: real, span: real)
  {
    && CutsWithinNonNegative(cuts.left, cuts.right, clipLeft, clipRight, span)
    && CutsWithinNonPositive(cuts.left, cuts.right, clipLeft, clipRight, span)
    && LeavesUnclippedShare(cuts.left, cuts.right, clipLeft, clipRight, span)
    && (clipLeft == 0.0 ==> cuts.left == 0.0)
    && (clipRight == 0.0 ==> cuts.right == 0.0)
  }

  /** On a non-negative span the cuts are non-negative and together no longer than the span. */
  predicate CutsWithinNonNegative(left: real, right: real, clipLeft: real, clipRight: real, span: real)
  {
    ClipFractions(clipLeft, clipRight) && 0.0 <= span ==>
      0.0 <= left && 0.0 <= right && left + right <= span
  }

  /** On a non-positive span the cuts are non-positive and together no shorter than the span. */
  predicate CutsWithinNonPositive(left: real, right: real, clipLeft: real, clipRight: real, span: real)
  {
    ClipFractions(clipLeft, clipRight) && span <= 0.0 ==>
      left <= 0.0 && right <= 0.0 && span <= left + right
  }

  /** What the cuts leave of the span is its unclipped share. */
  predicate LeavesUnclippedShare(left: real, right: real, clipLeft: real, clipRight: real, span: real)
  {
    span - left - right == (1.0 - clipLeft - clipRight) * span
  }

  /** `clipLeft * span` and `clipRight * span`: the cuts fit the span. */
  function ClipCuts(clipLeft: real, clipRight: real, span: real): (cuts: Cuts)
    ensures CutsFit(cuts, clipLeft, clipRight, span)
  {
    CutsWithinSpan(clipLeft, clipRight, span);
    Cuts(clipLeft * span, clipRight * span)
  }

  /** Arithmetic behind `ClipCuts`: fractions of a span, by the sign of the span. */
  lemma CutsWithinSpan(clipLeft: real, clipRight: real, span: real)
    ensures CutsFit(Cuts(clipLeft * span, clipRight * span), clipLeft, clipRight, span)
  {
    CutsOfNonNegativeSpan(clipLeft, clipRight, span);
    CutsOfNonPositiveSpan(clipLeft, clipRight, span);
    UnclippedShare(clipLeft, clipRight, span);
  }

  lemma CutsOfNonNegativeSpan(clipLeft: real, clipRight: real, span: real)
    ensures CutsWithinNonNegative(clipLeft * span, clipRight * span, clipLeft, clipRight, span)
  {
    if ClipFractions(clipLeft, clipRight) && 0.0 <= span {
      MulSumBetween(clipLeft, clipRight, span);
    }
  }

  lemma CutsOfNonPositiveSpan(clipLeft: real, clipRight: real, span: real)
    ensures CutsWithinNonPositive(clipLeft * span, clipRight * span, clipLeft, clipRight, span)
  {
    if ClipFractions(clipLeft, clipRight) && span <= 0.0 {
      MulSumBetweenNonPositive(clipLeft, clipRight, span);
    }
  }

  lemma UnclippedShare(clipLeft: real, clipRight: real, span: real)
    ensures LeavesUnclippedShare(clipLeft * span, clipRight * span, clipLeft, clipRight, span)
  {
  }

  /**
   * The texture coordinates of a side narrowed to the part of the wall that
   * survived clipping: the left edge moves right by the left clip fraction
   * of the span, the right edge left by the right one.
   */
  function NarrowTexCoord(tc: TexCoord, clipLeft: real, clipRight: real): TexCoord
  {
    var cuts := ClipCuts(clipLeft, clipRight, tc.right - tc.left);
    tc.(left := tc.left + cuts.left, right := tc.right - cuts.right)
  }

  /** Clip fractions that describe a piece of the wall: non-negative and not overlapping. */
  predicate ClipFractions(clipLeft: real, clipRight: real)
  {
    0.0 <= clipLeft && 0.0 <= clipRight && clipLeft + clipRight <= 1.0
  }

  /**
   * Narrowing keeps the vertical coordinates, leaves an unclipped wall's
   * coordinates alone, and keeps exactly the unclipped share of the span.
   */
  lemma NarrowTexCoordSpan(tc: TexCoord, clipLeft: real, clipRight: real)
    ensures var n := NarrowTexCoord(tc, clipLeft, clipRight);
            && n.top == tc.top && n.bottom == tc.bottom
            && (clipLeft == 0.0 && clipRight == 0.0 ==> n == tc)
            && n.right - n.left == (1.0 - clipLeft - clipRight) * (tc.right - tc.left)
  {
  }

  /** With non-overlapping cuts, the narrowed coordinates stay inside the original span, in order. */
  lemma NarrowTexCoordInside(tc: TexCoord, clipLeft: real, clipRight: real)
    requires ClipFractions(clipLeft, clipRight) && tc.left <= tc.right
    ensures var n := NarrowTexCoord(tc, clipLeft, clipRight);
            tc.left <= n.left <= n.right <= tc.right
  {
  }

  /** Narrowing non-negative coordinates gives non-negative coordinates. */
  lemma NarrowTexCoordNonNegative(tc: TexCoord, clipLeft: real, clipRight: real)
    requires ClipFractions(clipLeft, clipRight) && 0.0 <= tc.left && 0.0 <= tc.right
    ensures 0.0 <= NarrowTexCoord(tc, clipLeft, clipRight).left
    ensures 0.0 <= NarrowTexCoord(tc, clipLeft, clipRight).right
  {
  }

  /** The column count divisor: `rightX - leftX`, or 1 for a wall one column wide, so never 0. */
  function XDiff(leftX: int, rightX: int): (d: int)
    ensures d != 0
    ensures leftX < rightX ==> 0 < d && leftX + d == rightX
    ensures leftX == rightX ==> d == 1
  {
    if rightX - leftX == 0 then 1 else rightX - leftX
  }

  /** The value of an accumulator after `k` steps of `(b - a) / d` from `a`. */
  function Interp(a: real, b: real, k: int, d: int): real
    requires d != 0
  {
    a + k as real * ((b - a) / d as real)
  }

  /** Interpolation starts at `a`, reaches `b` after `d` steps, and each step adds `(b - a) / d`. */
  lemma InterpSteps(a: real, b: real, k: int, d: int)
    requires d != 0
    ensures Interp(a, b, 0, d) == a && Interp(a, b, d, d) == b
    ensures Interp(a, b, k + 1, d) == Interp(a, b, k, d) + (b - a) / d as real
  {
    var q := (b - a) / d as real;
    assert d as real * q == b - a;
    assert (k as real + 1.0) * q == k as real * q + q;
  }

  /** `Interp` is the value an accumulator holds after `k` executions of `+= (b - a) / d` from `a`. */
  lemma InterpIsStepped(a: real, b: real, k: nat, d: int)
    requires d != 0
    ensures Interp(a, b, k, d) == Stepped(a, (b - a) / d as real, k)
  {
    SteppedClosedForm(a, (b - a) / d as real, k);
  }

  /** A wall the renderer can draw: in front of the camera, well clipped, with non-negative texture coordinates. */
  predicate Drawable(coord: ScreenCoord, side: Side)
  {
    && 0.0 < coord.zDistLeft && 0.0 < coord.zDistRight
    && ClipFractions(coord.texClipLeft, coord.texClipRight)
    && 0.0 <= side.texCoord.left && 0.0 <= side.texCoord.right
    && 0.0 <= side.texCoord.top && 0.0 <= side.texCoord.bottom
    && Sampleable(side.midTex)
  }

  /** Between positive endpoints, an interpolated value is positive; between non-negative ones, non-negative. */
  lemma InterpSign(a: real, b: real, k: int, d: int)
    requires 0 <= k <= d && 0 < d
    ensures 0.0 < a && 0.0 < b ==> 0.0 < Interp(a, b, k, d)
    ensures 0.0 <= a && 0.0 <= b ==> 0.0 <= Interp(a, b, k, d)
  {
    assert Interp(a, b, k, d) == a + k as real * ((b - a) / d as real);
    InterpBetween(a, b, k as real, d as real);
    if a <= b {
      assert a <= Interp(a, b, k, d);
    } else {
      assert b <= Interp(a, b, k, d);
    }
  }

  /**
   * The values the column loop interpolates, at the wall's left and right
   * ends: the ceiling and floor rows, `1/z`, and the texture column divided
   * by `z` for the narrowed texture coordinates.
   */
  datatype WallEnds = WallEnds(topL: real, topR: real, bottomL: real, bottomR: real,
                               invZL: real, invZR: real, texL: real, texR: real)

  /** The interpolated values at both ends of a drawable wall; `1/z` is positive and `texture column / z` non-negative. */
  function Ends(coord: ScreenCoord, side: Side): (e: WallEnds)
    requires Drawable(coord, side)
    ensures 0.0 < e.invZL && 0.0 < e.invZR && 0.0 <= e.texL && 0.0 <= e.texR
  {
    var tc := NarrowTexCoord(side.texCoord, coord.texClipLeft, coord.texClipRight);
    var texWidth := side.midTex.width as real;
    NarrowTexCoordNonNegative(side.texCoord, coord.texClipLeft, coord.texClipRight);
    MulMonotone(0.0, tc.left, texWidth);
    MulMonotone(0.0, tc.right, texWidth);
    DivNonNegative(tc.left * texWidth, coord.zDistLeft);
    DivNonNegative(tc.right * texWidth, coord.zDistRight);
    WallEnds(coord.topLeftY as real, coord.topRightY as real, coord.bottomLeftY as real, coord.bottomRightY as real,
             1.0 / coord.zDistLeft, 1.0 / coord.zDistRight,
             (tc.left * texWidth) / coord.zDistLeft, (tc.right * texWidth) / coord.zDistRight)
  }

  /**
   * The arguments of the blit for screen column `x` of a wall: the ceiling
   * and floor rows, `1/z` and `texture column / z` each interpolated
   * linearly across the wall, the texture column recovered by dividing the
   * two (perspective-correct mapping) and wrapped to the texture width.
   */
  function WallColumn(coord: ScreenCoord, side: Side, x: int): (c: Column)
    requires Drawable(coord, side) && coord.leftX <= x <= coord.rightX
    ensures c.x == x && Blittable(c, side.midTex)
  {
    var e := Ends(coord, side);
    var d, k := XDiff(coord.leftX, coord.rightX), x - coord.leftX;
    var tc := NarrowTexCoord(side.texCoord, coord.texClipLeft, coord.texClipRight);
    InterpSign(e.invZL, e.invZR, k, d);
    InterpSign(e.texL, e.texR, k, d);
    Column(Trunc(Interp(e.topL, e.topR, k, d)), Trunc(Interp(e.bottomL, e.bottomR, k, d)), x,
           TextureColumn(Interp(e.texL, e.texR, k, d), Interp(e.invZL, e.invZR, k, d), side.midTex.width),
           tc.top, tc.bottom)
  }

  /** `(int)(texLeft / oneOverZ) % texWidth`: the texture column, wrapped to the texture's width. */
  function TextureColumn(texLeft: real, oneOverZ: real, texWidth: int): (u: int)
    requires 0.0 <= texLeft && 0.0 < oneOverZ && 0 < texWidth
    ensures 0 <= u < texWidth
  {
    DivNonNegative(texLeft, oneOverZ);
    CRem(Trunc(texLeft / oneOverZ), texWidth)
  }

  /** Pixel `p` is drawn by the wall's blit for its own column. */
  predicate WallCovers(coord: ScreenCoord, side: Side, width: int, height: int, p: int)
    requires Drawable(coord, side)
  {
    0 < width && coord.leftX <= p % width <= coord.rightX && Covers(WallColumn(coord, side, p % width), width, height, p)
  }

  /** The frame buffer after one wall: each covered pixel takes the texel of its column's blit, every other byte is kept. */
  function PaintWall(fb: seq<byte>, width: int, height: int, coord: ScreenCoord, side: Side): (r: seq<byte>)
    requires Drawable(coord, side)
    ensures |r| == |fb|
  {
    seq(|fb|, i requires 0 <= i < |fb| =>
      if WallCovers(coord, side, width, height, i / BytesPerPixel)
      then ColumnByte(WallColumn(coord, side, (i / BytesPerPixel) % width), side.midTex, width, i)
      else fb[i])
  }

  /** The columns of the wall left of `x` have been drawn; every other byte is as it was. */
  predicate PaintedLeftOf(r: seq<byte>, fb: seq<byte>, width: int, height: int, coord: ScreenCoord, side: Side, x: int)
    requires Drawable(coord, side)
  {
    && |r| == |fb|
    && forall i :: 0 <= i < |fb| ==>
         r[i] == if WallCovers(coord, side, width, height, i / BytesPerPixel) && (i / BytesPerPixel) % width < x
                 then ColumnByte(WallColumn(coord, side, (i / BytesPerPixel) % width), side.midTex, width, i)
                 else fb[i]
  }

  /** Blitting column `x` extends the drawn columns by `x`; columns never overlap. */
  lemma PaintWallColumn(r: seq<byte>, fb: seq<byte>, width: int, height: int, coord: ScreenCoord, side: Side, x: int)
    requires Drawable(coord, side) && coord.leftX <= x <= coord.rightX
    requires PaintedLeftOf(r, fb, width, height, coord, side, x)
    ensures PaintedLeftOf(PaintColumn(r, width, height, WallColumn(coord, side, x), side.midTex), fb, width, height, coord, side, x + 1)
  {
  }

  /**
   * The column loop of `output_to_screen_buffer` for one wall: for each
   * screen column from `leftX` to `rightX`, the accumulators give the
   * column's rows and texture column, and the column is blitted.
   */
  method DrawWall(fb: seq<byte>, width: int, height: int, coord: ScreenCoord, side: Side) returns (r: seq<byte>)
    requires FrameBuffer(fb, width, height) && Drawable(coord, side)
    ensures r == PaintWall(fb, width, height, coord, side)
  {
    var tc := NarrowTexCoord(side.texCoord, coord.texClipLeft, coord.texClipRight);
    var xDiff := XDiff(coord.leftX, coord.rightX);
    var yTopStep := (coord.topRightY - coord.topLeftY) as real / xDiff as real;
    var yBottomStep := (coord.bottomRightY - coord.bottomLeftY) as real / xDiff as real;
    var yTop := coord.topLeftY as real;
    var yBottom := coord.bottomLeftY as real;
    var oneOverZLeft := 1.0 / coord.zDistLeft;
    var oneOverZRight := 1.0 / coord.zDistRight;
    var oneOverZStep := (oneOverZRight - oneOverZLeft) / xDiff as real;
    var texWidth := side.midTex.width;
    var texLeft := (tc.left * texWidth as real) / coord.zDistLeft;
    var texRight := (tc.right * texWidth as real) / coord.zDistRight;
    var texStep := (texRight - texLeft) / xDiff as real;
    ghost var e := Ends(coord, side);
    assert e == WallEnds(yTop, coord.topRightY as real, yBottom, coord.bottomRightY as real,
                         oneOverZLeft, oneOverZRight, texLeft, texRight);
    r := fb;
    var x := coord.leftX;
    while x <= coord.rightX
      invariant coord.leftX <= x && (coord.leftX <= coord.rightX ==> x <= coord.rightX + 1)
      invariant yTop == Interp(e.topL, e.topR, x - coord.leftX, xDiff)
      invariant yBottom == Interp(e.bottomL, e.bottomR, x - coord.leftX, xDiff)
      invariant oneOverZLeft == Interp(e.invZL, e.invZR, x - coord.leftX, xDiff)
      invariant texLeft == Interp(e.texL, e.texR, x - coord.leftX, xDiff)
      invariant |r| == |fb|
      invariant PaintedLeftOf(r, fb, width, height, coord, side, x)
    {
      var k := x - coord.leftX;
      InterpSign(e.invZL, e.invZR, k, xDiff);
      InterpSign(e.texL, e.texR, k, xDiff);
      var c := Column(Trunc(yTop), Trunc(yBottom), x, TextureColumn(texLeft, oneOverZLeft, texWidth), tc.top, tc.bottom);
      assert c == WallColumn(coord, side, x);
      PaintWallColumn(r, fb, width, height, coord, side, x);
      r := DrawVerticalWallColumn(r, width, height, c, side.midTex);
      InterpSteps(e.topL, e.topR, k, xDiff);
      InterpSteps(e.bottomL, e.bottomR, k, xDiff);
      InterpSteps(e.invZL, e.invZR, k, xDiff);
      InterpSteps(e.texL, e.texR, k, xDiff);
      yTop := yTop + yTopStep;
      yBottom := yBottom + yBottomStep;
      oneOverZLeft := oneOverZLeft + oneOverZStep;
      texLeft := texLeft + texStep;
      x := x + 1;
    }
    forall i | 0 <= i < |fb|
      ensures r[i] == PaintWall(fb, width, height, coord, side)[i]
    {
    }
  }

  /** Dividing `a / z` by `1 / z` gives back `a`: perspective division undoes the depth scaling at an end. */
  lemma PerspectiveCancel(a: real, z: real)
    requires z > 0.0
    ensures (a / z) / (1.0 / z) == a
  {
    var q := a / z;
    assert q * z == a;
    assert q / (1.0 / z) == q * z;
  }

  /** At a wall end the texture column is the end's own coordinate, wrapped: the depth cancels. */
  lemma TextureColumnAtEnd(a: real, z: real, texWidth: int)
    requires 0.0 <= a && 0.0 < z && 0 < texWidth
    ensures 0.0 <= a / z && 0.0 < 1.0 / z
    ensures TextureColumn(a / z, 1.0 / z, texWidth) == CRem(Trunc(a), texWidth)
  {
    DivNonNegative(a, z);
    PerspectiveCancel(a, z);
  }

  /** The interpolation is exact at both ends: `a` after no steps, `b` after `d`. */
  lemma InterpAtEnds(a: real, b: real, d: int)
    requires d != 0
    ensures Interp(a, b, 0, d) == a && Interp(a, b, d, d) == b
  {
    assert d as real * ((b - a) / d as real) == b - a;
  }

  /** At the left end the perspective-divided texture column is the narrowed left coordinate, wrapped. */
  lemma EndsTextureLeft(coord: ScreenCoord, side: Side, a: real)
    requires Drawable(coord, side)
    requires a == NarrowTexCoord(side.texCoord, coord.texClipLeft, coord.texClipRight).left * side.midTex.width as real
    ensures TextureColumn(Ends(coord, side).texL, Ends(coord, side).invZL, side.midTex.width) == CRem(Trunc(a), side.midTex.width)
  {
    var tc := NarrowTexCoord(side.texCoord, coord.texClipLeft, coord.texClipRight);
    var w, z := side.midTex.width, coord.zDistLeft;
    assert Ends(coord, side).texL == a / z && Ends(coord, side).invZL == 1.0 / z;
    assert 0.0 <= a by {
      NarrowTexCoordNonNegative(side.texCoord, coord.texClipLeft, coord.texClipRight);
      MulMonotone(0.0, tc.left, w as real);
    }
    TextureColumnAtEnd(a, z, w);
  }

  /** At the right end the perspective-divided texture column is the narrowed right coordinate, wrapped. */
  lemma EndsTextureRight(coord: ScreenCoord, side: Side, a: real)
    requires Drawable(coord, side)
    requires a == NarrowTexCoord(side.texCoord, coord.texClipLeft, coord.texClipRight).right * side.midTex.width as real
    ensures TextureColumn(Ends(coord, side).texR, Ends(coord, side).invZR, side.midTex.width) == CRem(Trunc(a), side.midTex.width)
  {
    var tc := NarrowTexCoord(side.texCoord, coord.texClipLeft, coord.texClipRight);
    var w, z := side.midTex.width, coord.zDistRight;
    assert Ends(coord, side).texR == a / z && Ends(coord, side).invZR == 1.0 / z;
    assert 0.0 <= a by {
      NarrowTexCoordNonNegative(side.texCoord, coord.texClipLeft, coord.texClipRight);
      MulMonotone(0.0, tc.right, w as real);
    }
    TextureColumnAtEnd(a, z, w);
  }

  /**
   * At the wall's left column the blit gets the left end's rows, the side's
   * vertical texture bounds, and the narrowed left texture coordinate: the
   * perspective division makes the depth cancel.
   */
  lemma WallColumnAtLeft(coord: ScreenCoord, side: Side)
    requires Drawable(coord, side) && coord.leftX <= coord.rightX
    ensures WallColumn(coord, side, coord.leftX).yMin == coord.topLeftY
    ensures WallColumn(coord, side, coord.leftX).yMax == coord.bottomLeftY
    ensures var tc := NarrowTexCoord(side.texCoord, coord.texClipLeft, coord.texClipRight);
            WallColumn(coord, side, coord.leftX).u == CRem(Trunc(tc.left * side.midTex.width as real), side.midTex.width)
    ensures WallColumn(coord, side, coord.leftX).topTex == side.texCoord.top
    ensures WallColumn(coord, side, coord.leftX).bottomTex == side.texCoord.bottom
  {
    var e := Ends(coord, side);
    var d := XDiff(coord.leftX, coord.rightX);
    InterpAtEnds(e.topL, e.topR, d);
    InterpAtEnds(e.bottomL, e.bottomR, d);
    InterpAtEnds(e.invZL, e.invZR, d);
    InterpAtEnds(e.texL, e.texR, d);
    EndsTextureLeft(coord, side, NarrowTexCoord(side.texCoord, coord.texClipLeft, coord.texClipRight).left * side.midTex.width as real);
    TruncWhole(coord.topLeftY);
    TruncWhole(coord.bottomLeftY);
  }

  /**
   * At the wall's right column, when it spans more than one, the blit gets
   * the right end's rows and the narrowed right texture coordinate.
   */
  lemma WallColumnAtRight(coord: ScreenCoord, side: Side)
    requires Drawable(coord, side) && coord.leftX < coord.rightX
    ensures WallColumn(coord, side, coord.rightX).yMin == coord.topRightY
    ensures WallColumn(coord, side, coord.rightX).yMax == coord.bottomRightY
    ensures var tc := NarrowTexCoord(side.texCoord, coord.texClipLeft, coord.texClipRight);
            WallColumn(coord, side, coord.rightX).u == CRem(Trunc(tc.right * side.midTex.width as real), side.midTex.width)
  {
    var e := Ends(coord, side);
    var d := XDiff(coord.leftX, coord.rightX);
    assert coord.rightX - coord.leftX == d;
    InterpAtEnds(e.topL, e.topR, d);
    InterpAtEnds(e.bottomL, e.bottomR, d);
    InterpAtEnds(e.invZL, e.invZR, d);
    InterpAtEnds(e.texL, e.texR, d);
    EndsTextureRight(coord, side, NarrowTexCoord(side.texCoord, coord.texClipLeft, coord.texClipRight).right * side.midTex.width as real);
    TruncWhole(coord.topRightY);
    TruncWhole(coord.bottomRightY);
  }

  /**
   * One wall changes only pixels in its own columns, on the screen, between
   * the rows its blit for that column draws.
   */
  lemma PaintWallFrame(fb: seq<byte>, width: int, height: int, coord: ScreenCoord, side: Side, i: int)
    requires Drawable(coord, side) && 0 <= i < |fb|
    requires PaintWall(fb, width, height, coord, side)[i] != fb[i]
    ensures 0 < width && coord.leftX <= (i / BytesPerPixel) % width <= coord.rightX
    ensures 0 <= (i / BytesPerPixel) % width < width && 0 <= i / BytesPerPixel / width < height
  {
  }

  /**
   * A wall whose ends project to the same column (`xDiff` forced to 1) draws
   * that one column: every byte it changes is in column `leftX`, on a row the
   * blit for `leftX` covers.
   */
  lemma SingleColumnWall(fb: seq<byte>, width: int, height: int, coord: ScreenCoord, side: Side, i: int)
    requires Drawable(coord, side) && coord.leftX == coord.rightX && 0 <= i < |fb|
    requires PaintWall(fb, width, height, coord, side)[i] != fb[i]
    ensures 0 < width && (i / BytesPerPixel) % width == coord.leftX
    ensures Covers(WallColumn(coord, side, coord.leftX), width, height, i / BytesPerPixel)
  {
    PaintWallFrame(fb, width, height, coord, side, i);
  }

  /** Every wall's side exists and is drawable. */
  predicate Renderable(coords: seq<ScreenCoord>, sides: seq<Side>)
  {
    forall k :: 0 <= k < |coords| ==> 0 <= coords[k].sideId < |sides| && Drawable(coords[k], sides[coords[k].sideId])
  }

  /** The walls drawn one after another, in list order, each over the result of the ones before. */
  function PaintWalls(fb: seq<byte>, width: int, height: int, coords: seq<ScreenCoord>, sides: seq<Side>): (r: seq<byte>)
    requires Renderable(coords, sides)
    ensures |r| == |fb|
    decreases |coords|
  {
    if |coords| == 0 then fb
    else
      var n := |coords| - 1;
      PaintWall(PaintWalls(fb, width, height, coords[..n], sides), width, height, coords[n], sides[coords[n].sideId])
  }

  /** Screen column `x` lies in the column span of some wall. */
  ghost predicate Spanned(coords: seq<ScreenCoord>, x: int)
  {
    exists k :: 0 <= k < |coords| && coords[k].leftX <= x <= coords[k].rightX
  }

  /** Drawing any number of walls changes no pixel in a column outside every wall's span. */
  lemma {:induction false} PaintWallsFrame(fb: seq<byte>, width: int, height: int, coords: seq<ScreenCoord>, sides: seq<Side>, i: int)
    requires Renderable(coords, sides) && 0 <= i < |fb| && 0 < width
    requires !Spanned(coords, (i / BytesPerPixel) % width)
    ensures PaintWalls(fb, width, height, coords, sides)[i] == fb[i]
    decreases |coords|
  {
    if |coords| > 0 {
      var n := |coords| - 1;
      var x := (i / BytesPerPixel) % width;
      PaintWallsFrame(fb, width, height, coords[..n], sides, i);
      var before := PaintWalls(fb, width, height, coords[..n], sides);
      if PaintWall(before, width, height, coords[n], sides[coords[n].sideId])[i] != before[i] {
        PaintWallFrame(before, width, height, coords[n], sides[coords[n].sideId], i);
      }
    }
  }

  /**
   * `output_to_screen_buffer`: draws the walls in list order, later walls
   * over earlier ones; no pixel in a column outside every wall's span
   * changes.
   */
  method OutputToScreenBuffer(fb: seq<byte>, coords: seq<ScreenCoord>, sides: seq<Side>, width: int, height: int) returns (r: seq<byte>)
    requires FrameBuffer(fb, width, height) && Renderable(coords, sides)
    ensures r == PaintWalls(fb, width, height, coords, sides)
    ensures forall i :: 0 <= i < |fb| && 0 < width && !Spanned(coords, (i / BytesPerPixel) % width) ==> r[i] == fb[i]
  {
    r := fb;
    var n := 0;
    while n < |coords|
      invariant 0 <= n <= |coords|
      invariant r == PaintWalls(fb, width, height, coords[..n], sides)
    {
      assert coords[..n + 1][..n] == coords[..n];
      r := DrawWall(r, width, height, coords[n], sides[coords[n].sideId]);
      n := n + 1;
    }
    assert coords[..n] == coords;
    forall i | 0 <= i < |fb| && 0 < width && !Spanned(coords, (i / BytesPerPixel) % width)
      ensures r[i] == fb[i]
    {
      PaintWallsFrame(fb, width, height, coords, sides, i);
    }
  }
}
