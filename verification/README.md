# Wall renderer model

A Dafny model of the software renderer in `data-oriented-design-test`. Each
frame it draws textured walls through four passes:

1. `translate_walls` moves the level's walls into view space.
2. `clip_walls` picks the face the camera sees and drops walls outside the
   90-degree field of view. It clips the others against the two view bounds.
3. `gen_screen_coords` projects each kept wall to screen columns and rows.
4. `output_to_screen_buffer` steps across the wall's columns. Each column is
   blitted from the wall's texture by `drawVerticalWallColumn`.

Textures come from `load_texture_from_bmp`. It reads a 24- or 32-bit Windows
BMP into 4 bytes per pixel, top row first.

The model works over exact reals. Its modules follow the program's files:

- `Vectors`: `Vec2.h`.
- `Geometry`: `Math.h`.
- `Map`: the records of `map.h`.
- `Bmp`: the BMP loader of `map.h`.
- `Transform`, `Clip`, `Project`, `Raster`: the passes of `render.h`.
- `Numeric` and `Reals`: shared arithmetic, including the C++ conversions.
  A float-to-int cast truncates toward zero (`Trunc`). `int / 2` also
  truncates (`Half`). `%` takes the sign of the dividend (`CRem`).

The frame buffer and the texture data are byte sequences. Each drawing
operation takes the buffer and returns the updated one. Each drawing method
is proved equal to a pointwise reference definition: `PaintColumn`,
`PaintWall` or `PaintWalls`. The lemmas about those definitions carry the
promises: which bytes change, with what value, and that no other byte
changes.

The view bounds are stored unnormalised, as `(1, -1)` and `(1, 1)`.
Their normals are stored the same way. Every distance the clipper compares
is then a positive multiple of the program's, so every sign test agrees.
`Clip.BoundDistancesAgree` states this.

Face selection follows the code. The wall from `(2, 1)` to `(1, -1)` has
the camera on the positive side of its turned normal, so its back face is
drawn, from `(1, -1)` to `(2, 1)` (`Clip.ScenarioFace`). The projected
span still runs left to right, from column 0 to column 480 on a 640-wide
screen (`Project.ScenarioColumns`).

The loader tests its pixel format with `else if(bitsPerPixel = 32)`, an
assignment rather than a comparison. The format was already checked to be 24
or 32, so this branch runs exactly for 32 bits and behaves as intended. The
model tests for 32 bits directly.

## Model

| member | source | states |
|---|---|---|
| Vectors.Zero | src/Math/Vec2.h:43-44 | the default vector is the identity of `+` on both sides |
| Vectors.Splat | src/Math/Vec2.h:45-46 | the one-value constructor sets both components to the value |
| Vectors.Norm2 | src/Math/Vec2.h:50-54 | the squared length under `length`'s square root is never negative |
| Vectors.Sub | src/Math/Vec2.h:98-102 | subtraction is undone by adding the subtrahend back |
| Vectors.Div | src/Math/Vec2.h:110-114 | division by a non-zero scalar is undone by scaling with it |
| Vectors.Neg | src/Math/Vec2.h:86-90 | unary minus gives the additive inverse |
| Vectors.AddAssign | src/Math/Vec2.h:116-122 | `+=` leaves the same value as `+` |
| Vectors.SubAssign | src/Math/Vec2.h:124-130 | `-=` leaves the same value as binary `-` |
| Vectors.ScaleAssign | src/Math/Vec2.h:132-138 | `*=` leaves the same value as `*` |
| Vectors.DivAssign | src/Math/Vec2.h:140-146 | `/=` leaves the same value as `/` |
| Vectors.SetX | src/Math/Vec2.h:160-164 | `setX` changes x to the given value and keeps y |
| Vectors.SetY | src/Math/Vec2.h:166-170 | `setY` changes y to the given value and keeps x |
| Vectors.SubAddRoundTrip | src/Math/Vec2.h:92-102 | `(a - b) + b == a`, `(a + b) - b == a`, and `a - b == a + (-b)` |
| Vectors.DotSymmetric | src/Math/Vec2.h:56-60 | `dot` is symmetric |
| Vectors.DotBilinear | src/Math/Vec2.h:56-60 | `dot` is linear in each argument over `+` and scaling |
| Vectors.NegIsScaleByMinusOne | src/Math/Vec2.h:86-108 | unary minus is scaling by -1; scaling multiplies each component |
| Vectors.ScaleParallel | src/Math/Vec2.h:104-108 | a scaled vector is parallel to the original, and its squared length is multiplied by `s*s` |
| Vectors.RotateKeepsLength | src/Math/Vec2.h:62-70 | for a genuine cos/sin pair rotation keeps length; the dot and cross products with the original are `c` and `s` times its squared length |
| Vectors.RotateQuarterTurnClockwise | src/Math/Vec2.h:62-70 | rotating by -pi/2 maps `(x, y)` to `(y, -x)` |
| Vectors.RotateQuarterTurnCounterClockwise | src/Math/Vec2.h:62-70 | rotating by +pi/2 maps `(x, y)` to `(-y, x)` |
| Vectors.RotateInverse | src/Math/Vec2.h:62-70 | rotating by an angle and then by its negation gives the vector back |
| Vectors.RotateSub | src/Math/Vec2.h:62-102 | rotation distributes over subtraction |
| Geometry.NormalForm | src/Math/Math.h:12-18 | the `A*x + B*y == C` form built for two points holds exactly for the points of their line |
| Geometry.CramerSolves | src/Math/Math.h:20-28 | with a non-zero denominator the returned point satisfies both line equations |
| Geometry.CramerUnique | src/Math/Math.h:20-28 | any common solution of both equations is the returned point |
| Geometry.CramerPoint | src/Math/Math.h:27-28 | the Cramer point lies on both lines |
| Geometry.CramerPointUnique | src/Math/Math.h:20-28 | with a non-zero determinant, a point on both lines is the Cramer point |
| Geometry.DegenerateLine | src/Math/Math.h:12-14 | two equal points give the all-zero normal form |
| Geometry.DenominatorIsCross | src/Math/Math.h:12-20 | the denominator is the cross product of the two directions, and 0 when either pair of points coincides |
| Geometry.LineIntersection | src/Math/Math.h:8-30 | no intersection exactly when the denominator is within 0.001 of 0, with `res` untouched; otherwise `res` is on both lines |
| Geometry.FoundMeansProperLines | src/Math/Math.h:20-25 | a reported intersection implies two proper lines whose directions' cross product is at least 0.001 in magnitude |
| Geometry.LineIntersectionUnique | src/Math/Math.h:8-30 | a reported intersection is the only common point of the two lines |
| Geometry.Ratio | src/Math/Math.h:41-44 | a ratio exists exactly when its denominator is non-zero, and times the denominator it gives the numerator |
| Geometry.LineSegmentIntersection | src/Math/Math.h:32-56 | accepted exactly when the lines meet and the point passes the x-or-y ratio test on both segments; `res` is otherwise left alone |
| Geometry.LooseImpliesOnSegment | src/Math/Math.h:46-47 | one in-range ratio puts a point of the line on the closed segment |
| Geometry.OnSegmentImpliesLoose | src/Math/Math.h:46-47 | every point of a proper segment has an in-range ratio |
| Geometry.LooseTestIsExact | src/Math/Math.h:41-47 | for a point of the line the x-or-y ratio test holds if and only if the point is on the segment |
| Geometry.SegmentIntersectionExact | src/Math/Math.h:32-56 | `lineSegmentIntersection` succeeds if and only if the lines meet in a point of both closed segments |
| Geometry.FractionOfLerp | src/render.h:116 | the clip fraction of the point at parameter `t` is `t` |
| Geometry.FractionIsLengthRatio | src/render.h:116 | for a point of the segment, the fraction is in [0, 1] and `q - a` is that fraction of `b - a`: the ratio of lengths |
| Geometry.FractionFromOtherEnd | src/render.h:125 | seen from the other end, a point of the segment sits at the complementary fraction |
| Geometry.SubSegment | src/render.h:120-126 | a point of the piece from a clipped start to the end is on the whole segment, no nearer its start than the clip point |
| Geometry.ComposedParameter | src/render.h:120-126 | the parameter of a point on the far piece, measured on the whole segment, is between the cut and 1 |
| Geometry.CrossOfLerps | src/render.h:111-127 | two points of a line keep its orientation, scaled by the gap between their parameters |
| Geometry.DistFromLine | src/Math/Math.h:58-62 | the signed distance times the normal's length is the unnormalised projection, and has its sign |
| Transform.TranslateWall | src/render.h:41-48 | side ids are copied; each endpoint moves to `(p - playerPos)` rotated by `-angle` |
| Transform.TranslateWalls | src/render.h:35-54 | one output wall per input wall, in order, each translated |
| Transform.PlayerAtOrigin | src/render.h:45-47 | the player's position maps to the view-space origin |
| Transform.HeadingIsForward | src/render.h:45-48 | the point one unit ahead along the heading maps to `(1, 0)` |
| Transform.ViewPointInverse | src/render.h:45-48 | rotating back and adding the position recovers the world point |
| Transform.TranslateKeepsLength | src/render.h:45-48 | the transform keeps the squared length of every wall |
| Clip.BoundNormals | src/render.h:59-63 | each bound normal is its bound turned a quarter inward, and perpendicular to it |
| Clip.LeftDist | src/render.h:97-98 | the distance from the left bound is `x + y` |
| Clip.RightDist | src/render.h:99-100 | the distance from the right bound is `x - y` |
| Clip.BoundDistancesAgree | src/render.h:59-63 | any point of a bound and any positive normal scale give a positive multiple of the same distance |
| Clip.ResolveFace | src/render.h:79-86 | a negative `p0 x p1` swaps the ends and selects the back side; otherwise the front side in order |
| Clip.FaceTestIsCross | src/render.h:81-82 | the camera's distance from the wall's turned normal is `-(p0 x p1)` |
| Clip.FacingSeesFront | src/render.h:79-86 | after face selection the camera is never on the positive side of the chosen face |
| Clip.OnLeftRay | src/render.h:111-112 | a point of the left clip ray is on the left bound, with `x >= 0` |
| Clip.OnRightRay | src/render.h:120-121 | a point of the right clip ray is on the right bound, with `x >= 0` |
| Clip.LeftClipSpec | src/render.h:111-118 | the left clip either keeps `p0` with fraction 0, or moves it to the wall's point on the left bound with the fraction cut off |
| Clip.RightClipSpec | src/render.h:120-127 | the right clip either keeps `p1` with fraction 0, or moves it to the wall's point on the right bound beyond the left cut, with the fraction after it |
| Clip.ClipWall | src/render.h:65-131 | a wall is dropped exactly when its side is missing, both facing ends lie outside the same view bound, or neither clip ray hits and an end is behind the camera; a kept wall has its side, non-overlapping fractions, and is the piece of the facing wall between the cuts |
| Clip.ClipPiecesFit | src/render.h:111-127 | the two cuts never overlap and each endpoint is the wall's point at its cut |
| Clip.OutsideFovDropped | src/render.h:102-106 | a wall with both ends outside the same bound is dropped |
| Clip.ClipWalls | src/render.h:56-134 | never more outputs than inputs, each well clipped, and one per input when none is dropped |
| Clip.ClipWallsAreKept | src/render.h:56-134 | the output is the list of kept `ClipWall` results, in input order |
| Clip.ClipWallsKeepsOrder | src/render.h:56-134 | every wall `ClipWall` keeps contributes its clipped result exactly once, nothing else is written, and the order of the inputs is kept (`SomeIndices` names the source wall of each output) |
| Optional.SomesKeepsOrder | src/render.h:56-134 | keeping only the successes of a list lists each success once, in order, and nothing else |
| Clip.ClippedFacesCamera | src/render.h:79-127 | a kept wall still faces the camera: `p0 x p1 >= 0` |
| Clip.FacingPiece | src/render.h:111-127 | a piece of a facing segment, in parameter order, faces the same way |
| Clip.BehindStaysBehind | src/render.h:129-131 | every point of a segment with both ends behind the camera is behind it |
| Clip.BehindCameraDropped | src/render.h:129-131 | a wall entirely behind the camera is dropped, whatever its y values |
| Clip.InsideFovKeptWhole | src/render.h:97-131 | a facing wall inside the view is kept whole with both fractions 0 |
| Clip.BackFaceKeptWhole | src/render.h:79-131 | a back-facing wall inside the view is kept whole, reversed, with its back side |
| Clip.ScenarioFace | src/render.h:79-86 | the wall from `(2, 1)` to `(1, -1)` shows its back face, and both ends are inside the view |
| Project.Slope | src/render.h:159-160 | with `tan(fov / 2) == 1` the horizontal scale is `y / x` |
| Project.ProjectWall | src/render.h:155-174 | the side id, clip fractions and depths are carried over; a sector with `floor == -ceiling` gives each end ceiling and floor rows symmetric about `H / 2` |
| Project.GenScreenCoords | src/render.h:136-177 | one screen description per clipped wall, in order |
| Project.SlopeOrder | src/render.h:159-160 | for two points in front, `a x b >= 0` means `b`'s slope is at least `a`'s |
| Project.ScreenXMonotone | src/render.h:164-165 | scaling by a non-negative half width and truncating keep the order of slopes |
| Project.ColumnMonotone | src/render.h:164-165 | a larger slope never lands left of a smaller one |
| Project.ColumnOrder | src/render.h:159-165 | a facing wall in front projects its left end first |
| Project.BoundColumns | src/render.h:164-165 | the left bound lands on column 0, the axis on `W / 2`, the right bound on `2 * (W / 2)` |
| Project.ColumnInView | src/render.h:164-165 | every point inside the view lands on a column from 0 to `W` |
| Project.ProjectedSpanOrdered | src/render.h:159-165 | a facing wall in front gives `leftX <= rightX`, within `[0, W]` when inside the view |
| Project.YScaleNonNegative | src/render.h:161-162 | in front of the camera the vertical scale is non-negative |
| Project.YScaleAntitone | src/render.h:161-162 | the vertical scale shrinks with depth |
| Project.RowOffsetNegate | src/render.h:166-169 | negating a height negates its truncated row offset |
| Project.RowOffsetsOrdered | src/render.h:166-167 | with a non-negative scale, `-(int)(s * c) <= (int)(s * -f)` when `f <= c` |
| Project.RowOffsetMonotone | src/render.h:166-168 | a larger scale gives an offset at least as large for a non-negative height |
| Project.RowsOrdered | src/render.h:161-169 | the ceiling row is never below the floor row when the ceiling is not below the floor |
| Project.RowsSymmetric | src/render.h:166-169 | heights symmetric about the eye give rows symmetric about `H / 2` |
| Project.NearerIsTaller | src/render.h:161-168 | a nearer wall's ceiling row is at least as high as a farther one's |
| Project.ScenarioColumns | src/render.h:164-165 | on a 640-wide screen `(1, -1)` lands on column 0 and `(2, 1)` on column 480 |
| Raster.Texels | src/render.h:192-193 | a non-negative fraction of a non-negative size is non-negative |
| Raster.Advance | src/render.h:192-215 | the stepped `v` starts at `bottomTex * texHeight`, reaches `topTex * texHeight` after `yDiff` rows, and stays between them |
| Raster.AdvanceNext | src/render.h:215 | each row adds the step once |
| Raster.AdvanceIsStepped | src/render.h:192-215 | the closed form of `v` equals `k` executions of `v += vStep` |
| Raster.AdvanceBy | src/render.h:196-199 | skipping `k` rows above the screen adds `k` steps |
| Raster.ColumnVEndpoints | src/render.h:192-194 | `v` at `yMin` is `bottomTex * texHeight`, and at `yMax` it is `topTex * texHeight` |
| Raster.ColumnVNonNegative | src/render.h:192-215 | on every drawn row of a column with non-negative bounds, `v` is non-negative |
| Raster.TexelInBounds | src/render.h:208 | every texel `(u, (int)v % texHeight)` the blit reads lies inside the texture |
| Raster.PutPixel | src/render.h:210-214 | exactly the 4 bytes at the destination take the source pixel; all others are kept |
| Raster.PaintRow | src/render.h:206-216 | one loop iteration writes inside the buffer and extends the drawn rows by one |
| Raster.DrawVerticalWallColumn | src/render.h:183-217 | the buffer after the blit: covered pixels of column `x`, clamped to the screen, take their texel; every other byte is unchanged |
| Raster.OffscreenColumnUnchanged | src/render.h:187 | a column off the screen leaves the buffer unchanged |
| Raster.PaintColumnClamped | src/render.h:196-210 | a byte the blit changes is in column `x`, on a screen row between `yMin` and `yMax`, and holds the texel byte |
| Raster.ClipCuts | src/render.h:226-227 | for clip fractions of a real piece the cuts lie within the span and do not overlap, whichever its sign; what is left is the unclipped share; a zero fraction cuts nothing |
| Raster.NarrowTexCoordSpan | src/render.h:224-227 | narrowing keeps top and bottom, leaves an unclipped wall alone, and keeps the unclipped share of the span |
| Raster.NarrowTexCoordInside | src/render.h:224-227 | the narrowed left and right stay ordered inside the original span |
| Raster.NarrowTexCoordNonNegative | src/render.h:224-227 | narrowing non-negative coordinates keeps them non-negative |
| Raster.XDiff | src/render.h:229 | the divisor is never 0: it is `rightX - leftX`, or 1 for a one-column wall |
| Raster.InterpSteps | src/render.h:231-253 | the accumulators start at the left value, reach the right one after `xDiff` steps, and each step adds `(right - left) / xDiff` |
| Raster.InterpIsStepped | src/render.h:249-253 | the closed form of each column accumulator equals `k` executions of its `+=` |
| Raster.InterpSign | src/render.h:237-253 | between positive ends `1/z` stays positive; between non-negative ends `texture / z` stays non-negative |
| Raster.Ends | src/render.h:231-244 | at a drawable wall's ends `1/z` is positive and `texture / z` is non-negative |
| Raster.TextureColumn | src/render.h:248 | the texture column is wrapped into `[0, texWidth)` |
| Raster.WallColumn | src/render.h:246-248 | the blit for column `x` gets `x` and arguments that read only inside the texture |
| Raster.PaintWallColumn | src/render.h:246-254 | blitting column `x` extends the drawn columns by one; columns never overlap |
| Raster.DrawWall | src/render.h:224-254 | the buffer after one wall: each covered pixel takes the texel of its column's blit; every other byte is unchanged |
| Raster.PerspectiveCancel | src/render.h:242-248 | dividing `a / z` by `1 / z` gives back `a` |
| Raster.TextureColumnAtEnd | src/render.h:242-248 | at a wall end the depth cancels out of the texture column |
| Raster.InterpAtEnds | src/render.h:231-244 | interpolation is exact at both ends |
| Raster.EndsTextureLeft | src/render.h:237-248 | at the left end the texture column is the narrowed left coordinate in texels, wrapped |
| Raster.EndsTextureRight | src/render.h:238-248 | at the right end the texture column is the narrowed right coordinate in texels, wrapped |
| Raster.WallColumnAtLeft | src/render.h:231-248 | the left column gets the left end's rows, the side's vertical bounds and the narrowed left texture column |
| Raster.WallColumnAtRight | src/render.h:231-248 | the right column of a wider wall gets the right end's rows and the narrowed right texture column |
| Raster.PaintWallFrame | src/render.h:246-254 | one wall changes only on-screen pixels in its own column span |
| Raster.SingleColumnWall | src/render.h:229-254 | a wall with `leftX == rightX` changes only bytes of that one column, on rows its blit covers |
| Raster.PaintWallsFrame | src/render.h:219-256 | drawing any number of walls leaves every column outside all their spans unchanged |
| Raster.OutputToScreenBuffer | src/render.h:179-256 | draws the walls in list order, later over earlier; no pixel outside every wall's column span changes |
| Numeric.Trunc | src/render.h:164-169 | the C++ cast truncates toward zero: within 1 of the value, on its side of 0 |
| Numeric.TruncNeg | src/render.h:166-167 | truncation is symmetric about 0 |
| Numeric.TruncWhole | src/render.h:248 | truncating a whole number gives it back |
| Numeric.TruncMonotone | src/render.h:164-165 | truncation keeps order |
| Numeric.Half | src/render.h:164 | `n / 2` on `int` truncates toward zero |
| Numeric.CRem | src/render.h:208 | `%` on `int` takes the dividend's sign and is smaller than the divisor in magnitude |
| Numeric.SteppedClosedForm | src/render.h:249-253 | `n` repetitions of `v += step` add `n * step` |
| Numeric.SteppedReachesEnd | src/render.h:249-253 | `d` steps of `(b - a) / d` from `a` land exactly on `b` |
| Bmp.LE32 | src/map.h:87-92 | a header field read as `int32_t` lies in the signed 32-bit range |
| Bmp.LE16 | src/map.h:95 | the bit count read as `int16_t` lies in the signed 16-bit range |
| Bmp.ReadHeader | src/map.h:85-95 | the offset, width and height are the 32-bit fields at 10, 18 and 22; the bit count is the 16-bit field at 28 |
| Bmp.Stride | src/map.h:121-134 | a source pixel has `bpp / 8` bytes |
| Bmp.RowSize | src/map.h:103 | a padded source row has a multiple of 4 bytes and just fits `bpp * width` bits |
| Bmp.DecodePixel | src/map.h:121-134 | a 24-bit pixel is its 3 bytes then 0xFF; a 32-bit pixel is its 4 bytes |
| Bmp.DecodeRow | src/map.h:117-135 | a row of `width` pixels gives `4 * width` bytes, each the right source byte |
| Bmp.RowInBounds | src/map.h:111-112 | every source row the loader copies lies inside the file |
| Bmp.DecodeRows | src/map.h:109-138 | the destination holds `pitch * rows` bytes, and row `y` comes from source row `height - 1 - y` |
| Bmp.Decode | src/map.h:55-143 | no texture without `BM` or with a bit count other than 24 or 32; otherwise the header's size, pitch `4 * width` and the flipped rows |
| Bmp.PixelInBounds | src/map.h:115-135 | every source byte read lies inside the file |
| Bmp.DecodedAt | src/map.h:115-138 | byte `j` of destination row `y` is the texel read from that row's source start |
| Bmp.RowOfDecoded | src/map.h:109-138 | each destination row is the decoding of its source row |
| Bmp.DecodeFlipsRows | src/map.h:111-138 | row `y` of the texture is source row `height - 1 - y`, starting that many padded rows after the offset |
| Bmp.LE32OfEncoded | src/map.h:87-92 | a non-negative value written as 4 little-endian bytes reads back unchanged |
| Bmp.BottomUpContent | src/map.h:111-137 | the file's rows, in bottom-up order, put image row `y` at file row `height - 1 - y` |
| Bmp.EncodedHeader | src/map.h:79-95 | a written 32-bit header reads back as the texture's size, bit count 32 and offset 54 |
| Bmp.EncodedByte | src/map.h:111-137 | the loader finds each texture byte where the 32-bit writer stored it |
| Bmp.DecodeEncode32 | src/map.h:55-143 | decoding a 32-bit file written from a texture gives the texture back, byte for byte |

## Left out

- File I/O in `load_texture_from_bmp` is left out: opening, sizing and reading the file, and the error messages. The decoder takes the bytes read. A file that does not open is outside the model.
- The texture's `name` and the ownership wrappers (`shared_ptr`, `unique_ptr`) are left out. Values replace them.
- `topTex`, `botTex`, `floorTex` and `ceilingTex` are not modelled. The renderer never reads them.
- IEEE float rounding, infinities and NaN are not modelled: arithmetic is exact over reals. The `Vec2d` instantiation is the same model.
- `length`, `normalize` and `getUnit` need a square root, so they are not modelled. `Geometry.DistFromLine` takes the normal's length as a parameter. The clip fractions use the segment parameter `Geometry.Fraction`; `Geometry.FractionIsLengthRatio` shows it is the ratio of lengths.
- `std::cos` and `std::sin` are not modelled. `Vectors.Rotate` and the view transform take the cosine and sine of the angle.
- `tan(fov / 2)` is taken as exactly 1, which it is for the 90-degree view. The clip rays end at `reach` times the bound direction, with `reach > 0` standing for `100 * cos 45`.
- The `buffer_width` and `buffer_height` globals are parameters.
- `bufferPitch` is captured but never used by the source. The model uses `4 * width` as the source does.
- 32-bit `int` overflow is not modelled. The decoder's `int32_t`/`int16_t` reads are modelled exactly.
- Raster.DrawVerticalWallColumn: for a column of one row (`yMin == yMax`) the source divides by zero. The resulting `vStep` is never used for a write, so the model sets it to 0.
- Raster.DrawWall, Raster.DrawVerticalWallColumn, Raster.OutputToScreenBuffer: walls must be in front of the camera, with clip fractions that do not overlap, non-negative texture coordinates and a texture of 4 bytes per pixel. Outside these conditions the source can read outside the texture, which is undefined behaviour. The conditions also exclude some inputs the source draws safely: for texture coordinates `0` to `1`, clip fractions of 0.6 and 0.6 overlap, yet narrowing with the whole span gives a left edge of 0.6 and a right edge of 0.4, and every texel read stays inside the texture. `clip_walls` never produces overlapping fractions (`Clip.ClipPiecesFit`), so the excluded inputs do not arise from the pipeline.
- Bmp.Decode: the file must hold every byte the loader reads, from a non-negative pixel-data offset. The source does not check this, and reading outside the buffer is undefined behaviour.
- Bmp.Decode: the header's width and height must not be negative, which leaves out what the loader does with negative sizes. When one is negative and the other positive, `pitch * height` is negative; its conversion to `size_t` asks `std::make_unique` for a huge buffer, and the allocation throws (map.h:109-112). When both are negative, or one is negative and the other zero, the row loop never runs and the loader returns a zero-filled texture that carries the negative size.
- Project.ProjectWall, Project.GenScreenCoords: both ends of a clipped wall must have a non-zero depth `x`. A kept wall with an end exactly on the camera plane makes the source divide by zero at render.h:159-162; under IEEE arithmetic that gives an infinity or NaN, which the model does not represent.
- `render.h:209` is a commented-out alternative texel address. It is not modelled.
- `main.cpp` is not part of this model. That covers the window, the event loop, the player's movement and the level data.
