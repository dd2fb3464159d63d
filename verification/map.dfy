/**
 * The level records of the `map` namespace. Texture ownership (`shared_ptr`,
 * `unique_ptr`) becomes plain values: a side holds its middle texture
 * directly, and the texture's pixel buffer is a byte sequence.
 */
module Map {
  import opened Vectors

  /** An unsigned 8-bit value, the element type of every pixel buffer. */
  newtype byte = b: int | 0 <= b < 0x100

  /** The byte at `i`, or 0 outside the buffer; lets a contract name a byte before its index is shown to be in range. */
  function ByteAt(bytes: seq<byte>, i: int): byte
  {
    if 0 <= i < |bytes| then bytes[i] else 0
  }

  /** A wall segment with the side index of each face (`-1` or below: no side). */
  datatype Wall = Wall(p0: Vec2, p1: Vec2, frontId: int, backId: int)

  /** Every decoded texture stores 4 bytes per pixel. */
  const BytesPerPixel: int := 4

  /**
   * A decoded texture: `height` rows of `pitch` bytes each, top row first.
   * The file name the loader also records is not modelled.
   */
  datatype Texture = Texture(data: seq<byte>, width: int, height: int, pitch: int)

  /** A texture that the column blit can sample anywhere: non-empty, 4 bytes per pixel, no padding. */
  predicate Sampleable(t: Texture)
  {
    && t.width > 0 && t.height > 0
    && t.pitch == t.width * BytesPerPixel
    && |t.data| == t.pitch * t.height
  }

  /** The texture rectangle a side shows, in texture-size units. */
  datatype TexCoord = TexCoord(left: real, right: real, bottom: real, top: real)

  /**
   * The renderable face of a wall: its middle texture, the rectangle of it
   * that is shown, and the sector it faces into. The upper and lower
   * textures are never drawn and are not modelled.
   */
  datatype Side = Side(midTex: Texture, texCoord: TexCoord, sectorId: int)

  /** Floor and ceiling heights of a sector; its floor and ceiling textures are never drawn. */
  datatype Sector = Sector(floorHeight: real, ceilingHeight: real)
}
