/**
 * The decoding half of `load_texture_from_bmp`: a Windows BMP file, given as
 * the bytes the loader has read into memory, becomes a texture with 4 bytes
 * per pixel and its top row first. Opening and reading the file is not
 * modelled; a null result is `None`.
 */
module Bmp {
  import opened Optional
  import opened Numeric
  import opened Map

  /** Byte offsets of the header fields the decoder reads. */
  const OffsetField: int := 10
  const WidthField: int := 18
  const HeightField: int := 22
  const BppField: int := 28
  /** The decoder reads nothing of the header beyond the 16-bit bit count. */
  const HeaderEnd: int := 30

  /** Signed little-endian 32-bit integer at `at`, as the loader reads it into an `int32_t`. */
  function LE32(bytes: seq<byte>, at: int): (v: int)
    requires 0 <= at && at + 4 <= |bytes|
    ensures -0x8000_0000 <= v < 0x8000_0000
  {
    var u := bytes[at] as int + 0x100 * bytes[at + 1] as int
      + 0x1_0000 * bytes[at + 2] as int + 0x100_0000 * bytes[at + 3] as int;
    if u < 0x8000_0000 then u else u - 0x1_0000_0000
  }

  /** Signed little-endian 16-bit integer at `at`, as an `int16_t`. */
  function LE16(bytes: seq<byte>, at: int): (v: int)
    requires 0 <= at && at + 2 <= |bytes|
    ensures -0x8000 <= v < 0x8000
  {
    var u := bytes[at] as int + 0x100 * bytes[at + 1] as int;
    if u < 0x8000 then u else u - 0x1_0000
  }

  /** The file starts with the two characters `B` (0x42) and `M` (0x4D). */
  predicate HasMagic(bytes: seq<byte>)
    requires |bytes| >= 2
  {
    bytes[0] == 0x42 && bytes[1] == 0x4D
  }

  /** The bit counts the decoder accepts. */
  predicate SupportedBpp(bpp: int)
  {
    bpp == 24 || bpp == 32
  }

  /** Bytes per source pixel. */
  function Stride(bpp: int): (s: int)
    requires SupportedBpp(bpp)
    ensures 8 * s == bpp
  {
    bpp / 8
  }

  /** The header fields the decoder uses. */
  datatype Header = Header(offset: int, width: int, height: int, bpp: int)

  function ReadHeader(bytes: seq<byte>): (h: Header)
    requires |bytes| >= HeaderEnd
    ensures h.offset == LE32(bytes, OffsetField)
    ensures h.width == LE32(bytes, WidthField) && h.height == LE32(bytes, HeightField)
    ensures h.bpp == LE16(bytes, BppField)
  {
    Header(LE32(bytes, OffsetField), LE32(bytes, WidthField), LE32(bytes, HeightField), LE16(bytes, BppField))
  }

  /**
   * Bytes per stored row: the row's bits rounded up to whole 32-bit words.
   * The result is a multiple of 4 that holds the row's pixels with fewer than
   * 4 bytes of padding.
   */
  function RowSize(bpp: int, width: int): (r: int)
    requires SupportedBpp(bpp) && width >= 0
    ensures r >= 0 && r % 4 == 0
    ensures bpp * width <= 8 * r < bpp * width + 32
  {
    ((bpp * width + 31) / 32) * 4
  }

  /**
   * What the decoder needs of its input beyond what it checks: the loader
   * indexes the buffer without comparing against the file size, so the
   * magic, the header and every pixel row it copies must be present, and the
   * header's sizes must describe a bottom-up image.
   */
  predicate FitsPixelData(bytes: seq<byte>, h: Header)
    requires SupportedBpp(h.bpp)
  {
    && h.width >= 0 && h.height >= 0 && h.offset >= 0
    && h.offset + RowSize(h.bpp, h.width) * h.height <= |bytes|
  }

  predicate Decodable(bytes: seq<byte>)
  {
    && |bytes| >= 2
    && (HasMagic(bytes) ==> |bytes| >= HeaderEnd)
    && (HasMagic(bytes) && |bytes| >= HeaderEnd && SupportedBpp(ReadHeader(bytes).bpp) ==>
          FitsPixelData(bytes, ReadHeader(bytes)))
  }

  /** Where the source row for destination row `y` starts: rows are stored bottom-up. */
  function RowStart(h: Header, y: int): int
    requires SupportedBpp(h.bpp) && h.width >= 0
  {
    h.offset + RowSize(h.bpp, h.width) * (h.height - 1 - y)
  }

  /**
   * Byte `k` of destination pixel `x` in a row whose source starts at
   * `start`: a 24-bit pixel is its 3 source bytes followed by 0xFF, a 32-bit
   * pixel is its 4 source bytes.
   */
  function Texel(bytes: seq<byte>, start: int, bpp: int, x: int, k: int): byte
    requires SupportedBpp(bpp)
  {
    if bpp == 24 && k == 3 then 0xFF else ByteAt(bytes, start + x * Stride(bpp) + k)
  }

  /** One destination pixel, copied from the source pixel at `at`. */
  function DecodePixel(bytes: seq<byte>, at: int, bpp: int): (p: seq<byte>)
    requires SupportedBpp(bpp) && 0 <= at && at + Stride(bpp) <= |bytes|
    ensures |p| == BytesPerPixel
    ensures forall k :: 0 <= k < |p| ==> p[k] == Texel(bytes, at, bpp, 0, k)
  {
    if bpp == 24 then [bytes[at], bytes[at + 1], bytes[at + 2], 0xFF]
    else [bytes[at], bytes[at + 1], bytes[at + 2], bytes[at + 3]]
  }

  /** The first `n` destination pixels of a row whose source starts at `start`. */
  function DecodeRow(bytes: seq<byte>, start: int, n: nat, bpp: int): (r: seq<byte>)
    requires SupportedBpp(bpp) && 0 <= start && start + n * Stride(bpp) <= |bytes|
    ensures |r| == BytesPerPixel * n
    ensures forall i :: 0 <= i < |r| ==> r[i] == Texel(bytes, start, bpp, i / 4, i % 4)
    decreases n
  {
    if n == 0 then []
    else
      var stride := Stride(bpp);
      assert (n - 1) * stride + stride == n * stride;
      var prefix := DecodeRow(bytes, start, n - 1, bpp);
      var at := start + (n - 1) * stride;
      var pixel := DecodePixel(bytes, at, bpp);
      LastPixel(n - 1);
      prefix + pixel
  }

  /** The four bytes after `m` whole pixels belong to pixel `m`. */
  lemma LastPixel(m: int)
    ensures forall i :: 4 * m <= i < 4 * m + 4 ==> i / 4 == m && i % 4 == i - 4 * m
  {
    forall i | 4 * m <= i < 4 * m + 4
      ensures i / 4 == m && i % 4 == i - 4 * m
    {
      DivModUnique(i, 4, m, i - 4 * m);
    }
  }

  /** Every source row the decoder copies lies inside the buffer. */
  lemma RowInBounds(bytes: seq<byte>, h: Header, y: int)
    requires SupportedBpp(h.bpp) && FitsPixelData(bytes, h)
    requires 0 <= y < h.height
    ensures 0 <= RowStart(h, y)
    ensures RowStart(h, y) + h.width * Stride(h.bpp) <= |bytes|
  {
    var rowSize := RowSize(h.bpp, h.width);
    var above := h.height - 1 - y;
    MulLe(0, above, rowSize);
    assert 0 * rowSize == 0;
    MulLe(above + 1, h.height, rowSize);
    assert (above + 1) * rowSize == above * rowSize + rowSize;
    assert 8 * (h.width * Stride(h.bpp)) == h.bpp * h.width;
    assert rowRoomForPixels: h.width * Stride(h.bpp) <= rowSize;
    assert RowStart(h, y) == h.offset + above * rowSize;
  }

  /** Splitting an index into a row and an offset within the row. */
  lemma RowOfIndex(pitch: int, y: int, i: int)
    requires pitch > 0 && y * pitch <= i < y * pitch + pitch
    ensures i / pitch == y && i % pitch == i - y * pitch
  {
    DivModUnique(i, pitch, y, i - y * pitch);
  }

  /**
   * Rows of `pitch` bytes laid end to end: the index just past `n - 1` full
   * rows starts row `n - 1`.
   */
  lemma LastRowIndices(pitch: int, n: int)
    requires pitch > 0 && n >= 1
    ensures forall i :: (n - 1) * pitch <= i < (n - 1) * pitch + pitch ==>
      i / pitch == n - 1 && i % pitch == i - (n - 1) * pitch
  {
    forall i | (n - 1) * pitch <= i < (n - 1) * pitch + pitch
      ensures i / pitch == n - 1 && i % pitch == i - (n - 1) * pitch
    {
      RowOfIndex(pitch, n - 1, i);
    }
  }

  /** The content `DecodeRows` promises for its first `n` rows. */
  predicate RowsDecoded(bytes: seq<byte>, h: Header, r: seq<byte>)
    requires SupportedBpp(h.bpp) && h.width >= 0
  {
    var pitch := BytesPerPixel * h.width;
    forall i :: 0 <= i < |r| ==>
      pitch > 0 && r[i] == Texel(bytes, RowStart(h, i / pitch), h.bpp, i % pitch / 4, i % pitch % 4)
  }

  /** Appending the decoded row `n - 1` to the first `n - 1` rows gives the first `n` rows. */
  lemma AppendDecodedRow(bytes: seq<byte>, h: Header, n: int, prefix: seq<byte>, row: seq<byte>)
    requires SupportedBpp(h.bpp) && h.width >= 0 && n >= 1
    requires |prefix| == (n - 1) * (BytesPerPixel * h.width) && RowsDecoded(bytes, h, prefix)
    requires |row| == BytesPerPixel * h.width
    requires forall i :: 0 <= i < |row| ==> row[i] == Texel(bytes, RowStart(h, n - 1), h.bpp, i / 4, i % 4)
    ensures |prefix + row| == n * (BytesPerPixel * h.width)
    ensures RowsDecoded(bytes, h, prefix + row)
  {
    var pitch := BytesPerPixel * h.width;
    assert (n - 1) * pitch + pitch == n * pitch;
    if pitch > 0 {
      LastRowIndices(pitch, n);
    }
  }

  /** The first `n` destination rows, each `4 * width` bytes long. */
  function DecodeRows(bytes: seq<byte>, h: Header, n: nat): (r: seq<byte>)
    requires SupportedBpp(h.bpp) && FitsPixelData(bytes, h) && n <= h.height
    ensures |r| == n * (BytesPerPixel * h.width)
    ensures RowsDecoded(bytes, h, r)
    decreases n
  {
    if n == 0 then []
    else
      var prefix := DecodeRows(bytes, h, n - 1);
      RowInBounds(bytes, h, n - 1);
      var row := DecodeRow(bytes, RowStart(h, n - 1), h.width, h.bpp);
      AppendDecodedRow(bytes, h, n, prefix, row);
      prefix + row
  }

  /**
   * `load_texture_from_bmp` on the file's bytes: no texture unless the file
   * starts with `BM` and has 24 or 32 bits per pixel; otherwise a texture
   * whose size comes from the header, 4 bytes per pixel, with destination
   * row `y` decoded from source row `height - 1 - y`.
   */
  function Decode(bytes: seq<byte>): (r: Option<Texture>)
    requires Decodable(bytes)
    ensures !HasMagic(bytes) ==> r.None?
    ensures r.Some? <==> HasMagic(bytes) && SupportedBpp(LE16(bytes, BppField))
    ensures r.Some? ==>
      && r.value.width == LE32(bytes, WidthField)
      && r.value.height == LE32(bytes, HeightField)
      && r.value.pitch == BytesPerPixel * r.value.width
      && |r.value.data| == r.value.pitch * r.value.height
    ensures r.Some? ==> RowsDecoded(bytes, ReadHeader(bytes), r.value.data)
  {
    if !HasMagic(bytes) then None
    else
      var h := ReadHeader(bytes);
      if !SupportedBpp(h.bpp) then None
      else
        var data := DecodeRows(bytes, h, h.height);
        Some(Texture(data, h.width, h.height, h.width * BytesPerPixel))
  }

  /** Every source byte the decoder reads for pixel `x` of row `y` lies inside the buffer. */
  lemma PixelInBounds(bytes: seq<byte>, h: Header, y: int, x: int, k: int)
    requires SupportedBpp(h.bpp) && FitsPixelData(bytes, h)
    requires 0 <= y < h.height && 0 <= x < h.width && 0 <= k < Stride(h.bpp)
    ensures 0 <= RowStart(h, y) + x * Stride(h.bpp) + k < |bytes|
  {
    RowInBounds(bytes, h, y);
    MulLe(x + 1, h.width, Stride(h.bpp));
    MulLe(0, x, Stride(h.bpp));
  }

  /** Byte `j` of row `y` of rows decoded as `DecodeRows` promises. */
  lemma DecodedAt(bytes: seq<byte>, h: Header, r: seq<byte>, y: int, j: int)
    requires SupportedBpp(h.bpp) && h.width >= 0
    requires |r| == h.height * (BytesPerPixel * h.width) && RowsDecoded(bytes, h, r)
    requires 0 <= y < h.height && 0 <= j < BytesPerPixel * h.width
    ensures 0 <= y * (BytesPerPixel * h.width) + j < |r|
    ensures r[y * (BytesPerPixel * h.width) + j] == Texel(bytes, RowStart(h, y), h.bpp, j / 4, j % 4)
  {
    var pitch := BytesPerPixel * h.width;
    MirroredIndex(pitch, h.height, h.height - 1 - y, j);
    RowOfIndex(pitch, y, y * pitch + j);
  }

  /** Row `y` of rows decoded as `DecodeRows` promises is the decoding of the source row `RowStart(h, y)`. */
  lemma RowOfDecoded(bytes: seq<byte>, h: Header, r: seq<byte>, y: int)
    requires SupportedBpp(h.bpp) && FitsPixelData(bytes, h)
    requires |r| == h.height * (BytesPerPixel * h.width) && RowsDecoded(bytes, h, r)
    requires 0 <= y < h.height
    ensures 0 <= RowStart(h, y) && RowStart(h, y) + h.width * Stride(h.bpp) <= |bytes|
    ensures var pitch := BytesPerPixel * h.width;
            && 0 <= y * pitch && y * pitch + pitch <= |r|
            && r[y * pitch .. y * pitch + pitch] == DecodeRow(bytes, RowStart(h, y), h.width, h.bpp)
  {
    var pitch := BytesPerPixel * h.width;
    RowInBounds(bytes, h, y);
    RowBounds(pitch, h.height, y);
    var row := DecodeRow(bytes, RowStart(h, y), h.width, h.bpp);
    var slice := r[y * pitch .. y * pitch + pitch];
    forall j | 0 <= j < pitch
      ensures slice[j] == row[j]
    {
      DecodedAt(bytes, h, r, y, j);
    }
    assert slice == row;
  }

  /**
   * The image is flipped from the file's bottom-up order: destination row
   * `y` of a decoded texture is the decoding of source row `height - 1 - y`,
   * which starts `height - 1 - y` padded rows after the pixel-data offset.
   */
  lemma DecodeFlipsRows(bytes: seq<byte>, y: int)
    requires Decodable(bytes) && Decode(bytes).Some?
    requires 0 <= y < Decode(bytes).value.height
    ensures var t := Decode(bytes).value;
            var h := ReadHeader(bytes);
            && RowStart(h, y) == h.offset + RowSize(h.bpp, h.width) * (h.height - 1 - y)
            && 0 <= RowStart(h, y) && RowStart(h, y) + h.width * Stride(h.bpp) <= |bytes|
            && 0 <= y * t.pitch && y * t.pitch + t.pitch <= |t.data|
            && t.data[y * t.pitch .. y * t.pitch + t.pitch] == DecodeRow(bytes, RowStart(h, y), h.width, h.bpp)
  {
    var t := Decode(bytes).value;
    RowOfDecoded(bytes, ReadHeader(bytes), t.data, y);
  }

  /** Little-endian bytes of a non-negative `int32_t`: successive remainders by 256. */
  function EncodeLE32(v: int): (b: seq<byte>)
    requires 0 <= v < 0x8000_0000
    ensures |b| == 4
  {
    var q1 := v / 0x100;
    var q2 := q1 / 0x100;
    var q3 := q2 / 0x100;
    [(v % 0x100) as byte, (q1 % 0x100) as byte, (q2 % 0x100) as byte, q3 as byte]
  }

  /** Reading back what `EncodeLE32` wrote gives the value. */
  lemma LE32OfEncoded(bytes: seq<byte>, at: int, v: int)
    requires 0 <= v < 0x8000_0000
    requires 0 <= at && at + 4 <= |bytes| && bytes[at .. at + 4] == EncodeLE32(v)
    ensures LE32(bytes, at) == v
  {
    var q1 := v / 0x100;
    var q2 := q1 / 0x100;
    var q3 := q2 / 0x100;
    assert v == v % 0x100 + 0x100 * q1;
    assert q1 == q1 % 0x100 + 0x100 * q2;
    assert q2 == q2 % 0x100 + 0x100 * q3;
    assert q3 < 0x80;
    var e := EncodeLE32(v);
    assert bytes[at] == e[0] && bytes[at + 1] == e[1] && bytes[at + 2] == e[2] && bytes[at + 3] == e[3];
  }

  /** Rows `n - 1` down to `0` of an image with rows of `pitch` bytes: the file's bottom-up order. */
  function BottomUp(data: seq<byte>, pitch: int, n: nat): (r: seq<byte>)
    requires pitch > 0 && n * pitch <= |data|
    ensures |r| == n * pitch
    decreases n
  {
    if n == 0 then []
    else
      MulLe(n - 1, n, pitch);
      assert (n - 1) * pitch + pitch == n * pitch;
      data[(n - 1) * pitch .. (n - 1) * pitch + pitch] + BottomUp(data, pitch, n - 1)
  }

  /** Byte `i` of `BottomUp` comes from row `n - 1 - i / pitch` of the image. */
  lemma {:induction false} BottomUpContent(data: seq<byte>, pitch: int, n: nat)
    requires pitch > 0 && n * pitch <= |data|
    ensures forall i :: 0 <= i < |BottomUp(data, pitch, n)| ==>
      BottomUp(data, pitch, n)[i] == ByteAt(data, (n - 1 - i / pitch) * pitch + i % pitch)
    decreases n
  {
    if n > 0 {
      MulLe(n - 1, n, pitch);
      assert (n - 1) * pitch + pitch == n * pitch;
      BottomUpContent(data, pitch, n - 1);
      var top := data[(n - 1) * pitch .. (n - 1) * pitch + pitch];
      BottomUpStep(data, pitch, n, BottomUp(data, pitch, n - 1), top);
    }
  }

  /** Putting row `n - 1` in front of rows `n - 2 .. 0` continues the bottom-up order. */
  lemma BottomUpStep(data: seq<byte>, pitch: int, n: int, rest: seq<byte>, top: seq<byte>)
    requires pitch > 0 && n >= 1 && n * pitch <= |data|
    requires |top| == pitch && (n - 1) * pitch + pitch <= |data|
    requires forall j :: 0 <= j < pitch ==> top[j] == ByteAt(data, (n - 1) * pitch + j)
    requires |rest| == (n - 1) * pitch
    requires forall i :: 0 <= i < |rest| ==> rest[i] == ByteAt(data, (n - 2 - i / pitch) * pitch + i % pitch)
    ensures |top + rest| == n * pitch
    ensures forall i :: 0 <= i < |top + rest| ==> (top + rest)[i] == ByteAt(data, (n - 1 - i / pitch) * pitch + i % pitch)
  {
    assert (n - 1) * pitch + pitch == n * pitch;
    forall i | 0 <= i < |top + rest|
      ensures (top + rest)[i] == ByteAt(data, (n - 1 - i / pitch) * pitch + i % pitch)
    {
      if i < pitch {
        DivModUnique(i, pitch, 0, i);
      } else {
        var i' := i - pitch;
        DivModUnique(i', pitch, i' / pitch, i' % pitch);
        DivModUnique(i, pitch, i' / pitch + 1, i' % pitch);
        assert (i' / pitch + 1) * pitch == i' / pitch * pitch + pitch;
      }
    }
  }

  /** Size of the header `Encode32` writes: file header (14 bytes) plus `BITMAPINFOHEADER` (40 bytes). */
  const EncodedHeaderSize: int := 54

  /** A texture that fits a 32-bit BMP file with its 4 bytes per pixel stored verbatim. */
  predicate Encodable32(t: Texture)
  {
    && 0 < t.width < 0x8000_0000 && 0 <= t.height < 0x8000_0000
    && t.pitch == BytesPerPixel * t.width
    && |t.data| == t.height * t.pitch
    && EncodedHeaderSize + |t.data| < 0x8000_0000
  }

  /**
   * The 54-byte header of a 32 bits-per-pixel BMP file for `t`: the file
   * header with the `BM` magic, the file size and the pixel-data offset,
   * then a `BITMAPINFOHEADER` with the size, one plane and 32 bits per pixel.
   */
  function Header32(t: Texture): (header: seq<byte>)
    requires Encodable32(t)
    ensures |header| == EncodedHeaderSize
  {
    [0x42, 0x4D] + EncodeLE32(EncodedHeaderSize + |t.data|) + [0, 0, 0, 0]
    + EncodeLE32(EncodedHeaderSize) + EncodeLE32(40)
    + EncodeLE32(t.width) + EncodeLE32(t.height)
    + [1, 0] + [32, 0] + seq(24, _ => 0)
  }

  /** A 32 bits-per-pixel BMP file holding `t`: the header, then the rows bottom-up with no padding. */
  function Encode32(t: Texture): (bytes: seq<byte>)
    requires Encodable32(t)
    ensures |bytes| == EncodedHeaderSize + |t.data|
  {
    Header32(t) + BottomUp(t.data, t.pitch, t.height)
  }

  /** For 32 bits per pixel a row needs no padding. */
  lemma RowSize32(width: int)
    requires width >= 0
    ensures RowSize(32, width) == BytesPerPixel * width
  {
    DivModUnique(32 * width + 31, 32, width, 31);
  }

  /** The header `Encode32` writes reads back as the texture's size, 32 bits per pixel and a 54-byte offset. */
  lemma EncodedHeader(t: Texture)
    requires Encodable32(t)
    ensures |Encode32(t)| >= HeaderEnd && HasMagic(Encode32(t))
    ensures ReadHeader(Encode32(t)) == Header(EncodedHeaderSize, t.width, t.height, 32)
  {
    var bytes := Encode32(t);
    assert bytes[0] == 0x42 && bytes[1] == 0x4D;
    assert bytes[OffsetField .. OffsetField + 4] == EncodeLE32(EncodedHeaderSize);
    assert bytes[WidthField .. WidthField + 4] == EncodeLE32(t.width);
    assert bytes[HeightField .. HeightField + 4] == EncodeLE32(t.height);
    LE32OfEncoded(bytes, OffsetField, EncodedHeaderSize);
    LE32OfEncoded(bytes, WidthField, t.width);
    LE32OfEncoded(bytes, HeightField, t.height);
    assert bytes[BppField] == 32 && bytes[BppField + 1] == 0;
  }

  /** Row `y`, column `j` of the image is stored in file row `height - 1 - y`, which `BottomUp` puts first-to-last. */
  lemma MirroredIndex(pitch: int, n: int, y: int, j: int)
    requires 0 < pitch && 0 <= y < n && 0 <= j < pitch
    ensures var at := (n - 1 - y) * pitch + j;
            && 0 <= at < n * pitch
            && at / pitch == n - 1 - y && at % pitch == j
  {
    var fileRow := n - 1 - y;
    MulLe(0, fileRow, pitch);
    MulLe(fileRow + 1, n, pitch);
    assert (fileRow + 1) * pitch == fileRow * pitch + pitch;
    DivModUnique(fileRow * pitch + j, pitch, fileRow, j);
  }

  /** Index arithmetic of the round trip: the decoder's source index for row `y` is the encoder's. */
  lemma EncodedIndexArith(width: int, n: int, y: int, j: int)
    requires width >= 0
    ensures var fileRow := n - 1 - y;
            RowSize(32, width) * fileRow + 4 * (j / 4) + j % 4 == fileRow * (BytesPerPixel * width) + j
  {
    RowSize32(width);
    var fileRow := n - 1 - y;
    assert (BytesPerPixel * width) * fileRow == fileRow * (BytesPerPixel * width);
  }

  /** The decoder finds byte `i` of the texture where `Encode32` stored it. */
  lemma EncodedByte(t: Texture, i: int)
    requires Encodable32(t) && 0 <= i < |t.data|
    ensures var pitch := t.pitch;
            Texel(Encode32(t), RowStart(Header(EncodedHeaderSize, t.width, t.height, 32), i / pitch), 32, i % pitch / 4, i % pitch % 4)
              == t.data[i]
  {
    var pitch := t.pitch;
    var y, j := i / pitch, i % pitch;
    var at := (t.height - 1 - y) * pitch + j;
    EncodedSource(t, i);
    EncodedPixel(t, at);
    assert (t.height - 1 - at / pitch) * pitch + at % pitch == i;
  }

  /** Where the decoder reads byte `i` of the texture: file row `height - 1 - y`, past the 54-byte header. */
  lemma EncodedSource(t: Texture, i: int)
    requires Encodable32(t) && 0 <= i < |t.data|
    ensures var pitch := t.pitch;
            var y, j := i / pitch, i % pitch;
            var at := (t.height - 1 - y) * pitch + j;
            && 0 <= at < |t.data| && at / pitch == t.height - 1 - y && at % pitch == j
            && i == y * pitch + j
            && RowStart(Header(EncodedHeaderSize, t.width, t.height, 32), y) + j / 4 * Stride(32) + j % 4
                 == EncodedHeaderSize + at
  {
    var pitch := t.pitch;
    IndexSplit(i, pitch, t.height);
    var y, j := i / pitch, i % pitch;
    MirroredIndex(pitch, t.height, y, j);
    EncodedIndexArith(t.width, t.height, y, j);
  }

  /** Byte `at` of the pixel data `Encode32` writes is the image byte `BottomUp` put there. */
  lemma EncodedPixel(t: Texture, at: int)
    requires Encodable32(t) && 0 <= at < |t.data|
    ensures Encode32(t)[EncodedHeaderSize + at]
              == ByteAt(t.data, (t.height - 1 - at / t.pitch) * t.pitch + at % t.pitch)
  {
    var pixels := BottomUp(t.data, t.pitch, t.height);
    assert Encode32(t)[EncodedHeaderSize + at] == pixels[at];
    BottomUpContent(t.data, t.pitch, t.height);
  }

  /** A file written by `Encode32` holds every byte the decoder reads. */
  lemma EncodedDecodable(t: Texture)
    requires Encodable32(t)
    ensures Decodable(Encode32(t))
  {
    var bytes := Encode32(t);
    EncodedHeader(t);
    RowSize32(t.width);
    var h := ReadHeader(bytes);
    assert RowSize(h.bpp, h.width) == t.pitch && h.height == t.height;
    RowsFill(RowSize(h.bpp, h.width), t.pitch, h.height, t.height, |t.data|);
    assert FitsPixelData(bytes, h);
  }

  /** Rows of the texture's pitch, as many as its height, fill exactly its `height * pitch` bytes. */
  lemma RowsFill(rowSize: int, pitch: int, rows: int, height: int, n: int)
    requires rowSize == pitch && rows == height && n == height * pitch
    ensures rowSize * rows == n
  {
  }

  /** Decoding a 32 bits-per-pixel file written by `Encode32` gives back the texture, byte for byte. */
  lemma DecodeEncode32(t: Texture)
    requires Encodable32(t)
    ensures Decodable(Encode32(t))
    ensures Decode(Encode32(t)) == Some(t)
  {
    var bytes := Encode32(t);
    EncodedDecodable(t);
    EncodedHeader(t);
    var d := Decode(bytes).value;
    assert d.width == t.width && d.height == t.height && d.pitch == t.pitch;
    assert |d.data| == |t.data|;
    forall i | 0 <= i < |d.data|
      ensures d.data[i] == t.data[i]
    {
      EncodedByte(t, i);
    }
    assert d.data == t.data;
    assert d == t;
  }
}
