/**
 * Video formats, frames and pixel access.
 *
 * The plane layout of a format is computed by VideoFormat, which is not
 * part of this model; this module fixes the packed layout the frame
 * operations rely on: rows without padding, one plane for the packed
 * formats and a full-resolution luma plane followed by an interleaved
 * half-resolution chroma plane for NV12 and NV21.
 */
module Layout {
  import opened Numeric
  import opened FourCC
  import opened Raster

  /** A video format: pixel format tag and frame dimensions. */
  datatype VideoFormat = VideoFormat(fourcc: FourCC, width: int, height: int)

  /** The default-constructed format. */
  const EmptyFormat := VideoFormat(0, 0, 0)

  /** A dimension as a count: negative sizes hold no pixels. */
  function Extent(n: int): nat
  {
    if n > 0 then n else 0
  }

  /** Rows or columns of a half-resolution chroma plane, rounded up. */
  function Half(n: int): (m: nat)
    ensures 2 * m == Extent(n) + Extent(n) % 2
  {
    (Extent(n) + 1) / 2
  }

  predicate IsPlanar(fourcc: FourCC)
  {
    fourcc == PixelFormatNV12 || fourcc == PixelFormatNV21
  }

  /** Bytes per pixel of the packed formats, 0 for the others. */
  function PixelBytes(fourcc: FourCC): nat
  {
    if fourcc == PixelFormatRGB32 || fourcc == PixelFormatBGR32 then 4
    else if fourcc == PixelFormatRGB24 || fourcc == PixelFormatBGR24 then 3
    else if fourcc == PixelFormatRGB16 || fourcc == PixelFormatBGR16
         || fourcc == PixelFormatRGB15 || fourcc == PixelFormatBGR15
         || fourcc == PixelFormatUYVY || fourcc == PixelFormatYUY2 then 2
    else 0
  }

  /** Bytes in one row of a plane. */
  function BytesPerLine(format: VideoFormat, plane: nat): nat
  {
    if IsPlanar(format.fourcc) then
      if plane == 0 then Extent(format.width)
      else if plane == 1 then 2 * Half(format.width)
      else 0
    else if plane == 0 then PixelBytes(format.fourcc) * Extent(format.width)
    else 0
  }

  /** Rows of a plane. */
  function PlaneRows(format: VideoFormat, plane: nat): nat
  {
    if IsPlanar(format.fourcc) then
      if plane == 0 then Extent(format.height)
      else if plane == 1 then Half(format.height)
      else 0
    else if plane == 0 && PixelBytes(format.fourcc) > 0 then Extent(format.height)
    else 0
  }

  /** Bytes of one plane. */
  function PlaneSize(format: VideoFormat, plane: nat): nat
  {
    BytesPerLine(format, plane) * PlaneRows(format, plane)
  }

  /** Where a plane starts in the frame buffer (formats have at most two planes). */
  function PlaneOffset(format: VideoFormat, plane: nat): nat
  {
    if plane == 0 then 0 else PlaneSize(format, 0)
  }

  /** Bytes in a frame buffer of this format. */
  function Size(format: VideoFormat): (n: nat)
    ensures format.width <= 0 || format.height <= 0 ==> n == 0
  {
    PlaneSize(format, 0) + PlaneSize(format, 1)
  }

  /** `VideoFrame::line`: the offset of row `y` of a plane. */
  function Line(format: VideoFormat, plane: nat, y: int): int
  {
    PlaneOffset(format, plane) + y * BytesPerLine(format, plane)
  }

  /** A frame: its format and its buffer. */
  datatype Frame = Frame(format: VideoFormat, data: seq<uint8>)

  /** The default-constructed frame. */
  const EmptyFrame := Frame(EmptyFormat, [])

  /** The buffer has the size its format calls for. */
  predicate WellFormed(frame: Frame)
  {
    |frame.data| == Size(frame.format)
  }

  /** `VideoFrame(format)`: a zero-filled buffer of the format's size. */
  function Blank(format: VideoFormat): (frame: Frame)
    ensures WellFormed(frame) && frame.format == format
    ensures forall i :: 0 <= i < |frame.data| ==> frame.data[i] == 0
  {
    Frame(format, seq(Size(format), _ => 0))
  }

  /** The formats the geometric and colour operations accept (`m_adjustFormats`). */
  predicate Adjustable(fourcc: FourCC)
  {
    fourcc == PixelFormatBGR24 || fourcc == PixelFormatRGB24
  }

  /** A colour with 8-bit channels. */
  datatype Rgb = Rgb(r: uint8, g: uint8, b: uint8)

  /** The `RGB24` struct `{b, g, r}` at byte offset `a`. */
  function Rgb24At(data: seq<uint8>, a: int): Rgb
  {
    Rgb(At(data, a + 2), At(data, a + 1), At(data, a))
  }

  /** The `BGR24` struct `{r, g, b}` at byte offset `a`. */
  function Bgr24At(data: seq<uint8>, a: int): Rgb
  {
    Rgb(At(data, a), At(data, a + 1), At(data, a + 2))
  }

  /** Byte `c` of an `RGB24` struct holding `p`. */
  function Rgb24Byte(p: Rgb, c: int): uint8
  {
    if c == 0 then p.b else if c == 1 then p.g else p.r
  }

  /** Offset of the 3-byte pixel `(x, y)` of a 24-bit frame. */
  function Pixel24Offset(format: VideoFormat, x: int, y: int): int
  {
    Line(format, 0, y) + 3 * x
  }

  /** NV12 and NV21: a luma plane of one byte per pixel, then the chroma pairs. */
  lemma PlanarLayout(format: VideoFormat)
    requires IsPlanar(format.fourcc)
    ensures Size(format) == Extent(format.width) * Extent(format.height) + 2 * Half(format.width) * Half(format.height)
    ensures forall y :: Line(format, 0, y) == Extent(format.width) * y
    ensures forall j :: Line(format, 1, j) == Extent(format.width) * Extent(format.height) + 2 * Half(format.width) * j
  {
  }

  /** Packed formats: one plane of `PixelBytes` bytes per pixel. */
  lemma PackedLayout(format: VideoFormat)
    requires !IsPlanar(format.fourcc) && PixelBytes(format.fourcc) > 0
    ensures BytesPerLine(format, 0) == PixelBytes(format.fourcc) * Extent(format.width)
    ensures Size(format) == PixelBytes(format.fourcc) * Extent(format.width) * Extent(format.height)
    ensures forall y :: Line(format, 0, y) == PixelBytes(format.fourcc) * Extent(format.width) * y
  {
  }

  /** The 24-bit formats: three bytes per pixel. */
  lemma Layout24(format: VideoFormat)
    requires Adjustable(format.fourcc)
    ensures Size(format) == 3 * Extent(format.width) * Extent(format.height)
    ensures forall x, y :: Pixel24Offset(format, x, y) == 3 * Extent(format.width) * y + 3 * x
    ensures forall y :: Line(format, 0, y) == 3 * Extent(format.width) * y
  {
    PackedLayout(format);
  }
}
