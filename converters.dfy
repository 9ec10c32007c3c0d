/**
 * Pixel-format conversion (VCamUtils/src/videoframe.cpp): the table of
 * 22 routines, `canConvert`, `convert`, and the routines themselves. Every
 * routine reads a 24-bit source (BGR24 as the struct `{r, g, b}`, RGB24 as
 * `{b, g, r}`) and writes the target's struct, row by row.
 */
module Converters {
  import opened Numeric
  import opened FourCC
  import opened Raster
  import opened Layout
  import opened Color

  /** A table entry: the routine registered for `from` to `to`. */
  datatype VideoConvert = VideoConvert(from: FourCC, to: FourCC)

  /** `m_convert`, in declaration order. */
  const ConvertTable: seq<VideoConvert> := [
    VideoConvert(PixelFormatBGR24, PixelFormatRGB32),
    VideoConvert(PixelFormatBGR24, PixelFormatRGB24),
    VideoConvert(PixelFormatBGR24, PixelFormatRGB16),
    VideoConvert(PixelFormatBGR24, PixelFormatRGB15),
    VideoConvert(PixelFormatBGR24, PixelFormatBGR32),
    VideoConvert(PixelFormatBGR24, PixelFormatBGR16),
    VideoConvert(PixelFormatBGR24, PixelFormatBGR15),
    VideoConvert(PixelFormatBGR24, PixelFormatUYVY),
    VideoConvert(PixelFormatBGR24, PixelFormatYUY2),
    VideoConvert(PixelFormatBGR24, PixelFormatNV12),
    VideoConvert(PixelFormatBGR24, PixelFormatNV21),
    VideoConvert(PixelFormatRGB24, PixelFormatRGB32),
    VideoConvert(PixelFormatRGB24, PixelFormatRGB16),
    VideoConvert(PixelFormatRGB24, PixelFormatRGB15),
    VideoConvert(PixelFormatRGB24, PixelFormatBGR32),
    VideoConvert(PixelFormatRGB24, PixelFormatBGR24),
    VideoConvert(PixelFormatRGB24, PixelFormatBGR16),
    VideoConvert(PixelFormatRGB24, PixelFormatBGR15),
    VideoConvert(PixelFormatRGB24, PixelFormatUYVY),
    VideoConvert(PixelFormatRGB24, PixelFormatYUY2),
    VideoConvert(PixelFormatRGB24, PixelFormatNV12),
    VideoConvert(PixelFormatRGB24, PixelFormatNV21)
  ]

  /** The first entry of `table` registered for the pair, as the search in `convert` finds it. */
  function FindConverter(table: seq<VideoConvert>, from: FourCC, to: FourCC): (r: Option<VideoConvert>)
    ensures r.Some? ==> r.value in table && r.value == VideoConvert(from, to)
    ensures r.None? <==> forall i :: 0 <= i < |table| ==> table[i] != VideoConvert(from, to)
  {
    if |table| == 0 then None
    else if table[0].from == from && table[0].to == to then Some(table[0])
    else FindConverter(table[1..], from, to)
  }

  /** A registered pair is found, whatever entry precedes it. */
  lemma FindRegistered(from: FourCC, to: FourCC)
    requires VideoConvert(from, to) in ConvertTable
    ensures FindConverter(ConvertTable, from, to) == Some(VideoConvert(from, to))
  {
    var i :| 0 <= i < |ConvertTable| && ConvertTable[i] == VideoConvert(from, to);
  }

  /** `canConvert`: the pair is the identity or is registered. */
  function CanConvert(input: FourCC, output: FourCC): (ok: bool)
    ensures ok <==> input == output || VideoConvert(input, output) in ConvertTable
  {
    input == output || FindConverter(ConvertTable, input, output).Some?
  }

  /** Every registered routine reads BGR24 or RGB24. */
  lemma ConverterSources()
    ensures forall i :: 0 <= i < |ConvertTable| ==> Adjustable(ConvertTable[i].from)
    ensures |ConvertTable| == 22
  {
  }

  /** Every registered pair converts a 24-bit format into another pixel format. */
  lemma RegisteredPairs(input: FourCC, output: FourCC)
    requires VideoConvert(input, output) in ConvertTable
    ensures Adjustable(input) && output in PixelFormats && output != input
  {
  }

  /** Each of the two 24-bit formats converts into every other pixel format. */
  lemma RegisteredTargets(input: FourCC, output: FourCC)
    requires Adjustable(input) && output in PixelFormats && output != input
    ensures VideoConvert(input, output) in ConvertTable
  {
  }

  /** `canConvert` holds exactly for the identity and for a 24-bit source with a known target. */
  lemma CanConvertExactly(input: FourCC, output: FourCC)
    ensures CanConvert(input, output) <==> input == output || (Adjustable(input) && output in PixelFormats)
  {
    if VideoConvert(input, output) in ConvertTable {
      RegisteredPairs(input, output);
    }
    if input != output && Adjustable(input) && output in PixelFormats {
      RegisteredTargets(input, output);
    }
  }

  /** The source pixel `(x, y)`, read through the source format's struct. */
  function SourcePixel(src: Frame, x: int, y: int): Rgb
  {
    var offset := Pixel24Offset(src.format, x, y);
    if src.format.fourcc == PixelFormatBGR24 then Bgr24At(src.data, offset) else Rgb24At(src.data, offset)
  }

  /** Little-endian bytes of a 16-bit word. */
  function Word16(w: int): (bytes: seq<uint8>)
    requires 0 <= w < 65536
  {
    [w % 256, w / 256]
  }

  /** The 16-bit word stored in two bytes. */
  function WordOf(bytes: seq<uint8>): int
    requires |bytes| == 2
  {
    bytes[0] as int + 256 * bytes[1] as int
  }

  /** The bit-field of `size` bits starting at bit `shift`, with `size` and `shift` given as powers of two. */
  function BitField(word: int, shift: nat, size: nat): int
    requires shift > 0 && size > 0
  {
    (word / shift) % size
  }

  /** The per-pixel targets: the 32-, 24-, 16- and 15-bit RGB and BGR formats. */
  predicate IsPixelTarget(to: FourCC)
  {
    to == PixelFormatRGB32 || to == PixelFormatRGB24 || to == PixelFormatRGB16 || to == PixelFormatRGB15
    || to == PixelFormatBGR32 || to == PixelFormatBGR24 || to == PixelFormatBGR16 || to == PixelFormatBGR15
  }

  /**
   * The bytes of the target struct a routine writes for `p`. Bit-fields
   * are laid out first field in the least significant bits, and the 16-bit
   * word is stored little-endian.
   */
  function EncodePixel(to: FourCC, p: Rgb): (bytes: seq<uint8>)
    ensures IsPixelTarget(to) ==> |bytes| == PixelBytes(to)
  {
    if to == PixelFormatRGB32 then [255, p.b, p.g, p.r]
    else if to == PixelFormatRGB24 then [p.b, p.g, p.r]
    else if to == PixelFormatRGB16 then Word16(p.b / 8 + (p.g / 4) * 32 + (p.r / 8) * 2048)
    else if to == PixelFormatRGB15 then Word16(p.b / 8 + (p.g / 8) * 32 + (p.r / 8) * 1024 + 32768)
    else if to == PixelFormatBGR32 then [p.r, p.g, p.b, 255]
    else if to == PixelFormatBGR24 then [p.r, p.g, p.b]
    else if to == PixelFormatBGR16 then Word16(p.r / 8 + (p.g / 4) * 32 + (p.b / 8) * 2048)
    else if to == PixelFormatBGR15 then Word16(p.r / 8 + (p.g / 8) * 32 + (p.b / 8) * 1024 + 32768)
    else []
  }

  /** A 16-bit word survives its little-endian bytes. */
  lemma WordRoundTrip(w: int)
    requires 0 <= w < 65536
    ensures WordOf(Word16(w)) == w
  {
  }

  /** The three fields of a 5-6-5 word. */
  lemma Fields565(lo: int, mid: int, hi: int)
    requires 0 <= lo < 32 && 0 <= mid < 64 && 0 <= hi < 32
    ensures var w := lo + mid * 32 + hi * 2048;
      0 <= w < 65536 && BitField(w, 1, 32) == lo && BitField(w, 32, 64) == mid && BitField(w, 2048, 32) == hi
  {
  }

  /** The four fields of a 5-5-5-1 word. */
  lemma Fields5551(lo: int, mid: int, hi: int, top: int)
    requires 0 <= lo < 32 && 0 <= mid < 32 && 0 <= hi < 32 && 0 <= top < 2
    ensures var w := lo + mid * 32 + hi * 1024 + top * 32768;
      0 <= w < 65536 && BitField(w, 1, 32) == lo && BitField(w, 32, 32) == mid && BitField(w, 1024, 32) == hi
      && BitField(w, 32768, 2) == top
  {
    var w := lo + mid * 32 + hi * 1024 + top * 32768;
    DivModUnique(w, 32, mid + 32 * hi + 1024 * top, lo);
    DivModUnique(w / 32, 32, hi + 32 * top, mid);
    DivModUnique(w, 1024, hi + 32 * top, lo + 32 * mid);
    DivModUnique(hi + 32 * top, 32, top, hi);
    DivModUnique(w, 32768, top, lo + 32 * mid + 1024 * hi);
  }

  /**
   * The 16-bit targets: blue, green, red (red, green, blue for `BGR16`)
   * shifted right by 3, 2 and 3 in the 5-6-5 fields of the word.
   */
  lemma Fields16(p: Rgb)
    ensures var w := WordOf(EncodePixel(PixelFormatRGB16, p));
      BitField(w, 1, 32) == p.b / 8 && BitField(w, 32, 64) == p.g / 4 && BitField(w, 2048, 32) == p.r / 8
    ensures var w := WordOf(EncodePixel(PixelFormatBGR16, p));
      BitField(w, 1, 32) == p.r / 8 && BitField(w, 32, 64) == p.g / 4 && BitField(w, 2048, 32) == p.b / 8
  {
    Word565(p.b, p.g, p.r);
    Word565(p.r, p.g, p.b);
  }

  /**
   * The 15-bit targets: the three channels shifted right by 3 in the
   * 5-5-5 fields, and the `x` bit set.
   */
  lemma Fields15(p: Rgb)
    ensures var w := WordOf(EncodePixel(PixelFormatRGB15, p));
      BitField(w, 1, 32) == p.b / 8 && BitField(w, 32, 32) == p.g / 8 && BitField(w, 1024, 32) == p.r / 8
      && BitField(w, 32768, 2) == 1
    ensures var w := WordOf(EncodePixel(PixelFormatBGR15, p));
      BitField(w, 1, 32) == p.r / 8 && BitField(w, 32, 32) == p.g / 8 && BitField(w, 1024, 32) == p.b / 8
      && BitField(w, 32768, 2) == 1
  {
    Word5551(p.b, p.g, p.r);
    Word5551(p.r, p.g, p.b);
  }

  /** The 32-bit targets are the 24-bit struct with the `x` byte 255 at the far end from red. */
  lemma Fields32(p: Rgb)
    ensures EncodePixel(PixelFormatRGB32, p) == [255] + EncodePixel(PixelFormatRGB24, p)
    ensures EncodePixel(PixelFormatBGR32, p) == EncodePixel(PixelFormatBGR24, p) + [255]
  {
  }

  /** The 5-6-5 word of three channels, read back field by field. */
  lemma Word565(lo: uint8, mid: uint8, hi: uint8)
    ensures var w := WordOf(Word16(lo / 8 + (mid / 4) * 32 + (hi / 8) * 2048));
      BitField(w, 1, 32) == lo / 8 && BitField(w, 32, 64) == mid / 4 && BitField(w, 2048, 32) == hi / 8
  {
    Fields565(lo / 8, mid / 4, hi / 8);
    WordRoundTrip(lo / 8 + (mid / 4) * 32 + (hi / 8) * 2048);
  }

  /** The 5-5-5-1 word of three channels with the top bit set, read back field by field. */
  lemma Word5551(lo: uint8, mid: uint8, hi: uint8)
    ensures var w := WordOf(Word16(lo / 8 + (mid / 8) * 32 + (hi / 8) * 1024 + 32768));
      BitField(w, 1, 32) == lo / 8 && BitField(w, 32, 32) == mid / 8 && BitField(w, 1024, 32) == hi / 8
      && BitField(w, 32768, 2) == 1
  {
    Fields5551(lo / 8, mid / 8, hi / 8, 1);
    WordRoundTrip(lo / 8 + (mid / 8) * 32 + (hi / 8) * 1024 + 32768);
  }

  /** Byte `c` of pixel `(x, y)` of a per-pixel target. */
  function PixelTargetByte(src: Frame, to: FourCC): (int, int, int) -> uint8
  {
    (x, y, c) => At(EncodePixel(to, SourcePixel(src, x, y)), c)
  }

  /** The frame the per-pixel routine for `to` produces from `src`. */
  function PixelConverted(src: Frame, to: FourCC): (dst: Frame)
  {
    var format := src.format.(fourcc := to);
    Frame(format, Image(PixelBytes(to), Extent(format.width), Extent(format.height), PixelTargetByte(src, to)))
  }

  /**
   * The sixteen routines `bgr24_to_*` and `rgb24_to_*` whose target holds
   * one struct per pixel.
   */
  method ConvertPixels(src: Frame, to: FourCC) returns (dst: Frame)
    requires Adjustable(src.format.fourcc) && IsPixelTarget(to)
    ensures dst == PixelConverted(src, to)
  {
    var format := src.format.(fourcc := to);
    var width, height := Extent(src.format.width), Extent(src.format.height);
    var b := PixelBytes(to);
    PackedLayout(format);
    ghost var image := PixelConverted(src, to).data;
    var data := new uint8[Size(format)](_ => 0);
    for y := 0 to height
      invariant b * width * y <= data.Length == |image|
      invariant forall k :: 0 <= k < b * width * y ==> data[k] == image[k]
    {
      PixelRow(src, to, data, y, image);
    }
    dst := Frame(format, data[..]);
  }

  /** `dstLine[x] = pixel`: the bytes of one target struct. */
  method PutBytes(data: array<uint8>, d: int, bytes: seq<uint8>)
    requires 0 <= d && d + |bytes| <= data.Length
    modifies data
    ensures forall c :: 0 <= c < |bytes| ==> data[d + c] == bytes[c]
    ensures forall k :: 0 <= k < d ==> data[k] == old(data[k])
  {
    forall c | 0 <= c < |bytes| {
      data[d + c] := bytes[c];
    }
  }

  /** One row of the loop above. */
  method PixelRow(src: Frame, to: FourCC, data: array<uint8>, y: int, ghost image: seq<uint8>)
    requires Adjustable(src.format.fourcc) && IsPixelTarget(to) && 0 <= y < Extent(src.format.height)
    requires image == PixelConverted(src, to).data && data.Length == |image|
    requires PixelBytes(to) * Extent(src.format.width) * y <= data.Length
    requires forall k :: 0 <= k < PixelBytes(to) * Extent(src.format.width) * y ==> data[k] == image[k]
    modifies data
    ensures PixelBytes(to) * Extent(src.format.width) * (y + 1) <= data.Length
    ensures forall k :: 0 <= k < PixelBytes(to) * Extent(src.format.width) * (y + 1) ==> data[k] == image[k]
  {
    var format := src.format.(fourcc := to);
    var width, height := Extent(src.format.width), Extent(src.format.height);
    var b := PixelBytes(to);
    PackedLayout(format);
    var dstLine := Line(format, 0, y);
    assert dstLine == b * width * y;
    for x := 0 to width
      invariant b * width * y + b * x <= data.Length
      invariant forall k :: 0 <= k < b * width * y + b * x ==> data[k] == image[k]
    {
      PixelInside(b, width, height, x, y);
      PixelPut(src, to, data, image, b, width, height, x, y, dstLine + b * x);
      assert b * (x + 1) == b * x + b;
    }
    assert b * width * y + b * width == b * width * (y + 1);
  }

  /** The body of the loop above: the struct of pixel `(x, y)`. */
  method PixelPut(src: Frame, to: FourCC, data: array<uint8>, ghost image: seq<uint8>, b: nat, width: nat, height: nat,
                  x: int, y: int, d: int)
    requires IsPixelTarget(to) && b == PixelBytes(to)
    requires width == Extent(src.format.width) && height == Extent(src.format.height)
    requires image == Image(b, width, height, PixelTargetByte(src, to)) && data.Length == |image|
    requires 0 <= x < width && 0 <= y < height && d == b * width * y + b * x
    requires 0 <= d && d + b <= |image|
    requires forall k :: 0 <= k < d ==> data[k] == image[k]
    modifies data
    ensures forall k :: 0 <= k < d + b ==> data[k] == image[k]
  {
    var pixel := EncodePixel(to, SourcePixel(src, x, y));
    PutBytes(data, d, pixel);
    PixelStep(b, width, height, PixelTargetByte(src, to), image, x, y, d, 0, data);
  }

  function LumaOf(p: Rgb): uint8
  {
    RgbY(p.r, p.g, p.b)
  }

  function BlueDiffOf(p: Rgb): uint8
  {
    RgbU(p.r, p.g, p.b)
  }

  function RedDiffOf(p: Rgb): uint8
  {
    RgbV(p.r, p.g, p.b)
  }

  /**
   * The macropixel written for the pixels `p0`, `p1` of a pair: `UYVY` is
   * the struct `{v0, y0, u0, y1}`, `YUY2` the struct `{y0, v0, y1, u0}`.
   */
  function EncodePair(to: FourCC, p0: Rgb, p1: Rgb): (bytes: seq<uint8>)
    ensures |bytes| == 4
  {
    if to == PixelFormatUYVY then [RedDiffOf(p0), LumaOf(p0), BlueDiffOf(p0), LumaOf(p1)]
    else [LumaOf(p0), RedDiffOf(p0), LumaOf(p1), BlueDiffOf(p0)]
  }

  /** Byte `c` of macropixel `i` of row `y`. */
  function PackedByte(src: Frame, to: FourCC): (int, int, int) -> uint8
  {
    (i, y, c) => PackedAt(src, to, i, y, c)
  }

  function PackedAt(src: Frame, to: FourCC, i: int, y: int, c: int): uint8
  {
    At(EncodePair(to, SourcePixel(src, 2 * i, y), SourcePixel(src, 2 * i + 1, y)), c)
  }

  /** The frame `*_to_uyvy` or `*_to_yuy2` produces: one 4-byte macropixel per pair of pixels. */
  function PackedConverted(src: Frame, to: FourCC): (dst: Frame)
  {
    var format := src.format.(fourcc := to);
    Frame(format, Image(4, Extent(format.width) / 2, Extent(format.height), PackedByte(src, to)))
  }

  predicate IsPackedTarget(to: FourCC)
  {
    to == PixelFormatUYVY || to == PixelFormatYUY2
  }

  /**
   * `bgr24_to_uyvy`, `bgr24_to_yuy2`, `rgb24_to_uyvy`, `rgb24_to_yuy2`: the
   * loop advances `x` a second time inside its body to read the pair's
   * second pixel, which stays in the row only for an even width.
   */
  method ConvertPacked(src: Frame, to: FourCC) returns (dst: Frame)
    requires Adjustable(src.format.fourcc) && IsPackedTarget(to)
    requires Extent(src.format.width) % 2 == 0
    ensures dst == PackedConverted(src, to)
  {
    var format := src.format.(fourcc := to);
    var width, height := Extent(src.format.width), Extent(src.format.height);
    PackedLayout(format);
    assert PixelBytes(to) * width == 4 * (width / 2);
    ghost var image := PackedConverted(src, to).data;
    var data := new uint8[Size(format)](_ => 0);
    for y := 0 to height
      invariant 4 * (width / 2) * y <= data.Length == |image|
      invariant forall k :: 0 <= k < 4 * (width / 2) * y ==> data[k] == image[k]
    {
      PackRow(src, to, data, y, image);
    }
    dst := Frame(format, data[..]);
  }

  /** One row of the loop above. */
  method PackRow(src: Frame, to: FourCC, data: array<uint8>, y: int, ghost image: seq<uint8>)
    requires Adjustable(src.format.fourcc) && IsPackedTarget(to)
    requires Extent(src.format.width) % 2 == 0 && 0 <= y < Extent(src.format.height)
    requires image == PackedConverted(src, to).data && data.Length == |image|
    requires 4 * (Extent(src.format.width) / 2) * y <= data.Length
    requires forall k :: 0 <= k < 4 * (Extent(src.format.width) / 2) * y ==> data[k] == image[k]
    modifies data
    ensures 4 * (Extent(src.format.width) / 2) * (y + 1) <= data.Length
    ensures forall k :: 0 <= k < 4 * (Extent(src.format.width) / 2) * (y + 1) ==> data[k] == image[k]
  {
    var format := src.format.(fourcc := to);
    var width, height := Extent(src.format.width), Extent(src.format.height);
    var half := width / 2;
    PackedLayout(format);
    assert PixelBytes(to) * width == 4 * half;
    var dstLine := Line(format, 0, y);
    assert dstLine == 4 * half * y;
    var x := 0;
    ghost var done := 0;
    while x < width
      invariant 0 <= x <= width && x == 2 * done
      invariant dstLine + 4 * done <= data.Length
      invariant forall k :: 0 <= k < dstLine + 4 * done ==> data[k] == image[k]
    {
      var xYuv := x / 2;
      assert xYuv == done;
      var p0 := SourcePixel(src, x, y);
      x := x + 1;
      var p1 := SourcePixel(src, x, y);
      PixelInside(4, half, height, xYuv, y);
      PackPair(src, to, data, image, half, height, xYuv, y, dstLine + 4 * xYuv, p0, p1);
      assert dstLine + 4 * xYuv + 4 == dstLine + 4 * (done + 1);
      x := x + 1;
      done := done + 1;
    }
    assert 4 * half * y + 4 * half == 4 * half * (y + 1);
  }

  /** `dst_line[x_yuv]`: the four fields of the macropixel of a pair. */
  method PackPair(src: Frame, to: FourCC, data: array<uint8>, ghost image: seq<uint8>, half: nat, height: nat,
                  i: int, y: int, base: int, p0: Rgb, p1: Rgb)
    requires half == Extent(src.format.width) / 2 && height == Extent(src.format.height)
    requires image == Image(4, half, height, PackedByte(src, to))
    requires 0 <= i < half && 0 <= y < height && base == 4 * half * y + 4 * i
    requires data.Length == |image| && 0 <= base && base + 4 <= data.Length
    requires forall k :: 0 <= k < base ==> data[k] == image[k]
    requires p0 == SourcePixel(src, 2 * i, y) && p1 == SourcePixel(src, 2 * i + 1, y)
    modifies data
    ensures forall k :: 0 <= k < base + 4 ==> data[k] == image[k]
  {
    var pair := EncodePair(to, p0, p1);
    PutFields(data, base, pair);
    ghost var f := PackedByte(src, to);
    forall c | 0 <= c < 4
      ensures data[base + c] == f(i, y, c)
    {
      assert f(i, y, c) == At(pair, c);
    }
    PixelStep(4, half, height, f, image, i, y, base, 0, data);
  }

  /** The four field assignments of a macropixel, in struct order. */
  method PutFields(data: array<uint8>, base: int, fields: seq<uint8>)
    requires |fields| == 4 && 0 <= base && base + 4 <= data.Length
    modifies data
    ensures forall c :: 0 <= c < 4 ==> data[base + c] == fields[c]
    ensures forall k :: 0 <= k < base ==> data[k] == old(data[k])
  {
    data[base] := fields[0];
    data[base + 1] := fields[1];
    data[base + 2] := fields[2];
    data[base + 3] := fields[3];
  }

  /**
   * U and V come from the first pixel of each pair, Y from each pixel, at
   * the struct positions of the target.
   */
  lemma PackedPairBytes(src: Frame, to: FourCC, i: int, y: int)
    requires IsPackedTarget(to) && Extent(src.format.width) % 2 == 0
    requires 0 <= 2 * i < Extent(src.format.width) && 0 <= y < Extent(src.format.height)
    ensures var data := PackedConverted(src, to).data;
      var base := 2 * Extent(src.format.width) * y + 4 * i;
      var p0, p1 := SourcePixel(src, 2 * i, y), SourcePixel(src, 2 * i + 1, y);
      0 <= base && base + 3 < |data| &&
      (to == PixelFormatUYVY ==>
        data[base] == RedDiffOf(p0) && data[base + 1] == LumaOf(p0)
        && data[base + 2] == BlueDiffOf(p0) && data[base + 3] == LumaOf(p1)) &&
      (to == PixelFormatYUY2 ==>
        data[base] == LumaOf(p0) && data[base + 1] == RedDiffOf(p0)
        && data[base + 2] == LumaOf(p1) && data[base + 3] == BlueDiffOf(p0))
  {
    var half := Extent(src.format.width) / 2;
    var f := PackedByte(src, to);
    assert 2 * Extent(src.format.width) * y == 4 * half * y;
    ImageAt(4, half, Extent(src.format.height), f, i, y, 0);
    ImageAt(4, half, Extent(src.format.height), f, i, y, 1);
    ImageAt(4, half, Extent(src.format.height), f, i, y, 2);
    ImageAt(4, half, Extent(src.format.height), f, i, y, 3);
  }
}
