/**
 * `VideoFrame::mirror` and `VideoFrame::swapRgb`: both read and write
 * pixels through the `RGB24` struct `{b, g, r}` whatever the frame's
 * 24-bit fourcc, on the adjustable formats BGR24 and RGB24 only.
 */
module Geometry {
  import opened Numeric
  import opened FourCC
  import opened Raster
  import opened Layout
  import opened Converters
  import opened Conversion

  /** The source column and row that land on `(x, y)`. */
  function MirrorX(format: VideoFormat, horizontal: bool, x: int): int
  {
    if horizontal then Extent(format.width) - x - 1 else x
  }

  function MirrorY(format: VideoFormat, vertical: bool, y: int): int
  {
    if vertical then Extent(format.height) - y - 1 else y
  }

  function MirrorAt(src: Frame, horizontal: bool, vertical: bool, x: int, y: int, c: int): uint8
  {
    At(src.data, Pixel24Offset(src.format, MirrorX(src.format, horizontal, x), MirrorY(src.format, vertical, y)) + c)
  }

  function MirrorByte(src: Frame, horizontal: bool, vertical: bool): (int, int, int) -> uint8
  {
    (x, y, c) => MirrorAt(src, horizontal, vertical, x, y, c)
  }

  /** The mirrored buffer: pixel `(x, y)` is the source pixel reflected along the requested axes. */
  function MirrorImage(src: Frame, horizontal: bool, vertical: bool): (s: seq<uint8>)
  {
    Image(3, Extent(src.format.width), Extent(src.format.height), MirrorByte(src, horizontal, vertical))
  }

  /** The frame `mirror(horizontal, vertical)` returns. */
  function Mirrored(src: Frame, horizontal: bool, vertical: bool): (dst: Frame)
  {
    if !horizontal && !vertical then src
    else if !Adjustable(src.format.fourcc) then EmptyFrame
    else Frame(src.format, MirrorImage(src, horizontal, vertical))
  }

  /**
   * No flip returns the input; a flip of a format other than the 24-bit
   * RGB ones gives the empty frame, and of those keeps the format and fills
   * its buffer.
   */
  lemma MirrorShape(src: Frame, horizontal: bool, vertical: bool)
    ensures !horizontal && !vertical ==> Mirrored(src, horizontal, vertical) == src
    ensures (horizontal || vertical) && !Adjustable(src.format.fourcc) ==> Mirrored(src, horizontal, vertical) == EmptyFrame
    ensures (horizontal || vertical) && Adjustable(src.format.fourcc) ==>
      Mirrored(src, horizontal, vertical).format == src.format && WellFormed(Mirrored(src, horizontal, vertical))
  {
    if Adjustable(src.format.fourcc) {
      Layout24(src.format);
    }
  }

  /**
   * `mirror`: with a horizontal flip every pixel is copied from the
   * reflected column of the source row; a vertical flip alone copies whole
   * rows, as the `memcpy` does.
   */
  method Mirror(src: Frame, horizontal: bool, vertical: bool) returns (dst: Frame)
    ensures dst == Mirrored(src, horizontal, vertical)
  {
    if !horizontal && !vertical {
      return src;
    }
    if !Adjustable(src.format.fourcc) {
      return EmptyFrame;
    }
    var format := src.format;
    var width, height := Extent(format.width), Extent(format.height);
    Layout24(format);
    ghost var image := MirrorImage(src, horizontal, vertical);
    var data := new uint8[Size(format)](_ => 0);
    for y := 0 to height
      invariant 3 * width * y <= data.Length == |image|
      invariant forall k :: 0 <= k < 3 * width * y ==> data[k] == image[k]
    {
      RowEnd(3 * width, y, height);
      if horizontal {
        MirrorRow(src, vertical, data, y, image);
      } else {
        CopyRow(src, data, y, image);
      }
      assert 3 * width * (y + 1) == 3 * width * y + 3 * width;
    }
    dst := Frame(format, data[..]);
  }

  /** A row with the horizontal flip: `dstLine[x] = srcLine[width - x - 1]`. */
  method MirrorRow(src: Frame, vertical: bool, data: array<uint8>, y: int, ghost image: seq<uint8>)
    requires Adjustable(src.format.fourcc) && 0 <= y < Extent(src.format.height)
    requires image == MirrorImage(src, true, vertical) && data.Length == |image|
    requires 3 * Extent(src.format.width) * y + 3 * Extent(src.format.width) <= data.Length
    requires forall k :: 0 <= k < 3 * Extent(src.format.width) * y ==> data[k] == image[k]
    modifies data
    ensures forall k :: 0 <= k < 3 * Extent(src.format.width) * y + 3 * Extent(src.format.width) ==> data[k] == image[k]
  {
    var format := src.format;
    var width, height := Extent(format.width), Extent(format.height);
    Layout24(format);
    var srcLine := Line(format, 0, MirrorY(format, vertical, y));
    var dstLine := Line(format, 0, y);
    assert dstLine == 3 * width * y;
    for x := 0 to width
      invariant 3 * width * y + 3 * x <= data.Length
      invariant forall k :: 0 <= k < 3 * width * y + 3 * x ==> data[k] == image[k]
    {
      PixelInside(3, width, height, x, y);
      var d, s := dstLine + 3 * x, srcLine + 3 * (width - x - 1);
      data[d], data[d + 1], data[d + 2] := At(src.data, s), At(src.data, s + 1), At(src.data, s + 2);
      MirrorStep(src, vertical, image, x, y, d, s, data);
    }
  }

  lemma MirrorStep(src: Frame, vertical: bool, image: seq<uint8>, x: int, y: int, base: int, s: int, data: array<uint8>)
    requires Adjustable(src.format.fourcc) && image == MirrorImage(src, true, vertical)
    requires 0 <= x < Extent(src.format.width) && 0 <= y < Extent(src.format.height)
    requires base == 3 * Extent(src.format.width) * y + 3 * x && data.Length == |image| && 0 <= base && base + 3 <= data.Length
    requires s == Pixel24Offset(src.format, MirrorX(src.format, true, x), MirrorY(src.format, vertical, y))
    requires forall k :: 0 <= k < base ==> data[k] == image[k]
    requires data[base] == At(src.data, s) && data[base + 1] == At(src.data, s + 1) && data[base + 2] == At(src.data, s + 2)
    ensures forall k :: 0 <= k < base + 3 ==> data[k] == image[k]
  {
    var f := MirrorByte(src, true, vertical);
    assert forall c :: 0 <= c < 3 ==> data[base + c] == f(x, y, c);
    PixelStep(3, Extent(src.format.width), Extent(src.format.height), f, image, x, y, base, 0, data);
  }

  /** A row of the vertical flip alone: the whole source row `height - y - 1`, byte for byte. */
  method CopyRow(src: Frame, data: array<uint8>, y: int, ghost image: seq<uint8>)
    requires Adjustable(src.format.fourcc) && 0 <= y < Extent(src.format.height)
    requires image == MirrorImage(src, false, true) && data.Length == |image|
    requires 3 * Extent(src.format.width) * y + 3 * Extent(src.format.width) <= data.Length
    requires forall k :: 0 <= k < 3 * Extent(src.format.width) * y ==> data[k] == image[k]
    modifies data
    ensures forall k :: 0 <= k < 3 * Extent(src.format.width) * y + 3 * Extent(src.format.width) ==> data[k] == image[k]
  {
    var format := src.format;
    var width, height := Extent(format.width), Extent(format.height);
    Layout24(format);
    var srcLine := Line(format, 0, height - y - 1);
    var dstLine := Line(format, 0, y);
    assert dstLine == 3 * width * y;
    forall k | dstLine <= k < dstLine + 3 * width {
      data[k] := At(src.data, srcLine + (k - dstLine));
    }
    CopyStep(src, image, y, dstLine, srcLine, data);
  }

  lemma CopyStep(src: Frame, image: seq<uint8>, y: int, base: int, s: int, data: array<uint8>)
    requires Adjustable(src.format.fourcc) && image == MirrorImage(src, false, true)
    requires 0 <= y < Extent(src.format.height)
    requires base == 3 * Extent(src.format.width) * y && data.Length == |image| && 0 <= base && base + 3 * Extent(src.format.width) <= data.Length
    requires s == Line(src.format, 0, Extent(src.format.height) - y - 1)
    requires forall k :: 0 <= k < base ==> data[k] == image[k]
    requires forall k :: base <= k < base + 3 * Extent(src.format.width) ==> data[k] == At(src.data, s + (k - base))
    ensures forall k :: 0 <= k < base + 3 * Extent(src.format.width) ==> data[k] == image[k]
  {
    var f := MirrorByte(src, false, true);
    forall i | 0 <= i < 3 * Extent(src.format.width)
      ensures data[base + i] == f(i / 3, y, i % 3)
    {
      var k := base + i;
      assert data[k] == At(src.data, s + i);
      assert 3 * (i / 3) + i % 3 == i;
    }
    RowStep(3, Extent(src.format.width), Extent(src.format.height), f, image, y, base, data);
  }

  /** Byte `c` of pixel `(x, y)` of the reflected frame, on a 24-bit frame. */
  lemma MirroredAt(src: Frame, horizontal: bool, vertical: bool, x: int, y: int, c: int)
    requires Adjustable(src.format.fourcc) && (horizontal || vertical)
    requires 0 <= x < Extent(src.format.width) && 0 <= y < Extent(src.format.height) && 0 <= c < 3
    ensures var w, h := Extent(src.format.width), Extent(src.format.height);
      var sx, sy := if horizontal then w - 1 - x else x, if vertical then h - 1 - y else y;
      0 <= 3 * w * y + 3 * x + c < |Mirrored(src, horizontal, vertical).data|
      && Mirrored(src, horizontal, vertical).data[3 * w * y + 3 * x + c] == At(src.data, 3 * w * sy + 3 * sx + c)
  {
    Layout24(src.format);
    ImageAt(3, Extent(src.format.width), Extent(src.format.height), MirrorByte(src, horizontal, vertical), x, y, c);
  }

  /** Reflecting a well-formed 24-bit frame twice along the same axes restores it. */
  lemma MirrorTwice(src: Frame, horizontal: bool, vertical: bool)
    requires Adjustable(src.format.fourcc) && WellFormed(src)
    ensures Mirrored(Mirrored(src, horizontal, vertical), horizontal, vertical) == src
  {
    if horizontal || vertical {
      var mid := Mirrored(src, horizontal, vertical);
      var w, h := Extent(src.format.width), Extent(src.format.height);
      Layout24(src.format);
      forall x: int, y: int, c: int | 0 <= x < w && 0 <= y < h && 0 <= c < 3
        ensures MirrorByte(mid, horizontal, vertical)(x, y, c) == At(src.data, 3 * w * y + 3 * x + c)
      {
        var sx, sy := MirrorX(src.format, horizontal, x), MirrorY(src.format, vertical, y);
        MirroredAt(src, horizontal, vertical, sx, sy, c);
      }
      ImageOfBuffer(3, w, h, src.data, MirrorByte(mid, horizontal, vertical));
    }
  }

  /** A vertical flip alone moves source row `h - 1 - y` to row `y` unchanged. */
  lemma VerticalRow(src: Frame, y: int)
    requires Adjustable(src.format.fourcc) && WellFormed(src) && 0 <= y < Extent(src.format.height)
    ensures var w, h := Extent(src.format.width), Extent(src.format.height);
      var dst := Mirrored(src, false, true).data;
      0 <= 3 * w * y && 3 * w * y + 3 * w <= |dst| && 0 <= 3 * w * (h - 1 - y) && 3 * w * (h - 1 - y) + 3 * w <= |src.data|
      && dst[3 * w * y .. 3 * w * y + 3 * w] == src.data[3 * w * (h - 1 - y) .. 3 * w * (h - 1 - y) + 3 * w]
  {
    var w, h := Extent(src.format.width), Extent(src.format.height);
    var dst := Mirrored(src, false, true).data;
    var a, b := 3 * w * y, 3 * w * (h - 1 - y);
    Layout24(src.format);
    RowEnd(3 * w, y, h);
    RowEnd(3 * w, h - 1 - y, h);
    var row, srcRow := dst[a .. a + 3 * w], src.data[b .. b + 3 * w];
    forall i | 0 <= i < 3 * w
      ensures row[i] == srcRow[i]
    {
      VerticalByte(src, y, i);
    }
  }

  lemma VerticalByte(src: Frame, y: int, i: int)
    requires Adjustable(src.format.fourcc) && WellFormed(src) && 0 <= y < Extent(src.format.height)
    requires 0 <= i < 3 * Extent(src.format.width)
    ensures var w, h := Extent(src.format.width), Extent(src.format.height);
      0 <= 3 * w * y + i < |Mirrored(src, false, true).data| && 0 <= 3 * w * (h - 1 - y) + i < |src.data|
      && Mirrored(src, false, true).data[3 * w * y + i] == src.data[3 * w * (h - 1 - y) + i]
  {
    var w, h := Extent(src.format.width), Extent(src.format.height);
    var x, c := i / 3, i % 3;
    assert 3 * x + c == i;
    MirroredAt(src, false, true, x, y, c);
    RowInside(3 * w, h, h - 1 - y, i);
  }

  function SwapAt(src: Frame, x: int, y: int, c: int): uint8
  {
    At(src.data, Pixel24Offset(src.format, x, y) + 2 - c)
  }

  function SwapByte(src: Frame): (int, int, int) -> uint8
  {
    (x, y, c) => SwapAt(src, x, y, c)
  }

  /** The frame `swapRgb()` returns: `r` and `b` of every pixel exchanged, which reverses its bytes. */
  function Swapped(src: Frame): (dst: Frame)
  {
    if !Adjustable(src.format.fourcc) then EmptyFrame
    else Frame(src.format, Image(3, Extent(src.format.width), Extent(src.format.height), SwapByte(src)))
  }

  /** `swapRgb(swap)`. */
  function SwappedIf(src: Frame, swap: bool): (dst: Frame)
    ensures !swap ==> dst == src
    ensures swap ==> dst == Swapped(src)
  {
    if swap then Swapped(src) else src
  }

  /** `swapRgb()`. */
  method SwapRgb(src: Frame) returns (dst: Frame)
    ensures dst == Swapped(src)
  {
    if !Adjustable(src.format.fourcc) {
      return EmptyFrame;
    }
    var format := src.format;
    var width, height := Extent(format.width), Extent(format.height);
    Layout24(format);
    ghost var image := Swapped(src).data;
    var data := new uint8[Size(format)](_ => 0);
    for y := 0 to height
      invariant 3 * width * y <= data.Length == |image|
      invariant forall k :: 0 <= k < 3 * width * y ==> data[k] == image[k]
    {
      RowEnd(3 * width, y, height);
      SwapRow(src, data, y, image);
      assert 3 * width * (y + 1) == 3 * width * y + 3 * width;
    }
    dst := Frame(format, data[..]);
  }

  method SwapRow(src: Frame, data: array<uint8>, y: int, ghost image: seq<uint8>)
    requires Adjustable(src.format.fourcc) && 0 <= y < Extent(src.format.height)
    requires image == Swapped(src).data && data.Length == |image|
    requires 3 * Extent(src.format.width) * y + 3 * Extent(src.format.width) <= data.Length
    requires forall k :: 0 <= k < 3 * Extent(src.format.width) * y ==> data[k] == image[k]
    modifies data
    ensures forall k :: 0 <= k < 3 * Extent(src.format.width) * y + 3 * Extent(src.format.width) ==> data[k] == image[k]
  {
    var format := src.format;
    var width, height := Extent(format.width), Extent(format.height);
    Layout24(format);
    var line := Line(format, 0, y);
    assert line == 3 * width * y;
    for x := 0 to width
      invariant 3 * width * y + 3 * x <= data.Length
      invariant forall k :: 0 <= k < 3 * width * y + 3 * x ==> data[k] == image[k]
    {
      PixelInside(3, width, height, x, y);
      var p := Rgb24At(src.data, line + 3 * x);
      data[line + 3 * x + 2] := p.b;
      data[line + 3 * x + 1] := p.g;
      data[line + 3 * x] := p.r;
      SwapStep(src, image, x, y, line + 3 * x, data);
    }
  }

  lemma SwapStep(src: Frame, image: seq<uint8>, x: int, y: int, base: int, data: array<uint8>)
    requires Adjustable(src.format.fourcc) && image == Swapped(src).data
    requires 0 <= x < Extent(src.format.width) && 0 <= y < Extent(src.format.height)
    requires base == 3 * Extent(src.format.width) * y + 3 * x && data.Length == |image| && 0 <= base && base + 3 <= data.Length
    requires Pixel24Offset(src.format, x, y) == base
    requires forall k :: 0 <= k < base ==> data[k] == image[k]
    requires data[base] == At(src.data, base + 2) && data[base + 1] == At(src.data, base + 1) && data[base + 2] == At(src.data, base)
    ensures forall k :: 0 <= k < base + 3 ==> data[k] == image[k]
  {
    var f := SwapByte(src);
    assert forall c :: 0 <= c < 3 ==> data[base + c] == f(x, y, c);
    PixelStep(3, Extent(src.format.width), Extent(src.format.height), f, image, x, y, base, 0, data);
  }

  /** Swapping twice restores a well-formed 24-bit frame. */
  lemma SwapTwiceRestores(src: Frame)
    requires Adjustable(src.format.fourcc) && WellFormed(src)
    ensures Swapped(Swapped(src)) == src
  {
    var mid := Swapped(src);
    var w, h := Extent(src.format.width), Extent(src.format.height);
    Layout24(src.format);
    forall x: int, y: int, c: int | 0 <= x < w && 0 <= y < h && 0 <= c < 3
      ensures SwapByte(mid)(x, y, c) == At(src.data, 3 * w * y + 3 * x + c)
    {
      SwapBack(src, mid, x, y, c);
    }
    ImageOfBuffer(3, w, h, src.data, SwapByte(mid));
  }

  /** `swapRgb(swap)` applied twice with the same flag gives back the frame. */
  lemma SwappedIfTwice(src: Frame, swap: bool)
    requires Adjustable(src.format.fourcc) && WellFormed(src)
    ensures SwappedIf(SwappedIf(src, swap), swap) == src
  {
    if swap {
      SwapTwiceRestores(src);
    }
  }


  lemma SwapBack(src: Frame, mid: Frame, x: int, y: int, c: int)
    requires Adjustable(src.format.fourcc) && mid == Swapped(src)
    requires 0 <= x < Extent(src.format.width) && 0 <= y < Extent(src.format.height) && 0 <= c < 3
    ensures SwapAt(mid, x, y, c) == At(src.data, 3 * Extent(src.format.width) * y + 3 * x + c)
  {
    Layout24(src.format);
    ImageAt(3, Extent(src.format.width), Extent(src.format.height), SwapByte(src), x, y, 2 - c);
  }

  /**
   * `bgr24_to_rgb24` moves the same bytes as `swapRgb`: the two differ
   * only in the fourcc of the result.
   */
  lemma SwapIsRgb24Conversion(src: Frame)
    requires src.format.fourcc == PixelFormatBGR24
    ensures ConvertDefined(src, PixelFormatRGB24)
    ensures Converted(src, PixelFormatRGB24) == Swapped(src).(format := src.format.(fourcc := PixelFormatRGB24))
  {
    ConvertedRoutine(src, PixelFormatRGB24);
    SwapIsPixelConversion(src);
  }

  lemma SwapIsPixelConversion(src: Frame)
    requires src.format.fourcc == PixelFormatBGR24
    ensures PixelConverted(src, PixelFormatRGB24) == Swapped(src).(format := src.format.(fourcc := PixelFormatRGB24))
  {
    var w, h := Extent(src.format.width), Extent(src.format.height);
    forall x: int, y: int, c: int | 0 <= x < w && 0 <= y < h && 0 <= c < 3
      ensures PixelTargetByte(src, PixelFormatRGB24)(x, y, c) == SwapByte(src)(x, y, c)
    {
      SwapByteIsConversion(src, x, y, c);
    }
    ImageExt(3, w, h, PixelTargetByte(src, PixelFormatRGB24), SwapByte(src));
    assert PixelBytes(PixelFormatRGB24) == 3;
  }

  lemma SwapByteIsConversion(src: Frame, x: int, y: int, c: int)
    requires src.format.fourcc == PixelFormatBGR24 && 0 <= c < 3
    ensures PixelTargetByte(src, PixelFormatRGB24)(x, y, c) == SwapAt(src, x, y, c)
  {
    var q := SourcePixel(src, x, y);
    assert EncodePixel(PixelFormatRGB24, q) == [q.b, q.g, q.r];
  }
}
