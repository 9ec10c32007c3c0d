/**
 * `VideoFrame::convert`: the identity for the frame's own format, the
 * first registered routine for a known pair, and an empty frame otherwise.
 */
module Conversion {
  import opened Numeric
  import opened FourCC
  import opened Raster
  import opened Layout
  import opened Converters
  import opened Planar

  /**
   * The routines for `UYVY` and `YUY2` read a second pixel past the end of
   * an odd-width row; the model converts into them from even widths only.
   */
  predicate ConvertDefined(src: Frame, to: FourCC)
  {
    (IsPackedTarget(to) && src.format.fourcc != to && CanConvert(src.format.fourcc, to))
    ==> Extent(src.format.width) % 2 == 0
  }

  /** The frame `convert(to)` returns. */
  function Converted(src: Frame, to: FourCC): (dst: Frame)
    requires ConvertDefined(src, to)
  {
    if src.format.fourcc == to then src
    else match FindConverter(ConvertTable, src.format.fourcc, to)
      case None => EmptyFrame
      case Some(c) =>
        RegisteredPairs(c.from, c.to);
        TargetKinds(c.to);
        if IsPixelTarget(c.to) then PixelConverted(src, c.to)
        else if IsPackedTarget(c.to) then PackedConverted(src, c.to)
        else PlanarConverted(src, c.to)
  }

  /**
   * The frame `convert(to)` returns with the NV12/NV21 routines as written
   * (`PlanarAsWritten`, for frames no taller than wide); every other
   * target is dispatched as in `Converted`.
   */
  function ConvertedAsWritten(src: Frame, to: FourCC): (dst: Frame)
    requires ConvertDefined(src, to)
    requires IsPlanarTarget(to) && src.format.fourcc != to ==> Extent(src.format.height) <= Extent(src.format.width)
  {
    if IsPlanarTarget(to) && src.format.fourcc != to && FindConverter(ConvertTable, src.format.fourcc, to).Some? then
      PlanarAsWritten(src, to)
    else Converted(src, to)
  }

  /** The code as written and the corrected dispatch agree on every target but NV12 and NV21. */
  lemma ConvertedAsWrittenAgrees(src: Frame, to: FourCC)
    requires ConvertDefined(src, to) && (!IsPlanarTarget(to) || src.format.fourcc == to)
    ensures ConvertedAsWritten(src, to) == Converted(src, to)
  {
  }

  /**
   * Converting a frame at least two pixels wide into NV12 or NV21 as
   * written loses the second luma byte.
   */
  lemma ConvertedAsWrittenLosesLuma(src: Frame, to: FourCC)
    requires IsPlanarTarget(to) && Adjustable(src.format.fourcc)
    requires 2 <= Extent(src.format.width) && 1 <= Extent(src.format.height) <= Extent(src.format.width)
    ensures ConvertDefined(src, to)
    ensures 1 < |ConvertedAsWritten(src, to).data| && 1 < |Converted(src, to).data|
    ensures ConvertedAsWritten(src, to).data[1] == 0 && Converted(src, to).data[1] >= 16
  {
    RegisteredTargets(src.format.fourcc, to);
    FindRegistered(src.format.fourcc, to);
    ConvertedRoutine(src, to);
    PlanarAsWrittenLosesLuma(src, to);
  }

  /** `convert`: the search through the table, then the routine it finds. */
  method Convert(src: Frame, to: FourCC) returns (dst: Frame)
    requires ConvertDefined(src, to)
    ensures dst == Converted(src, to)
  {
    if src.format.fourcc == to {
      return src;
    }
    var converter: Option<VideoConvert> := None;
    var i := 0;
    while i < |ConvertTable|
      invariant 0 <= i <= |ConvertTable|
      invariant converter.None? ==> FindConverter(ConvertTable, src.format.fourcc, to) == FindConverter(ConvertTable[i..], src.format.fourcc, to)
      invariant converter.Some? ==> converter == FindConverter(ConvertTable, src.format.fourcc, to)
    {
      if ConvertTable[i].from == src.format.fourcc && ConvertTable[i].to == to {
        converter := Some(ConvertTable[i]);
        assert ConvertTable[i..][0] == ConvertTable[i];
        break;
      }
      assert ConvertTable[i..][1..] == ConvertTable[i + 1..];
      i := i + 1;
    }
    if converter.None? {
      return EmptyFrame;
    }
    var c := converter.value;
    RegisteredPairs(c.from, c.to);
    TargetKinds(c.to);
    if IsPixelTarget(c.to) {
      dst := ConvertPixels(src, c.to);
    } else if IsPackedTarget(c.to) {
      dst := ConvertPacked(src, c.to);
    } else {
      dst := ConvertPlanar(src, c.to);
    }
  }

  /** Converting into the frame's own format returns the frame unchanged. */
  lemma ConvertIdentity(src: Frame)
    ensures Converted(src, src.format.fourcc) == src
  {
  }

  /** A pair that `canConvert` rejects converts into the empty frame. */
  lemma ConvertRejects(src: Frame, to: FourCC)
    requires !CanConvert(src.format.fourcc, to)
    ensures ConvertDefined(src, to) && Converted(src, to) == EmptyFrame
  {
  }

  /** The routine `convert` runs for a registered pair, by the kind of its target. */
  lemma ConvertedRoutine(src: Frame, to: FourCC)
    requires src.format.fourcc != to && VideoConvert(src.format.fourcc, to) in ConvertTable
    requires IsPackedTarget(to) ==> Extent(src.format.width) % 2 == 0
    ensures ConvertDefined(src, to) && Adjustable(src.format.fourcc)
    ensures IsPixelTarget(to) ==> Converted(src, to) == PixelConverted(src, to)
    ensures IsPackedTarget(to) ==> Converted(src, to) == PackedConverted(src, to)
    ensures IsPlanarTarget(to) ==> Converted(src, to) == PlanarConverted(src, to)
  {
    FindRegistered(src.format.fourcc, to);
    RegisteredPairs(src.format.fourcc, to);
    TargetKinds(to);
  }

  /**
   * A registered conversion keeps the geometry, takes the target fourcc
   * and fills exactly the target format's buffer.
   */
  lemma ConvertShape(src: Frame, to: FourCC)
    requires ConvertDefined(src, to) && CanConvert(src.format.fourcc, to) && src.format.fourcc != to
    ensures Converted(src, to).format == src.format.(fourcc := to)
    ensures WellFormed(Converted(src, to))
  {
    ConvertedRoutine(src, to);
    var format := src.format.(fourcc := to);
    RegisteredPairs(src.format.fourcc, to);
    TargetKinds(to);
    if IsPixelTarget(to) {
      PackedLayout(format);
    } else if IsPackedTarget(to) {
      PackedLayout(format);
      assert PixelBytes(to) * Extent(format.width) == 4 * (Extent(format.width) / 2);
    } else {
      PlanarLayout(format);
    }
  }

  /**
   * `bgr24_to_rgb24` and `rgb24_to_bgr24` reverse the bytes of every
   * pixel, so converting there and back restores a well-formed frame.
   */
  lemma Rgb24RoundTrip(src: Frame)
    requires src.format.fourcc == PixelFormatBGR24 && WellFormed(src)
    ensures ConvertDefined(src, PixelFormatRGB24)
    ensures ConvertDefined(Converted(src, PixelFormatRGB24), PixelFormatBGR24)
    ensures Converted(Converted(src, PixelFormatRGB24), PixelFormatBGR24) == src
  {
    ConvertedRoutine(src, PixelFormatRGB24);
    var mid := PixelConverted(src, PixelFormatRGB24);
    ConvertedRoutine(mid, PixelFormatBGR24);
    SwapTwice(src);
  }

  /** The two per-pixel routines undo each other on a well-formed frame. */
  lemma SwapTwice(src: Frame)
    requires src.format.fourcc == PixelFormatBGR24 && WellFormed(src)
    ensures PixelConverted(PixelConverted(src, PixelFormatRGB24), PixelFormatBGR24) == src
  {
    var mid := PixelConverted(src, PixelFormatRGB24);
    var w, h := Extent(src.format.width), Extent(src.format.height);
    Layout24(src.format);
    forall x: int, y: int, c: int | 0 <= x < w && 0 <= y < h && 0 <= c < 3
      ensures PixelTargetByte(mid, PixelFormatBGR24)(x, y, c) == At(src.data, 3 * w * y + 3 * x + c)
    {
      SwapBackAt(src, mid, x, y, c);
    }
    ImageOfBuffer(3, w, h, src.data, PixelTargetByte(mid, PixelFormatBGR24));
  }

  /** One byte of the round trip above. */
  lemma SwapBackAt(src: Frame, mid: Frame, x: int, y: int, c: int)
    requires src.format.fourcc == PixelFormatBGR24 && mid == PixelConverted(src, PixelFormatRGB24)
    requires 0 <= x < Extent(src.format.width) && 0 <= y < Extent(src.format.height) && 0 <= c < 3
    ensures PixelTargetByte(mid, PixelFormatBGR24)(x, y, c)
      == At(src.data, 3 * Extent(src.format.width) * y + 3 * x + c)
  {
    var a := 3 * Extent(src.format.width) * y + 3 * x;
    var q := SourcePixel(src, x, y);
    MidPixel(src, mid, x, y);
    var p := SourcePixel(mid, x, y);
    assert p == Rgb(q.r, q.g, q.b);
    Layout24(src.format);
    assert q == Rgb(At(src.data, a), At(src.data, a + 1), At(src.data, a + 2));
    assert EncodePixel(PixelFormatBGR24, p) == [q.r, q.g, q.b];
  }

  /** `bgr24_to_rgb24` stores each pixel through the `RGB24` struct, which reads back the same colour. */
  lemma MidPixel(src: Frame, mid: Frame, x: int, y: int)
    requires src.format.fourcc == PixelFormatBGR24 && mid == PixelConverted(src, PixelFormatRGB24)
    requires 0 <= x < Extent(src.format.width) && 0 <= y < Extent(src.format.height)
    ensures SourcePixel(mid, x, y) == SourcePixel(src, x, y)
  {
    var w, h := Extent(src.format.width), Extent(src.format.height);
    var a := 3 * w * y + 3 * x;
    Layout24(mid.format);
    assert Pixel24Offset(mid.format, x, y) == a;
    var q := SourcePixel(src, x, y);
    var f := PixelTargetByte(src, PixelFormatRGB24);
    assert EncodePixel(PixelFormatRGB24, q) == [q.b, q.g, q.r];
    ImageAt(3, w, h, f, x, y, 0);
    ImageAt(3, w, h, f, x, y, 1);
    ImageAt(3, w, h, f, x, y, 2);
  }
}
