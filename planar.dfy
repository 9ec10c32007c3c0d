/**
 * The four routines `bgr24_to_nv12`, `bgr24_to_nv21`, `rgb24_to_nv12` and
 * `rgb24_to_nv21` of VideoFramePrivate: a full-resolution luma plane
 * followed by one interleaved chroma pair per 2x2 block, sampled at the
 * block's top-left pixel.
 */
module Planar {
  import opened Numeric
  import opened FourCC
  import opened Raster
  import opened Layout
  import opened Converters

  predicate IsPlanarTarget(to: FourCC)
  {
    to == PixelFormatNV12 || to == PixelFormatNV21
  }

  /** Every pixel format is the target of exactly one kind of routine. */
  lemma TargetKinds(to: FourCC)
    requires to in PixelFormats
    ensures IsPixelTarget(to) || IsPackedTarget(to) || IsPlanarTarget(to)
    ensures !(IsPixelTarget(to) && IsPackedTarget(to)) && !(IsPixelTarget(to) && IsPlanarTarget(to))
    ensures !(IsPackedTarget(to) && IsPlanarTarget(to))
  {
  }

  /** The chroma pair of `p`: `NV12` stores the struct `VU {v, u}`, `NV21` the struct `UV {u, v}`. */
  function ChromaPair(to: FourCC, p: Rgb): (pair: seq<uint8>)
    ensures |pair| == 2
  {
    if to == PixelFormatNV12 then [RedDiffOf(p), BlueDiffOf(p)] else [BlueDiffOf(p), RedDiffOf(p)]
  }

  function LumaAt(src: Frame, x: int, y: int): uint8
  {
    LumaOf(SourcePixel(src, x, y))
  }

  /** The luma plane: one byte per pixel. */
  function LumaByte(src: Frame): (int, int, int) -> uint8
  {
    (x, y, c) => LumaAt(src, x, y)
  }

  function ChromaAt(src: Frame, to: FourCC, i: int, j: int, c: int): uint8
  {
    At(ChromaPair(to, SourcePixel(src, 2 * i, 2 * j)), c)
  }

  /** The chroma plane: pair `(i, j)` belongs to the block whose top-left pixel is `(2 i, 2 j)`. */
  function ChromaByte(src: Frame, to: FourCC): (int, int, int) -> uint8
  {
    (i, j, c) => ChromaAt(src, to, i, j, c)
  }

  function LumaPlane(src: Frame): (s: seq<uint8>)
    ensures |s| == Extent(src.format.width) * Extent(src.format.height)
  {
    Image(1, Extent(src.format.width), Extent(src.format.height), LumaByte(src))
  }

  function ChromaPlane(src: Frame, to: FourCC): (s: seq<uint8>)
    ensures |s| == 2 * Half(src.format.width) * Half(src.format.height)
  {
    Image(2, Half(src.format.width), Half(src.format.height), ChromaByte(src, to))
  }

  /** The frame the routines produce, with the luma store at column `x`. */
  function PlanarConverted(src: Frame, to: FourCC): (dst: Frame)
  {
    Frame(src.format.(fourcc := to), LumaPlane(src) + ChromaPlane(src, to))
  }

  /**
   * The routines as written store the luma of pixel `(x, y)` at column `y`
   * of row `y` instead of column `x`; every pixel of the row overwrites the
   * same byte, so the last pixel's luma stays on the diagonal and the rest
   * of the plane keeps the zeros of the fresh frame. Stated for frames no
   * taller than wide, where the diagonal stays inside each row.
   */
  function LumaAsWrittenAt(src: Frame, x: int, y: int): uint8
  {
    if x == y then LumaAt(src, Extent(src.format.width) - 1, y) else 0
  }

  function LumaAsWritten(src: Frame): (s: seq<uint8>)
    ensures |s| == Extent(src.format.width) * Extent(src.format.height)
  {
    Image(1, Extent(src.format.width), Extent(src.format.height), (x, y, c) => LumaAsWrittenAt(src, x, y))
  }

  function PlanarAsWritten(src: Frame, to: FourCC): (dst: Frame)
    requires Extent(src.format.height) <= Extent(src.format.width)
  {
    Frame(src.format.(fourcc := to), LumaAsWritten(src) + ChromaPlane(src, to))
  }

  /**
   * The luma loop of the routines as written, on a zero-filled plane:
   * every pixel of row `y` stores its luma at `dst_line_y[y]`.
   */
  method StoreLumaAsWritten(src: Frame) returns (luma: seq<uint8>)
    requires Extent(src.format.height) <= Extent(src.format.width)
    ensures luma == LumaAsWritten(src)
  {
    var width, height := Extent(src.format.width), Extent(src.format.height);
    ghost var f := (x, y, c) => LumaAsWrittenAt(src, x, y);
    ghost var img := LumaAsWritten(src);
    var data := new uint8[width * height](_ => 0);
    for y := 0 to height
      invariant data.Length == |img| && width * y <= |img|
      invariant forall k :: 0 <= k < width * y ==> data[k] == img[k]
      invariant forall k :: width * y <= k < data.Length ==> data[k] == 0
    {
      RowEnd(width, y, height);
      var line := width * y;
      LumaRowAsWritten(src, data, y, line);
      assert forall i :: 0 <= i < 1 * width ==> data[line + i] == f(i / 1, y, i % 1);
      RowStep(1, width, height, f, img, y, line, data);
      assert width * (y + 1) == line + width;
    }
    luma := data[..];
  }

  /** The inner loop: every pixel of row `y` overwrites byte `y` of the row. */
  method LumaRowAsWritten(src: Frame, data: array<uint8>, y: int, line: int)
    requires 0 <= y < Extent(src.format.width) && 0 <= line && line + Extent(src.format.width) <= data.Length
    requires forall k :: line <= k < data.Length ==> data[k] == 0
    modifies data
    ensures forall k :: 0 <= k < line ==> data[k] == old(data[k])
    ensures forall k :: line <= k < data.Length && k != line + y ==> data[k] == 0
    ensures data[line + y] == LumaAt(src, Extent(src.format.width) - 1, y)
  {
    for x := 0 to Extent(src.format.width)
      invariant forall k :: 0 <= k < line ==> data[k] == old(data[k])
      invariant forall k :: line <= k < data.Length && k != line + y ==> data[k] == 0
      invariant data[line + y] == if x == 0 then 0 else LumaAt(src, x - 1, y)
    {
      data[line + y] := LumaAt(src, x, y);
    }
  }

  /**
   * Any frame at least two pixels wide shows the store at the wrong
   * column: its second luma byte is left 0, whereas BT.601 luma is never
   * below 16.
   */
  lemma PlanarAsWrittenLosesLuma(src: Frame, to: FourCC)
    requires 2 <= Extent(src.format.width) && 1 <= Extent(src.format.height) <= Extent(src.format.width)
    ensures 1 < |PlanarAsWritten(src, to).data| && 1 < |PlanarConverted(src, to).data|
    ensures PlanarAsWritten(src, to).data[1] == 0
    ensures PlanarConverted(src, to).data[1] == LumaAt(src, 1, 0) >= 16
  {
    var w, h := Extent(src.format.width), Extent(src.format.height);
    ImageAt(1, w, h, (x, y, c) => LumaAsWrittenAt(src, x, y), 1, 0, 0);
    ImageAt(1, w, h, LumaByte(src), 1, 0, 0);
  }

  /** Every byte of the luma plane is the luma of its own pixel. */
  lemma LumaPlaneAt(src: Frame, x: int, y: int)
    requires 0 <= x < Extent(src.format.width) && 0 <= y < Extent(src.format.height)
    ensures var w := Extent(src.format.width);
      0 <= w * y + x < |LumaPlane(src)| && LumaPlane(src)[w * y + x] == LumaAt(src, x, y)
  {
    ImageAt(1, Extent(src.format.width), Extent(src.format.height), LumaByte(src), x, y, 0);
  }

  /**
   * The chroma pair of the block at `(2 i, 2 j)` lies at `2 i` of chroma
   * row `j`, after the whole luma plane.
   */
  lemma ChromaPlaneAt(src: Frame, to: FourCC, i: int, j: int)
    requires IsPlanarTarget(to)
    requires 0 <= 2 * i < Extent(src.format.width) && 0 <= 2 * j < Extent(src.format.height)
    ensures var data, w, h := PlanarConverted(src, to).data, Extent(src.format.width), Extent(src.format.height);
      var base := w * h + 2 * Half(w) * j + 2 * i;
      0 <= base && base + 1 < |data| &&
      (to == PixelFormatNV12 ==>
        data[base] == RedDiffOf(SourcePixel(src, 2 * i, 2 * j)) && data[base + 1] == BlueDiffOf(SourcePixel(src, 2 * i, 2 * j))) &&
      (to == PixelFormatNV21 ==>
        data[base] == BlueDiffOf(SourcePixel(src, 2 * i, 2 * j)) && data[base + 1] == RedDiffOf(SourcePixel(src, 2 * i, 2 * j)))
  {
    var w, h := Extent(src.format.width), Extent(src.format.height);
    assert Half(src.format.width) == Half(w) && Half(src.format.height) == Half(h);
    ImageAt(2, Half(w), Half(h), ChromaByte(src, to), i, j, 0);
    ImageAt(2, Half(w), Half(h), ChromaByte(src, to), i, j, 1);
  }

  /**
   * The routines with the luma store at column `x`: one pass over the
   * pixels writes each luma byte, and the pixels with even `x` and even `y`
   * also write their block's chroma pair.
   */
  method ConvertPlanar(src: Frame, to: FourCC) returns (dst: Frame)
    requires Adjustable(src.format.fourcc) && IsPlanarTarget(to)
    ensures dst == PlanarConverted(src, to)
  {
    var format := src.format.(fourcc := to);
    var width, height := Extent(src.format.width), Extent(src.format.height);
    var cw := Half(width);
    PlanarLayout(format);
    ghost var luma, chroma := LumaPlane(src), ChromaPlane(src, to);
    var data := new uint8[Size(format)](_ => 0);
    ghost var done: nat := 0;
    for y := 0 to height
      invariant data.Length == |luma| + |chroma| && width * y <= |luma|
      invariant done == 2 * cw * ((y + 1) / 2) && done <= |chroma|
      invariant forall k :: 0 <= k < width * y ==> data[k] == luma[k]
      invariant forall k :: 0 <= k < done ==> data[|luma| + k] == chroma[k]
    {
      RowEnd(width, y, height);
      ChromaRows(cw, y);
      if y % 2 == 0 {
        RowEnd(2 * cw, y / 2, Half(height));
      }
      done := PlanarRow(src, to, data, y, luma, chroma, done);
      assert width * (y + 1) == width * y + width;
    }
    SplitBuffer(data, luma, chroma);
    dst := Frame(format, data[..]);
  }

  /**
   * One row of the loop above; `done` counts the chroma bytes written by
   * the rows before it.
   */
  method PlanarRow(src: Frame, to: FourCC, data: array<uint8>, y: int, ghost luma: seq<uint8>, ghost chroma: seq<uint8>, ghost done: nat)
      returns (ghost next: nat)
    requires Adjustable(src.format.fourcc) && IsPlanarTarget(to)
    requires 0 <= y < Extent(src.format.height)
    requires luma == LumaPlane(src) && chroma == ChromaPlane(src, to)
    requires data.Length == |luma| + |chroma|
    requires Extent(src.format.width) * y + Extent(src.format.width) <= |luma|
    requires y % 2 == 0 ==> done == 2 * Half(src.format.width) * (y / 2) && done + 2 * Half(src.format.width) <= |chroma|
    requires done <= |chroma|
    requires forall k :: 0 <= k < Extent(src.format.width) * y ==> data[k] == luma[k]
    requires forall k :: 0 <= k < done ==> data[|luma| + k] == chroma[k]
    modifies data
    ensures next == if y % 2 == 0 then done + 2 * Half(src.format.width) else done
    ensures forall k :: 0 <= k < Extent(src.format.width) * y + Extent(src.format.width) ==> data[k] == luma[k]
    ensures forall k :: 0 <= k < next ==> data[|luma| + k] == chroma[k]
  {
    var format := src.format.(fourcc := to);
    var width, height := Extent(src.format.width), Extent(src.format.height);
    var cw := Half(width);
    PlanarLayout(format);
    var lumaLine := Line(format, 0, y);
    var chromaLine := Line(format, 1, y / 2);
    assert lumaLine == width * y;
    assert y % 2 == 0 ==> chromaLine == |luma| + done;
    next := done;
    for x := 0 to width
      invariant width * y + x <= |luma|
      invariant y % 2 == 0 ==> next == done + x + x % 2
      invariant y % 2 != 0 ==> next == done
      invariant next <= |chroma|
      invariant forall k :: 0 <= k < width * y + x ==> data[k] == luma[k]
      invariant forall k :: 0 <= k < next ==> data[|luma| + k] == chroma[k]
    {
      next := PlanarPixel(src, to, data, x, y, lumaLine, chromaLine, luma, chroma, done, next);
    }
  }

  /** The body of the loop above: pixel `(x, y)`. */
  method PlanarPixel(src: Frame, to: FourCC, data: array<uint8>, x: int, y: int, lumaLine: int, chromaLine: int,
                     ghost luma: seq<uint8>, ghost chroma: seq<uint8>, ghost done: nat, ghost next: nat)
      returns (ghost next': nat)
    requires Adjustable(src.format.fourcc) && IsPlanarTarget(to)
    requires 0 <= x < Extent(src.format.width) && 0 <= y < Extent(src.format.height)
    requires luma == LumaPlane(src) && chroma == ChromaPlane(src, to)
    requires data.Length == |luma| + |chroma|
    requires lumaLine == Extent(src.format.width) * y && 0 <= lumaLine + x < |luma|
    requires y % 2 == 0 ==> chromaLine == |luma| + done && done == 2 * Half(src.format.width) * (y / 2)
    requires y % 2 == 0 ==> next == done + x + x % 2
    requires y % 2 != 0 ==> next == done
    requires next <= |chroma|
    requires forall k :: 0 <= k < lumaLine + x ==> data[k] == luma[k]
    requires forall k :: 0 <= k < next ==> data[|luma| + k] == chroma[k]
    modifies data
    ensures y % 2 == 0 ==> next' == done + (x + 1) + (x + 1) % 2
    ensures y % 2 != 0 ==> next' == done
    ensures next' <= |chroma|
    ensures forall k :: 0 <= k < lumaLine + x + 1 ==> data[k] == luma[k]
    ensures forall k :: 0 <= k < next' ==> data[|luma| + k] == chroma[k]
  {
    NextParity(x);
    var p := SourcePixel(src, x, y);
    LumaPlaneAt(src, x, y);
    data[lumaLine + x] := LumaOf(p);
    LumaStep(src, luma, x, y, data);
    next' := next;
    if x % 2 == 0 && y % 2 == 0 {
      assert 2 * (x / 2) == x && 2 * (y / 2) == y;
      PixelInside(2, Half(src.format.width), Half(src.format.height), x / 2, y / 2);
      assert chromaLine + 2 * (x / 2) == |luma| + next;
      ChromaPut(src, to, data, luma, chroma, x / 2, y / 2, chromaLine + 2 * (x / 2), next, p);
      next' := next + 2;
    }
  }

  /** `dst_line_vu[x / 2].v = …; dst_line_vu[x / 2].u = …`: the chroma pair of block `(i, j)`. */
  method ChromaPut(src: Frame, to: FourCC, data: array<uint8>, ghost luma: seq<uint8>, ghost chroma: seq<uint8>,
                   i: int, j: int, d: int, ghost base: nat, p: Rgb)
    requires luma == LumaPlane(src) && chroma == ChromaPlane(src, to)
    requires 0 <= i < Half(src.format.width) && 0 <= j < Half(src.format.height)
    requires base == 2 * Half(src.format.width) * j + 2 * i && d == |luma| + base
    requires data.Length == |luma| + |chroma| && base + 2 <= |chroma|
    requires p == SourcePixel(src, 2 * i, 2 * j)
    requires forall k :: 0 <= k < base ==> data[|luma| + k] == chroma[k]
    modifies data
    ensures forall k :: 0 <= k < base + 2 ==> data[|luma| + k] == chroma[k]
    ensures forall k :: 0 <= k < |luma| ==> data[k] == old(data[k])
  {
    var pair := ChromaPair(to, p);
    data[d] := pair[0];
    data[d + 1] := pair[1];
    ChromaStep(src, to, luma, chroma, i, j, base, pair, data);
  }

  /** Chroma rows are written by the even luma rows: `(y + 1) / 2` of them precede row `y`. */
  lemma ChromaRows(cw: nat, y: nat)
    ensures y % 2 == 0 ==> 2 * cw * ((y + 1) / 2) == 2 * cw * (y / 2) && 2 * cw * ((y + 2) / 2) == 2 * cw * (y / 2) + 2 * cw
    ensures y % 2 != 0 ==> 2 * cw * ((y + 2) / 2) == 2 * cw * ((y + 1) / 2)
  {
    if y % 2 == 0 {
      assert (y + 1) / 2 == y / 2 && (y + 2) / 2 == y / 2 + 1;
    } else {
      assert (y + 2) / 2 == (y + 1) / 2;
    }
  }

  lemma NextParity(x: int)
    ensures (x + 1) % 2 == 1 - x % 2
  {
  }

  /** Writing the luma of pixel `(x, y)` extends the luma prefix by one byte. */
  lemma LumaStep(src: Frame, luma: seq<uint8>, x: int, y: int, data: array<uint8>)
    requires luma == LumaPlane(src) && |luma| <= data.Length
    requires 0 <= x < Extent(src.format.width) && 0 <= y < Extent(src.format.height)
    requires 0 <= Extent(src.format.width) * y + x < |luma|
    requires forall k :: 0 <= k < Extent(src.format.width) * y + x ==> data[k] == luma[k]
    requires data[Extent(src.format.width) * y + x] == LumaAt(src, x, y)
    ensures forall k :: 0 <= k < Extent(src.format.width) * y + x + 1 ==> data[k] == luma[k]
  {
    var w, h := Extent(src.format.width), Extent(src.format.height);
    assert 1 * w * y + 1 * x == w * y + x;
    PixelStep(1, w, h, LumaByte(src), luma, x, y, w * y + x, 0, data);
  }

  /** Writing the chroma pair of block `(i, j)` extends the chroma prefix by two bytes. */
  lemma ChromaStep(src: Frame, to: FourCC, luma: seq<uint8>, chroma: seq<uint8>, i: int, j: int, base: int, pair: seq<uint8>, data: array<uint8>)
    requires luma == LumaPlane(src) && chroma == ChromaPlane(src, to)
    requires 0 <= i < Half(src.format.width) && 0 <= j < Half(src.format.height)
    requires base == 2 * Half(src.format.width) * j + 2 * i
    requires data.Length == |luma| + |chroma| && 0 <= base && base + 2 <= |chroma|
    requires pair == ChromaPair(to, SourcePixel(src, 2 * i, 2 * j))
    requires forall k :: 0 <= k < base ==> data[|luma| + k] == chroma[k]
    requires forall c :: 0 <= c < 2 ==> data[|luma| + base + c] == pair[c]
    ensures forall k :: 0 <= k < base + 2 ==> data[|luma| + k] == chroma[k]
  {
    var f := ChromaByte(src, to);
    assert forall c :: 0 <= c < 2 ==> data[|luma| + base + c] == f(i, j, c);
    PixelStep(2, Half(src.format.width), Half(src.format.height), f, chroma, i, j, base, |luma|, data);
  }
}
