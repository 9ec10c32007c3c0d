/**
 * The colour adjustments of `VideoFrame` (VCamUtils/src/videoframe.cpp):
 * `adjustHsl`, `adjustGamma`, `adjustContrast`, `toGrayScale` and the
 * fused `adjust`. Each reads every pixel of a 24-bit frame through the
 * `RGB24` struct, maps its colour and writes the result through the same
 * struct into a new frame of the same format.
 */
module Adjust {
  import opened Numeric
  import opened Raster
  import opened Layout
  import opened Color
  import opened Tables

  /**
   * The HSL shift of `adjustHsl`: the hue turns modulo 360 with a
   * non-negative remainder, saturation and luminance are clamped to a byte.
   */
  function ShiftHsl(hsl: Hsl, hue: int, saturation: int, luminance: int): (a: Hsl)
    ensures 0 <= a.h < 360 && a.h == (hsl.h + hue) % 360
    ensures 0 <= a.s <= 255 && 0 <= a.l <= 255
    ensures 0 <= hsl.s + saturation <= 255 ==> a.s == hsl.s + saturation
    ensures 0 <= hsl.l + luminance <= 255 ==> a.l == hsl.l + luminance
    ensures hsl.s + saturation < 0 ==> a.s == 0
    ensures hsl.s + saturation > 255 ==> a.s == 255
    ensures hsl.l + luminance < 0 ==> a.l == 0
    ensures hsl.l + luminance > 255 ==> a.l == 255
  {
    Hsl(Mod(hsl.h + hue, 360), Bound(0, hsl.s + saturation, 255), Bound(0, hsl.l + luminance, 255))
  }

  /**
   * One pixel of `adjustHsl`. The channels `hslToRgb` computes from the
   * clamped HSL triple are bytes, so the `uint8_t` casts never wrap.
   */
  function HslPixel(p: Rgb, hue: int, saturation: int, luminance: int): (q: Rgb)
    ensures (q.r as int, q.g as int, q.b as int)
      == HslToRgb(ShiftHsl(RgbToHsl(p.r, p.g, p.b), hue, saturation, luminance))
  {
    var rgb := HslToRgb(ShiftHsl(RgbToHsl(p.r, p.g, p.b), hue, saturation, luminance));
    Rgb(Wrap8(rgb.0), Wrap8(rgb.1), Wrap8(rgb.2))
  }

  /** One pixel of `adjustGamma`: each channel looked up in the gamma table at the clamped level. */
  function GammaPixel(t: LookupTables, gamma: int, p: Rgb): Rgb
    requires ValidTables(t)
  {
    Rgb(t.gamma[TableIndex(gamma, p.r)], t.gamma[TableIndex(gamma, p.g)], t.gamma[TableIndex(gamma, p.b)])
  }

  /** One pixel of `adjustContrast`: the same lookup in the contrast table. */
  function ContrastPixel(t: LookupTables, contrast: int, p: Rgb): Rgb
    requires ValidTables(t)
  {
    Rgb(t.contrast[TableIndex(contrast, p.r)], t.contrast[TableIndex(contrast, p.g)], t.contrast[TableIndex(contrast, p.b)])
  }

  /** One pixel of `toGrayScale`: the luma of the colour in all three channels. */
  function GrayPixel(p: Rgb): (q: Rgb)
    ensures q.r == q.g == q.b && q.r as int == GrayVal(p.r, p.g, p.b)
  {
    var luma := Wrap8(GrayVal(p.r, p.g, p.b));
    Rgb(luma, luma, luma)
  }

  /**
   * One pixel of the fused `adjust`: the HSL shift when any of its three
   * amounts is non-zero, then the gamma lookup, then the contrast lookup,
   * each when its clamped level is non-zero, and the luma last.
   */
  function AdjustPixel(t: LookupTables, hue: int, saturation: int, luminance: int,
                       gamma: int, contrast: int, gray: bool, p: Rgb): Rgb
    requires ValidTables(t)
  {
    var p1 := if hue != 0 || saturation != 0 || luminance != 0 then HslPixel(p, hue, saturation, luminance) else p;
    var p2 := if Bound(-255, gamma, 255) != 0 then GammaPixel(t, gamma, p1) else p1;
    var p3 := if Bound(-255, contrast, 255) != 0 then ContrastPixel(t, contrast, p2) else p2;
    if gray then GrayPixel(p3) else p3
  }

  /** The pixel maps, as values the frame functions and methods share. */
  function HslMap(hue: int, saturation: int, luminance: int): Rgb -> Rgb
  {
    p => HslPixel(p, hue, saturation, luminance)
  }

  function GammaMap(t: LookupTables, gamma: int): Rgb -> Rgb
    requires ValidTables(t)
  {
    p => GammaPixel(t, gamma, p)
  }

  function ContrastMap(t: LookupTables, contrast: int): Rgb -> Rgb
    requires ValidTables(t)
  {
    p => ContrastPixel(t, contrast, p)
  }

  function GrayMap(): Rgb -> Rgb
  {
    p => GrayPixel(p)
  }

  function AdjustMap(t: LookupTables, hue: int, saturation: int, luminance: int,
                     gamma: int, contrast: int, gray: bool): Rgb -> Rgb
    requires ValidTables(t)
  {
    p => AdjustPixel(t, hue, saturation, luminance, gamma, contrast, gray, p)
  }

  /** Byte `c` of pixel `(x, y)` after mapping every pixel of `src` by `g`. */
  function RecolorByte(src: Frame, g: Rgb -> Rgb): (int, int, int) -> uint8
  {
    (x, y, c) => Rgb24Byte(g(Rgb24At(src.data, Pixel24Offset(src.format, x, y))), c)
  }

  /** The frame of the same format whose every pixel is `g` of the pixel of `src`. */
  function Recolored(src: Frame, g: Rgb -> Rgb): Frame
  {
    Frame(src.format, Image(3, Extent(src.format.width), Extent(src.format.height), RecolorByte(src, g)))
  }

  /** `adjustHsl(hue, saturation, luminance)`. */
  function AdjustedHsl(src: Frame, hue: int, saturation: int, luminance: int): Frame
  {
    if hue == 0 && saturation == 0 && luminance == 0 then src
    else if !Adjustable(src.format.fourcc) then EmptyFrame
    else Recolored(src, HslMap(hue, saturation, luminance))
  }

  /** `adjustGamma(gamma)`. */
  function AdjustedGamma(src: Frame, t: LookupTables, gamma: int): Frame
    requires ValidTables(t)
  {
    if gamma == 0 then src
    else if !Adjustable(src.format.fourcc) then EmptyFrame
    else Recolored(src, GammaMap(t, gamma))
  }

  /** `adjustContrast(contrast)`. */
  function AdjustedContrast(src: Frame, t: LookupTables, contrast: int): Frame
    requires ValidTables(t)
  {
    if contrast == 0 then src
    else if !Adjustable(src.format.fourcc) then EmptyFrame
    else Recolored(src, ContrastMap(t, contrast))
  }

  /** `toGrayScale()`: it has no shortcut that returns the frame itself. */
  function GrayScaled(src: Frame): Frame
  {
    if !Adjustable(src.format.fourcc) then EmptyFrame
    else Recolored(src, GrayMap())
  }

  /** `adjust(hue, saturation, luminance, gamma, contrast, gray)`. */
  function Adjusted(src: Frame, t: LookupTables, hue: int, saturation: int, luminance: int,
                    gamma: int, contrast: int, gray: bool): Frame
    requires ValidTables(t)
  {
    if hue == 0 && saturation == 0 && luminance == 0 && gamma == 0 && contrast == 0 && !gray then src
    else if !Adjustable(src.format.fourcc) then EmptyFrame
    else Recolored(src, AdjustMap(t, hue, saturation, luminance, gamma, contrast, gray))
  }

  /**
   * The loop every adjustment runs: a zero-filled frame of the source's
   * format, written row by row and pixel by pixel through the `RGB24` struct.
   */
  method Recolor(src: Frame, g: Rgb -> Rgb) returns (dst: Frame)
    requires Adjustable(src.format.fourcc)
    ensures dst == Recolored(src, g)
  {
    var format := src.format;
    var width, height := Extent(format.width), Extent(format.height);
    Layout24(format);
    ghost var image := Recolored(src, g).data;
    var data := new uint8[Size(format)](_ => 0);
    for y := 0 to height
      invariant 3 * width * y <= data.Length == |image|
      invariant forall k :: 0 <= k < 3 * width * y ==> data[k] == image[k]
    {
      RowEnd(3 * width, y, height);
      RecolorRow(src, g, data, y, image);
      assert 3 * width * (y + 1) == 3 * width * y + 3 * width;
    }
    dst := Frame(format, data[..]);
  }

  method RecolorRow(src: Frame, g: Rgb -> Rgb, data: array<uint8>, y: int, ghost image: seq<uint8>)
    requires Adjustable(src.format.fourcc) && 0 <= y < Extent(src.format.height)
    requires image == Recolored(src, g).data && data.Length == |image|
    requires 3 * Extent(src.format.width) * y + 3 * Extent(src.format.width) <= data.Length
    requires forall k :: 0 <= k < 3 * Extent(src.format.width) * y ==> data[k] == image[k]
    modifies data
    ensures forall k :: 0 <= k < 3 * Extent(src.format.width) * y + 3 * Extent(src.format.width) ==> data[k] == image[k]
  {
    var format := src.format;
    var width, height := Extent(format.width), Extent(format.height);
    Layout24(format);
    var line := Line(format, 0, y);
    assert line == 3 * width * y;
    for x := 0 to width
      invariant 3 * width * y + 3 * x <= data.Length
      invariant forall k :: 0 <= k < 3 * width * y + 3 * x ==> data[k] == image[k]
    {
      PixelInside(3, width, height, x, y);
      var q := g(Rgb24At(src.data, line + 3 * x));
      data[line + 3 * x] := q.b;
      data[line + 3 * x + 1] := q.g;
      data[line + 3 * x + 2] := q.r;
      RecolorStep(src, g, image, x, y, line + 3 * x, q, data);
    }
  }

  lemma RecolorStep(src: Frame, g: Rgb -> Rgb, image: seq<uint8>, x: int, y: int, base: int, q: Rgb, data: array<uint8>)
    requires Adjustable(src.format.fourcc) && image == Recolored(src, g).data
    requires 0 <= x < Extent(src.format.width) && 0 <= y < Extent(src.format.height)
    requires base == 3 * Extent(src.format.width) * y + 3 * x && data.Length == |image| && 0 <= base && base + 3 <= data.Length
    requires Pixel24Offset(src.format, x, y) == base && q == g(Rgb24At(src.data, base))
    requires forall k :: 0 <= k < base ==> data[k] == image[k]
    requires data[base] == q.b && data[base + 1] == q.g && data[base + 2] == q.r
    ensures forall k :: 0 <= k < base + 3 ==> data[k] == image[k]
  {
    var f := RecolorByte(src, g);
    assert forall c :: 0 <= c < 3 ==> data[base + c] == f(x, y, c);
    PixelStep(3, Extent(src.format.width), Extent(src.format.height), f, image, x, y, base, 0, data);
  }

  /** `adjustHsl`. */
  method AdjustHsl(src: Frame, hue: int, saturation: int, luminance: int) returns (dst: Frame)
    ensures dst == AdjustedHsl(src, hue, saturation, luminance)
  {
    if hue == 0 && saturation == 0 && luminance == 0 {
      return src;
    }
    if !Adjustable(src.format.fourcc) {
      return EmptyFrame;
    }
    dst := Recolor(src, HslMap(hue, saturation, luminance));
  }

  /** `adjustGamma`, with the shared gamma table as a parameter. */
  method AdjustGamma(src: Frame, t: LookupTables, gamma: int) returns (dst: Frame)
    requires ValidTables(t)
    ensures dst == AdjustedGamma(src, t, gamma)
  {
    if gamma == 0 {
      return src;
    }
    if !Adjustable(src.format.fourcc) {
      return EmptyFrame;
    }
    dst := Recolor(src, GammaMap(t, gamma));
  }

  /** `adjustContrast`, with the shared contrast table as a parameter. */
  method AdjustContrast(src: Frame, t: LookupTables, contrast: int) returns (dst: Frame)
    requires ValidTables(t)
    ensures dst == AdjustedContrast(src, t, contrast)
  {
    if contrast == 0 {
      return src;
    }
    if !Adjustable(src.format.fourcc) {
      return EmptyFrame;
    }
    dst := Recolor(src, ContrastMap(t, contrast));
  }

  /** `toGrayScale`. */
  method ToGrayScale(src: Frame) returns (dst: Frame)
    ensures dst == GrayScaled(src)
  {
    if !Adjustable(src.format.fourcc) {
      return EmptyFrame;
    }
    dst := Recolor(src, GrayMap());
  }

  /** `adjust`. */
  method AdjustFrame(src: Frame, t: LookupTables, hue: int, saturation: int, luminance: int,
                     gamma: int, contrast: int, gray: bool) returns (dst: Frame)
    requires ValidTables(t)
    ensures dst == Adjusted(src, t, hue, saturation, luminance, gamma, contrast, gray)
  {
    if hue == 0 && saturation == 0 && luminance == 0 && gamma == 0 && contrast == 0 && !gray {
      return src;
    }
    if !Adjustable(src.format.fourcc) {
      return EmptyFrame;
    }
    dst := Recolor(src, AdjustMap(t, hue, saturation, luminance, gamma, contrast, gray));
  }

  /** A recoloured frame is well formed, and its pixels read back as the mapped colours. */
  lemma RecoloredAt(src: Frame, g: Rgb -> Rgb, x: int, y: int)
    requires Adjustable(src.format.fourcc)
    requires 0 <= x < Extent(src.format.width) && 0 <= y < Extent(src.format.height)
    ensures WellFormed(Recolored(src, g))
    ensures Rgb24At(Recolored(src, g).data, Pixel24Offset(src.format, x, y))
      == g(Rgb24At(src.data, Pixel24Offset(src.format, x, y)))
  {
    var w, h := Extent(src.format.width), Extent(src.format.height);
    var f := RecolorByte(src, g);
    Layout24(src.format);
    ImageAt(3, w, h, f, x, y, 0);
    ImageAt(3, w, h, f, x, y, 1);
    ImageAt(3, w, h, f, x, y, 2);
  }

  /** Two pixel maps that agree on every colour recolour a frame alike. */
  lemma RecolorExt(src: Frame, g1: Rgb -> Rgb, g2: Rgb -> Rgb)
    requires forall p :: g1(p) == g2(p)
    ensures Recolored(src, g1) == Recolored(src, g2)
  {
    var w, h := Extent(src.format.width), Extent(src.format.height);
    forall x: int, y: int, c: int | 0 <= x < w && 0 <= y < h && 0 <= c < 3
      ensures RecolorByte(src, g1)(x, y, c) == RecolorByte(src, g2)(x, y, c)
    {
      var p := Rgb24At(src.data, Pixel24Offset(src.format, x, y));
      assert g1(p) == g2(p);
    }
    ImageExt(3, w, h, RecolorByte(src, g1), RecolorByte(src, g2));
  }

  /** Mapping every pixel to itself gives back a well-formed 24-bit frame. */
  lemma RecolorIdentity(src: Frame)
    requires Adjustable(src.format.fourcc) && WellFormed(src)
    ensures Recolored(src, p => p) == src
  {
    var w, h := Extent(src.format.width), Extent(src.format.height);
    var f := RecolorByte(src, p => p);
    Layout24(src.format);
    forall x: int, y: int, c: int | 0 <= x < w && 0 <= y < h && 0 <= c < 3
      ensures f(x, y, c) == At(src.data, 3 * w * y + 3 * x + c)
    {
      var a := Pixel24Offset(src.format, x, y);
      assert a == 3 * w * y + 3 * x;
      assert f(x, y, c) == Rgb24Byte(Rgb24At(src.data, a), c);
    }
    ImageOfBuffer(3, w, h, src.data, f);
  }

  /** Recolouring twice recolours once by the composed map. */
  lemma RecolorCompose(src: Frame, g1: Rgb -> Rgb, g2: Rgb -> Rgb)
    requires Adjustable(src.format.fourcc)
    ensures Recolored(Recolored(src, g1), g2) == Recolored(src, p => g2(g1(p)))
  {
    var w, h := Extent(src.format.width), Extent(src.format.height);
    var mid := Recolored(src, g1);
    forall x: int, y: int, c: int | 0 <= x < w && 0 <= y < h && 0 <= c < 3
      ensures RecolorByte(mid, g2)(x, y, c) == RecolorByte(src, p => g2(g1(p)))(x, y, c)
    {
      RecoloredAt(src, g1, x, y);
    }
    ImageExt(3, w, h, RecolorByte(mid, g2), RecolorByte(src, p => g2(g1(p))));
  }

  /** Every adjustment keeps the format and fills a well-formed buffer, or rejects the format. */
  lemma AdjustShape(src: Frame, t: LookupTables, hue: int, saturation: int, luminance: int,
                    gamma: int, contrast: int, gray: bool)
    requires ValidTables(t) && Adjustable(src.format.fourcc)
    requires hue != 0 || saturation != 0 || luminance != 0 || gamma != 0 || contrast != 0 || gray
    ensures Adjusted(src, t, hue, saturation, luminance, gamma, contrast, gray).format == src.format
    ensures WellFormed(Adjusted(src, t, hue, saturation, luminance, gamma, contrast, gray))
  {
    Layout24(src.format);
  }

  /** With nothing to do, each adjustment returns its input, whatever its format. */
  lemma AdjustNothing(src: Frame, t: LookupTables)
    requires ValidTables(t)
    ensures AdjustedHsl(src, 0, 0, 0) == src
    ensures AdjustedGamma(src, t, 0) == src && AdjustedContrast(src, t, 0) == src
    ensures Adjusted(src, t, 0, 0, 0, 0, 0, false) == src
  {
  }

  /** The formats other than the two 24-bit RGB ones are rejected with an empty frame. */
  lemma AdjustRejects(src: Frame, t: LookupTables, hue: int, saturation: int, luminance: int,
                      gamma: int, contrast: int, gray: bool)
    requires ValidTables(t) && !Adjustable(src.format.fourcc)
    ensures GrayScaled(src) == EmptyFrame
    ensures hue != 0 || saturation != 0 || luminance != 0 ==> AdjustedHsl(src, hue, saturation, luminance) == EmptyFrame
    ensures gamma != 0 ==> AdjustedGamma(src, t, gamma) == EmptyFrame
    ensures contrast != 0 ==> AdjustedContrast(src, t, contrast) == EmptyFrame
    ensures hue != 0 || saturation != 0 || luminance != 0 || gamma != 0 || contrast != 0 || gray
      ==> Adjusted(src, t, hue, saturation, luminance, gamma, contrast, gray) == EmptyFrame
  {
  }

  /** Every pixel of a grey-scale frame has three equal channels, the luma of the source pixel. */
  lemma GrayScaleUniform(src: Frame, x: int, y: int)
    requires Adjustable(src.format.fourcc)
    requires 0 <= x < Extent(src.format.width) && 0 <= y < Extent(src.format.height)
    ensures var p := Rgb24At(src.data, Pixel24Offset(src.format, x, y));
      var q := Rgb24At(GrayScaled(src).data, Pixel24Offset(src.format, x, y));
      q.r == q.g == q.b && q.r as int == GrayVal(p.r, p.g, p.b)
  {
    RecoloredAt(src, GrayMap(), x, y);
  }

  /** Converting to grey scale twice converts once. */
  lemma GrayScaleIdempotent(src: Frame)
    requires Adjustable(src.format.fourcc)
    ensures GrayScaled(GrayScaled(src)) == GrayScaled(src)
  {
    RecolorCompose(src, GrayMap(), GrayMap());
    RecolorExt(src, p => GrayMap()(GrayMap()(p)), GrayMap());
  }

  /** A hue rotation alone leaves a grey pixel unchanged: it has no saturation to turn. */
  lemma HueKeepsGray(p: Rgb, hue: int)
    requires p.r == p.g == p.b
    ensures HslPixel(p, hue, 0, 0) == p
  {
    var hsl := RgbToHsl(p.r, p.g, p.b);
    assert hsl.s == 0 && hsl.l == p.r as int;
  }

  /** The maps each single adjustment applies to a well-formed frame, the identity when it is off. */
  function HslStage(hue: int, saturation: int, luminance: int): Rgb -> Rgb
  {
    if hue == 0 && saturation == 0 && luminance == 0 then p => p else HslMap(hue, saturation, luminance)
  }

  function GammaStage(t: LookupTables, gamma: int): Rgb -> Rgb
    requires ValidTables(t)
  {
    if gamma == 0 then p => p else GammaMap(t, gamma)
  }

  function ContrastStage(t: LookupTables, contrast: int): Rgb -> Rgb
    requires ValidTables(t)
  {
    if contrast == 0 then p => p else ContrastMap(t, contrast)
  }

  /** On a well-formed 24-bit frame every single adjustment is a recolouring by its stage. */
  lemma Stages(src: Frame, t: LookupTables, hue: int, saturation: int, luminance: int, gamma: int, contrast: int)
    requires ValidTables(t) && Adjustable(src.format.fourcc) && WellFormed(src)
    ensures AdjustedHsl(src, hue, saturation, luminance) == Recolored(src, HslStage(hue, saturation, luminance))
    ensures AdjustedGamma(src, t, gamma) == Recolored(src, GammaStage(t, gamma))
    ensures AdjustedContrast(src, t, contrast) == Recolored(src, ContrastStage(t, contrast))
  {
    RecolorIdentity(src);
  }

  /**
   * The fused `adjust` is the single adjustments in their order: HSL,
   * gamma, contrast, then grey scale when asked for.
   */
  lemma {:induction false} AdjustIsComposition(src: Frame, t: LookupTables, hue: int, saturation: int, luminance: int,
                                               gamma: int, contrast: int, gray: bool)
    requires ValidTables(t) && Adjustable(src.format.fourcc) && WellFormed(src)
    ensures var staged := AdjustedContrast(AdjustedGamma(AdjustedHsl(src, hue, saturation, luminance), t, gamma), t, contrast);
      Adjusted(src, t, hue, saturation, luminance, gamma, contrast, gray)
        == if gray then GrayScaled(staged) else staged
  {
    var g1, g2, g3 := HslStage(hue, saturation, luminance), GammaStage(t, gamma), ContrastStage(t, contrast);
    Layout24(src.format);
    Stages(src, t, hue, saturation, luminance, gamma, contrast);
    var s1 := Recolored(src, g1);
    assert WellFormed(s1);
    Stages(s1, t, hue, saturation, luminance, gamma, contrast);
    RecolorCompose(src, g1, g2);
    var g12 := p => g2(g1(p));
    var s2 := Recolored(src, g12);
    assert WellFormed(s2);
    Stages(s2, t, hue, saturation, luminance, gamma, contrast);
    RecolorCompose(src, g12, g3);
    var g123 := p => g3(g12(p));
    var staged := Recolored(src, g123);
    assert AdjustedContrast(AdjustedGamma(AdjustedHsl(src, hue, saturation, luminance), t, gamma), t, contrast) == staged;
    var all := AdjustMap(t, hue, saturation, luminance, gamma, contrast, gray);
    if gray {
      RecolorCompose(src, g123, GrayMap());
      RecolorExt(src, all, p => GrayMap()(g123(p)));
    } else if hue == 0 && saturation == 0 && luminance == 0 && gamma == 0 && contrast == 0 {
      RecolorExt(src, p => p, g123);
      RecolorIdentity(src);
    } else {
      RecolorExt(src, all, g123);
    }
  }
}
