/**
 * `VideoFrame::scaled(width, height, mode, aspectRatio)`: nearest or
 * linear resampling of a 24-bit frame into a destination rectangle whose
 * placement the aspect-ratio policy decides, all in integer arithmetic.
 * Pixels are read and written through the `RGB24` struct `{b, g, r}`.
 */
module Scale {
  import opened Numeric
  import opened FourCC
  import opened Raster
  import opened Layout

  datatype Scaling = ScalingFast | ScalingLinear

  datatype AspectRatio = AspectRatioIgnore | AspectRatioKeep | AspectRatioExpanding

  /** The destination rectangle `[xMin, xMax) × [yMin, yMax)` the loops fill. */
  datatype Box = Box(xMin: int, xMax: int, yMin: int, yMax: int)

  /** One axis of the mapping: offset `d` into the box reads source coordinate `(num * d + s) / den`. */
  datatype Axis = Axis(num: int, den: int, s: int)

  datatype Plan = Plan(box: Box, x: Axis, y: Axis)

  /** The out-parameters of `extrapolateUp` and `extrapolateDown`. */
  datatype Sample = Sample(srcMin: int, srcMax: int, kNum: int, kDen: int)

  /** Source and target sizes the model accepts: none negative. */
  predicate Sizes(iw: int, ih: int, width: int, height: int)
  {
    0 <= iw && 0 <= ih && 0 <= width && 0 <= height
  }

  /**
   * `xDstMin`, `xDstMax`, `yDstMin`, `yDstMax`: the whole target except
   * under `AspectRatioKeep`, which centres the largest box of the source's
   * proportions (black bars left and right, or above and below). The box
   * always lies inside the target.
   */
  function DstBox(iw: int, ih: int, width: int, height: int, aspect: AspectRatio): (box: Box)
    requires Sizes(iw, ih, width, height)
    ensures 0 <= box.xMin <= box.xMax <= width && 0 <= box.yMin <= box.yMax <= height
  {
    MulMono(iw, 0, height);
    MulMono(width, 0, ih);
    if aspect == AspectRatioKeep && width * ih > iw * height then
      BarBounds(width, ih, iw * height);
      Box(Quot(width * ih - iw * height, 2 * ih), Quot(width * ih + iw * height, 2 * ih), 0, height)
    else if aspect == AspectRatioKeep && width * ih < iw * height then
      BarBounds(height, iw, width * ih);
      assert height * iw == iw * height;
      Box(0, width, Quot(iw * height - width * ih, 2 * iw), Quot(iw * height + width * ih, 2 * iw))
    else
      Box(0, width, 0, height)
  }

  /**
   * The bars of a kept aspect ratio: with `small < n * d`, the interval
   * `[(n * d - small) / 2d, (n * d + small) / 2d]` lies inside `[0, n]`.
   */
  lemma BarBounds(n: int, d: int, small: int)
    requires 0 <= small < n * d && 0 <= n && 0 <= d
    ensures d > 0
    ensures Quot(n * d - small, 2 * d) == (n * d - small) / (2 * d)
    ensures Quot(n * d + small, 2 * d) == (n * d + small) / (2 * d)
    ensures 0 <= (n * d - small) / (2 * d) <= (n * d + small) / (2 * d) <= n
  {
    DivMono(n * d - small, n * d + small, 2 * d);
    assert 2 * d * n == 2 * (n * d);
    DivBetween(n * d + small, 2 * d, 0, n);
  }

  /** `n / d` lies in `[lo, hi]` when `n` lies in `[d * lo, d * hi]`. */
  lemma DivBetween(n: int, d: int, lo: int, hi: int)
    requires d > 0 && d * lo <= n <= d * hi
    ensures lo <= n / d <= hi
  {
    var q, r := n / d, n % d;
    assert n == d * q + r;
    assert d * (hi + 1) == d * hi + d;
    assert d * (q + 1) == d * q + d;
    if q > hi {
      MulMono(d, hi + 1, q);
    }
    if q < lo {
      MulMono(d, q + 1, lo);
    }
  }

  /** Division by a positive number is monotone. */
  lemma DivMono(a: int, b: int, d: int)
    requires 0 <= a <= b && d > 0
    ensures a / d <= b / d
  {
    var qa, qb := a / d, b / d;
    assert a == d * qa + a % d && b == d * qb + b % d;
    assert d * (qb + 1) == d * qb + d;
    if qa > qb {
      MulMono(d, qb + 1, qa);
    }
  }

  /**
   * The numerators, denominators and offsets of both axes. Under
   * `AspectRatioExpanding` the source is cropped to the target's
   * proportions; in linear mode the extents shrink by one first, which
   * the cropped axis sees and the other axis, already set, does not.
   */
  function ScalePlan(iw: int, ih: int, width: int, height: int, mode: Scaling, aspect: AspectRatio): (p: Plan)
    requires Sizes(iw, ih, width, height)
  {
    var box := DstBox(iw, ih, width, height, aspect);
    var iWidth, iHeight := iw - 1, ih - 1;
    var oWidth, oHeight := box.xMax - box.xMin - 1, box.yMax - box.yMin - 1;
    var x, y := Axis(iWidth, oWidth, 0), Axis(iHeight, oHeight, 0);
    if aspect != AspectRatioExpanding then Plan(box, x, y)
    else
      var shrink := if mode == ScalingLinear then 1 else 0;
      var iW, iH, oW, oH := iWidth - shrink, iHeight - shrink, oWidth - shrink, oHeight - shrink;
      if width * ih < iw * height then
        Plan(box, Axis(2 * iH, 2 * oH, iW * oH - oW * iH), y)
      else if width * ih > iw * height then
        Plan(box, x, Axis(2 * iW, 2 * oW, oW * iH - iW * oH))
      else
        Plan(box, x, y)
  }

  /** The source coordinate the fast mode samples for offset `d`. */
  function FastCoord(a: Axis, d: int): int
    requires a.den != 0
  {
    Quot(a.num * d + a.s, a.den)
  }

  /**
   * `extrapolateUp`: the two neighbouring source coordinates and the
   * weight `kNum / kDen` of the upper one.
   */
  function ExtrapolateUp(dstCoord: int, num: int, den: int, s: int): (r: Sample)
    requires den != 0 && num != 0
    ensures r.srcMax == r.srcMin + 1
    ensures 0 < num <= den && s == 0 && 0 <= dstCoord ==> 0 <= r.srcMin && 0 < r.kDen && 0 <= r.kNum <= r.kDen
  {
    UpWeights(dstCoord, num, den);
    var srcMin := Quot(num * dstCoord + s, den);
    var srcMax := srcMin + 1;
    var dstMin := Quot(den * srcMin - s, num);
    var dstMax := Quot(den * srcMax - s, num);
    Sample(srcMin, srcMax, dstCoord - dstMin, dstMax - dstMin)
  }

  /**
   * When the source extent `num` is at most the target extent `den`, the
   * source coordinate `q` of a target offset `d` and the target interval
   * `[lo, hi)` that `q` covers contain `d`, and the interval is not empty:
   * the weight `(d - lo) / (hi - lo)` lies in `[0, 1]`.
   */
  lemma UpWeights(d: int, num: int, den: int)
    ensures 0 < num <= den && 0 <= d ==>
      var q := (num * d) / den;
      var lo, hi := (den * q) / num, (den * (q + 1)) / num;
      0 <= q && 0 <= num * d && 0 <= den * q && 0 <= lo <= d <= hi && lo < hi
  {
    if 0 < num <= den && 0 <= d {
      var a := num * d;
      MulMono(num, 0, d);
      var q := a / den;
      DivParts(a, den);
      var b := den * q;
      MulMono(den, 0, q);
      var c := den * (q + 1);
      assert c == b + den;
      var lo, hi := b / num, c / num;
      DivParts(b, num);
      DivParts(c, num);
      var nlo, nhi := num * lo, num * hi;
      assert a + num == num * (d + 1);
      assert a - num == num * (d - 1);
      if hi < d {
        MulMono(num, hi, d - 1);
      }
      if lo >= hi {
        MulMono(num, hi, lo);
      }
    }
  }

  /** The quotient and remainder of a non-negative `n` by a positive `m`. */
  lemma DivParts(n: int, m: int)
    requires 0 <= n && 0 < m
    ensures 0 <= n / m && m * (n / m) <= n < m * (n / m) + m
  {
    DivBetween(n, m, 0, n);
  }

  /** `extrapolateDown`: one source coordinate, weighted fully. */
  function ExtrapolateDown(dstCoord: int, num: int, den: int, s: int): (r: Sample)
    requires den != 0
    ensures r.srcMin == r.srcMax && r.kNum == 0 && r.kDen == 1
  {
    var srcMin := Quot(num * dstCoord + s, den);
    Sample(srcMin, srcMin, 0, 1)
  }

  /** The divisors the routine chosen for an axis divides by are non-zero. */
  predicate Ready(a: Axis, up: bool)
  {
    a.den != 0 && (up ==> a.num != 0)
  }

  /** `extrapolateX` / `extrapolateY`: up when the target is larger along the axis. */
  function Extrapolate(up: bool, a: Axis, d: int): (r: Sample)
    requires Ready(a, up)
  {
    if up then ExtrapolateUp(d, a.num, a.den, a.s) else ExtrapolateDown(d, a.num, a.den, a.s)
  }

  /**
   * `extrapolateComponent`: `min + (max - min) * kNum / kDen` in integers.
   * For a weight in `[0, 1]` the value lies between the two endpoints.
   */
  function ExtrapolateComponent(min: uint8, max: uint8, kNum: int, kDen: int): (v: uint8)
    requires kDen != 0
    ensures kDen > 0 && 0 <= kNum <= kDen && min <= max ==> min <= v <= max
    ensures kDen > 0 && 0 <= kNum <= kDen && max <= min ==> max <= v <= min
    ensures kNum == 0 ==> v == min
    ensures kNum == kDen ==> v == max
  {
    var n := kNum * (max - min) + kDen * min;
    ComponentBetween(min, max, kNum, kDen);
    ComponentEnds(min, max, kNum, kDen);
    Wrap8(Quot(n, kDen))
  }

  lemma ComponentBetween(min: uint8, max: uint8, kNum: int, kDen: int)
    ensures var n := kNum * (max - min) + kDen * min;
      kDen > 0 && 0 <= kNum <= kDen ==>
        0 <= n && (min <= max ==> min <= n / kDen <= max) && (max <= min ==> max <= n / kDen <= min)
  {
    if kDen > 0 && 0 <= kNum <= kDen {
      if min <= max {
        RisingBetween(min, max, kNum, kDen);
      } else {
        FallingBetween(min, max, kNum, kDen);
      }
    }
  }

  lemma RisingBetween(min: uint8, max: uint8, kNum: int, kDen: int)
    requires kDen > 0 && 0 <= kNum <= kDen && min <= max
    ensures var n := kNum * (max - min) + kDen * min;
      0 <= n && min <= n / kDen <= max
  {
    var n := kNum * (max - min) + kDen * min;
    MulMono(max - min, 0, kNum);
    MulMono(max - min, kNum, kDen);
    assert kDen * max == kDen * (max - min) + kDen * min;
    MulMono(min, 0, kDen);
    DivBetween(n, kDen, min, max);
  }

  lemma FallingBetween(min: uint8, max: uint8, kNum: int, kDen: int)
    requires kDen > 0 && 0 <= kNum <= kDen && max < min
    ensures var n := kNum * (max - min) + kDen * min;
      0 <= n && max <= n / kDen <= min
  {
    var n := kNum * (max - min) + kDen * min;
    MulMono(min - max, 0, kNum);
    MulMono(min - max, kNum, kDen);
    assert kDen * max == kDen * min - kDen * (min - max);
    MulMono(max, 0, kDen);
    DivBetween(n, kDen, max, min);
  }

  lemma ComponentEnds(min: uint8, max: uint8, kNum: int, kDen: int)
    requires kDen != 0
    ensures kNum == 0 ==> Quot(kNum * (max - min) + kDen * min, kDen) == min
    ensures kNum == kDen ==> Quot(kNum * (max - min) + kDen * min, kDen) == max
  {
    if kNum == 0 {
      QuotMul(kDen, min);
    }
    if kNum == kDen {
      assert kNum * (max - min) + kDen * min == kDen * max;
      QuotMul(kDen, max);
    }
  }

  /** `(d * m) / d == m` under truncating division, for `m >= 0`. */
  lemma QuotMul(d: int, m: nat)
    requires d != 0
    ensures Quot(d * m, d) == m
  {
    if d > 0 {
      MulMono(d, 0, m);
      DivModUnique(d * m, d, m, 0);
    } else {
      assert Abs(d * m) == Abs(d) * m;
      DivModUnique(Abs(d) * m, Abs(d), m, 0);
    }
  }

  /** The three-argument `extrapolateColor`: component by component. */
  function ExtrapolateColor(lo: Rgb, hi: Rgb, kNum: int, kDen: int): (c: Rgb)
    requires kDen != 0
  {
    Rgb(ExtrapolateComponent(lo.r, hi.r, kNum, kDen),
        ExtrapolateComponent(lo.g, hi.g, kNum, kDen),
        ExtrapolateComponent(lo.b, hi.b, kNum, kDen))
  }

  /**
   * The eight-argument `extrapolateColor`: interpolation along x on the two
   * source rows, then along y between the two results.
   */
  function Bilinear(src: Frame, sx: Sample, sy: Sample): (c: Rgb)
    requires sx.kDen != 0 && sy.kDen != 0
  {
    var minLine := Line(src.format, 0, sy.srcMin);
    var maxLine := Line(src.format, 0, sy.srcMax);
    var colorMin := ExtrapolateColor(Rgb24At(src.data, minLine + 3 * sx.srcMin), Rgb24At(src.data, minLine + 3 * sx.srcMax), sx.kNum, sx.kDen);
    var colorMax := ExtrapolateColor(Rgb24At(src.data, maxLine + 3 * sx.srcMin), Rgb24At(src.data, maxLine + 3 * sx.srcMax), sx.kNum, sx.kDen);
    ExtrapolateColor(colorMin, colorMax, sy.kNum, sy.kDen)
  }

  /**
   * Byte `c` of target pixel `(x, y)`: zero outside the box, the sampled
   * source pixel inside it. (The zero results of the guards inside the box
   * are unreachable under `ScaleDefined`.)
   */
  function ScaledAt(src: Frame, p: Plan, mode: Scaling, upX: bool, upY: bool, x: int, y: int, c: int): uint8
  {
    if !(p.box.xMin <= x < p.box.xMax && p.box.yMin <= y < p.box.yMax) then 0
    else if mode == ScalingFast then
      if p.x.den == 0 || p.y.den == 0 then 0
      else At(src.data, Line(src.format, 0, FastCoord(p.y, y - p.box.yMin)) + 3 * FastCoord(p.x, x - p.box.xMin) + c)
    else if !Ready(p.x, upX) || !Ready(p.y, upY) then 0
    else
      var sx, sy := Extrapolate(upX, p.x, x - p.box.xMin), Extrapolate(upY, p.y, y - p.box.yMin);
      if sx.kDen == 0 || sy.kDen == 0 then 0 else Rgb24Byte(Bilinear(src, sx, sy), c)
  }

  function ScaledByte(src: Frame, p: Plan, mode: Scaling, upX: bool, upY: bool): (int, int, int) -> uint8
  {
    (x, y, c) => ScaledAt(src, p, mode, upX, upY, x, y, c)
  }

  /**
   * The frame `scaled(width, height, mode, aspectRatio)` builds when linear
   * mode extrapolates up along x exactly when `upX` holds, and along y
   * exactly when `upY` holds.
   */
  function ScaledBy(src: Frame, width: int, height: int, mode: Scaling, aspect: AspectRatio, upX: bool, upY: bool): (dst: Frame)
    requires Sizes(src.format.width, src.format.height, width, height)
  {
    if src.format.width == width && src.format.height == height then src
    else if !Adjustable(src.format.fourcc) then EmptyFrame
    else
      var p := ScalePlan(src.format.width, src.format.height, width, height, mode, aspect);
      var f := ScaledByte(src, p, mode, upX, upY);
      Frame(src.format.(width := width, height := height), Image(3, Extent(width), Extent(height), f))
  }

  /**
   * Linear mode extrapolates up along x when the box it fills is wider than
   * the source. The code compares the source with the whole target
   * instead, which differs under `AspectRatioKeep`; see `ScaledAsWritten`.
   */
  predicate UpX(iw: int, ih: int, width: int, height: int, aspect: AspectRatio)
    requires Sizes(iw, ih, width, height)
  {
    var box := DstBox(iw, ih, width, height, aspect);
    iw < box.xMax - box.xMin
  }

  /** The row counterpart of `UpX`. */
  predicate UpY(iw: int, ih: int, width: int, height: int, aspect: AspectRatio)
    requires Sizes(iw, ih, width, height)
  {
    var box := DstBox(iw, ih, width, height, aspect);
    ih < box.yMax - box.yMin
  }

  /** The frame `scaled(width, height, mode, aspectRatio)` returns, with the up/down choice made on the box. */
  function Scaled(src: Frame, width: int, height: int, mode: Scaling, aspect: AspectRatio): (dst: Frame)
    requires Sizes(src.format.width, src.format.height, width, height)
  {
    var iw, ih := src.format.width, src.format.height;
    ScaledBy(src, width, height, mode, aspect, UpX(iw, ih, width, height, aspect), UpY(iw, ih, width, height, aspect))
  }

  /** As written: extrapolate up when the whole target is larger than the source (videoframe.cpp:602-609). */
  function ScaledAsWritten(src: Frame, width: int, height: int, mode: Scaling, aspect: AspectRatio): (dst: Frame)
    requires Sizes(src.format.width, src.format.height, width, height)
  {
    ScaledBy(src, width, height, mode, aspect, src.format.width < width, src.format.height < height)
  }

  /** No divisor the sampling of offsets `[0, n)` along an axis uses is zero. */
  predicate AxisDefined(a: Axis, up: bool, n: int)
  {
    Ready(a, up) && forall d :: 0 <= d < n ==> Extrapolate(up, a, d).kDen != 0
  }

  /** No division the loops of the chosen mode perform is by zero. */
  predicate PlanDefined(p: Plan, mode: Scaling, upX: bool, upY: bool)
  {
    var rows, cols := p.box.yMin < p.box.yMax, p.box.xMin < p.box.xMax;
    if mode == ScalingFast then
      (rows ==> p.y.den != 0) && (rows && cols ==> p.x.den != 0)
    else
      (rows ==> AxisDefined(p.y, upY, p.box.yMax - p.box.yMin))
      && (rows && cols ==> AxisDefined(p.x, upX, p.box.xMax - p.box.xMin))
  }

  /** The inputs on which `ScaledBy` performs no division by zero. */
  predicate ScaleDefinedBy(src: Frame, width: int, height: int, mode: Scaling, aspect: AspectRatio, upX: bool, upY: bool)
  {
    Sizes(src.format.width, src.format.height, width, height)
    && ((src.format.width == width && src.format.height == height)
        || !Adjustable(src.format.fourcc)
        || PlanDefined(ScalePlan(src.format.width, src.format.height, width, height, mode, aspect), mode, upX, upY))
  }

  /** The inputs on which `Scaled` performs no division by zero. */
  predicate ScaleDefined(src: Frame, width: int, height: int, mode: Scaling, aspect: AspectRatio)
  {
    var iw, ih := src.format.width, src.format.height;
    Sizes(iw, ih, width, height)
    && ScaleDefinedBy(src, width, height, mode, aspect, UpX(iw, ih, width, height, aspect), UpY(iw, ih, width, height, aspect))
  }

  /** The inputs on which the code as written performs no division by zero. */
  predicate ScaleDefinedAsWritten(src: Frame, width: int, height: int, mode: Scaling, aspect: AspectRatio)
  {
    ScaleDefinedBy(src, width, height, mode, aspect, src.format.width < width, src.format.height < height)
  }

  /** `scaled(width, height, mode, aspectRatio)`. */
  method Scale(src: Frame, width: int, height: int, mode: Scaling, aspect: AspectRatio) returns (dst: Frame)
    requires ScaleDefined(src, width, height, mode, aspect)
    ensures dst == Scaled(src, width, height, mode, aspect)
  {
    if src.format.width == width && src.format.height == height {
      return src;
    }
    if !Adjustable(src.format.fourcc) {
      return EmptyFrame;
    }
    var p := ScalePlan(src.format.width, src.format.height, width, height, mode, aspect);
    var upX, upY := UpX(src.format.width, src.format.height, width, height, aspect), UpY(src.format.width, src.format.height, width, height, aspect);
    var format := src.format.(width := width, height := height);
    Layout24(format);
    var data := Render(src, p, mode, upX, upY, width, height);
    dst := Frame(format, data);
  }

  /** The destination buffer: `VideoFrame dst(format)`, then the box filled row by row. */
  method Render(src: Frame, p: Plan, mode: Scaling, upX: bool, upY: bool, w: nat, h: nat) returns (pixels: seq<uint8>)
    requires 0 <= p.box.xMin <= p.box.xMax <= w && 0 <= p.box.yMin <= p.box.yMax <= h
    requires PlanDefined(p, mode, upX, upY)
    ensures pixels == Image(3, w, h, ScaledByte(src, p, mode, upX, upY))
  {
    ghost var f := ScaledByte(src, p, mode, upX, upY);
    ghost var image := Image(3, w, h, f);
    var data := new uint8[3 * w * h](_ => 0);
    MulMono(3 * w, p.box.yMin, p.box.yMax);
    MulMono(3 * w, p.box.yMax, h);
    ZeroRows(3, w, h, f, image, 0, p.box.yMin, data);
    for y := p.box.yMin to p.box.yMax
      invariant 0 <= 3 * w * y <= data.Length == |image|
      invariant forall k :: 0 <= k < 3 * w * y ==> data[k] == image[k]
      invariant forall k :: 3 * w * y <= k < data.Length ==> data[k] == 0
    {
      RowEnd(3 * w, y, h);
      BoxRow(src, p, mode, upX, upY, w, h, data, y, 3 * w * y, f, image);
      assert 3 * w * (y + 1) == 3 * w * y + 3 * w;
    }
    ZeroRows(3, w, h, f, image, p.box.yMax, h, data);
    pixels := data[..];
  }

  /** One target row of the box, in the chosen mode. */
  method BoxRow(src: Frame, p: Plan, mode: Scaling, upX: bool, upY: bool, w: nat, h: nat, data: array<uint8>, y: int, dstLine: int,
                ghost f: (int, int, int) -> uint8, ghost image: seq<uint8>)
    requires 0 <= p.box.xMin <= p.box.xMax <= w && p.box.yMin <= y < p.box.yMax <= h && 0 <= y
    requires PlanDefined(p, mode, upX, upY)
    requires f == ScaledByte(src, p, mode, upX, upY) && image == Image(3, w, h, f) && data.Length == |image|
    requires dstLine == 3 * w * y && 0 <= dstLine && dstLine + 3 * w <= data.Length
    requires forall k :: 0 <= k < dstLine ==> data[k] == image[k]
    requires forall k :: dstLine <= k < data.Length ==> data[k] == 0
    modifies data
    ensures forall k :: 0 <= k < dstLine + 3 * w ==> data[k] == image[k]
    ensures forall k :: dstLine + 3 * w <= k < data.Length ==> data[k] == 0
  {
    if mode == ScalingFast {
      FastRow(src, p, upX, upY, w, h, data, y, dstLine, f, image);
    } else {
      LinearRow(src, p, upX, upY, w, h, data, y, dstLine, f, image);
    }
  }

  /** One target row in fast mode: `dstLine[x] = srcLine[srcX]` across the box. */
  method FastRow(src: Frame, p: Plan, upX: bool, upY: bool, w: nat, h: nat, data: array<uint8>, y: int, dstLine: int,
                 ghost f: (int, int, int) -> uint8, ghost image: seq<uint8>)
    requires 0 <= p.box.xMin <= p.box.xMax <= w && p.box.yMin <= y < p.box.yMax <= h && 0 <= y
    requires p.y.den != 0 && (p.box.xMin < p.box.xMax ==> p.x.den != 0)
    requires f == ScaledByte(src, p, ScalingFast, upX, upY) && image == Image(3, w, h, f) && data.Length == |image|
    requires dstLine == 3 * w * y && 0 <= dstLine && dstLine + 3 * w <= data.Length
    requires forall k :: 0 <= k < dstLine ==> data[k] == image[k]
    requires forall k :: dstLine <= k < data.Length ==> data[k] == 0
    modifies data
    ensures forall k :: 0 <= k < dstLine + 3 * w ==> data[k] == image[k]
    ensures forall k :: dstLine + 3 * w <= k < data.Length ==> data[k] == 0
  {
    var srcY := FastCoord(p.y, y - p.box.yMin);
    var srcLine := Line(src.format, 0, srcY);
    ZeroPixels(3, w, h, f, image, y, 0, p.box.xMin, data);
    for x := p.box.xMin to p.box.xMax
      invariant forall k :: 0 <= k < dstLine + 3 * x ==> data[k] == image[k]
      invariant forall k :: dstLine + 3 * x <= k < data.Length ==> data[k] == 0
    {
      var srcX := FastCoord(p.x, x - p.box.xMin);
      var s, d := srcLine + 3 * srcX, dstLine + 3 * x;
      data[d], data[d + 1], data[d + 2] := At(src.data, s), At(src.data, s + 1), At(src.data, s + 2);
      FastStep(src, p, upX, upY, w, h, f, image, x, y, d, s, data);
    }
    ZeroPixels(3, w, h, f, image, y, p.box.xMax, w, data);
  }

  lemma FastStep(src: Frame, p: Plan, upX: bool, upY: bool, w: nat, h: nat, f: (int, int, int) -> uint8, image: seq<uint8>,
                 x: int, y: int, base: int, s: int, data: array<uint8>)
    requires p.box.xMin <= x < p.box.xMax <= w && p.box.yMin <= y < p.box.yMax <= h && 0 <= x && 0 <= y
    requires p.x.den != 0 && p.y.den != 0
    requires f == ScaledByte(src, p, ScalingFast, upX, upY) && image == Image(3, w, h, f) && data.Length == |image|
    requires base == 3 * w * y + 3 * x && 0 <= base && base + 3 <= data.Length
    requires s == Line(src.format, 0, FastCoord(p.y, y - p.box.yMin)) + 3 * FastCoord(p.x, x - p.box.xMin)
    requires forall k :: 0 <= k < base ==> data[k] == image[k]
    requires data[base] == At(src.data, s) && data[base + 1] == At(src.data, s + 1) && data[base + 2] == At(src.data, s + 2)
    ensures forall k :: 0 <= k < base + 3 ==> data[k] == image[k]
  {
    assert forall c :: 0 <= c < 3 ==> data[base + c] == f(x, y, c);
    PixelStep(3, w, h, f, image, x, y, base, 0, data);
  }

  /** One target row in linear mode: every pixel interpolated from four source pixels. */
  method LinearRow(src: Frame, p: Plan, upX: bool, upY: bool, w: nat, h: nat, data: array<uint8>, y: int, dstLine: int,
                   ghost f: (int, int, int) -> uint8, ghost image: seq<uint8>)
    requires 0 <= p.box.xMin <= p.box.xMax <= w && p.box.yMin <= y < p.box.yMax <= h && 0 <= y
    requires PlanDefined(p, ScalingLinear, upX, upY)
    requires f == ScaledByte(src, p, ScalingLinear, upX, upY) && image == Image(3, w, h, f) && data.Length == |image|
    requires dstLine == 3 * w * y && 0 <= dstLine && dstLine + 3 * w <= data.Length
    requires forall k :: 0 <= k < dstLine ==> data[k] == image[k]
    requires forall k :: dstLine <= k < data.Length ==> data[k] == 0
    modifies data
    ensures forall k :: 0 <= k < dstLine + 3 * w ==> data[k] == image[k]
    ensures forall k :: dstLine + 3 * w <= k < data.Length ==> data[k] == 0
  {
    assert AxisDefined(p.y, upY, p.box.yMax - p.box.yMin);
    var sy := Extrapolate(upY, p.y, y - p.box.yMin);
    ZeroPixels(3, w, h, f, image, y, 0, p.box.xMin, data);
    for x := p.box.xMin to p.box.xMax
      invariant forall k :: 0 <= k < dstLine + 3 * x ==> data[k] == image[k]
      invariant forall k :: dstLine + 3 * x <= k < data.Length ==> data[k] == 0
    {
      assert AxisDefined(p.x, upX, p.box.xMax - p.box.xMin);
      var sx := Extrapolate(upX, p.x, x - p.box.xMin);
      var color := Bilinear(src, sx, sy);
      LinearPixel(src, p, upX, upY, f, x, y, sx, sy);
      PixelInside(3, w, h, x, y);
      PutPixel(w, h, data, x, y, dstLine + 3 * x, color, f, image);
    }
    ZeroPixels(3, w, h, f, image, y, p.box.xMax, w, data);
  }

  /** `dstLine[x] = color`: the three bytes of the `RGB24` struct. */
  method PutPixel(w: nat, h: nat, data: array<uint8>, x: int, y: int, d: int, color: Rgb,
                  ghost f: (int, int, int) -> uint8, ghost image: seq<uint8>)
    requires 0 <= x < w && 0 <= y < h && image == Image(3, w, h, f) && data.Length == |image|
    requires forall c :: 0 <= c < 3 ==> f(x, y, c) == Rgb24Byte(color, c)
    requires d == 3 * w * y + 3 * x && 0 <= d && d + 3 <= data.Length
    requires forall k :: 0 <= k < d ==> data[k] == image[k]
    requires forall k :: d <= k < data.Length ==> data[k] == 0
    modifies data
    ensures forall k :: 0 <= k < d + 3 ==> data[k] == image[k]
    ensures forall k :: d + 3 <= k < data.Length ==> data[k] == 0
  {
    data[d], data[d + 1], data[d + 2] := color.b, color.g, color.r;
    PixelStep(3, w, h, f, image, x, y, d, 0, data);
  }

  /** The pixel function of linear mode at a pixel inside the box. */
  lemma LinearPixel(src: Frame, p: Plan, upX: bool, upY: bool, f: (int, int, int) -> uint8, x: int, y: int, sx: Sample, sy: Sample)
    requires f == ScaledByte(src, p, ScalingLinear, upX, upY)
    requires p.box.xMin <= x < p.box.xMax && p.box.yMin <= y < p.box.yMax
    requires Ready(p.x, upX) && Ready(p.y, upY)
    requires sx == Extrapolate(upX, p.x, x - p.box.xMin) && sy == Extrapolate(upY, p.y, y - p.box.yMin)
    requires sx.kDen != 0 && sy.kDen != 0
    ensures forall c :: 0 <= c < 3 ==> f(x, y, c) == Rgb24Byte(Bilinear(src, sx, sy), c)
  {
    forall c | 0 <= c < 3
      ensures f(x, y, c) == Rgb24Byte(Bilinear(src, sx, sy), c)
    {
      LinearAt(src, p, upX, upY, x, y, c, sx, sy);
    }
  }

  /** Byte `c` of a pixel inside the box, in linear mode. */
  lemma LinearAt(src: Frame, p: Plan, upX: bool, upY: bool, x: int, y: int, c: int, sx: Sample, sy: Sample)
    requires p.box.xMin <= x < p.box.xMax && p.box.yMin <= y < p.box.yMax
    requires Ready(p.x, upX) && Ready(p.y, upY)
    requires sx == Extrapolate(upX, p.x, x - p.box.xMin) && sy == Extrapolate(upY, p.y, y - p.box.yMin)
    requires sx.kDen != 0 && sy.kDen != 0
    ensures ScaledAt(src, p, ScalingLinear, upX, upY, x, y, c) == Rgb24Byte(Bilinear(src, sx, sy), c)
  {
  }

  // Properties of the model.

  /** Scaling to the frame's own size returns it unchanged. */
  lemma ScaleSameSize(src: Frame, mode: Scaling, aspect: AspectRatio)
    requires Sizes(src.format.width, src.format.height, src.format.width, src.format.height)
    ensures ScaleDefined(src, src.format.width, src.format.height, mode, aspect)
    ensures Scaled(src, src.format.width, src.format.height, mode, aspect) == src
  {
  }

  /** A new size for a frame outside the adjustable formats gives the empty frame. */
  lemma ScaleRejects(src: Frame, width: int, height: int, mode: Scaling, aspect: AspectRatio)
    requires Sizes(src.format.width, src.format.height, width, height)
    requires (src.format.width, src.format.height) != (width, height) && !Adjustable(src.format.fourcc)
    ensures ScaleDefined(src, width, height, mode, aspect)
    ensures Scaled(src, width, height, mode, aspect) == EmptyFrame
  {
  }

  /**
   * Keeping the aspect ratio of a 4×2 frame in a 4×4 target fills rows 1
   * and 2 only, across the full width.
   */
  lemma KeepBoxExample()
    ensures DstBox(4, 2, 4, 4, AspectRatioKeep) == Box(0, 4, 1, 3)
  {
    assert Quot(8, 8) == 1 && Quot(24, 8) == 3;
  }

  /** Equal proportions leave the whole target to the copy under every policy. */
  lemma KeepSameProportions(iw: int, ih: int, width: int, height: int, aspect: AspectRatio)
    requires Sizes(iw, ih, width, height) && width * ih == iw * height
    ensures DstBox(iw, ih, width, height, aspect) == Box(0, width, 0, height)
  {
  }

  /** Byte `c` of a target pixel outside the box keeps the zero fill of `VideoFrame(format)`. */
  lemma ScaledOutsideBox(src: Frame, width: int, height: int, mode: Scaling, aspect: AspectRatio, p: Plan, x: int, y: int, c: int)
    requires Sizes(src.format.width, src.format.height, width, height)
    requires (src.format.width, src.format.height) != (width, height) && Adjustable(src.format.fourcc)
    requires p == ScalePlan(src.format.width, src.format.height, width, height, mode, aspect)
    requires 0 <= x < width && 0 <= y < height && 0 <= c < 3
    requires !(p.box.xMin <= x < p.box.xMax && p.box.yMin <= y < p.box.yMax)
    ensures 0 <= 3 * width * y + 3 * x + c < |Scaled(src, width, height, mode, aspect).data|
    ensures Scaled(src, width, height, mode, aspect).data[3 * width * y + 3 * x + c] == 0
  {
    var f := ScaledByte(src, p, mode, UpX(src.format.width, src.format.height, width, height, aspect), UpY(src.format.width, src.format.height, width, height, aspect));
    assert Scaled(src, width, height, mode, aspect).data == Image(3, width, height, f);
    ImageAt(3, width, height, f, x, y, c);
  }

  /** In fast mode, a target pixel inside the box is a copy of its sampled source pixel. */
  lemma ScaledFastPixel(src: Frame, width: int, height: int, aspect: AspectRatio, p: Plan, x: int, y: int, c: int)
    requires ScaleDefined(src, width, height, ScalingFast, aspect)
    requires (src.format.width, src.format.height) != (width, height) && Adjustable(src.format.fourcc)
    requires p == ScalePlan(src.format.width, src.format.height, width, height, ScalingFast, aspect)
    requires p.box.xMin <= x < p.box.xMax && p.box.yMin <= y < p.box.yMax && 0 <= c < 3
    ensures p.x.den != 0 && p.y.den != 0
    ensures 0 <= 3 * width * y + 3 * x + c < |Scaled(src, width, height, ScalingFast, aspect).data|
    ensures Scaled(src, width, height, ScalingFast, aspect).data[3 * width * y + 3 * x + c]
      == At(src.data, 3 * src.format.width * FastCoord(p.y, y - p.box.yMin) + 3 * FastCoord(p.x, x - p.box.xMin) + c)
  {
    var f := ScaledByte(src, p, ScalingFast, UpX(src.format.width, src.format.height, width, height, aspect), UpY(src.format.width, src.format.height, width, height, aspect));
    ScaledImage(src, width, height, ScalingFast, aspect);
    ImageAt(3, width, height, f, x, y, c);
    Layout24(src.format);
  }

  /**
   * Without cropping, and with at least two target columns in the box,
   * every column the fast mode samples lies inside the source.
   */
  lemma FastColumnInside(iw: int, ih: int, width: int, height: int, aspect: AspectRatio, x: int)
    requires Sizes(iw, ih, width, height) && aspect != AspectRatioExpanding && 1 <= iw
    requires var box := DstBox(iw, ih, width, height, aspect);
      box.xMax - box.xMin >= 2 && box.xMin <= x < box.xMax
    ensures var p := ScalePlan(iw, ih, width, height, ScalingFast, aspect);
      p.x.den > 0 && 0 <= FastCoord(p.x, x - p.box.xMin) < iw
  {
    var p := ScalePlan(iw, ih, width, height, ScalingFast, aspect);
    SampleInside(iw, p.x, x - p.box.xMin);
  }

  /** The row counterpart of the lemma above. */
  lemma FastRowInside(iw: int, ih: int, width: int, height: int, aspect: AspectRatio, y: int)
    requires Sizes(iw, ih, width, height) && aspect != AspectRatioExpanding && 1 <= ih
    requires var box := DstBox(iw, ih, width, height, aspect);
      box.yMax - box.yMin >= 2 && box.yMin <= y < box.yMax
    ensures var p := ScalePlan(iw, ih, width, height, ScalingFast, aspect);
      p.y.den > 0 && 0 <= FastCoord(p.y, y - p.box.yMin) < ih
  {
    var p := ScalePlan(iw, ih, width, height, ScalingFast, aspect);
    SampleInside(ih, p.y, y - p.box.yMin);
  }

  /** `(n - 1) * d / o` lies in `[0, n)` for `0 <= d <= o`. */
  lemma SampleInside(n: int, a: Axis, d: int)
    requires 1 <= n && a.num == n - 1 && a.s == 0 && a.den >= 1 && 0 <= d <= a.den
    ensures 0 <= FastCoord(a, d) < n
  {
    MulMono(n - 1, 0, d);
    MulMono(n - 1, d, a.den);
    assert a.den * (n - 1) == (n - 1) * a.den;
    DivBetween((n - 1) * d, a.den, 0, n - 1);
  }

  /**
   * As written, linear mode with a kept aspect ratio can divide by zero: a
   * 3×3 frame scaled to 4×2 keeps a box two columns wide, yet the x axis
   * extrapolates up because the whole target is wider than the source, and
   * the first column's weight denominator is zero. With the choice made on
   * the box the same call divides by nothing zero.
   */
  lemma KeepLinearUndefined(data: seq<uint8>)
    ensures var src := Frame(VideoFormat(PixelFormatBGR24, 3, 3), data);
      !ScaleDefinedAsWritten(src, 4, 2, ScalingLinear, AspectRatioKeep)
      && ScaleDefined(src, 4, 2, ScalingLinear, AspectRatioKeep)
  {
    var src := Frame(VideoFormat(PixelFormatBGR24, 3, 3), data);
    var p := ScalePlan(3, 3, 4, 2, ScalingLinear, AspectRatioKeep);
    assert Quot(6, 6) == 1 && Quot(18, 6) == 3;
    assert p.box == Box(1, 3, 0, 2) && p.x == Axis(2, 1, 0);
    assert Quot(0, 1) == 0 && Quot(0, 2) == 0 && Quot(1, 2) == 0;
    assert Extrapolate(true, p.x, 0).kDen == 0;
    LinearDefined(src, 4, 2, AspectRatioKeep);
  }

  /**
   * With the up/down choice made on the box, linear scaling without
   * cropping divides by zero nowhere once the source and the box span at
   * least two pixels along each axis.
   */
  lemma LinearDefined(src: Frame, width: int, height: int, aspect: AspectRatio)
    requires Sizes(src.format.width, src.format.height, width, height) && aspect != AspectRatioExpanding
    requires 2 <= src.format.width && 2 <= src.format.height
    requires var box := DstBox(src.format.width, src.format.height, width, height, aspect);
      2 <= box.xMax - box.xMin && 2 <= box.yMax - box.yMin
    ensures ScaleDefined(src, width, height, ScalingLinear, aspect)
  {
    var iw, ih := src.format.width, src.format.height;
    var p := ScalePlan(iw, ih, width, height, ScalingLinear, aspect);
    AxisSamples(p.x, UpX(iw, ih, width, height, aspect), p.box.xMax - p.box.xMin, iw);
    AxisSamples(p.y, UpY(iw, ih, width, height, aspect), p.box.yMax - p.box.yMin, ih);
  }

  /** An axis of `n >= 2` target pixels over `m >= 2` source pixels, extrapolated up exactly when `m < n`. */
  lemma AxisSamples(a: Axis, up: bool, n: int, m: int)
    requires a == Axis(m - 1, n - 1, 0) && 2 <= m && 2 <= n && (up <==> m < n)
    ensures AxisDefined(a, up, n)
  {
    forall d | 0 <= d < n
      ensures Extrapolate(up, a, d).kDen != 0
    {
    }
  }

  /** In linear mode, a target pixel inside the box is the bilinear mix of its sampled source pixels. */
  lemma ScaledLinearPixel(src: Frame, width: int, height: int, aspect: AspectRatio, p: Plan, x: int, y: int, c: int)
    requires ScaleDefined(src, width, height, ScalingLinear, aspect)
    requires (src.format.width, src.format.height) != (width, height) && Adjustable(src.format.fourcc)
    requires p == ScalePlan(src.format.width, src.format.height, width, height, ScalingLinear, aspect)
    requires p.box.xMin <= x < p.box.xMax && p.box.yMin <= y < p.box.yMax && 0 <= c < 3
    ensures var upX := UpX(src.format.width, src.format.height, width, height, aspect);
      var upY := UpY(src.format.width, src.format.height, width, height, aspect);
      Ready(p.x, upX) && Ready(p.y, upY)
      && var sx, sy := Extrapolate(upX, p.x, x - p.box.xMin), Extrapolate(upY, p.y, y - p.box.yMin);
      sx.kDen != 0 && sy.kDen != 0
      && 0 <= 3 * width * y + 3 * x + c < |Scaled(src, width, height, ScalingLinear, aspect).data|
      && Scaled(src, width, height, ScalingLinear, aspect).data[3 * width * y + 3 * x + c] == Rgb24Byte(Bilinear(src, sx, sy), c)
  {
    var upX := UpX(src.format.width, src.format.height, width, height, aspect);
    var upY := UpY(src.format.width, src.format.height, width, height, aspect);
    assert PlanDefined(p, ScalingLinear, upX, upY);
    ScaledImage(src, width, height, ScalingLinear, aspect);
    LinearImagePixel(src, p, upX, upY, width, height, x, y, c, Scaled(src, width, height, ScalingLinear, aspect).data);
  }

  /** `ScaledLinearPixel` for any plan whose box lies inside the `w × h` target. */
  lemma LinearImagePixel(src: Frame, p: Plan, upX: bool, upY: bool, w: nat, h: nat, x: int, y: int, c: int, data: seq<uint8>)
    requires data == Image(3, w, h, ScaledByte(src, p, ScalingLinear, upX, upY))
    requires PlanDefined(p, ScalingLinear, upX, upY) && p.box.xMax <= w && p.box.yMax <= h
    requires 0 <= p.box.xMin <= x < p.box.xMax && 0 <= p.box.yMin <= y < p.box.yMax && 0 <= c < 3
    ensures Ready(p.x, upX) && Ready(p.y, upY)
      && var sx, sy := Extrapolate(upX, p.x, x - p.box.xMin), Extrapolate(upY, p.y, y - p.box.yMin);
      sx.kDen != 0 && sy.kDen != 0
      && 0 <= 3 * w * y + 3 * x + c < |data|
      && data[3 * w * y + 3 * x + c] == Rgb24Byte(Bilinear(src, sx, sy), c)
  {
    LinearSamples(p, upX, upY, x, y);
    var sx, sy := Extrapolate(upX, p.x, x - p.box.xMin), Extrapolate(upY, p.y, y - p.box.yMin);
    ImageAt(3, w, h, ScaledByte(src, p, ScalingLinear, upX, upY), x, y, c);
    LinearAt(src, p, upX, upY, x, y, c, sx, sy);
  }

  /** The scaled frame of an adjustable frame given a new size is the image of `ScaledByte`. */
  lemma ScaledImage(src: Frame, width: int, height: int, mode: Scaling, aspect: AspectRatio)
    requires Sizes(src.format.width, src.format.height, width, height)
    requires (src.format.width, src.format.height) != (width, height) && Adjustable(src.format.fourcc)
    ensures var iw, ih := src.format.width, src.format.height;
      Scaled(src, width, height, mode, aspect).data
      == Image(3, width, height, ScaledByte(src, ScalePlan(iw, ih, width, height, mode, aspect), mode, UpX(iw, ih, width, height, aspect), UpY(iw, ih, width, height, aspect)))
  {
  }

  /** A box pixel of a defined linear plan has non-zero weight denominators on both axes. */
  lemma LinearSamples(p: Plan, upX: bool, upY: bool, x: int, y: int)
    requires PlanDefined(p, ScalingLinear, upX, upY)
    requires p.box.xMin <= x < p.box.xMax && p.box.yMin <= y < p.box.yMax
    ensures Ready(p.x, upX) && Ready(p.y, upY)
    ensures Extrapolate(upX, p.x, x - p.box.xMin).kDen != 0 && Extrapolate(upY, p.y, y - p.box.yMin).kDen != 0
  {
    assert AxisDefined(p.x, upX, p.box.xMax - p.box.xMin) && AxisDefined(p.y, upY, p.box.yMax - p.box.yMin);
  }

  /**
   * Downscaling without cropping: linear mode extrapolates down on both
   * axes, with weight 0, so it gives the same frame as fast mode.
   */
  lemma DownscaleLinearIsFast(src: Frame, width: int, height: int, aspect: AspectRatio)
    requires Sizes(src.format.width, src.format.height, width, height) && aspect != AspectRatioExpanding
    requires width <= src.format.width && height <= src.format.height
    ensures Scaled(src, width, height, ScalingLinear, aspect) == Scaled(src, width, height, ScalingFast, aspect)
  {
    var iw, ih := src.format.width, src.format.height;
    if (iw, ih) != (width, height) && Adjustable(src.format.fourcc) {
      assert !UpX(iw, ih, width, height, aspect) && !UpY(iw, ih, width, height, aspect);
      var p := ScalePlan(iw, ih, width, height, ScalingLinear, aspect);
      assert p == ScalePlan(iw, ih, width, height, ScalingFast, aspect);
      var f, g := ScaledByte(src, p, ScalingLinear, false, false), ScaledByte(src, p, ScalingFast, false, false);
      forall x, y, c | 0 <= x < width && 0 <= y < height && 0 <= c < 3
        ensures f(x, y, c) == g(x, y, c)
      {
        DownPixel(src, p, x, y, c);
      }
      ImageExt(3, width, height, f, g);
    }
  }

  /** One byte of a pixel when both axes extrapolate down. */
  lemma DownPixel(src: Frame, p: Plan, x: int, y: int, c: int)
    requires 0 <= c < 3
    ensures ScaledAt(src, p, ScalingLinear, false, false, x, y, c) == ScaledAt(src, p, ScalingFast, false, false, x, y, c)
  {
    if p.box.xMin <= x < p.box.xMax && p.box.yMin <= y < p.box.yMax && p.x.den != 0 && p.y.den != 0 {
      var fx, fy := FastCoord(p.x, x - p.box.xMin), FastCoord(p.y, y - p.box.yMin);
      var sx, sy := Extrapolate(false, p.x, x - p.box.xMin), Extrapolate(false, p.y, y - p.box.yMin);
      assert sx == Sample(fx, fx, 0, 1) && sy == Sample(fy, fy, 0, 1);
      var a := Rgb24At(src.data, Line(src.format, 0, fy) + 3 * fx);
      var lo := ExtrapolateColor(a, a, 0, 1);
      assert lo == a;
      assert Bilinear(src, sx, sy) == ExtrapolateColor(lo, lo, 0, 1);
      assert Rgb24Byte(a, c) == At(src.data, Line(src.format, 0, fy) + 3 * fx + c);
    }
  }

  /** The corrected choice differs from the code only under a kept aspect ratio. */
  lemma AsWrittenAgrees(src: Frame, width: int, height: int, mode: Scaling, aspect: AspectRatio)
    requires Sizes(src.format.width, src.format.height, width, height) && aspect != AspectRatioKeep
    ensures ScaledAsWritten(src, width, height, mode, aspect) == Scaled(src, width, height, mode, aspect)
    ensures ScaleDefinedAsWritten(src, width, height, mode, aspect) <==> ScaleDefined(src, width, height, mode, aspect)
  {
  }
}
