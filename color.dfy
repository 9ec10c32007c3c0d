/**
 * The per-pixel colour arithmetic of VideoFramePrivate
 * (VCamUtils/src/videoframe.cpp): luma for grey scale, RGB to YUV, the
 * unused YUV to RGB inverses, and the integer HSL round trip.
 */
module Color {
  import opened Numeric

  /** `grayval`: `(11 r + 16 g + 5 b) >> 5`, an arithmetic shift. */
  function GrayVal(r: int, g: int, b: int): (v: int)
    ensures 0 <= r < 256 && 0 <= g < 256 && 0 <= b < 256 ==> 0 <= v <= 255
    ensures r == g == b ==> v == r
  {
    (11 * r + 16 * g + 5 * b) / 32
  }

  /** `rgb_y`: BT.601 studio-swing luma, cast to `uint8_t`. */
  function RgbY(r: int, g: int, b: int): (y: uint8)
    ensures 0 <= r < 256 && 0 <= g < 256 && 0 <= b < 256 ==>
      16 <= y <= 235 && y == (66 * r + 129 * g + 25 * b + 128) / 256 + 16
  {
    Wrap8((66 * r + 129 * g + 25 * b + 128) / 256 + 16)
  }

  /** `rgb_u`: blue-difference chroma, cast to `uint8_t`. */
  function RgbU(r: int, g: int, b: int): (u: uint8)
    ensures 0 <= r < 256 && 0 <= g < 256 && 0 <= b < 256 ==>
      16 <= u <= 240 && u == (-38 * r - 74 * g + 112 * b + 128) / 256 + 128
  {
    Wrap8((-38 * r - 74 * g + 112 * b + 128) / 256 + 128)
  }

  /** `rgb_v`: red-difference chroma, cast to `uint8_t`. */
  function RgbV(r: int, g: int, b: int): (v: uint8)
    ensures 0 <= r < 256 && 0 <= g < 256 && 0 <= b < 256 ==>
      16 <= v <= 240 && v == (112 * r - 94 * g - 18 * b + 128) / 256 + 128
  {
    Wrap8((112 * r - 94 * g - 18 * b + 128) / 256 + 128)
  }

  /** `yuv_r`: clamped before the cast, so the cast never wraps. */
  function YuvR(y: int, u: int, v: int): (r: uint8)
  {
    Wrap8(Bound(0, (298 * (y - 16) + 409 * (v - 128) + 128) / 256, 255))
  }

  /** `yuv_g`. */
  function YuvG(y: int, u: int, v: int): (g: uint8)
  {
    Wrap8(Bound(0, (298 * (y - 16) - 100 * (u - 128) - 208 * (v - 128) + 128) / 256, 255))
  }

  /** `yuv_b`. */
  function YuvB(y: int, u: int, v: int): (b: uint8)
  {
    Wrap8(Bound(0, (298 * (y - 16) + 516 * (u - 128) + 128) / 256, 255))
  }

  /**
   * A gray survives the trip into YUV and back to within one unit: its
   * chroma is neutral, and the three channels come back equal.
   */
  lemma GrayRoundTrip(g: uint8)
    ensures RgbU(g, g, g) == 128 && RgbV(g, g, g) == 128
    ensures var y := RgbY(g, g, g);
      YuvR(y, 128, 128) == YuvG(y, 128, 128) == YuvB(y, 128, 128)
      && -1 <= YuvR(y, 128, 128) as int - g as int <= 1
  {
    var y := RgbY(g, g, g);
    var q := (220 * g as int + 128) / 256;
    assert y as int == q + 16;
    var r := (298 * q + 128) / 256;
    assert 0 <= r <= 255;
    assert -1 <= r - g as int <= 1;
  }

  /** Hue in degrees, saturation and lightness, all integers. */
  datatype Hsl = Hsl(h: int, s: int, l: int)

  function Max3(a: int, b: int, c: int): int
  {
    if a >= b && a >= c then a else if b >= c then b else c
  }

  function Min3(a: int, b: int, c: int): int
  {
    if a <= b && a <= c then a else if b <= c then b else c
  }

  /** The divisor of the saturation formula. */
  function SaturationDivisor(max: int, min: int): int
  {
    255 - Abs(max + min - 255)
  }

  /** `rgbToHsl` on the channels of a pixel. */
  function RgbToHsl(r: uint8, g: uint8, b: uint8): (hsl: Hsl)
    ensures hsl.l == (Max3(r, g, b) + Min3(r, g, b)) / 2
    ensures Max3(r, g, b) == Min3(r, g, b) ==> hsl.h == 0 && hsl.s == 0
    ensures 0 <= hsl.h < 360 && 0 <= hsl.s <= 255 && 0 <= hsl.l <= 255
  {
    var max := Max3(r, g, b);
    var min := Min3(r, g, b);
    var c := max - min;
    var l := Quot(max + min, 2);
    if c == 0 then
      Hsl(0, 0, l)
    else
      var h := if max == r then Mod(g - b, 6 * c)
               else if max == g then b - r + 2 * c
               else r - g + 4 * c;
      assert 0 <= h < 6 * c;
      SaturationDivisorPositive(max, min);
      HueBound(h, c);
      SaturationBound(c, max, min);
      Hsl(Quot(60 * h, c), Quot(255 * c, SaturationDivisor(max, min)), l)
  }

  /** For distinct extremes of three bytes the saturation divisor is positive and bounds the chroma. */
  lemma SaturationDivisorPositive(max: int, min: int)
    requires 0 <= min < max <= 255
    ensures 0 < max - min <= SaturationDivisor(max, min)
  {
  }

  lemma HueBound(h: int, c: int)
    requires c > 0 && 0 <= h < 6 * c
    ensures 0 <= (60 * h) / c < 360
  {
    DivBelow(60 * h, c, 360);
  }

  lemma SaturationBound(c: int, max: int, min: int)
    requires 0 <= min < max <= 255 && c == max - min
    ensures 0 <= (255 * c) / SaturationDivisor(max, min) <= 255
  {
    var d := SaturationDivisor(max, min);
    SaturationDivisorPositive(max, min);
    assert 255 * c <= 255 * d;
    DivBelow(255 * c, d, 256);
  }

  /** `n < q * d` bounds the quotient below `q`. */
  lemma DivBelow(n: int, d: int, q: int)
    requires d > 0 && 0 <= n < q * d
    ensures 0 <= n / d < q
  {
  }

  lemma MulMono(d: int, a: int, b: int)
    requires d >= 0 && a <= b
    ensures d * a <= d * b
  {
    assert d * b == d * a + d * (b - a);
    if d > 0 && b - a > 0 {
      MulPos(d, b - a);
    }
  }

  /** The six hue sectors of `hslToRgb`; outside `[0, 360)` all channels are 0. */
  function HueSector(h: int, c: int, x: int): (rgb: (int, int, int))
    ensures 0 <= x <= c ==> 0 <= rgb.0 <= c && 0 <= rgb.1 <= c && 0 <= rgb.2 <= c
    ensures c == 0 && x == 0 ==> rgb == (0, 0, 0)
  {
    if 0 <= h < 60 then (c, x, 0)
    else if 60 <= h < 120 then (x, c, 0)
    else if 120 <= h < 180 then (0, c, x)
    else if 180 <= h < 240 then (0, x, c)
    else if 240 <= h < 300 then (x, 0, c)
    else if 300 <= h < 360 then (c, 0, x)
    else (0, 0, 0)
  }

  /** The chroma of `hslToRgb`: `s * (255 - |2 l - 255|) / 255`. */
  function Chroma(s: int, l: int): (c: int)
    ensures 0 <= s <= 255 && 0 <= l <= 255 ==> 0 <= c <= 2 * l && c + 2 * l <= 510
    ensures s == 0 ==> c == 0
  {
    var a := 255 - Abs(2 * l - 255);
    assert 0 <= s <= 255 && 0 <= l <= 255 ==> 0 <= (s * a) / 255 <= a by {
      if 0 <= s <= 255 && 0 <= l <= 255 {
        ScaleDown(a, s, 255);
      }
    }
    Quot(s * a, 255)
  }

  /** The secondary component of `hslToRgb`: `c * (60 - |h % 120 - 60|) / 60`. */
  function Secondary(h: int, c: int): (x: int)
    ensures 0 <= h && 0 <= c ==> 0 <= x <= c
    ensures c == 0 ==> x == 0
  {
    var k := 60 - Abs(Rem(h, 120) - 60);
    assert 0 <= h && 0 <= c ==> 0 <= (c * k) / 60 <= c by {
      if 0 <= h && 0 <= c {
        assert 0 <= k <= 60;
        ScaleDown(c, k, 60);
      }
    }
    Quot(c * k, 60)
  }

  /** A channel of `hslToRgb`: `(2 v + m) / 2` with `m = 2 l - c`. */
  function Blend(v: int, m: int): (r: int)
  {
    Quot(2 * v + m, 2)
  }

  /** `hslToRgb`, as integer channel values. */
  function HslToRgb(hsl: Hsl): (rgb: (int, int, int))
    ensures 0 <= hsl.h < 360 && 0 <= hsl.s <= 255 && 0 <= hsl.l <= 255 ==>
      0 <= rgb.0 <= 255 && 0 <= rgb.1 <= 255 && 0 <= rgb.2 <= 255
    ensures hsl.s == 0 && 0 <= hsl.l ==> rgb == (hsl.l, hsl.l, hsl.l)
  {
    var c := Chroma(hsl.s, hsl.l);
    var x := Secondary(hsl.h, c);
    var sector := HueSector(hsl.h, c, x);
    var m := 2 * hsl.l - c;
    assert 0 <= hsl.h < 360 && 0 <= hsl.s <= 255 && 0 <= hsl.l <= 255 ==>
      0 <= Blend(sector.0, m) <= 255 && 0 <= Blend(sector.1, m) <= 255 && 0 <= Blend(sector.2, m) <= 255 by {
      if 0 <= hsl.h < 360 && 0 <= hsl.s <= 255 && 0 <= hsl.l <= 255 {
        ChannelBound(sector.0, c, hsl.l);
        ChannelBound(sector.1, c, hsl.l);
        ChannelBound(sector.2, c, hsl.l);
      }
    }
    (Blend(sector.0, m), Blend(sector.1, m), Blend(sector.2, m))
  }

  /** A sector component between 0 and the chroma, offset by `m = 2 l - c`, is a byte. */
  lemma ChannelBound(v: int, c: int, l: int)
    requires 0 <= v <= c && c <= 2 * l && c + 2 * l <= 510
    ensures 0 <= Blend(v, 2 * l - c) <= 255
  {
  }

  /** Scaling `a` by `k / d` with `0 <= k <= d` stays within `[0, a]`. */
  lemma ScaleDown(a: int, k: int, d: int)
    requires 0 <= a && 0 <= k <= d && d > 0
    ensures 0 <= a * k && 0 <= k * a && a * k == k * a
    ensures 0 <= (a * k) / d <= a && (k * a) / d == (a * k) / d
  {
    MulMono(a, k, d);
    MulMono(a, 0, k);
    assert a * d < (a + 1) * d;
    DivBelow(a * k, d, a + 1);
  }
}
