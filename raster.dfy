/**
 * Packed images: a plane of `h` rows of `w` pixels, each pixel `b`
 * consecutive bytes and no padding between rows. The byte `c` of the
 * pixel `(x, y)` lives at index `b * w * y + b * x + c`.
 */
module Raster {
  import opened Numeric

  /** A read of a buffer; a read outside it, undefined in C++, yields 0. */
  function At(data: seq<uint8>, i: int): uint8
  {
    if 0 <= i < |data| then data[i] else 0
  }

  /** Row `y` of a plane: byte `c` of pixel `x` is `f(x, y, c)`. */
  function Row(b: nat, w: nat, y: int, f: (int, int, int) -> uint8): (s: seq<uint8>)
    ensures |s| == b * w
  {
    seq(b * w, i requires 0 <= i < b * w => f(i / b, y, i % b))
  }

  /** The plane whose byte `c` of pixel `(x, y)` is `f(x, y, c)`: its rows, top to bottom. */
  function Image(b: nat, w: nat, h: nat, f: (int, int, int) -> uint8): (s: seq<uint8>)
    ensures |s| == b * w * h
  {
    if h == 0 then [] else Image(b, w, h - 1, f) + Row(b, w, h - 1, f)
  }

  /** A row of `d` bytes starting at `d * y` lies inside `d * h` bytes. */
  lemma RowInside(d: nat, h: nat, y: int, i: int)
    requires 0 <= y < h && 0 <= i < d
    ensures 0 <= d * y + i < d * h
  {
    assert d * h == d * y + d * (h - y);
    assert d * (h - y) >= d by {
      if h - y > 1 {
        assert d * (h - y) == d + d * (h - y - 1);
        if d > 0 { MulPos(d, h - y - 1); }
      }
    }
  }

  /** Whole rows: the end of row `y` is at most the end of the plane. */
  lemma RowEnd(d: nat, y: int, h: nat)
    requires 0 <= y < h
    ensures 0 <= d * y && d * y + d <= d * h
  {
    if d > 0 {
      RowInside(d, h, y, d - 1);
    }
  }

  /** Where the byte `c` of pixel `(x, y)` lies, and what it holds. */
  lemma {:induction false} ImageAt(b: nat, w: nat, h: nat, f: (int, int, int) -> uint8, x: int, y: int, c: int)
    requires 0 <= x < w && 0 <= y < h && 0 <= c < b
    ensures 0 <= b * w * y + b * x + c < b * w * h
    ensures Image(b, w, h, f)[b * w * y + b * x + c] == f(x, y, c)
  {
    assert 0 <= b * x + c < b * w by { RowInside(b, w, x, c); }
    RowInside(b * w, h, y, b * x + c);
    if y == h - 1 {
      DivModUnique(b * x + c, b, x, c);
      assert b * w * y + b * x + c - |Image(b, w, h - 1, f)| == b * x + c;
    } else {
      ImageAt(b, w, h - 1, f, x, y, c);
    }
  }

  /** The `b` bytes of pixel `(x, y)` lie inside the plane. */
  lemma PixelInside(b: nat, w: nat, h: nat, x: int, y: int)
    requires 0 <= x < w && 0 <= y < h
    ensures 0 <= b * w * y + b * x && b * w * y + b * x + b <= b * w * h
  {
    if b > 0 {
      ImageAt(b, w, h, (_, _, _) => 0, x, y, b - 1);
    }
  }

  /** Every index of a plane is the byte of exactly one pixel. */
  lemma ImageIndex(b: nat, w: nat, h: nat, k: int) returns (x: int, y: int, c: int)
    requires 0 <= k < b * w * h
    ensures 0 <= x < w && 0 <= y < h && 0 <= c < b
    ensures k == b * w * y + b * x + c
  {
    assert b * w != 0;
    y, c := k / (b * w), k % (b * w);
    x, c := c / b, c % b;
    assert k == b * w * y + (b * x + c);
  }

  /** Two planes agree when their pixel functions agree on every pixel. */
  lemma ImageExt(b: nat, w: nat, h: nat, f: (int, int, int) -> uint8, g: (int, int, int) -> uint8)
    requires forall x, y, c :: 0 <= x < w && 0 <= y < h && 0 <= c < b ==> f(x, y, c) == g(x, y, c)
    ensures Image(b, w, h, f) == Image(b, w, h, g)
  {
    var s, t := Image(b, w, h, f), Image(b, w, h, g);
    forall k | 0 <= k < |s|
      ensures s[k] == t[k]
    {
      var x, y, c := ImageIndex(b, w, h, k);
      ImageAt(b, w, h, f, x, y, c);
      ImageAt(b, w, h, g, x, y, c);
    }
  }

  /**
   * Pixel-by-pixel filling of a plane stored from `origin` on: the prefix
   * invariant of a row-major loop advances by one pixel when that pixel's
   * `b` bytes are written.
   */
  lemma PixelStep(b: nat, w: nat, h: nat, f: (int, int, int) -> uint8, img: seq<uint8>, x: int, y: int, base: int, origin: nat, buf: array<uint8>)
    requires img == Image(b, w, h, f)
    requires 0 <= x < w && 0 <= y < h && base == b * w * y + b * x
    requires origin + |img| <= buf.Length && 0 <= base && base + b <= |img|
    requires forall k :: 0 <= k < base ==> buf[origin + k] == img[k]
    requires forall c :: 0 <= c < b ==> buf[origin + base + c] == f(x, y, c)
    ensures forall k :: 0 <= k < base + b ==> buf[origin + k] == img[k]
  {
    forall k | 0 <= k < base + b
      ensures buf[origin + k] == img[k]
    {
      if k >= base {
        var c := k - base;
        assert buf[origin + base + c] == f(x, y, c);
        ImageAt(b, w, h, f, x, y, c);
      }
    }
  }

  /**
   * Row-by-row filling: the prefix invariant advances by one row when the
   * row's `b * w` bytes are written at once.
   */
  lemma RowStep(b: nat, w: nat, h: nat, f: (int, int, int) -> uint8, img: seq<uint8>, y: int, base: int, buf: array<uint8>)
    requires img == Image(b, w, h, f)
    requires 0 <= y < h && base == b * w * y
    requires |img| <= buf.Length && 0 <= base && base + b * w <= |img|
    requires forall k :: 0 <= k < base ==> buf[k] == img[k]
    requires forall i :: 0 <= i < b * w ==> buf[base + i] == f(i / b, y, i % b)
    ensures forall k :: 0 <= k < base + b * w ==> buf[k] == img[k]
  {
    forall k | base <= k < base + b * w
      ensures buf[k] == img[k]
    {
      var i := k - base;
      var x, _, c := ImageIndex(b, w, 1, i);
      DivModUnique(i, b, x, c);
      ImageAt(b, w, h, f, x, y, c);
    }
  }

  /** A buffer holding `s` from 0 and `t` from `|s|` on is their concatenation. */
  lemma SplitBuffer(buf: array<uint8>, s: seq<uint8>, t: seq<uint8>)
    requires buf.Length == |s| + |t|
    requires forall k :: 0 <= k < |s| ==> buf[k] == s[k]
    requires forall k :: 0 <= k < |t| ==> buf[|s| + k] == t[k]
    ensures buf[..] == s + t
  {
    forall k | 0 <= k < buf.Length
      ensures buf[k] == (s + t)[k]
    {
      if k >= |s| {
        assert buf[|s| + (k - |s|)] == t[k - |s|];
      }
    }
  }

  /** A buffer of the right length is the plane of its own bytes. */
  lemma ImageOfBuffer(b: nat, w: nat, h: nat, data: seq<uint8>, f: (int, int, int) -> uint8)
    requires |data| == b * w * h
    requires forall x, y, c :: 0 <= x < w && 0 <= y < h && 0 <= c < b ==> f(x, y, c) == At(data, b * w * y + b * x + c)
    ensures Image(b, w, h, f) == data
  {
    var s := Image(b, w, h, f);
    forall k | 0 <= k < |s|
      ensures s[k] == data[k]
    {
      var x, y, c := ImageIndex(b, w, h, k);
      ImageAt(b, w, h, f, x, y, c);
    }
  }

  /**
   * Skipping pixels `[x0, x1)` of row `y` whose bytes the plane holds as
   * zero, in a buffer that is still zero there, advances the prefix.
   */
  lemma {:induction false} ZeroPixels(b: nat, w: nat, h: nat, f: (int, int, int) -> uint8, img: seq<uint8>, y: int, x0: int, x1: int, buf: array<uint8>)
    requires img == Image(b, w, h, f)
    requires 0 <= y < h && 0 <= x0 <= x1 <= w && |img| <= buf.Length
    requires 0 <= b * w * y + b * x0 <= b * w * y + b * x1 <= |img|
    requires forall x, c :: x0 <= x < x1 && 0 <= c < b ==> f(x, y, c) == 0
    requires forall k :: 0 <= k < b * w * y + b * x0 ==> buf[k] == img[k]
    requires forall k :: b * w * y + b * x0 <= k < buf.Length ==> buf[k] == 0
    ensures forall k :: 0 <= k < b * w * y + b * x1 ==> buf[k] == img[k]
  {
    if x0 < x1 {
      var base := b * w * y + b * (x1 - 1);
      assert base + b == b * w * y + b * x1;
      assert b * w * y + b * x0 <= base by { MulMono(b, x0, x1 - 1); }
      ZeroPixels(b, w, h, f, img, y, x0, x1 - 1, buf);
      PixelStep(b, w, h, f, img, x1 - 1, y, base, 0, buf);
    }
  }

  /** Skipping whole rows `[y0, y1)` that the plane holds as zero. */
  lemma {:induction false} ZeroRows(b: nat, w: nat, h: nat, f: (int, int, int) -> uint8, img: seq<uint8>, y0: int, y1: int, buf: array<uint8>)
    requires img == Image(b, w, h, f)
    requires 0 <= y0 <= y1 <= h && |img| <= buf.Length
    requires 0 <= b * w * y0 <= b * w * y1 <= |img|
    requires forall x, y, c :: 0 <= x < w && y0 <= y < y1 && 0 <= c < b ==> f(x, y, c) == 0
    requires forall k :: 0 <= k < b * w * y0 ==> buf[k] == img[k]
    requires forall k :: b * w * y0 <= k < buf.Length ==> buf[k] == 0
    ensures forall k :: 0 <= k < b * w * y1 ==> buf[k] == img[k]
  {
    if y0 < y1 {
      assert b * w * (y1 - 1) + b * w == b * w * y1;
      assert b * w * y0 <= b * w * (y1 - 1) by { MulMono(b * w, y0, y1 - 1); }
      ZeroRows(b, w, h, f, img, y0, y1 - 1, buf);
      assert 0 <= b * w * (y1 - 1) + b * 0 <= b * w * (y1 - 1) + b * w <= |img|;
      ZeroPixels(b, w, h, f, img, y1 - 1, 0, w, buf);
    }
  }
}
