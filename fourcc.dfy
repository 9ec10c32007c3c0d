/**
 * Four-character codes and the pixel-format tags of the video engine
 * (VCamUtils/src/videoformattypes.h).
 */
module FourCC {

  /** A fourcc is an unsigned 32-bit integer. */
  type FourCC = bv32

  /**
   * The packing macro: the low byte of each argument, `a` in the most
   * significant byte and `d` in the least. The arguments are the values
   * after the macro's `uint32_t(...)` conversion.
   */
  function MkFourCC(a: bv32, b: bv32, c: bv32, d: bv32): (f: FourCC)
    ensures (f >> 24) & 0xff == a & 0xff
    ensures (f >> 16) & 0xff == b & 0xff
    ensures (f >> 8) & 0xff == c & 0xff
    ensures f & 0xff == d & 0xff
  {
    ((a & 0xff) << 24) | ((b & 0xff) << 16) | ((c & 0xff) << 8) | (d & 0xff)
  }

  /** Only the low eight bits of each argument reach the result. */
  lemma MkFourCCLowBytesOnly(a: bv32, b: bv32, c: bv32, d: bv32)
    ensures MkFourCC(a, b, c, d) == MkFourCC(a & 0xff, b & 0xff, c & 0xff, d & 0xff)
  {
  }

  /** A fourcc determines the four bytes it was packed from. */
  lemma MkFourCCInjective(a: bv32, b: bv32, c: bv32, d: bv32, a': bv32, b': bv32, c': bv32, d': bv32)
    requires a < 256 && b < 256 && c < 256 && d < 256
    requires a' < 256 && b' < 256 && c' < 256 && d' < 256
    requires MkFourCC(a, b, c, d) == MkFourCC(a', b', c', d')
    ensures a == a' && b == b' && c == c' && d == d'
  {
    assert MkFourCC(a, b, c, d) >> 24 == a;
  }

  /*
   * The PixelFormat enumeration. Each tag is written as the value the
   * packing macro gives it; PixelFormatTags proves the two agree.
   */
  const PixelFormatRGB32: FourCC := 0x5247_4220
  const PixelFormatRGB24: FourCC := 0x5247_4218
  const PixelFormatRGB16: FourCC := 0x5247_4210
  const PixelFormatRGB15: FourCC := 0x5247_420f
  const PixelFormatBGR32: FourCC := 0x4247_5220
  const PixelFormatBGR24: FourCC := 0x4247_5218
  const PixelFormatBGR16: FourCC := 0x4247_5210
  const PixelFormatBGR15: FourCC := 0x4247_520f
  const PixelFormatUYVY: FourCC := 0x5559_5659
  const PixelFormatYUY2: FourCC := 0x5955_5932
  const PixelFormatNV12: FourCC := 0x4e56_3132
  const PixelFormatNV21: FourCC := 0x4e56_3231

  /** The twelve tags, in declaration order. */
  const PixelFormats: seq<FourCC> := [
    PixelFormatRGB32, PixelFormatRGB24, PixelFormatRGB16, PixelFormatRGB15,
    PixelFormatBGR32, PixelFormatBGR24, PixelFormatBGR16, PixelFormatBGR15,
    PixelFormatUYVY, PixelFormatYUY2, PixelFormatNV12, PixelFormatNV21
  ]

  /** Each tag is the macro applied to its four characters. */
  lemma PixelFormatTags()
    ensures PixelFormatRGB32 == MkFourCC('R' as bv32, 'G' as bv32, 'B' as bv32, 32)
    ensures PixelFormatRGB24 == MkFourCC('R' as bv32, 'G' as bv32, 'B' as bv32, 24)
    ensures PixelFormatRGB16 == MkFourCC('R' as bv32, 'G' as bv32, 'B' as bv32, 16)
    ensures PixelFormatRGB15 == MkFourCC('R' as bv32, 'G' as bv32, 'B' as bv32, 15)
    ensures PixelFormatBGR32 == MkFourCC('B' as bv32, 'G' as bv32, 'R' as bv32, 32)
    ensures PixelFormatBGR24 == MkFourCC('B' as bv32, 'G' as bv32, 'R' as bv32, 24)
    ensures PixelFormatBGR16 == MkFourCC('B' as bv32, 'G' as bv32, 'R' as bv32, 16)
    ensures PixelFormatBGR15 == MkFourCC('B' as bv32, 'G' as bv32, 'R' as bv32, 15)
    ensures PixelFormatUYVY == MkFourCC('U' as bv32, 'Y' as bv32, 'V' as bv32, 'Y' as bv32)
    ensures PixelFormatYUY2 == MkFourCC('Y' as bv32, 'U' as bv32, 'Y' as bv32, '2' as bv32)
    ensures PixelFormatNV12 == MkFourCC('N' as bv32, 'V' as bv32, '1' as bv32, '2' as bv32)
    ensures PixelFormatNV21 == MkFourCC('N' as bv32, 'V' as bv32, '2' as bv32, '1' as bv32)
  {
    assert PixelFormatRGB32 == MkFourCC('R' as bv32, 'G' as bv32, 'B' as bv32, 32) by { ByteValues(); }
    assert PixelFormatRGB24 == MkFourCC('R' as bv32, 'G' as bv32, 'B' as bv32, 24) by { ByteValues(); }
    assert PixelFormatRGB16 == MkFourCC('R' as bv32, 'G' as bv32, 'B' as bv32, 16) by { ByteValues(); }
    assert PixelFormatRGB15 == MkFourCC('R' as bv32, 'G' as bv32, 'B' as bv32, 15) by { ByteValues(); }
    assert PixelFormatBGR32 == MkFourCC('B' as bv32, 'G' as bv32, 'R' as bv32, 32) by { ByteValues(); }
    assert PixelFormatBGR24 == MkFourCC('B' as bv32, 'G' as bv32, 'R' as bv32, 24) by { ByteValues(); }
    assert PixelFormatBGR16 == MkFourCC('B' as bv32, 'G' as bv32, 'R' as bv32, 16) by { ByteValues(); }
    assert PixelFormatBGR15 == MkFourCC('B' as bv32, 'G' as bv32, 'R' as bv32, 15) by { ByteValues(); }
    assert PixelFormatUYVY == MkFourCC('U' as bv32, 'Y' as bv32, 'V' as bv32, 'Y' as bv32) by { ByteValues(); }
    assert PixelFormatYUY2 == MkFourCC('Y' as bv32, 'U' as bv32, 'Y' as bv32, '2' as bv32) by { ByteValues(); }
    assert PixelFormatNV12 == MkFourCC('N' as bv32, 'V' as bv32, '1' as bv32, '2' as bv32) by { ByteValues(); }
    assert PixelFormatNV21 == MkFourCC('N' as bv32, 'V' as bv32, '2' as bv32, '1' as bv32) by { ByteValues(); }
  }

  lemma ByteValues()
    ensures 'R' as bv32 == 0x52 && 'G' as bv32 == 0x47 && 'B' as bv32 == 0x42
    ensures 'U' as bv32 == 0x55 && 'Y' as bv32 == 0x59 && 'V' as bv32 == 0x56
    ensures 'N' as bv32 == 0x4e && '1' as bv32 == 0x31 && '2' as bv32 == 0x32
  {
  }

  /**
   * The three high bytes of the RGB and BGR tags spell the channel order
   * and the low byte is the bit depth.
   */
  lemma ChannelTagBytes()
    ensures forall f :: f in [PixelFormatRGB32, PixelFormatRGB24, PixelFormatRGB16, PixelFormatRGB15] ==>
      (f >> 24) & 0xff == 'R' as bv32 && (f >> 16) & 0xff == 'G' as bv32 && (f >> 8) & 0xff == 'B' as bv32
    ensures forall f :: f in [PixelFormatBGR32, PixelFormatBGR24, PixelFormatBGR16, PixelFormatBGR15] ==>
      (f >> 24) & 0xff == 'B' as bv32 && (f >> 16) & 0xff == 'G' as bv32 && (f >> 8) & 0xff == 'R' as bv32
    ensures PixelFormatRGB32 & 0xff == 32 && PixelFormatRGB24 & 0xff == 24
      && PixelFormatRGB16 & 0xff == 16 && PixelFormatRGB15 & 0xff == 15
    ensures PixelFormatBGR32 & 0xff == 32 && PixelFormatBGR24 & 0xff == 24
      && PixelFormatBGR16 & 0xff == 16 && PixelFormatBGR15 & 0xff == 15
  {
    PixelFormatTags();
  }

  /** No two tags of the enumeration coincide. */
  lemma PixelFormatsDistinct()
    ensures |PixelFormats| == 12
    ensures forall i, j :: 0 <= i < j < |PixelFormats| ==> PixelFormats[i] != PixelFormats[j]
  {
  }
}
