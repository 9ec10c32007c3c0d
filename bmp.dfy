/**
 * The minimal BMP decoder of `VideoFrame::load`
 * (VCamUtils/src/videoframe.cpp): the two-byte magic, the 12-byte file
 * header and the 40-byte image header, all little-endian, then the pixel
 * array of `sizeImage` bytes from `offBits` on, stored bottom-up with each
 * pixel's bytes in `BGR24`/`BGR32` struct order. The file is given as its
 * bytes; opening and reading it is not modelled.
 */
module Bmp {
  import opened Numeric
  import opened FourCC
  import opened Raster
  import opened Layout

  /** An unsigned 16- and 32-bit little-endian field; bytes past the end read as 0. */
  function Le16(file: seq<uint8>, i: int): (v: nat)
    ensures v < 0x1_0000
  {
    At(file, i) + 256 * At(file, i + 1)
  }

  function Le32(file: seq<uint8>, i: int): (v: nat)
    ensures v < 0x1_0000_0000
  {
    Le16(file, i) + 0x1_0000 * Le16(file, i + 2)
  }

  /** `int(u)` for a `uint32_t`: values from 2^31 on wrap to negative. */
  function Int32(u: nat): (r: int)
    ensures u < 0x8000_0000 ==> r == u
    ensures 0x8000_0000 <= u < 0x1_0000_0000 ==> r < 0
  {
    if u < 0x8000_0000 then u else u - 0x1_0000_0000
  }

  /** `BmpHeader`: the 12 bytes after the magic. */
  datatype FileHeader = FileHeader(size: nat, reserved1: nat, reserved2: nat, offBits: nat)

  /** `BmpImageHeader`: the 40 bytes after the file header. */
  datatype ImageHeader = ImageHeader(size: nat, width: nat, height: nat, planes: nat, bitCount: nat,
                                     compression: nat, sizeImage: nat, xPelsPerMeter: nat,
                                     yPelsPerMeter: nat, clrUsed: nat, clrImportant: nat)

  /** Where the file header and the image header start, and where the headers end. */
  const FileHeaderAt := 2
  const ImageHeaderAt := 14
  const HeadersEnd := 54

  predicate HasMagic(file: seq<uint8>)
  {
    At(file, 0) == 'B' as uint8 && At(file, 1) == 'M' as uint8
  }

  function ReadFileHeader(file: seq<uint8>): FileHeader
  {
    FileHeader(Le32(file, FileHeaderAt), Le16(file, FileHeaderAt + 4), Le16(file, FileHeaderAt + 6),
               Le32(file, FileHeaderAt + 8))
  }

  function ReadImageHeader(file: seq<uint8>): ImageHeader
  {
    var i := ImageHeaderAt;
    ImageHeader(Le32(file, i), Le32(file, i + 4), Le32(file, i + 8), Le16(file, i + 12), Le16(file, i + 14),
                Le32(file, i + 16), Le32(file, i + 20), Le32(file, i + 24), Le32(file, i + 28),
                Le32(file, i + 32), Le32(file, i + 36))
  }

  /** The frame format `load` builds from the image header. */
  function LoadFormat(image: ImageHeader): VideoFormat
  {
    VideoFormat(PixelFormatRGB24, Int32(image.width), Int32(image.height))
  }

  /**
   * The `sizeImage` bytes read from `offBits` into a zero-filled buffer.
   * A file that ends inside the headers leaves the stream failed, so the
   * seek and the read do nothing; a file that ends inside the pixel array
   * leaves the rest of the buffer zero.
   */
  function PixelArray(file: seq<uint8>, header: FileHeader, image: ImageHeader): (data: seq<uint8>)
    ensures |data| == image.sizeImage
  {
    seq<uint8>(image.sizeImage, i => StreamByte(file, header.offBits + i))
  }

  /** Byte `i` of the file as the pixel read sees it. */
  function StreamByte(file: seq<uint8>, i: int): uint8
  {
    if |file| >= HeadersEnd then At(file, i) else 0
  }

  /**
   * Byte `c` of pixel `(x, y)` of the loaded `RGB24` frame: byte `2 - c`
   * of pixel `x` of source row `h - 1 - y`, in rows of `depth` bytes per pixel.
   */
  function FlippedByte(pixels: seq<uint8>, depth: nat, w: nat, h: nat): (int, int, int) -> uint8
  {
    (x, y, c) => At(pixels, depth * w * (h - 1 - y) + depth * x + (2 - c))
  }

  /** What `load` does to the frame. */
  datatype LoadResult = Untouched | Cleared | Loaded(frame: Frame)

  /** The outcome of `load(fileName)` on the file's bytes, or on a file that does not open. */
  function Decode(fileName: string, file: Option<seq<uint8>>): (r: LoadResult)
    ensures fileName == [] || file.None? ==> r == Untouched
    ensures file.Some? && !HasMagic(file.value) ==> r == Untouched
    ensures r.Loaded? ==> r.frame.format.fourcc == PixelFormatRGB24 && WellFormed(r.frame)
    ensures r.Loaded? ==> r.frame.format.width > 0 && r.frame.format.height > 0
  {
    if fileName == [] || file.None? || !HasMagic(file.value) then Untouched
    else
      var header, image := ReadFileHeader(file.value), ReadImageHeader(file.value);
      var format := LoadFormat(image);
      if Size(format) < 1 then Untouched
      else if image.bitCount != 24 && image.bitCount != 32 then Cleared
      else
        var w, h := Extent(format.width), Extent(format.height);
        Layout24(format);
        Loaded(Frame(format, Image(3, w, h, FlippedByte(PixelArray(file.value, header, image), image.bitCount / 8, w, h))))
  }

  /**
   * The row-flipping loops of `load`: source row `y` of `depth` bytes per
   * pixel goes to destination row `h - 1 - y`, each pixel through the
   * `BGR24`/`BGR32` struct into the `RGB24` struct.
   */
  method FlipRows(pixels: seq<uint8>, depth: nat, w: nat, h: nat, buf: array<uint8>)
    requires depth == 3 || depth == 4
    requires buf.Length == 3 * w * h
    modifies buf
    ensures buf[..] == Image(3, w, h, FlippedByte(pixels, depth, w, h))
  {
    ghost var image := Image(3, w, h, FlippedByte(pixels, depth, w, h));
    for y := 0 to h
      invariant forall k :: 3 * w * (h - y) <= k < buf.Length ==> buf[k] == image[k]
    {
      var r := h - 1 - y;
      RowEnd(3 * w, r, h);
      assert 3 * w * r + 3 * w == 3 * w * (h - y);
      FlipRow(pixels, depth, w, h, buf, y, r, 3 * w * r, image);
      assert h - (y + 1) == r;
    }
    assert 3 * w * (h - h) == 0;
  }

  /** Source row `y` into destination row `r = h - 1 - y`, which starts at `lo`. */
  method FlipRow(pixels: seq<uint8>, depth: nat, w: nat, h: nat, buf: array<uint8>, y: int, r: int, lo: int, ghost image: seq<uint8>)
    requires depth == 3 || depth == 4
    requires 0 <= y < h && r == h - 1 - y && lo == 3 * w * r
    requires buf.Length == 3 * w * h && image == Image(3, w, h, FlippedByte(pixels, depth, w, h))
    requires 0 <= lo && lo + 3 * w <= buf.Length
    requires forall k :: lo + 3 * w <= k < buf.Length ==> buf[k] == image[k]
    modifies buf
    ensures forall k :: lo <= k < buf.Length ==> buf[k] == image[k]
  {
    var srcLine := depth * w * y;
    assert h - 1 - r == y;
    assert srcLine == depth * w * (h - 1 - r);
    for x := 0 to w
      invariant forall k :: lo <= k < lo + 3 * x ==> buf[k] == image[k]
      invariant forall k :: lo + 3 * w <= k < buf.Length ==> buf[k] == image[k]
    {
      var s := srcLine + depth * x;
      buf[lo + 3 * x] := At(pixels, s + 2);
      buf[lo + 3 * x + 1] := At(pixels, s + 1);
      buf[lo + 3 * x + 2] := At(pixels, s);
      FlipPixel(pixels, depth, w, h, image, x, r, lo + 3 * x, s, buf);
    }
  }

  lemma FlipPixel(pixels: seq<uint8>, depth: nat, w: nat, h: nat, image: seq<uint8>, x: int, r: int, d: int, s: int, buf: array<uint8>)
    requires image == Image(3, w, h, FlippedByte(pixels, depth, w, h))
    requires 0 <= x < w && 0 <= r < h && d == 3 * w * r + 3 * x && s == depth * w * (h - 1 - r) + depth * x
    requires buf.Length == |image|
    requires 0 <= d + 2 < buf.Length
    requires buf[d] == At(pixels, s + 2) && buf[d + 1] == At(pixels, s + 1) && buf[d + 2] == At(pixels, s)
    ensures buf[d] == image[d] && buf[d + 1] == image[d + 1] && buf[d + 2] == image[d + 2]
  {
    var f := FlippedByte(pixels, depth, w, h);
    ImageAt(3, w, h, f, x, r, 0);
    ImageAt(3, w, h, f, x, r, 1);
    ImageAt(3, w, h, f, x, r, 2);
  }

  /** The three outcomes of `load`, by the checks it makes in order. */
  lemma DecodeCases(fileName: string, file: Option<seq<uint8>>)
    ensures var r := Decode(fileName, file);
      (r.Untouched? <==>
        (fileName == [] || file.None? || !HasMagic(file.value) || Size(LoadFormat(ReadImageHeader(file.value))) < 1))
      && (r.Cleared? <==>
        (fileName != [] && file.Some? && HasMagic(file.value) && Size(LoadFormat(ReadImageHeader(file.value))) >= 1
         && ReadImageHeader(file.value).bitCount != 24 && ReadImageHeader(file.value).bitCount != 32))
  {
  }

  /**
   * A loaded frame is the pixel array with its rows in reverse order and
   * the first three bytes of every pixel reversed; the fourth byte of a
   * 32-bit pixel is dropped.
   */
  lemma LoadedPixel(fileName: string, file: Option<seq<uint8>>, x: int, y: int, c: int)
    requires Decode(fileName, file).Loaded?
    requires 0 <= x < Decode(fileName, file).frame.format.width
    requires 0 <= y < Decode(fileName, file).frame.format.height && 0 <= c < 3
    ensures var frame := Decode(fileName, file).frame;
      var image := ReadImageHeader(file.value);
      var w, h := frame.format.width, frame.format.height;
      var depth := image.bitCount / 8;
      (depth == 3 || depth == 4)
      && 0 <= 3 * w * (h - 1 - y) + 3 * x + c < |frame.data|
      && frame.data[3 * w * (h - 1 - y) + 3 * x + c]
         == At(PixelArray(file.value, ReadFileHeader(file.value), image), depth * w * y + depth * x + (2 - c))
  {
    var frame := Decode(fileName, file).frame;
    var image := ReadImageHeader(file.value);
    var w, h := Extent(frame.format.width), Extent(frame.format.height);
    var pixels := PixelArray(file.value, ReadFileHeader(file.value), image);
    var f := FlippedByte(pixels, image.bitCount / 8, w, h);
    assert frame.data == Image(3, w, h, f);
    var r := h - 1 - y;
    assert h - 1 - r == y;
    ImageAt(3, w, h, f, x, r, c);
  }

  /** The little-endian bytes of a 32-bit field. */
  function Le32Bytes(v: nat): (s: seq<uint8>)
    ensures |s| == 4
  {
    [v % 256, v / 0x100 % 256, v / 0x1_0000 % 256, v / 0x100_0000 % 256]
  }

  /**
   * A 24-bit BMP file of a frame, as a writer matching `load` produces it:
   * headers without a palette, then the rows bottom-up, each pixel in
   * `BGR24` struct order.
   */
  function EncodeBmp(frame: Frame): (file: seq<uint8>)
    requires frame.format.fourcc == PixelFormatRGB24 && WellFormed(frame)
    ensures |file| == HeadersEnd + |frame.data|
  {
    var w, h := Extent(frame.format.width), Extent(frame.format.height);
    Layout24(frame.format);
    BmpHeaders(|frame.data|, w, h) + Image(3, w, h, FlippedByte(frame.data, 3, w, h))
  }

  /** The magic and the two headers of a 24-bit file of `n` pixel bytes. */
  function BmpHeaders(n: nat, w: nat, h: nat): (headers: seq<uint8>)
    ensures |headers| == HeadersEnd
  {
    ['B' as uint8, 'M' as uint8] + Le32Bytes(HeadersEnd + n) + [0, 0, 0, 0] + Le32Bytes(HeadersEnd)
    + Le32Bytes(40) + Le32Bytes(w) + Le32Bytes(h) + [1, 0, 24, 0] + [0, 0, 0, 0] + Le32Bytes(n)
    + [0, 0, 0, 0, 0, 0, 0, 0, 0, 0, 0, 0, 0, 0, 0, 0]
  }

  /** A 32-bit field reads back from its little-endian bytes. */
  lemma Le32Read(file: seq<uint8>, i: int, v: nat)
    requires v < 0x1_0000_0000 && 0 <= i && i + 4 <= |file| && file[i..i + 4] == Le32Bytes(v)
    ensures Le32(file, i) == v
  {
    assert file[i] == file[i..i + 4][0] && file[i + 1] == file[i..i + 4][1];
    assert file[i + 2] == file[i..i + 4][2] && file[i + 3] == file[i..i + 4][3];
    Le32Digits(v);
  }

  /** The four base-256 digits of a 32-bit value add back up to it. */
  lemma Le32Digits(v: nat)
    requires v < 0x1_0000_0000
    ensures var b := Le32Bytes(v); b[0] as int + 256 * b[1] as int + 0x1_0000 * (b[2] as int + 256 * b[3] as int) == v
  {
    var q1, q2, q3 := v / 0x100, v / 0x1_0000, v / 0x100_0000;
    assert v == 256 * q1 + v % 256;
    assert q1 == 256 * (q1 / 256) + q1 % 256;
    DivModUnique(v, 0x1_0000, q1 / 256, 256 * (q1 % 256) + v % 256);
    assert q2 == 256 * (q2 / 256) + q2 % 256;
    DivModUnique(v, 0x100_0000, q2 / 256, 0x1_0000 * (q2 % 256) + v % 0x1_0000);
    assert q3 < 256;
  }

  /**
   * `load` decodes the file a 24-bit writer produces from a frame back into
   * that frame: the decoder is a left inverse of the encoder.
   */
  lemma {:induction false} DecodeEncode(fileName: string, frame: Frame)
    requires fileName != [] && frame.format.fourcc == PixelFormatRGB24 && WellFormed(frame)
    requires 0 < frame.format.width < 0x8000_0000 && 0 < frame.format.height < 0x8000_0000
    requires HeadersEnd + |frame.data| < 0x1_0000_0000
    ensures Decode(fileName, Some(EncodeBmp(frame))) == Loaded(frame)
  {
    var w, h := frame.format.width, frame.format.height;
    var file := EncodeBmp(frame);
    var header, image := ReadFileHeader(file), ReadImageHeader(file);
    EncodedHeaders(frame);
    EncodedPixels(frame);
    FlipTwice(frame);
    Layout24(frame.format);
    MulPos(3 * w, h);
    assert Size(LoadFormat(image)) >= 1 && image.bitCount / 8 == 3;
    assert Image(3, w, h, FlippedByte(PixelArray(file, header, image), 3, w, h)) == frame.data;
  }

  /** Flipping the rows and the pixel bytes of a well-formed 24-bit frame twice gives back its buffer. */
  lemma FlipTwice(frame: Frame)
    requires frame.format.fourcc == PixelFormatRGB24 && WellFormed(frame)
    ensures var w, h := Extent(frame.format.width), Extent(frame.format.height);
      Image(3, w, h, FlippedByte(Image(3, w, h, FlippedByte(frame.data, 3, w, h)), 3, w, h)) == frame.data
  {
    var w, h := Extent(frame.format.width), Extent(frame.format.height);
    var f := FlippedByte(Image(3, w, h, FlippedByte(frame.data, 3, w, h)), 3, w, h);
    forall x: int, y: int, c: int | 0 <= x < w && 0 <= y < h && 0 <= c < 3
      ensures f(x, y, c) == At(frame.data, 3 * w * y + 3 * x + c)
    {
      FlipBack(frame, x, y, c);
    }
    Layout24(frame.format);
    ImageOfBuffer(3, w, h, frame.data, f);
  }

  /** The header fields `load` reads from the encoded file. */
  lemma EncodedHeaders(frame: Frame)
    requires frame.format.fourcc == PixelFormatRGB24 && WellFormed(frame)
    requires 0 < frame.format.width < 0x8000_0000 && 0 < frame.format.height < 0x8000_0000
    requires HeadersEnd + |frame.data| < 0x1_0000_0000
    ensures var file := EncodeBmp(frame);
      HasMagic(file) && ReadFileHeader(file).offBits == HeadersEnd
      && ReadImageHeader(file).sizeImage == |frame.data| && ReadImageHeader(file).bitCount == 24
      && LoadFormat(ReadImageHeader(file)) == frame.format
  {
    var w, h, n := frame.format.width, frame.format.height, |frame.data|;
    var file := EncodeBmp(frame);
    Le32Read(file, 10, HeadersEnd);
    Le32Read(file, 18, w);
    Le32Read(file, 22, h);
    Le32Read(file, 34, n);
  }

  /** The pixel array `load` reads from the encoded file is the encoded rows. */
  lemma EncodedPixels(frame: Frame)
    requires frame.format.fourcc == PixelFormatRGB24 && WellFormed(frame)
    requires 0 < frame.format.width < 0x8000_0000 && 0 < frame.format.height < 0x8000_0000
    requires HeadersEnd + |frame.data| < 0x1_0000_0000
    ensures var file := EncodeBmp(frame);
      var w, h := frame.format.width, frame.format.height;
      PixelArray(file, ReadFileHeader(file), ReadImageHeader(file)) == Image(3, w, h, FlippedByte(frame.data, 3, w, h))
  {
    var w, h, n := frame.format.width, frame.format.height, |frame.data|;
    var file := EncodeBmp(frame);
    EncodedHeaders(frame);
    Layout24(frame.format);
    var rows := Image(3, w, h, FlippedByte(frame.data, 3, w, h));
    assert file == BmpHeaders(n, w, h) + rows;
    var header := ReadFileHeader(file);
    assert header.offBits == HeadersEnd;
    var pixels := PixelArray(file, header, ReadImageHeader(file));
    forall i | 0 <= i < n
      ensures pixels[i] == rows[i]
    {
      assert pixels[i] == StreamByte(file, header.offBits + i);
      assert file[HeadersEnd + i] == rows[i];
    }
  }

  /** One byte of the round trip: flipping rows and pixel bytes twice restores it. */
  lemma FlipBack(frame: Frame, x: int, y: int, c: int)
    requires frame.format.fourcc == PixelFormatRGB24
    requires 0 <= x < Extent(frame.format.width) && 0 <= y < Extent(frame.format.height) && 0 <= c < 3
    ensures var w, h := Extent(frame.format.width), Extent(frame.format.height);
      FlippedByte(Image(3, w, h, FlippedByte(frame.data, 3, w, h)), 3, w, h)(x, y, c)
        == At(frame.data, 3 * w * y + 3 * x + c)
  {
    var w, h := Extent(frame.format.width), Extent(frame.format.height);
    var g := FlippedByte(frame.data, 3, w, h);
    var rows := Image(3, w, h, g);
    var r := h - 1 - y;
    assert 3 * w * (h - 1 - r) == 3 * w * y;
    ImageAt(3, w, h, g, x, r, 2 - c);
    assert rows[3 * w * r + 3 * x + (2 - c)] == At(frame.data, 3 * w * y + 3 * x + c);
    assert FlippedByte(rows, 3, w, h)(x, y, c) == At(rows, 3 * w * r + 3 * x + (2 - c));
  }
}
