/**
 * `AkVCam::VideoFrame` (VCamUtils/src/videoframe.cpp) as an object: a
 * format and a byte buffer that `load` and `clear` update in place. The
 * operations that build a new frame (`convert`, `mirror`, `scaled`,
 * `swapRgb` and the colour adjustments) work on frame values and live in
 * their own modules.
 */
module VideoFrames {
  import opened Numeric
  import opened FourCC
  import opened Raster
  import opened Layout
  import opened Bmp

  class VideoFrame {
    var format: VideoFormat
    var data: seq<uint8>

    /** The frame as a value, as copying it would give. */
    function Value(): Frame
      reads this
    {
      Frame(format, data)
    }

    /** `VideoFrame()`: the empty frame. */
    constructor ()
      ensures Value() == EmptyFrame
    {
      format, data := EmptyFormat, [];
    }

    /** `VideoFrame(format)`: a zero-filled buffer when the format has a positive size. */
    constructor OfFormat(format: VideoFormat)
      ensures Value() == Blank(format)
    {
      this.format := format;
      if Size(format) > 0 {
        data := seq(Size(format), _ => 0);
      } else {
        data := [];
      }
    }

    /** `VideoFrame(fileName)`: an empty frame that then loads the file. */
    constructor OfFile(fileName: string, file: Option<seq<uint8>>)
      ensures Decode(fileName, file).Loaded? ==> Value() == Decode(fileName, file).frame
      ensures !Decode(fileName, file).Loaded? ==> Value() == EmptyFrame
    {
      format, data := EmptyFormat, [];
      new;
      var _ := Load(fileName, file);
    }

    /**
     * `line(plane, y)`: the offset of row `y` of a plane in the buffer. A
     * row of either plane lies inside a buffer of the format's size.
     */
    function LineOffset(plane: nat, y: int): (offset: int)
      reads this
      ensures 0 <= y < PlaneRows(format, plane) && plane < 2 ==>
        0 <= offset && offset + BytesPerLine(format, plane) <= Size(format)
    {
      if 0 <= y < PlaneRows(format, plane) then
        RowEnd(BytesPerLine(format, plane), y, PlaneRows(format, plane));
        Line(format, plane, y)
      else
        Line(format, plane, y)
    }

    /** `clear()`: the empty format and an empty buffer. */
    method Clear()
      modifies this
      ensures Value() == EmptyFrame
    {
      format := EmptyFormat;
      data := [];
    }

    /**
     * `load(fileName)`: the file's bytes, or `None` when it does not open.
     * A failed check before the pixels leaves the frame as it was; an
     * unsupported bit depth clears it.
     */
    method Load(fileName: string, file: Option<seq<uint8>>) returns (ok: bool)
      modifies this
      ensures ok <==> Decode(fileName, file).Loaded?
      ensures Decode(fileName, file).Untouched? ==> Value() == old(Value())
      ensures Decode(fileName, file).Cleared? ==> Value() == EmptyFrame
      ensures Decode(fileName, file).Loaded? ==> Value() == Decode(fileName, file).frame
    {
      if fileName == [] || file.None? {
        return false;
      }
      var bytes := file.value;
      if !HasMagic(bytes) {
        return false;
      }
      var header := ReadFileHeader(bytes);
      var image := ReadImageHeader(bytes);
      var newFormat := LoadFormat(image);
      if Size(newFormat) < 1 {
        return false;
      }
      format := newFormat;
      var previous := data;
      var buffer := new uint8[Size(newFormat)](i => if 0 <= i < |previous| then previous[i] else 0);
      var pixels := PixelArray(bytes, header, image);
      var w, h := Extent(newFormat.width), Extent(newFormat.height);
      Layout24(newFormat);
      if image.bitCount == 24 {
        FlipRows(pixels, 3, w, h, buffer);
      } else if image.bitCount == 32 {
        FlipRows(pixels, 4, w, h, buffer);
      } else {
        format := EmptyFormat;
        data := [];
        return false;
      }
      data := buffer[..];
      assert Decode(fileName, file) == Loaded(Frame(newFormat, Image(3, w, h, FlippedByte(pixels, image.bitCount / 8, w, h))));
      return true;
    }
  }
}
