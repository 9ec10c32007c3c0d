# akvirtualcamera `VideoFrame` pixel engine in Dafny

This project models the pixel-buffer engine of akvirtualcamera
(`VCamUtils/src/videoframe.cpp`). An `AkVCam::VideoFrame` pairs a video format
(a FourCC pixel-format tag, a width and a height) with a byte buffer. It
offers:

- fourcc conversion through a fixed table of 22 routines;
- horizontal and vertical mirroring and red/blue channel swapping;
- scaling: nearest-sample ("fast") and bilinear ("linear"), with the Ignore,
  Keep and Expanding aspect policies;
- per-pixel colour adjustments: HSL shift, gamma, contrast and gray scale;
- a small reader for 24-bit and 32-bit BMP files.

It also models the `MKFOURCC` packing macro and the twelve `PixelFormat` tags
of `VCamUtils/src/videoformattypes.h`.

## Structure

| module | file | what it holds |
|---|---|---|
| `Numeric` | numeric.dfy | `uint8`, and C++ arithmetic written out: truncating division (`Quot`, `Rem`), the `uint8_t` cast (`Wrap8`), `bound` and `mod` |
| `FourCC` | fourcc.dfy | `MKFOURCC`, the twelve tags and their byte structure |
| `Raster` | raster.dfy | `Image(b, w, h, f)`: a packed image with `b` bytes per pixel whose byte `(x, y, c)` is `f(x, y, c)`; reads past the end of a buffer give 0 (`At`) |
| `Layout` | layout.dfy | `VideoFormat`, the frame value `Frame(format, data)`, and the per-fourcc size, line and plane-offset formulas (assumptions, see below) |
| `Color` | color.dfy | `grayval`, `rgb_y/u/v`, `yuv_r/g/b`, `rgbToHsl`, `hslToRgb` |
| `Tables` | tables.dfy | the gamma and contrast tables' shape and index, `initGammaTable`, `initContrastTable` |
| `Converters` | converters.dfy | the conversion table; the routines with one pixel per output unit (RGB/BGR 32/24/16/15) and those with two pixels per unit (UYVY, YUY2) |
| `Planar` | planar.dfy | the NV12/NV21 routines, as written and corrected |
| `Conversion` | conversion.dfy | `convert`: the identity fast path, the table lookup and the dispatch |
| `Geometry` | geometry.dfy | `mirror` and `swapRgb` |
| `Scale` | scale.dfy | `scaled(width, height, mode, aspect)` and the `extrapolate*` helpers |
| `Adjust` | adjust.dfy | `adjustHsl`, `adjustGamma`, `adjustContrast`, `toGrayScale`, `adjust` |
| `Bmp` | bmp.dfy | the BMP decoding done by `load`, plus an encoder used to prove a round trip |
| `VideoFrames` | videoframe.dfy | `class VideoFrame`: the constructors, `line`, `clear`, `load` |

### How the model is built

- **The frame object.** `load` and `clear` change the frame's fields, so
  they are methods of the class `VideoFrames.VideoFrame`. It has a `format`
  field and a `data: seq<uint8>` field.
- **Operations that build a new frame.** The `const` operations (`convert`,
  `mirror`, `scaled`, `swapRgb` and the adjustments) each allocate a fresh
  destination. They are methods on frame values (`Frame`). Each fills a
  `new uint8[...]` destination with the source's nested `y`/`x` loops. Each
  is proved equal to a specification function: `Converted`, `Mirrored`,
  `Scaled`, `Swapped`, `Adjusted` and so on. The lemmas are stated about
  those functions.
- **Pixel structs.** The byte order of a pixel follows the C++ struct, not
  the format name:
  - `RGB24` is `{b, g, r}` and `BGR24` is `{r, g, b}`. `mirror`, `scaled`,
    `swapRgb` and the adjustments read and write through the `RGB24`
    struct, as the code does.
  - The 15-bit and 16-bit formats are C bit-fields. The first field sits in
    the least-significant bits, and the 16-bit word is stored
    little-endian.
  - UYVY is laid out `{v0, y0, u0, y1}` and YUY2 `{y0, v0, y1, u0}`. This
    is what the structs at videoframe.cpp:91-105 say. The usual FourCC
    layouts are U0 Y0 V0 Y1 for UYVY and Y0 U0 Y1 V0 for YUY2, so the code
    swaps U and V in both; the model follows the code.
- **Corrected behaviour.** Where the code has a defect (see "Findings"),
  the operation and its specification function follow the evident intent,
  and a separate as-written member states what the code does:
  - `convert` into NV12/NV21 uses the corrected planar routine;
    `Conversion.ConvertedAsWritten` dispatches to the routine as written.
  - `scaled` in linear mode extrapolates up along an axis when the
    destination box is larger than the source along it; the code compares
    the source with the whole target. `Scale.ScaledAsWritten` makes the
    code's choice, and `Scale.AsWrittenAgrees` shows the two differ only
    under the Keep policy.
- **C++ arithmetic.**
  - `/` on a possibly negative `int` uses `Quot`, which truncates toward
    zero.
  - `>>` on an `int` is a floor division by a power of two.
  - The `uint8_t` casts are `Wrap8`.
  - `|` on a table offset is `BitOr`.
- **Layout assumptions.** `VideoFormat::size`, `bypl` and `offset` are
  defined in `videoformat.cpp`, which is not part of this model. They are
  taken to be:
  - packed rows with no padding;
  - 3·w bytes per line for the 24-bit formats, 4·w for the 32-bit formats,
    and 2·w for the 16-bit, 15-bit, UYVY and YUY2 formats;
  - for NV12/NV21: plane 0 is w bytes per line × h rows; plane 1 is
    2·⌈w/2⌉ bytes per line × ⌈h/2⌉ rows, starting at offset w·h;
  - size 0 when the width or height is not positive, or the fourcc is
    unknown.

  `Layout.PlanarLayout`, `Layout.PackedLayout` and `Layout.Layout24` spell
  out what the rest of the model uses from these definitions.
- **The BMP file.** `load`'s file is `Option<seq<uint8>>`, where `None`
  means the file does not open. The model reads it as follows:
  - the 14-byte file header and the 40-byte image header are read as
    little-endian;
  - a file too short to hold both headers reads its pixel array as zeros;
  - bytes after the end of the file read as 0;
  - each row is `depth·w` bytes with no 4-byte padding, as the code reads
    it;
  - `VideoFormat::clear` is taken to give the empty format.

## Model

| member | source | states |
|---|---|---|
| FourCC.MkFourCC | VCamUtils/src/videoformattypes.h:25-29 | bytes 3, 2, 1 and 0 of the packed tag are the low bytes of the four arguments |
| FourCC.MkFourCCLowBytesOnly | VCamUtils/src/videoformattypes.h:26-29 | only the low 8 bits of each argument affect the tag |
| FourCC.MkFourCCInjective | VCamUtils/src/videoformattypes.h:25-29 | byte arguments are recovered from the tag: equal tags mean equal arguments |
| FourCC.PixelFormatTags | VCamUtils/src/videoformattypes.h:36-57 | each of the twelve constants is `MKFOURCC` of its four characters ('R','G','B',32 … 'N','V','2','1') |
| FourCC.ChannelTagBytes | VCamUtils/src/videoformattypes.h:39-48 | the RGB tags spell 'R','G','B' and the BGR tags 'B','G','R' in their high three bytes; the low byte is the bit depth 32, 24, 16 or 15 |
| FourCC.PixelFormatsDistinct | VCamUtils/src/videoformattypes.h:39-56 | the twelve tags are pairwise distinct |
| Numeric.Bound | VCamUtils/src/videoframe.cpp:173-177 | the result lies in [min, max]; it is `value` when inside, `min` below and `max` above |
| Numeric.Mod | VCamUtils/src/videoframe.cpp:179-183 | `(value % m + m) % m` with truncating `%` is the non-negative remainder, in [0, m) |
| Numeric.Quot | VCamUtils/src/videoframe.cpp:589-594 | C++ integer division: agrees with floor division on non-negative operands and truncates toward zero on a negative dividend |
| Numeric.Wrap8 | VCamUtils/src/videoframe.cpp:954-967 | the `uint8_t` cast keeps values in [0, 255] and is congruent to its argument mod 256 |
| Color.GrayVal | VCamUtils/src/videoframe.cpp:949-952 | `(11r + 16g + 5b) >> 5` stays in [0, 255] for bytes and maps a gray pixel to its own level |
| Color.RgbY | VCamUtils/src/videoframe.cpp:954-957 | for byte channels Y lies in [16, 235], so the cast never wraps |
| Color.RgbU | VCamUtils/src/videoframe.cpp:959-962 | for byte channels U lies in [16, 240] |
| Color.RgbV | VCamUtils/src/videoframe.cpp:964-967 | for byte channels V lies in [16, 240] |
| Color.GrayRoundTrip | VCamUtils/src/videoframe.cpp:954-990 | a gray pixel has U = V = 128, and `yuv_r/g/b` map its Y back to a gray level within 1 of the original |
| Color.RgbToHsl | VCamUtils/src/videoframe.cpp:1624-1646 | l = (max + min) / 2; h = s = 0 when max = min; otherwise h in [0, 360) and s in [0, 255] |
| Color.SaturationDivisorPositive | VCamUtils/src/videoframe.cpp:1644 | when max > min the saturation denominator is positive and at least max − min |
| Color.HslToRgb | VCamUtils/src/videoframe.cpp:1648-1688 | in-range HSL gives channels in [0, 255]; zero saturation gives the gray (l, l, l) |
| Tables.TableIndex | VCamUtils/src/videoframe.cpp:790-800 | `((bound(-255, g, 255) + 255) << 8) \| v` equals (g' + 255)·256 + v and is below 511·256, the table size |
| Tables.BitOrLowBits | VCamUtils/src/videoframe.cpp:791 | or-ing a value below 2^n into a multiple of 2^n is addition |
| Tables.InitGammaTable | VCamUtils/src/videoframe.cpp:1690-1709 | the table has 511·256 entries and entry (level + 255)·256 + i is the byte cast of the per-entry value |
| Tables.InitContrastTable | VCamUtils/src/videoframe.cpp:1711-1725 | the table has 511·256 entries and entry (level + 255)·256 + i is the per-entry value clamped to [0, 255] |
| Converters.FindConverter | VCamUtils/src/videoframe.cpp:715-723 | the search finds an entry exactly when the table holds the pair (from, to) |
| Converters.CanConvert | VCamUtils/src/videoframe.cpp:696-708 | true iff input == output or (input, output) is a table entry |
| Converters.ConverterSources | VCamUtils/src/videoframe.cpp:141-165 | the table has 22 entries, and every source is BGR24 or RGB24 |
| Converters.RegisteredPairs | VCamUtils/src/videoframe.cpp:141-165 | every entry goes from an adjustable format to a different one of the twelve tags |
| Converters.RegisteredTargets | VCamUtils/src/videoframe.cpp:141-165 | every pair of an adjustable source and a different tag is an entry |
| Converters.CanConvertExactly | VCamUtils/src/videoframe.cpp:696-708 | `canConvert(a, b)` iff a == b, or a is BGR24/RGB24 and b is one of the twelve tags |
| Converters.EncodePixel | VCamUtils/src/videoframe.cpp:992-1148 | each one-pixel-per-unit target writes exactly its pixel size in bytes |
| Converters.Fields16 | VCamUtils/src/videoframe.cpp:1037-1057 | the 16-bit targets store b>>3, g>>2 and r>>3 (RGB16) or r>>3, g>>2 and b>>3 (BGR16) in 5/6/5 bit fields |
| Converters.Fields15 | VCamUtils/src/videoframe.cpp:1059-1080 | the 15-bit targets store each channel >>3 and set the x bit to 1 |
| Converters.Fields32 | VCamUtils/src/videoframe.cpp:992-1013 | the 32-bit targets are the 24-bit struct plus an x byte of 255 (first in RGB32, last in BGR32) |
| Converters.WordRoundTrip | VCamUtils/src/videoframe.cpp:46-51 | a 16-bit word stored little-endian reads back unchanged |
| Converters.ConvertPixels | VCamUtils/src/videoframe.cpp:992-1148 | the loop fills the destination with the per-pixel encoding of every source pixel (`PixelConverted`) |
| Converters.ConvertPacked | VCamUtils/src/videoframe.cpp:1150-1218 | for even widths the loop writes one 4-byte macropixel per source pair (`PackedConverted`) |
| Converters.PackedPairBytes | VCamUtils/src/videoframe.cpp:1163-1178 | UYVY writes V0, Y0, U0, Y1 and YUY2 writes Y0, V0, Y1, U0; U and V come from the first pixel of the pair, Y from each pixel |
| Planar.TargetKinds | VCamUtils/src/videoframe.cpp:141-165 | every tag is exactly one kind of target: one pixel per unit, two pixels per unit, or planar |
| Planar.ConvertPlanar | VCamUtils/src/videoframe.cpp:1220-1278 | the corrected routine writes the full luma plane and then the interleaved chroma plane (`PlanarConverted`) |
| Planar.LumaPlaneAt | VCamUtils/src/videoframe.cpp:1236-1238 | luma byte w·y + x is Y of source pixel (x, y) |
| Planar.ChromaPlaneAt | VCamUtils/src/videoframe.cpp:1240-1243 | chroma pair j·2⌈w/2⌉ + 2i holds V,U (NV12) or U,V (NV21) of source pixel (2i, 2j): chroma is sampled only at even x and even y |
| Planar.PlanarAsWrittenLosesLuma | VCamUtils/src/videoframe.cpp:1238 | as written, luma byte 1 of the first row stays 0, while the corrected routine puts Y (at least 16) there |
| Planar.StoreLumaAsWritten | VCamUtils/src/videoframe.cpp:1228-1238 | the as-written luma loop, storing every pixel of row y at `dst_line_y[y]` on a zero-filled plane, leaves the last pixel's luma on the diagonal and 0 elsewhere (`LumaAsWritten`) |
| Conversion.Convert | VCamUtils/src/videoframe.cpp:710-729 | the result is `Converted`: the identity, the empty frame, or the routine the table selects, with the NV12/NV21 routine corrected |
| Conversion.ConvertIdentity | VCamUtils/src/videoframe.cpp:712-713 | converting to the frame's own fourcc returns the frame unchanged |
| Conversion.ConvertRejects | VCamUtils/src/videoframe.cpp:725-726 | a pair outside the table gives the empty frame |
| Conversion.ConvertedRoutine | VCamUtils/src/videoframe.cpp:717-728 | a table entry dispatches to the pixel, packed or (corrected) planar routine of its target |
| Conversion.ConvertedAsWrittenAgrees | VCamUtils/src/videoframe.cpp:710-729 | for every target but NV12/NV21, `convert` as written equals the corrected `Converted` |
| Conversion.ConvertedAsWrittenLosesLuma | VCamUtils/src/videoframe.cpp:1220-1278 | as written, converting an adjustable frame at least 2 wide into NV12/NV21 leaves luma byte 1 at 0, where the corrected conversion puts Y ≥ 16 |
| Conversion.ConvertShape | VCamUtils/src/videoframe.cpp:710-729 | a successful conversion keeps width and height, sets the target fourcc, and gives a buffer of the target format's size |
| Conversion.Rgb24RoundTrip | VCamUtils/src/videoframe.cpp:1015-1035 | BGR24 → RGB24 → BGR24 gives back the original frame |
| Conversion.MidPixel | VCamUtils/src/videoframe.cpp:1371-1391 | converting BGR24 to RGB24 keeps every pixel's (r, g, b) |
| Geometry.Mirror | VCamUtils/src/videoframe.cpp:460-502 | the loops build `Mirrored`; vertical-only mirroring copies whole rows |
| Geometry.MirrorShape | VCamUtils/src/videoframe.cpp:460-476 | `mirror(false, false)` is the identity; a non-adjustable fourcc gives the empty frame; otherwise the format is kept |
| Geometry.MirroredAt | VCamUtils/src/videoframe.cpp:477-498 | dst(x, y) = src(w−1−x or x, h−1−y or y), by which axes are flipped |
| Geometry.MirrorTwice | VCamUtils/src/videoframe.cpp:460-502 | mirroring twice with the same flags restores the frame |
| Geometry.VerticalRow | VCamUtils/src/videoframe.cpp:493-498 | vertical-only mirroring copies row h−1−y to row y unchanged |
| Geometry.SwappedIfTwice | VCamUtils/src/videoframe.cpp:663-669 | `swapRgb(swap)` applied twice with the same flag restores an RGB24/BGR24 frame, whichever the flag |
| Geometry.SwapRgb | VCamUtils/src/videoframe.cpp:671-694 | the loop builds `Swapped`: each pixel's r and b exchanged |
| Geometry.SwapTwiceRestores | VCamUtils/src/videoframe.cpp:671-694 | swapping twice restores the frame |
| Geometry.SwapIsRgb24Conversion | VCamUtils/src/videoframe.cpp:1015-1035 | `bgr24_to_rgb24` is `swapRgb` with the fourcc relabelled |
| Geometry.SwapByteIsConversion | VCamUtils/src/videoframe.cpp:1015-1035 | byte for byte, `bgr24_to_rgb24` reverses the three bytes of every pixel, as `swapRgb` does |
| Scale.DstBox | VCamUtils/src/videoframe.cpp:520-545 | the destination box satisfies 0 ≤ xMin ≤ xMax ≤ width and 0 ≤ yMin ≤ yMax ≤ height |
| Scale.KeepBoxExample | VCamUtils/src/videoframe.cpp:535-543 | under Keep, 4×2 → 4×4 fills rows [1, 3) |
| Scale.KeepSameProportions | VCamUtils/src/videoframe.cpp:520-545 | when the proportions already agree the box is the whole frame |
| Scale.Scale | VCamUtils/src/videoframe.cpp:504-645 | the loops build `Scaled`, with the linear up/down choice made on the destination box |
| Scale.ScaleSameSize | VCamUtils/src/videoframe.cpp:509-511 | scaling to the frame's own size returns it unchanged |
| Scale.ScaleRejects | VCamUtils/src/videoframe.cpp:513-518 | a non-adjustable fourcc gives the empty frame |
| Scale.ScaledOutsideBox | VCamUtils/src/videoframe.cpp:581-584 | pixels outside the destination box stay 0 |
| Scale.ScaledFastPixel | VCamUtils/src/videoframe.cpp:588-599 | in fast mode each box pixel copies source pixel (srcX, srcY) |
| Scale.FastColumnInside | VCamUtils/src/videoframe.cpp:588-599 | with Ignore or Keep and a box at least 2 wide, every sampled srcX is inside the source |
| Scale.FastRowInside | VCamUtils/src/videoframe.cpp:588-599 | with Ignore or Keep and a box at least 2 high, every sampled srcY is inside the source |
| Scale.ScaledLinearPixel | VCamUtils/src/videoframe.cpp:601-641 | in linear mode, byte c of box pixel (x, y) of the scaled frame, at 3·w·y + 3x + c, is byte c of the bilinear mix of the two sampled rows and columns, whose weight denominators are non-zero |
| Scale.ExtrapolateUp | VCamUtils/src/videoframe.cpp:1568-1579 | the two sampled coordinates are neighbours; when the source extent is at most the box extent (0 < num ≤ den, no offset), srcMin ≥ 0 and the weight kNum/kDen lies in [0, 1] with kDen > 0 |
| Scale.UpWeights | VCamUtils/src/videoframe.cpp:1573-1578 | for 0 < num ≤ den the target coordinates of srcMin and srcMin + 1 bracket dstCoord and differ |
| Scale.DownscaleLinearIsFast | VCamUtils/src/videoframe.cpp:1581-1590 | without cropping, shrinking a frame in linear mode gives the same frame as fast mode: `extrapolateDown` weighs one source pixel fully |
| Scale.LinearDefined | VCamUtils/src/videoframe.cpp:601-641 | with the choice made on the box, linear scaling under Ignore or Keep divides by zero nowhere once source and box are at least 2 pixels along each axis |
| Scale.AsWrittenAgrees | VCamUtils/src/videoframe.cpp:602-609 | outside the Keep policy the code's up/down choice and the corrected one give the same frame and the same defined inputs |
| Scale.ExtrapolateComponent | VCamUtils/src/videoframe.cpp:1592-1596 | for 0 ≤ kNum ≤ kDen, kDen > 0 the value lies between min and max; it is min at kNum = 0 and max at kNum = kDen |
| Scale.KeepLinearUndefined | VCamUtils/src/videoframe.cpp:602-609 | as written, scaling a 3×3 frame to 4×2 in linear mode under Keep divides by zero, while the corrected choice does not |
| Adjust.ShiftHsl | VCamUtils/src/videoframe.cpp:757-760 | hue wraps by a positive modulo 360; saturation and luminance are clamped to [0, 255] |
| Adjust.HslPixel | VCamUtils/src/videoframe.cpp:752-768 | a pixel's new colour is `hslToRgb` of its shifted `rgbToHsl` |
| Adjust.GrayPixel | VCamUtils/src/videoframe.cpp:849-860 | gray scale writes r = g = b = `grayval(r, g, b)` |
| Adjust.AdjustHsl | VCamUtils/src/videoframe.cpp:731-774 | the loop builds `AdjustedHsl` |
| Adjust.AdjustGamma | VCamUtils/src/videoframe.cpp:776-805 | the loop builds `AdjustedGamma`: each channel looked up in the gamma table |
| Adjust.AdjustContrast | VCamUtils/src/videoframe.cpp:807-836 | the loop builds `AdjustedContrast` |
| Adjust.ToGrayScale | VCamUtils/src/videoframe.cpp:838-865 | the loop builds `GrayScaled` |
| Adjust.AdjustFrame | VCamUtils/src/videoframe.cpp:867-947 | the fused loop builds `Adjusted` |
| Adjust.AdjustNothing | VCamUtils/src/videoframe.cpp:735-736 | `adjustHsl(0,0,0)`, `adjustGamma(0)`, `adjustContrast(0)` and `adjust(0,0,0,0,0,false)` return the frame unchanged |
| Adjust.AdjustRejects | VCamUtils/src/videoframe.cpp:738-743 | a non-adjustable fourcc gives the empty frame for every adjustment that is not a no-op |
| Adjust.AdjustShape | VCamUtils/src/videoframe.cpp:867-947 | an adjustment keeps the format of an adjustable frame |
| Adjust.GrayScaleUniform | VCamUtils/src/videoframe.cpp:838-865 | after gray scale each pixel has r = g = b = `grayval` of the original pixel |
| Adjust.GrayScaleIdempotent | VCamUtils/src/videoframe.cpp:838-865 | gray scale applied twice equals gray scale applied once |
| Adjust.HueKeepsGray | VCamUtils/src/videoframe.cpp:752-768 | a hue shift leaves gray pixels unchanged |
| Adjust.RecolorCompose | VCamUtils/src/videoframe.cpp:867-947 | two per-pixel recolourings in a row are one recolouring by the composed map |
| Adjust.AdjustIsComposition | VCamUtils/src/videoframe.cpp:867-947 | the fused `adjust` equals HSL, then gamma, then contrast, then optional gray scale, done one after another |
| Bmp.Int32 | VCamUtils/src/videoframe.cpp:358-360 | the `int(...)` cast of a 32-bit header field, here and again at lines 375-377, reads it as itself below 2^31 and as negative from 2^31 |
| Bmp.Decode | VCamUtils/src/videoframe.cpp:338-425 | an empty name, an unopened file or missing "BM" magic leaves the frame untouched; a loaded frame is RGB24 with positive sizes and a buffer of its size |
| Bmp.DecodeCases | VCamUtils/src/videoframe.cpp:338-421 | untouched iff the name is empty, the file does not open, the magic is wrong or the size is < 1; cleared iff past those checks the bit depth is neither 24 nor 32 |
| Bmp.LoadedPixel | VCamUtils/src/videoframe.cpp:375-415 | destination row h−1−y byte c of pixel x is source row y byte 2−c, so the first three bytes are reversed; the 4th byte of a 32-bit pixel is dropped |
| Bmp.FlipRows | VCamUtils/src/videoframe.cpp:375-415 | the row-flipping loops build the flipped image for 24-bit and 32-bit pixels |
| Bmp.DecodeEncode | VCamUtils/src/videoframe.cpp:338-425 | a well-formed RGB24 frame written as a BMP in the layout `load` reads is loaded back exactly |
| Bmp.FlipTwice | VCamUtils/src/videoframe.cpp:375-394 | flipping rows and reversing pixels twice gives back the 24-bit buffer |
| VideoFrames.VideoFrame.constructor | VCamUtils/src/videoframe.cpp:295-298 | a default frame is the empty frame |
| VideoFrames.VideoFrame.OfFormat | VCamUtils/src/videoframe.cpp:306-313 | a frame of a format has that format and a zero-filled buffer of its size |
| VideoFrames.VideoFrame.OfFile | VCamUtils/src/videoframe.cpp:300-304 | a frame made from a file holds the decoded image, or is empty when loading fails |
| VideoFrames.VideoFrame.LineOffset | VCamUtils/src/videoframe.cpp:447-452 | a row inside either plane starts and ends inside a buffer of the format's size |
| VideoFrames.VideoFrame.Clear | VCamUtils/src/videoframe.cpp:454-458 | clearing leaves the empty format and an empty buffer |
| VideoFrames.VideoFrame.Load | VCamUtils/src/videoframe.cpp:338-425 | returns true iff the file decodes; otherwise the frame stays as it was, or is cleared for an unsupported bit depth |

## Left out

- File opening and `std::ifstream` reads in `load`. The file arrives as
  `Option<seq<uint8>>`, and text-mode stream behaviour is not modelled.
- Bmp.Decode: reads a pixel array with no row padding, as the code does. BMP
  files whose rows are padded to 4 bytes are therefore read with the same
  shear as in the code.
- VideoFrames.VideoFrame.Load: `m_data.resize` is modelled as a fresh buffer
  that keeps the old bytes as a prefix. Its contents are overwritten either
  way.
- `VideoFormat`'s `size`, `bypl`, `offset` and `clear`: `videoformat.cpp` is
  not part of this model. Their formulas are stated as assumptions above.
- Converters.ConvertPacked: requires an even width. For an odd width the
  UYVY/YUY2 loops (videoframe.cpp:1169, 1204, 1457, 1492) read one pixel past
  the row.
- Planar.PlanarAsWritten: the as-written NV12/NV21 routine is stated only
  for frames no taller than they are wide. Otherwise its stray luma writes
  leave the row.
- The contents of the gamma and contrast tables: they are computed with
  `pow` on `double`. The tables are parameters of length 511·256.
  `InitGammaTable` and `InitContrastTable` take the per-entry floating-point
  computation as a function parameter.
- `scaled(maxArea, mode, align)` (videoframe.cpp:647-661): it uses `sqrt` on
  doubles.
- Scale.Scale: requires non-negative sizes and non-zero divisors
  (`ScaleDefined`). This excludes the C++ division by zero at a one-pixel
  box extent (den = 0), at a one-pixel source extent when extrapolating up
  (num = 0), and at a zero weight denominator (kDen = 0, see `Scale.LinearDefined`
  for when none occurs). 32-bit overflow of the sample products is not
  modelled, because integers are unbounded here.
- Scale.Scale: uses the corrected up/down choice; the code's choice is
  `Scale.ScaledAsWritten`, with the division by zero it causes under Keep
  exhibited by `Scale.KeepLinearUndefined` (see "Findings").
- Conversion.Convert: into NV12/NV21 it uses the corrected planar routine
  (`PlanarConverted`); the routine as written is `Planar.PlanarAsWritten`,
  reached through `Conversion.ConvertedAsWritten`.
- Conversion.ConvertedRoutine: its planar case is the corrected routine;
  `Conversion.ConvertedAsWrittenLosesLuma` states what the code as written
  produces there.
- Out-of-range reads, which are undefined behaviour in C++, read as 0.
- Color.YuvR: `yuv_r`, `yuv_g` and `yuv_b` are unused in the source. They
  are plain functions with no range contracts; only
  `Color.GrayRoundTrip` relates them to `rgb_y/u/v`.
- The copy constructor and assignment. `Frame` is a value, so copies are
  plain value copies; buffer sharing and aliasing are not modelled.
- The `applyAdjusts` order of `cmio/VirtualCamera/src/stream.cpp:653-669`.
  It appears only through `Adjust.AdjustIsComposition`, which relates the
  fused `adjust` to the single adjustments.
- The CoreMediaIO plugin interface, the stream timer and mutex, and the
  assistant service. These are platform glue and I/O.

## Findings

| source | as written | input that shows it | evidently intended | confidence | as-written member | corrected member |
|---|---|---|---|---|---|---|
| VCamUtils/src/videoframe.cpp:1238, 1268, 1526, 1556 | the NV12/NV21 routines write luma to `dst_line_y[y]` | a 2×1 BGR24 frame converted to NV12: luma byte 1 stays 0 instead of Y of pixel 1 (at least 16) | `dst_line_y[x]`, one luma byte per pixel | not executed | Planar.PlanarAsWrittenLosesLuma | Planar.ConvertPlanar |
| VCamUtils/src/videoframe.cpp:602-609, 1573-1578, 1595 | linear mode picks `extrapolateUp` when the whole target is wider (taller) than the source, even when the Keep box is narrower (shorter) than the source | a 3×3 frame scaled to 4×2, linear, Keep: the box is 2 wide, x extrapolates up with num 2 and den 1, and column 0 gets kDen = 0, a division by zero at line 1595 | compare the source with the destination box, so that a box no larger than the source extrapolates down | not executed | Scale.KeepLinearUndefined | Scale.LinearDefined |
