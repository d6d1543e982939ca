/**
 * The splash-screen pixel formats of a dual-screen handheld, as values.
 *
 * A device ("bin") buffer holds 3 bytes per pixel, rotated by 90 degrees
 * (see module Geometry) and with the colour bytes in B, G, R order. An RGBA
 * bitmap holds 4 bytes per pixel, row by row, in R, G, B, A order. This module
 * defines what each conversion of index.js computes, as functions on byte
 * sequences, and proves the properties the converters rely on: where every
 * byte goes, that the two conversions undo each other, and where the preview
 * compositor puts the two screens.
 */
module Splash {
  import opened Geometry

  newtype byte = x: int | 0 <= x < 256

  datatype Option<T> = None | Some(value: T)

  /** The rejections of the converters, one per distinct error the source raises. */
  datatype Error =
    | UnknownResolution        // "Unable to determine resolution."
    | IncorrectDataSize        // "Incorrect data size for the resolution given."
    | InvalidData              // "Invalid data."
    | NoData                   // "No data."
    | TopScreenInvalidSize     // "Top screen splash buffer is an invalid size."
    | BottomScreenInvalidSize  // "Bottom screen splash buffer is an invalid size."
    | MissingBuffer            // the TypeError raised by reading the length of an absent buffer

  /** What a settled promise carries: a value or a rejection. */
  datatype Result<T> = Ok(value: T) | Err(error: Error)

  datatype Resolution = Resolution(width: nat, height: nat)

  /** A bitmap with its byte buffer, as a value. */
  datatype Image = Image(data: seq<byte>, width: nat, height: nat)

  // ---------------------------------------------------------------------------
  // Resolution inference

  /** Device buffer lengths of the top (400x240) and bottom (320x240) screens. */
  const TopBinLength: nat := 288000
  const BottomBinLength: nat := 230400

  /** The resolution of a device buffer, recognised from its byte length alone. */
  function GetBinResolution(binLength: nat): (r: Option<Resolution>)
    ensures r.Some? <==> binLength == TopBinLength || binLength == BottomBinLength
    ensures binLength == TopBinLength ==> r == Some(Resolution(400, 240))
    ensures binLength == BottomBinLength ==> r == Some(Resolution(320, 240))
    ensures r.Some? ==> r.value.width * r.value.height * 3 == binLength
  {
    match binLength
    case 288000 => Some(Resolution(400, 240))
    case 230400 => Some(Resolution(320, 240))
    case _ => None
  }

  /**
   * The resolution binToRGBA works with: the given one when both width and
   * height are present (non-zero), otherwise the one inferred from the length;
   * then checked against the length.
   */
  function ResolveBinSize(length: nat, width: nat, height: nat): (r: Result<Resolution>)
    ensures r.Ok? ==> 0 < r.value.width && 0 < r.value.height
    ensures r.Ok? ==> r.value.width * r.value.height * 3 == length
    ensures (width == 0 || height == 0) ==>
              (r.Ok? <==> GetBinResolution(length).Some?) &&
              (r.Ok? ==> r.value == GetBinResolution(length).value) &&
              (r.Err? ==> r.error == UnknownResolution)
    ensures 0 < width && 0 < height ==>
              (r.Ok? <==> width * height * 3 == length) &&
              (r.Ok? ==> r.value == Resolution(width, height)) &&
              (r.Err? ==> r.error == IncorrectDataSize)
  {
    var size := if width == 0 || height == 0 then GetBinResolution(length)
                else Some(Resolution(width, height));
    if size.None? then Err(UnknownResolution)
    else if size.value.width * size.value.height * 3 != length then Err(IncorrectDataSize)
    else Ok(size.value)
  }

  // ---------------------------------------------------------------------------
  // Device buffer to RGBA

  /** Byte k of the RGBA image unpacked from device buffer bin. */
  function UnpackedByte(bin: seq<byte>, w: nat, h: nat, k: nat): byte
    requires |bin| == w * h * 3 && k < w * h * 4
  {
    if k % 4 == 3 then 255
    else
      var p := k / 4;
      RgbaPixelOnto(w, h, p);
      var x, y := p % w, p / w;
      DevicePixelInverse(w, h, x, y);
      bin[DevicePixel(h, x, y) * 3 + 2 - k % 4]
  }

  /** The RGBA image of width w and height h stored in device buffer bin. */
  function Unpack(bin: seq<byte>, w: nat, h: nat): (rgba: seq<byte>)
    requires |bin| == w * h * 3
    ensures |rgba| == w * h * 4
  {
    seq(w * h * 4, k requires 0 <= k < w * h * 4 => UnpackedByte(bin, w, h, k))
  }

  /** Every fourth byte of an unpacked image, its alpha channel, is 255 (fully opaque). */
  lemma UnpackIsOpaque(bin: seq<byte>, w: nat, h: nat)
    requires |bin| == w * h * 3
    ensures forall k :: 0 <= k < w * h * 4 && k % 4 == 3 ==> Unpack(bin, w, h)[k] == 255
  {
  }

  /** Byte c of RGBA pixel (x, y): a byte of device pixel x * h + (h - 1 - y), or the opaque alpha byte. */
  lemma UnpackByteAt(bin: seq<byte>, w: nat, h: nat, x: nat, y: nat, c: nat)
    requires |bin| == w * h * 3 && x < w && y < h && c < 4
    ensures var i, i2 := DevicePixel(h, x, y) * 3, RgbaPixel(w, x, y) * 4;
            && i + 2 < |bin| && i2 + c < w * h * 4
            && Unpack(bin, w, h)[i2 + c] == if c == 3 then 255 else bin[i + 2 - c]
  {
    var p := RgbaPixel(w, x, y);
    RgbaPixelInverse(w, h, x, y);
    DevicePixelInverse(w, h, x, y);
    DivModUnique(p * 4 + c, 4, p, c);
  }

  /**
   * RGBA pixel (x, y) holds the three bytes of device pixel x * h + (h - 1 - y)
   * in reverse order, followed by an opaque alpha byte.
   */
  lemma UnpackAt(bin: seq<byte>, w: nat, h: nat, x: nat, y: nat)
    requires |bin| == w * h * 3 && x < w && y < h
    ensures var i, i2 := DevicePixel(h, x, y) * 3, RgbaPixel(w, x, y) * 4;
            && i + 2 < |bin| && i2 + 3 < w * h * 4
            && Unpack(bin, w, h)[i2] == bin[i + 2]
            && Unpack(bin, w, h)[i2 + 1] == bin[i + 1]
            && Unpack(bin, w, h)[i2 + 2] == bin[i]
            && Unpack(bin, w, h)[i2 + 3] == 255
  {
    UnpackByteAt(bin, w, h, x, y, 0);
    UnpackByteAt(bin, w, h, x, y, 1);
    UnpackByteAt(bin, w, h, x, y, 2);
    UnpackByteAt(bin, w, h, x, y, 3);
  }

  /** binToRGBA on a buffer and the width and height found on its bitmap. */
  function BinToRgbaSpec(data: Option<seq<byte>>, width: nat, height: nat): (r: Result<Image>)
    ensures data.None? ==> r == Err(MissingBuffer)
    ensures data.Some? ==>
              (r.Err? <==> ResolveBinSize(|data.value|, width, height).Err?) &&
              (r.Err? ==> r.error == ResolveBinSize(|data.value|, width, height).error)
    ensures r.Ok? ==> data.Some? && |r.value.data| == |data.value| / 3 * 4
    ensures r.Ok? ==> r.value.width * r.value.height * 4 == |r.value.data|
    ensures r.Ok? && 0 < width && 0 < height ==> r.value.width == width && r.value.height == height
    ensures r.Ok? ==> forall k :: 0 <= k < |r.value.data| && k % 4 == 3 ==> r.value.data[k] == 255
  {
    match data
    case None => Err(MissingBuffer)
    case Some(bin) =>
      match ResolveBinSize(|bin|, width, height)
      case Err(e) => Err(e)
      case Ok(size) =>
        UnpackIsOpaque(bin, size.width, size.height);
        Ok(Image(Unpack(bin, size.width, size.height), size.width, size.height))
  }

  // ---------------------------------------------------------------------------
  // RGBA to device buffer

  /** Byte j of the device buffer packed from RGBA image rgba. */
  function PackedByte(rgba: seq<byte>, w: nat, h: nat, j: nat): byte
    requires |rgba| == w * h * 4 && j < w * h * 3
  {
    var p := j / 3;
    DevicePixelOnto(w, h, p);
    var x, y := DeviceColumn(h, p), DeviceRow(h, p);
    RgbaPixelInverse(w, h, x, y);
    rgba[RgbaPixel(w, x, y) * 4 + 2 - j % 3]
  }

  /** The device buffer of the RGBA image rgba of width w and height h; alpha is dropped. */
  function Pack(rgba: seq<byte>, w: nat, h: nat): (bin: seq<byte>)
    requires |rgba| == w * h * 4
    ensures |bin| == w * h * 3
  {
    seq(w * h * 3, j requires 0 <= j < w * h * 3 => PackedByte(rgba, w, h, j))
  }

  /** Device pixel x * h + (h - 1 - y) holds the R, G, B bytes of RGBA pixel (x, y) in reverse order. */
  lemma PackAt(rgba: seq<byte>, w: nat, h: nat, x: nat, y: nat)
    requires |rgba| == w * h * 4 && x < w && y < h
    ensures var t, s := DevicePixel(h, x, y) * 3, RgbaPixel(w, x, y) * 4;
            && t + 2 < w * h * 3 && s + 3 < |rgba|
            && Pack(rgba, w, h)[t] == rgba[s + 2]
            && Pack(rgba, w, h)[t + 1] == rgba[s + 1]
            && Pack(rgba, w, h)[t + 2] == rgba[s]
  {
    var p := DevicePixel(h, x, y);
    RgbaPixelInverse(w, h, x, y);
    DevicePixelInverse(w, h, x, y);
    DivModUnique(p * 3, 3, p, 0);
    DivModUnique(p * 3 + 1, 3, p, 1);
    DivModUnique(p * 3 + 2, 3, p, 2);
  }

  /** Packing undoes unpacking: the device buffer comes back byte for byte. */
  lemma PackUnpack(bin: seq<byte>, w: nat, h: nat)
    requires |bin| == w * h * 3
    ensures Pack(Unpack(bin, w, h), w, h) == bin
  {
    var rgba := Unpack(bin, w, h);
    var back := Pack(rgba, w, h);
    forall j | 0 <= j < |bin|
      ensures back[j] == bin[j]
    {
      var p := j / 3;
      DevicePixelOnto(w, h, p);
      var x, y := DeviceColumn(h, p), DeviceRow(h, p);
      UnpackAt(bin, w, h, x, y);
      PackAt(rgba, w, h, x, y);
    }
  }

  /** Unpacking undoes packing except for alpha, which comes back opaque. */
  lemma UnpackPack(rgba: seq<byte>, w: nat, h: nat)
    requires |rgba| == w * h * 4
    ensures |Unpack(Pack(rgba, w, h), w, h)| == |rgba|
    ensures forall k :: 0 <= k < |rgba| ==>
              Unpack(Pack(rgba, w, h), w, h)[k] == if k % 4 == 3 then 255 else rgba[k]
  {
    var bin := Pack(rgba, w, h);
    var back := Unpack(bin, w, h);
    forall k | 0 <= k < |rgba|
      ensures back[k] == if k % 4 == 3 then 255 else rgba[k]
    {
      var p := k / 4;
      RgbaPixelOnto(w, h, p);
      var x, y := p % w, p / w;
      UnpackAt(bin, w, h, x, y);
      PackAt(rgba, w, h, x, y);
    }
  }

  /** rgbaToBin on a buffer and the width and height found on its bitmap. */
  function RgbaToBinSpec(data: Option<seq<byte>>, width: nat, height: nat): (r: Result<Image>)
    ensures data.None? ==> r == Err(InvalidData)
    ensures data == Some([]) ==> r == Err(NoData)
    ensures data.Some? && data.value != [] && height * width * 4 != |data.value| ==> r == Err(IncorrectDataSize)
    ensures r.Ok? <==> data.Some? && data.value != [] && height * width * 4 == |data.value|
    ensures r.Ok? ==> |r.value.data| == |data.value| / 4 * 3 && 0 < width && 0 < height
    ensures r.Ok? ==> r.value.width == width && r.value.height == height
  {
    match data
    case None => Err(InvalidData)
    case Some(rgba) =>
      if |rgba| == 0 then Err(NoData)
      else if height * width * 4 != |rgba| then Err(IncorrectDataSize)
      else Ok(Image(Pack(rgba, width, height), width, height))
  }

  /** A successful binToRGBA followed by rgbaToBin gives back the device buffer. */
  lemma BinRoundTrip(data: Option<seq<byte>>, width: nat, height: nat)
    requires BinToRgbaSpec(data, width, height).Ok?
    ensures var image := BinToRgbaSpec(data, width, height).value;
            RgbaToBinSpec(Some(image.data), image.width, image.height)
              == Ok(Image(data.value, image.width, image.height))
  {
    var size := ResolveBinSize(|data.value|, width, height).value;
    PackUnpack(data.value, size.width, size.height);
  }

  /** A successful rgbaToBin followed by binToRGBA gives back the colours, with opaque alpha. */
  lemma RgbaRoundTrip(data: Option<seq<byte>>, width: nat, height: nat)
    requires RgbaToBinSpec(data, width, height).Ok?
    ensures var back := BinToRgbaSpec(Some(RgbaToBinSpec(data, width, height).value.data), width, height);
            && back.Ok? && back.value.width == width && back.value.height == height
            && |back.value.data| == |data.value|
            && forall k :: 0 <= k < |data.value| ==>
                 back.value.data[k] == if k % 4 == 3 then 255 else data.value[k]
  {
    UnpackPack(data.value, width, height);
  }

  // ---------------------------------------------------------------------------
  // Dual-screen preview

  const TopRgbaLength: nat := 384000      // 400 x 240 x 4
  const BottomRgbaLength: nat := 307200   // 320 x 240 x 4
  const PreviewLength: nat := 768000      // 400 x 480 x 4
  const ColumnOffset: nat := 40
  const RowOffset: nat := 240

  /** Byte k of the preview canvas: the top screen, then the bottom screen centred below it on black. */
  function PreviewByte(top: seq<byte>, bottom: seq<byte>, k: nat): byte
    requires |top| == TopRgbaLength && |bottom| == BottomRgbaLength && k < PreviewLength
  {
    if k < TopRgbaLength then top[k]
    else
      var p := k / 4;
      var x, y := p % 400, p / 400;
      if ColumnOffset <= x < ColumnOffset + 320 then
        RgbaPixelInverse(320, 240, x - ColumnOffset, y - RowOffset);
        bottom[RgbaPixel(320, x - ColumnOffset, y - RowOffset) * 4 + k % 4]
      else 0
  }

  /** The 400x480 preview canvas built from a 400x240 top and a 320x240 bottom RGBA buffer. */
  function Preview(top: seq<byte>, bottom: seq<byte>): (canvas: seq<byte>)
    requires |top| == TopRgbaLength && |bottom| == BottomRgbaLength
    ensures |canvas| == PreviewLength
  {
    seq(PreviewLength, k requires 0 <= k < PreviewLength => PreviewByte(top, bottom, k))
  }

  /** Bottom pixel (x, y) lands at canvas pixel (x + 40, y + 240), all four bytes in order. */
  lemma PreviewAt(top: seq<byte>, bottom: seq<byte>, x: nat, y: nat)
    requires |top| == TopRgbaLength && |bottom| == BottomRgbaLength && x < 320 && y < 240
    ensures var t, s := RgbaPixel(400, x + ColumnOffset, y + RowOffset) * 4, RgbaPixel(320, x, y) * 4;
            && TopRgbaLength <= t && t + 3 < PreviewLength && s + 3 < BottomRgbaLength
            && Preview(top, bottom)[t] == bottom[s]
            && Preview(top, bottom)[t + 1] == bottom[s + 1]
            && Preview(top, bottom)[t + 2] == bottom[s + 2]
            && Preview(top, bottom)[t + 3] == bottom[s + 3]
  {
    var p := RgbaPixel(400, x + ColumnOffset, y + RowOffset);
    RgbaPixelInverse(320, 240, x, y);
    RgbaPixelInverse(400, 480, x + ColumnOffset, y + RowOffset);
    DivModUnique(p * 4, 4, p, 0);
    DivModUnique(p * 4 + 1, 4, p, 1);
    DivModUnique(p * 4 + 2, 4, p, 2);
    DivModUnique(p * 4 + 3, 4, p, 3);
  }

  /** A four-byte slice is the display of its four bytes. */
  lemma SliceOfFour(bytes: seq<byte>, t: nat)
    requires t + 4 <= |bytes|
    ensures bytes[t..t + 4] == [bytes[t], bytes[t + 1], bytes[t + 2], bytes[t + 3]]
  {
  }

  /** A byte of the bottom half outside columns [40, 360) of the canvas is black. */
  lemma PreviewOutsideWindow(top: seq<byte>, bottom: seq<byte>, x: nat, y: nat, c: nat)
    requires |top| == TopRgbaLength && |bottom| == BottomRgbaLength
    requires (x < ColumnOffset || ColumnOffset + 320 <= x < 400) && RowOffset <= y < 480 && c < 4
    ensures RgbaPixel(400, x, y) * 4 + c < PreviewLength
    ensures Preview(top, bottom)[RgbaPixel(400, x, y) * 4 + c] == 0
  {
    var p := RgbaPixel(400, x, y);
    RgbaPixelInverse(400, 480, x, y);
    DivModUnique(p * 4 + c, 4, p, c);
  }

  /**
   * The bytes of the bottom half between the end of the window on row - 1 and
   * its start on row (columns 360..399 of row - 1 and 0..39 of row) are zero.
   */
  lemma PreviewGap(top: seq<byte>, bottom: seq<byte>, row: nat)
    requires |top| == TopRgbaLength && |bottom| == BottomRgbaLength && RowOffset <= row <= 480
    ensures forall k :: TopRgbaLength <= k < PreviewLength &&
                        RgbaPixel(400, ColumnOffset + 320, row - 1) * 4 <= k < RgbaPixel(400, ColumnOffset, row) * 4
                        ==> Preview(top, bottom)[k] == 0
  {
    forall k | TopRgbaLength <= k < PreviewLength &&
               RgbaPixel(400, ColumnOffset + 320, row - 1) * 4 <= k < RgbaPixel(400, ColumnOffset, row) * 4
      ensures Preview(top, bottom)[k] == 0
    {
      var p := k / 4;
      if p < row * 400 {
        DivModUnique(p, 400, row - 1, p - (row - 1) * 400);
      } else {
        DivModUnique(p, 400, row, p - row * 400);
      }
    }
  }

  /** Canvas pixel (x, y) of the bottom window shows bottom pixel (x - 40, y - 240). */
  lemma PreviewWindowPixel(top: seq<byte>, bottom: seq<byte>, x: nat, y: nat)
    requires |top| == TopRgbaLength && |bottom| == BottomRgbaLength
    requires ColumnOffset <= x < ColumnOffset + 320 && RowOffset <= y < 480
    ensures var t, s := RgbaPixel(400, x, y) * 4, RgbaPixel(320, x - ColumnOffset, y - RowOffset) * 4;
            t + 4 <= PreviewLength && s + 4 <= BottomRgbaLength &&
            Preview(top, bottom)[t..t + 4] == bottom[s..s + 4]
  {
    var canvas := Preview(top, bottom);
    var col, row := x - ColumnOffset, y - RowOffset;
    var t, s := RgbaPixel(400, col + ColumnOffset, row + RowOffset) * 4, RgbaPixel(320, col, row) * 4;
    PreviewAt(top, bottom, col, row);
    SliceOfFour(canvas, t);
    SliceOfFour(bottom, s);
  }

  /** Canvas pixel (x, y) of the bottom half outside the window is black and transparent. */
  lemma PreviewBorderPixel(top: seq<byte>, bottom: seq<byte>, x: nat, y: nat)
    requires |top| == TopRgbaLength && |bottom| == BottomRgbaLength
    requires (x < ColumnOffset || ColumnOffset + 320 <= x < 400) && RowOffset <= y < 480
    ensures var t := RgbaPixel(400, x, y) * 4;
            t + 4 <= PreviewLength && Preview(top, bottom)[t..t + 4] == [0, 0, 0, 0]
  {
    var canvas := Preview(top, bottom);
    var t := RgbaPixel(400, x, y) * 4;
    PreviewOutsideWindow(top, bottom, x, y, 0);
    PreviewOutsideWindow(top, bottom, x, y, 1);
    PreviewOutsideWindow(top, bottom, x, y, 2);
    PreviewOutsideWindow(top, bottom, x, y, 3);
    SliceOfFour(canvas, t);
  }

  /**
   * The canvas region by region: the first 384000 bytes are the top buffer;
   * rows 240..479, columns 40..359 hold the bottom buffer; the rest of rows
   * 240..479 is zero.
   */
  lemma PreviewRegions(top: seq<byte>, bottom: seq<byte>)
    requires |top| == TopRgbaLength && |bottom| == BottomRgbaLength
    ensures Preview(top, bottom)[..TopRgbaLength] == top
    ensures forall x: nat, y: nat :: ColumnOffset <= x < ColumnOffset + 320 && RowOffset <= y < 480 ==>
              var t, s := RgbaPixel(400, x, y) * 4, RgbaPixel(320, x - ColumnOffset, y - RowOffset) * 4;
              t + 4 <= PreviewLength && s + 4 <= BottomRgbaLength &&
              Preview(top, bottom)[t..t + 4] == bottom[s..s + 4]
    ensures forall x: nat, y: nat :: (x < ColumnOffset || ColumnOffset + 320 <= x < 400) && RowOffset <= y < 480 ==>
              var t := RgbaPixel(400, x, y) * 4;
              t + 4 <= PreviewLength && Preview(top, bottom)[t..t + 4] == [0, 0, 0, 0]
  {
    forall x: nat, y: nat | ColumnOffset <= x < ColumnOffset + 320 && RowOffset <= y < 480
      ensures var t, s := RgbaPixel(400, x, y) * 4, RgbaPixel(320, x - ColumnOffset, y - RowOffset) * 4;
              t + 4 <= PreviewLength && s + 4 <= BottomRgbaLength &&
              Preview(top, bottom)[t..t + 4] == bottom[s..s + 4]
    {
      PreviewWindowPixel(top, bottom, x, y);
    }
    forall x: nat, y: nat | (x < ColumnOffset || ColumnOffset + 320 <= x < 400) && RowOffset <= y < 480
      ensures var t := RgbaPixel(400, x, y) * 4;
              t + 4 <= PreviewLength && Preview(top, bottom)[t..t + 4] == [0, 0, 0, 0]
    {
      PreviewBorderPixel(top, bottom, x, y);
    }
  }

  /** generatePreviewRGBA on the buffers of the bitmaps it is given (None for an absent buffer). */
  function PreviewSpec(screens: seq<Option<seq<byte>>>): (r: Result<Image>)
    ensures |screens| != 2 ==> r == Err(InvalidData)
    ensures |screens| == 2 && screens[0].None? ==> r == Err(MissingBuffer)
    ensures |screens| == 2 && screens[0].Some? && |screens[0].value| != TopRgbaLength ==>
              r == Err(TopScreenInvalidSize)
    ensures |screens| == 2 && screens[0].Some? && |screens[0].value| == TopRgbaLength && screens[1].None? ==>
              r == Err(MissingBuffer)
    ensures |screens| == 2 && screens[0].Some? && |screens[0].value| == TopRgbaLength &&
            screens[1].Some? && |screens[1].value| != BottomRgbaLength ==>
              r == Err(BottomScreenInvalidSize)
    ensures r.Ok? <==> |screens| == 2 && screens[0].Some? && |screens[0].value| == TopRgbaLength &&
                       screens[1].Some? && |screens[1].value| == BottomRgbaLength
    ensures r.Ok? ==> r.value.width == 400 && r.value.height == 480 &&
                      |r.value.data| == PreviewLength == r.value.width * r.value.height * 4 &&
                      r.value.data[..TopRgbaLength] == screens[0].value
  {
    if |screens| != 2 then Err(InvalidData)
    else if screens[0].None? then Err(MissingBuffer)
    else if |screens[0].value| != TopRgbaLength then Err(TopScreenInvalidSize)
    else if screens[1].None? then Err(MissingBuffer)
    else if |screens[1].value| != BottomRgbaLength then Err(BottomScreenInvalidSize)
    else
      PreviewRegions(screens[0].value, screens[1].value);
      Ok(Image(Preview(screens[0].value, screens[1].value), 400, 480))
  }
}
