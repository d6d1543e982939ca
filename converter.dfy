/**
 * The converters of index.js as imperative code: each allocates a fresh
 * buffer and fills it in nested loops over rows and columns, and each is
 * proved to compute the corresponding function of module Splash.
 */
module Converter {
  import opened Geometry
  import opened Splash

  /** A bitmap object: a buffer (possibly absent) with a width and a height (0 when absent). */
  class Bitmap {
    var data: array?<byte>
    var width: nat
    var height: nat

    constructor (data: array?<byte>, width: nat, height: nat)
      ensures this.data == data && this.width == width && this.height == height
    {
      this.data := data;
      this.width := width;
      this.height := height;
    }

    /** The contents of the buffer, if there is one. */
    ghost function Buffer(): Option<seq<byte>>
      reads this, data
    {
      if data == null then None else Some(data[..])
    }

    /** This object holds exactly the image img. */
    ghost predicate Holds(img: Image)
      reads this, data
    {
      data != null && data[..] == img.data && width == img.width && height == img.height
    }
  }

  /** The buffers of a sequence of bitmap objects. */
  ghost function Buffers(screens: seq<Bitmap>): (r: seq<Option<seq<byte>>>)
    reads screens, set i | 0 <= i < |screens| :: screens[i].data
    ensures |r| == |screens|
    ensures forall i :: 0 <= i < |screens| ==> r[i] == screens[i].Buffer()
  {
    if screens == [] then [] else [screens[0].Buffer()] + Buffers(screens[1..])
  }

  /** One iteration of the pixel loop of binToRGBA: writes the four RGBA bytes of pixel (x, y). */
  method UnpackPixel(src: array<byte>, out: array<byte>, w: nat, h: nat, x: nat, y: nat)
    requires src != out && src.Length == w * h * 3 && out.Length == w * h * 4 && x < w && y < h
    modifies out
    ensures var i2 := RgbaPixel(w, x, y) * 4;
            forall k :: 0 <= k < out.Length ==>
              out[k] == if i2 <= k < i2 + 4 then Unpack(src[..], w, h)[k] else old(out[k])
  {
    ghost var bin := src[..];
    ghost var before := out[..];
    var ty := x;
    var tx := h - y - 1;
    var i := (ty * h + tx) * 3;
    var i2 := (y * w + x) * 4;
    UnpackAt(bin, w, h, x, y);
    assert i == DevicePixel(h, x, y) * 3 && i2 == RgbaPixel(w, x, y) * 4;
    out[i2] := src[i + 2];
    out[i2 + 1] := src[i + 1];
    out[i2 + 2] := src[i];
    out[i2 + 3] := 255;
    assert forall k :: 0 <= k < out.Length && !(i2 <= k < i2 + 4) ==> out[k] == before[k];
  }

  /** The pixel loop of binToRGBA: a fresh RGBA buffer filled from device buffer src. */
  method UnpackPixels(src: array<byte>, w: nat, h: nat) returns (out: array<byte>)
    requires src.Length == w * h * 3
    ensures fresh(out) && out[..] == Unpack(src[..], w, h)
  {
    DivModUnique(src.Length, 3, w * h, 0);
    out := new byte[src.Length / 3 * 4];
    ghost var rgba := Unpack(src[..], w, h);
    var y := 0;
    while y < h
      invariant 0 <= y <= h
      invariant forall k :: 0 <= k < out.Length && k < RgbaPixel(w, 0, y) * 4 ==> out[k] == rgba[k]
    {
      var x := 0;
      while x < w
        invariant 0 <= x <= w
        invariant forall k :: 0 <= k < out.Length && k < RgbaPixel(w, x, y) * 4 ==> out[k] == rgba[k]
      {
        assert RgbaPixel(w, x + 1, y) * 4 == RgbaPixel(w, x, y) * 4 + 4;
        UnpackPixel(src, out, w, h, x, y);
        x := x + 1;
      }
      assert RgbaPixel(w, w, y) == RgbaPixel(w, 0, y + 1);
      y := y + 1;
    }
    assert out[..] == rgba;
  }

  /**
   * binToRGBA: unpacks the device buffer of bitmap into a fresh RGBA bitmap.
   * When the width or the height is absent, the resolution inferred from the
   * buffer length is written back into bitmap.
   */
  method BinToRgba(bitmap: Bitmap) returns (r: Result<Bitmap>)
    modifies bitmap
    ensures var spec := BinToRgbaSpec(old(bitmap.Buffer()), old(bitmap.width), old(bitmap.height));
            && (r.Err? <==> spec.Err?)
            && (r.Err? ==> r.error == spec.error)
            && (r.Ok? ==> r.value.Holds(spec.value) && fresh(r.value) && fresh(r.value.data))
    ensures bitmap.data == old(bitmap.data)
    ensures var inferred := old(bitmap.data) != null && (old(bitmap.width) == 0 || old(bitmap.height) == 0);
            var size := if inferred then GetBinResolution(old(bitmap.data.Length)) else None;
            if size.Some? then bitmap.width == size.value.width && bitmap.height == size.value.height
            else bitmap.width == old(bitmap.width) && bitmap.height == old(bitmap.height)
  {
    if bitmap.data == null {
      return Err(MissingBuffer);
    }
    var src := bitmap.data;
    if bitmap.width == 0 || bitmap.height == 0 {
      var size := GetBinResolution(src.Length);
      if size.None? {
        return Err(UnknownResolution);
      }
      bitmap.width := size.value.width;
      bitmap.height := size.value.height;
    }
    var w, h := bitmap.width, bitmap.height;
    if w * h * 3 != src.Length {
      return Err(IncorrectDataSize);
    }

    var out := UnpackPixels(src, w, h);
    var result := new Bitmap(out, w, h);
    r := Ok(result);
  }

  /** Device byte j belongs to a pixel that the row-by-row scan has reached before (x, y). */
  ghost predicate PackedBefore(h: nat, x: nat, y: nat, j: nat)
    requires 0 < h
  {
    var p := j / 3;
    DeviceRow(h, p) < y || (DeviceRow(h, p) == y && DeviceColumn(h, p) < x)
  }

  /** One iteration of the pixel loop of rgbaToBin: writes the three device bytes of pixel (x, y). */
  method PackPixel(src: array<byte>, output: array<byte>, w: nat, h: nat, x: nat, y: nat)
    requires src != output && src.Length == w * h * 4 && output.Length == w * h * 3 && x < w && y < h
    modifies output
    ensures var t := DevicePixel(h, x, y) * 3;
            forall j :: 0 <= j < output.Length ==>
              output[j] == if t <= j < t + 3 then Pack(src[..], w, h)[j] else old(output[j])
  {
    ghost var rgba := src[..];
    ghost var before := output[..];
    var ty := x;
    var tx := h - y - 1;
    var sourceIndex := (y * w + x) * 4;
    var targetIndex := (ty * h + tx) * 3;
    PackAt(rgba, w, h, x, y);
    assert targetIndex == DevicePixel(h, x, y) * 3 && sourceIndex == RgbaPixel(w, x, y) * 4;
    output[targetIndex] := src[sourceIndex + 2];
    output[targetIndex + 1] := src[sourceIndex + 1];
    output[targetIndex + 2] := src[sourceIndex];
    assert forall j :: 0 <= j < output.Length && !(targetIndex <= j < targetIndex + 3) ==> output[j] == before[j];
  }

  /** The pixel loop of rgbaToBin: a fresh device buffer filled from RGBA buffer src. */
  method PackPixels(src: array<byte>, w: nat, h: nat) returns (output: array<byte>)
    requires src.Length == w * h * 4 && 0 < w && 0 < h
    ensures fresh(output) && output[..] == Pack(src[..], w, h)
  {
    DivModUnique(src.Length, 4, w * h, 0);
    output := new byte[src.Length / 4 * 3];
    ghost var bin := Pack(src[..], w, h);
    var y := 0;
    while y < h
      invariant 0 <= y <= h
      invariant forall j :: 0 <= j < output.Length && PackedBefore(h, 0, y, j) ==> output[j] == bin[j]
    {
      var x := 0;
      while x < w
        invariant 0 <= x <= w
        invariant forall j :: 0 <= j < output.Length && PackedBefore(h, x, y, j) ==> output[j] == bin[j]
      {
        ghost var t := DevicePixel(h, x, y) * 3;
        PackPixel(src, output, w, h, x, y);
        forall j | 0 <= j < output.Length && PackedBefore(h, x + 1, y, j)
          ensures PackedBefore(h, x, y, j) || t <= j < t + 3
        {
          DevicePixelOnto(w, h, j / 3);
          DevicePixelInverse(w, h, x, y);
        }
        x := x + 1;
      }
      forall j | 0 <= j < output.Length && PackedBefore(h, 0, y + 1, j)
        ensures PackedBefore(h, w, y, j)
      {
        DevicePixelOnto(w, h, j / 3);
      }
      y := y + 1;
    }
    assert output[..] == bin;
  }

  /** rgbaToBin: packs the RGBA buffer of bitmap into a fresh device bitmap. */
  method RgbaToBin(bitmap: Bitmap) returns (r: Result<Bitmap>)
    ensures var spec := RgbaToBinSpec(bitmap.Buffer(), bitmap.width, bitmap.height);
            && (r.Err? <==> spec.Err?)
            && (r.Err? ==> r.error == spec.error)
            && (r.Ok? ==> r.value.Holds(spec.value) && fresh(r.value) && fresh(r.value.data))
  {
    if bitmap.data == null {
      return Err(InvalidData);
    }
    var src := bitmap.data;
    if src.Length == 0 {
      return Err(NoData);
    }
    var w, h := bitmap.width, bitmap.height;
    if h * w * 4 != src.Length {
      return Err(IncorrectDataSize);
    }
    assert 0 < h && 0 < w;

    var output := PackPixels(src, w, h);
    var result := new Bitmap(output, w, h);
    r := Ok(result);
  }

  /** The copy loop of generatePreviewRGBA: a fresh zero-filled canvas starting with the top buffer, then the overlay. */
  method ComposePreview(top: array<byte>, bottom: array<byte>) returns (output: array<byte>)
    requires top.Length == TopRgbaLength && bottom.Length == BottomRgbaLength
    ensures fresh(output) && output[..] == Preview(top[..], bottom[..])
  {
    output := new byte[top.Length * 2](_ => 0);
    for i := 0 to top.Length
      invariant forall k :: 0 <= k < i ==> output[k] == top[k]
      invariant forall k :: i <= k < output.Length ==> output[k] == 0
    {
      output[i] := top[i];
    }
    OverlayBottom(output, bottom, top[..]);
  }

  /** One iteration of the overlay loops of generatePreviewRGBA: copies bottom pixel (x, y) onto the canvas. */
  method OverlayPixel(output: array<byte>, bottom: array<byte>, ghost topBytes: seq<byte>, x: nat, y: nat)
    requires output.Length == PreviewLength && bottom.Length == BottomRgbaLength && |topBytes| == TopRgbaLength
    requires x < 320 && y < 240
    modifies output
    ensures var t := RgbaPixel(400, x + ColumnOffset, y + RowOffset) * 4;
            forall k :: 0 <= k < output.Length ==>
              output[k] == if t <= k < t + 4 then Preview(topBytes, bottom[..])[k] else old(output[k])
  {
    var xOff, yOff := ColumnOffset, RowOffset;
    ghost var before := output[..];
    ghost var canvas := Preview(topBytes, bottom[..]);
    var tx := x + xOff;
    var ty := y + yOff;
    var sourceIndex := (y * 320 + x) * 4;
    var targetIndex := (ty * 400 + tx) * 4;
    PreviewAt(topBytes, bottom[..], x, y);
    assert sourceIndex == RgbaPixel(320, x, y) * 4;
    assert targetIndex == RgbaPixel(400, x + xOff, y + yOff) * 4;
    output[targetIndex] := bottom[sourceIndex];
    output[targetIndex + 1] := bottom[sourceIndex + 1];
    output[targetIndex + 2] := bottom[sourceIndex + 2];
    output[targetIndex + 3] := bottom[sourceIndex + 3];
    // The written bytes are named one by one, and the forall splits the window
    // into its four positions, so that the solver instantiates the definition
    // of Preview at exactly these indices; without them the proof costs twice as much.
    assert output[targetIndex] == canvas[targetIndex] && output[targetIndex + 1] == canvas[targetIndex + 1];
    assert output[targetIndex + 2] == canvas[targetIndex + 2] && output[targetIndex + 3] == canvas[targetIndex + 3];
    forall k | 0 <= k < output.Length
      ensures output[k] == if targetIndex <= k < targetIndex + 4 then canvas[k] else before[k]
    {
      if k < targetIndex || targetIndex + 4 <= k {
        assert output[k] == before[k];
      } else if k == targetIndex || k == targetIndex + 1 {
      } else if k == targetIndex + 2 || k == targetIndex + 3 {
      }
    }
  }

  /**
   * The overlay loops of generatePreviewRGBA: writes bottom pixel (x, y) to
   * canvas pixel (x + 40, y + 240) of a canvas that holds the top buffer
   * followed by zeros.
   */
  method OverlayBottom(output: array<byte>, bottom: array<byte>, ghost topBytes: seq<byte>)
    requires output.Length == PreviewLength && bottom.Length == BottomRgbaLength && |topBytes| == TopRgbaLength
    requires forall k :: 0 <= k < PreviewLength ==> output[k] == if k < TopRgbaLength then topBytes[k] else 0
    modifies output
    ensures output[..] == Preview(topBytes, old(bottom[..]))
  {
    ghost var bottomBytes := bottom[..];
    ghost var canvas := Preview(topBytes, bottomBytes);
    PreviewGap(topBytes, bottomBytes, RowOffset);

    var y := 0;
    while y < 240
      invariant 0 <= y <= 240
      invariant forall k :: 0 <= k < output.Length ==>
                  output[k] == if k < RgbaPixel(400, ColumnOffset, y + RowOffset) * 4 then canvas[k] else 0
    {
      var x := 0;
      while x < 320
        invariant 0 <= x <= 320
        invariant forall k :: 0 <= k < output.Length ==>
                    output[k] == if k < RgbaPixel(400, x + ColumnOffset, y + RowOffset) * 4 then canvas[k] else 0
      {
        assert RgbaPixel(400, x + 1 + ColumnOffset, y + RowOffset) * 4 ==
               RgbaPixel(400, x + ColumnOffset, y + RowOffset) * 4 + 4;
        OverlayPixel(output, bottom, topBytes, x, y);
        x := x + 1;
      }
      PreviewGap(topBytes, bottomBytes, y + RowOffset + 1);
      y := y + 1;
    }
    assert output[..] == canvas;
  }

  /**
   * generatePreviewRGBA: composes the top and the bottom RGBA bitmap into a
   * fresh 400x480 canvas, the bottom one at column offset 40 and row offset 240.
   */
  method GeneratePreviewRgba(screens: seq<Bitmap>) returns (r: Result<Bitmap>)
    ensures var spec := PreviewSpec(Buffers(screens));
            && (r.Err? <==> spec.Err?)
            && (r.Err? ==> r.error == spec.error)
            && (r.Ok? ==> r.value.Holds(spec.value) && fresh(r.value) && fresh(r.value.data))
  {
    if |screens| != 2 {
      return Err(InvalidData);
    }
    var top, bottom := screens[0].data, screens[1].data;
    if top == null {
      return Err(MissingBuffer);
    }
    if top.Length != TopRgbaLength {
      return Err(TopScreenInvalidSize);
    }
    if bottom == null {
      return Err(MissingBuffer);
    }
    if bottom.Length != BottomRgbaLength {
      return Err(BottomScreenInvalidSize);
    }

    var output := ComposePreview(top, bottom);
    var result := new Bitmap(output, 400, 480);
    r := Ok(result);
  }
}
