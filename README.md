# node-3ds-splash pixel converters in Dafny

This project models the pixel-buffer core of `index.js` from node-3ds-splash and proves properties of it. node-3ds-splash converts splash-screen images for a dual-screen handheld between two formats:

- the device ("bin") format: 3 bytes per pixel, B, G, R, with the image rotated by 90 degrees;
- plain RGBA bitmaps: 4 bytes per pixel, row by row.

It also composes a preview of the two screens. The top screen is 400x240 and the bottom screen is 320x240.

The project has three modules:

- `Geometry` (`geometry.dfy`) holds the two index maps.
  - RGBA pixel `(x, y)` is stored at pixel index `y * w + x`.
  - The same pixel is stored in the device buffer at pixel index `x * h + (h - 1 - y)`.
  - The module proves that the rotated map is a bijection from the `w` by `h` grid onto `[0, w * h)`.
  - It also holds the small division lemmas that this proof needs.
- `Splash` (`splash.dfy`) states what each routine computes, as functions on byte sequences. It covers:
  - the resolution table;
  - `Unpack` for binToRGBA and `Pack` for rgbaToBin;
  - `Preview` for generatePreviewRGBA;
  - one `...Spec` function per routine, which includes every rejection.

  The lemmas say where each byte goes, that the two conversions undo each other, and what each region of the preview canvas holds.
- `Converter` (`converter.dfy`) is the imperative code. `Bitmap` is a class with the source object's `data`, `width` and `height`. The three routines are methods:
  - each allocates a fresh array;
  - each fills the array in the source's nested loops over `y` and `x`;
  - each is proved to return exactly the `Splash` specification of its input.

  `BinToRgba` also writes the inferred width and height back into the bitmap it was given, as the source does.

The model's conventions:

- Width and height are `nat`, and 0 stands for absent. This matches the truthiness test `!data.width || !data.height`.
- A bitmap whose `data` is absent is `null` in `Converter` and `None` in `Splash`.
- The promise each routine returns is modelled as its settled outcome, `Result<T> = Ok(value) | Err(error)`.
- There is one `Error` constructor per distinct rejection message. `MissingBuffer` stands for the `TypeError` that the source's executor raises when it reads `.length` of an absent buffer. That error also rejects the promise.

## Model

| member | source | states |
|---|---|---|
| Splash.GetBinResolution | index.js:194-200 | Only buffer lengths 288000 and 230400 are recognised. 288000 gives 400x240 and 230400 gives 320x240. Any resolution returned satisfies `width * height * 3 == length`. |
| Splash.ResolveBinSize | index.js:17-29 | If width or height is absent, the resolution comes from the length: an unrecognised length is `UnknownResolution`. If both are given they are kept, and succeed iff `w * h * 3 == length`, else `IncorrectDataSize`. A success always has positive dimensions that match the length. |
| Splash.Unpack | index.js:32-44 | The RGBA buffer that the binToRGBA loops build, defined byte by byte from the output index. It has `w * h * 4` bytes. Where each byte comes from is stated by `UnpackByteAt` and `UnpackAt`. |
| Splash.UnpackByteAt | index.js:37-42 | Byte `c` of RGBA pixel `(x, y)` is byte `2 - c` of device pixel `x * h + (h - 1 - y)` for `c < 3`, and 255 for `c == 3`. Both indices are in bounds. |
| Splash.UnpackAt | index.js:34-42 | The four RGBA bytes at `(y * w + x) * 4` are source bytes `i + 2`, `i + 1`, `i` and then 255, where `i = (x * h + h - 1 - y) * 3`. Both indices are in bounds. |
| Splash.UnpackIsOpaque | index.js:42 | Every alpha byte (index `k % 4 == 3`) of an unpacked image is 255. |
| Splash.BinToRgbaSpec | index.js:15-50 | An absent buffer is rejected (`MissingBuffer`). Otherwise the call is rejected exactly when `ResolveBinSize` rejects, with the same error. On success the output has `length / 3 * 4` bytes and `width * height * 4` bytes, keeps a given width and height, and every alpha byte is 255. |
| Splash.Pack | index.js:101-112 | The device buffer that the rgbaToBin loops build, defined byte by byte from the output index. It has `w * h * 3` bytes. Where each byte comes from is stated by `PackAt`. |
| Splash.PackAt | index.js:103-110 | The device bytes `t`, `t + 1`, `t + 2` at `t = (x * h + h - 1 - y) * 3` are RGBA bytes `s + 2`, `s + 1`, `s` at `s = (y * w + x) * 4`. Both indices are in bounds. |
| Splash.RgbaToBinSpec | index.js:83-118 | The checks run in this order: an absent buffer gives `InvalidData`, an empty buffer gives `NoData`, and `h * w * 4 != length` gives `IncorrectDataSize`. The call succeeds iff none applies. On success the output has `length / 4 * 3` bytes, the same width and height, and both are positive. |
| Splash.PackUnpack | index.js:101-111 | Packing an unpacked device buffer gives back the device buffer byte for byte. |
| Splash.UnpackPack | index.js:32-44 | Unpacking a packed RGBA buffer gives back every R, G and B byte, and sets every alpha byte to 255. |
| Splash.BinRoundTrip | index.js:15-50 | After a successful binToRGBA, rgbaToBin succeeds on its result with the same resolution and returns the original device buffer. |
| Splash.RgbaRoundTrip | index.js:83-118 | After a successful rgbaToBin, binToRGBA on its result, with the same width and height, succeeds. The result has the same dimensions and length, the same colour bytes, and alpha 255. |
| Geometry.RgbaPixel | index.js:38 | The row-major index `y * w + x` of RGBA pixel `(x, y)`, which both loops use for the RGBA side (index.js:38 and 105). Its properties are stated by `RgbaPixelInverse` and `RgbaPixelOnto`. |
| Geometry.DevicePixel | index.js:34-37 | The rotated index `x * h + (h - 1 - y)` of RGBA pixel `(x, y)` in the device buffer, computed as `ty * h + tx` in both loops (index.js:34-37 and 103-106). Its properties are stated by `DevicePixelInverse`, `DevicePixelOnto` and `RotationIsBijection`. |
| Geometry.RgbaPixelInverse | index.js:38 | For an in-range pixel, `y * w + x < w * h`, and the index gives back `x` (as `% w`) and `y` (as `/ w`). |
| Geometry.RgbaPixelOnto | index.js:38 | Every index below `w * h` is `y * w + x` of an in-range pixel. |
| Geometry.DevicePixelInverse | index.js:34-37 | For an in-range pixel, `x * h + (h - 1 - y) < w * h`, and the index gives back the column and the row. |
| Geometry.DevicePixelOnto | index.js:34-37 | Every device index below `w * h` is the device index of an in-range pixel. |
| Geometry.RotationIsBijection | index.js:103-106 | The map `(x, y) -> x * h + (h - 1 - y)` on the `w` by `h` grid is in range, injective and onto `[0, w * h)`. So every read and write is in bounds, and each output pixel is written by exactly one iteration. |
| Splash.Preview | index.js:146-164 | The canvas that generatePreviewRGBA builds, defined byte by byte. It has 768000 bytes. What each region holds is stated by `PreviewAt`, `PreviewWindowPixel`, `PreviewBorderPixel` and `PreviewRegions`. |
| Splash.PreviewAt | index.js:152-163 | Bottom pixel `(x, y)` appears on the canvas at `((y + 240) * 400 + x + 40) * 4`, all four bytes in order. That position is past the 384000 bytes of the top screen. |
| Splash.PreviewOutsideWindow | index.js:146 | Every byte of rows 240..479 in columns 0..39 and 360..399 of the canvas is 0. |
| Splash.PreviewGap | index.js:146-164 | In the bottom half, the bytes between the end of the bottom window on one row and its start on the next row are 0. |
| Splash.PreviewWindowPixel | index.js:152-163 | Canvas pixel `(x, y)` with `40 <= x < 360` and `240 <= y < 480` equals bottom pixel `(x - 40, y - 240)`, as a 4-byte slice. |
| Splash.PreviewBorderPixel | index.js:146 | Every other canvas pixel of rows 240..479 is `[0, 0, 0, 0]`. |
| Splash.PreviewRegions | index.js:146-164 | The canvas region by region. The first 384000 bytes are the top buffer. The window holds the bottom buffer pixel by pixel. The rest of the bottom half is zero. |
| Splash.PreviewSpec | index.js:126-170 | The checks run in this order: a count other than 2 gives `InvalidData`, an absent top buffer gives `MissingBuffer`, a top length other than 384000 gives `TopScreenInvalidSize`, an absent bottom buffer gives `MissingBuffer`, and a bottom length other than 307200 gives `BottomScreenInvalidSize`. The call succeeds iff none applies. On success the canvas is 400x480, 768000 bytes, and starts with the top buffer. |
| Converter.Bitmap.constructor | index.js:3-9 | The `Bitmap` object of the source as a class with a nullable `data` array, a `width` and a `height`. The constructor sets exactly those three fields. |
| Converter.UnpackPixel | index.js:34-42 | One iteration of the binToRGBA loop. It writes exactly the four bytes of RGBA pixel `(x, y)`, with the values `Unpack` gives them, and leaves every other byte unchanged. |
| Converter.UnpackPixels | index.js:30-44 | The binToRGBA loops return a fresh array whose contents are `Unpack` of the device buffer. So every byte of the unsafe allocation is written. |
| Converter.BinToRgba | index.js:15-50 | It returns what `BinToRgbaSpec` says for the bitmap's old buffer, width and height, as a fresh bitmap over a fresh array. It writes the inferred resolution back into the bitmap only when width or height was absent and the length was recognised. Otherwise it leaves the bitmap unchanged. |
| Converter.PackPixel | index.js:103-110 | One iteration of the rgbaToBin loop. It writes exactly the three bytes of device pixel `x * h + (h - 1 - y)`, with the values `Pack` gives them, and leaves every other byte unchanged. |
| Converter.PackPixels | index.js:100-112 | The rgbaToBin loops return a fresh array whose contents are `Pack` of the RGBA buffer. So every byte of the unsafe allocation is written. |
| Converter.RgbaToBin | index.js:83-118 | It returns what `RgbaToBinSpec` says for the bitmap's buffer, width and height, as a fresh bitmap over a fresh array. It does not change the bitmap. |
| Converter.ComposePreview | index.js:146-164 | It allocates a zero-filled canvas, copies the top buffer into it and overlays the bottom buffer. The result is a fresh array equal to `Preview(top, bottom)`. |
| Converter.OverlayPixel | index.js:154-162 | One iteration of the overlay loop. It writes exactly the four canvas bytes of bottom pixel `(x, y)`, with the values `Preview` gives them, and leaves every other byte unchanged. |
| Converter.OverlayBottom | index.js:152-164 | Given a canvas that holds the top buffer followed by zeros, the overlay loops turn it into `Preview(top, bottom)`. |
| Converter.GeneratePreviewRgba | index.js:126-170 | It returns what `PreviewSpec` says for the buffers of the bitmaps it is given, as a fresh 400x480 bitmap over a fresh array. |

## Left out

- `rgbaToPNG`, `binToPNG` and `generatePreviewPNG` (index.js:58-67, 74-76, 178-180) are not modelled. They only hand a buffer to the `pngjs` library, which is not part of this model.
- Asynchrony is not modelled. Each routine returns a promise, and the model gives only the outcome that promise settles with.
- JavaScript number coercions are not modelled. Width and height are natural numbers with 0 for absent, so NaN, negative and fractional widths cannot occur.
- An absent input object, or an element of the array given to generatePreviewRGBA that is not an object, is not modelled. Each such case raises a `TypeError` in the source. The model's bitmaps are always objects; only their buffer may be absent.
- `Buffer.allocUnsafe` (index.js:30, 100) is modelled as a fresh array of unspecified contents. The methods prove that every byte is overwritten, so the leftover memory never shows in a result.
- Converter.BinToRgba returns the size error as soon as it is found. The source (index.js:27-29) rejects without returning and runs on into the pixel loop. Its promise is already settled at that point, so the loop has no effect on the outcome.

  The model does not reproduce what the source does on that path after the rejection at index.js:28:
  - The loops still run over the declared `height` by `width` pixels (index.js:32-33), synchronously, before `binToRGBA` returns its promise. For a 3-byte buffer declared as 100000 by 100000 that is 10^10 iterations.
  - Reads past the end of the source buffer yield `undefined`.
  - Writes past the end of the output buffer are dropped.

  None of this changes the settled outcome, which is the size rejection.
- Two doc comments disagree with the code. rgbaToBin's says it returns RGBA (index.js:81); it returns a device buffer. generatePreviewRGBA's says it returns a PNG (index.js:124); it returns an RGBA bitmap. The model follows the code.
