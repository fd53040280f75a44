# Background removal: a Dafny model of `remove_background`

The service takes an uploaded image and removes its background. If the
`rembg` segmentation library was importable when the process started, it
hands the image to that library. Otherwise it runs a heuristic: every pixel
whose R, G and B all exceed 200 becomes fully transparent white
`(255,255,255,0)`, and every other pixel is kept as it is. After either path,
a background directive other than `"transparent"` paints the result over a
new canvas of one solid colour, using the result's own alpha band as the
paste mask.

This project models that routine (`app.py:37-62`) and the start-up flag
that picks the path (`app.py:11-15`).

- `pixels.dfy`, module `Pixels`: 8-bit channels, RGB and RGBA pixels, and
  decoded rasters (`Picture`: width, height and a pixel list of exactly
  width × height entries). `ToRgba` models `convert("RGBA")` for the two
  modes covered.
- `fallback.dfy`, module `Fallback`: the threshold test `IsNearWhite` and the
  list `Knockout` the fallback builds. `KnockoutLoop` is the `for` loop that
  appends to `newData`, proved to build exactly `Knockout`. The lemmas show
  that `Knockout` works pixel by pixel and is idempotent.
- `canvas.dfy`, module `Canvas`: the imaging library's mutable RGBA image
  object as a class `Image`. It covers `Image.new`, `convert("RGBA")`,
  `putdata` and a masked `paste`. A paste keeps the destination where the
  mask is 0 and takes the source where it is 255. Other mask values go to a
  `Blend` function passed in as a parameter.
- `remover.dfy`, module `Remover`: the error cases, the value form of the
  routine (`Isolate`, then `Fill`, combined in `Process`), and the class
  `BackgroundRemover`. That class holds the start-up flag as a `const` set
  by its constructor. Its `RemoveBackground` method follows the source step
  by step, allocates new image objects, and is proved equal to `Process`.
- `properties.dfy`, module `Properties`: what the routine promises, stated
  over `Process`, `Isolate` and `Fill`.

Things outside the routine become parameters:
- the segmentation call together with decoding its output (`Segmenter`,
  which returns `None` when either raises);
- parsing the colour string (`ColorParser`, which returns `None` for an
  unknown colour);
- the library's blending under a partial mask (`Blend`).

## Model

| member | source | states |
|---|---|---|
| `Pixels.Alphas` | app.py:59 | the mask `split()[3]` has one entry per pixel, and entry i is pixel i's alpha |
| `Fallback.IsNearWhite` | app.py:49 | transparent white itself passes the test, which is what makes the fallback idempotent |
| `Fallback.Classify` | app.py:49-52 | the appended pixel is the input or `(255,255,255,0)`; it lies on the same side of the threshold as the input; its alpha changes only for a near-white pixel, and then to 0 |
| `Remover.FallbackIsolate` | app.py:43-54 | the fallback result is an RGBA image of the input's width and height with one pixel per input pixel (contents: `Properties.FallbackPixel`) |
| `Remover.Isolate` | app.py:39-54 | the first half fails exactly when the flag is set and the segmentation library fails, and then with `SegmentationError`; with the flag clear it succeeds and keeps the size (contents: `Properties.FallbackPixel`, `Properties.DelegatedUsesSegmenterOutput`) |
| `Remover.Fill` | app.py:56-60 | the fill fails exactly when the directive is not `"transparent"` and names no colour, and then with `InvalidColorSpec`; a success is an RGBA image of the result's size (contents: `Properties.FillAt`, `Properties.TransparentIsNoOp`) |
| `Remover.Process` | app.py:37-62 | a `SegmentationError` happens only with the flag set and the library failing, and an `InvalidColorSpec` only for a non-`"transparent"` directive that names no colour; the fallback with `"transparent"` always succeeds (more in the `Properties` lemmas) |
| `Pixels.ToRgba` | app.py:44 | converting to RGBA keeps the size; an RGBA image is unchanged; an RGB pixel keeps its colour and gets alpha 255 |
| `Fallback.Knockout` | app.py:46-52 | the fallback's pixel list has exactly one entry per input pixel |
| `Fallback.KnockoutLoop` | app.py:45-52 | the append loop over the image data builds exactly the `Knockout` list of its input |
| `Fallback.KnockoutAt` | app.py:47-52 | output pixel k depends on input pixel k only: if R, G and B are all > 200 it is `(255,255,255,0)` whatever the input alpha, otherwise (a band of exactly 200 included) it is the input pixel, alpha included |
| `Fallback.KnockoutIdempotent` | app.py:47-52 | applying the fallback to its own output changes nothing |
| `Fallback.KnockoutConcat` | app.py:46-52 | processing two parts of the data separately and concatenating matches processing the whole, so order is kept and nothing is dropped or duplicated |
| `Canvas.Pasted` | app.py:59 | a masked paste keeps the length; mask 0 keeps the canvas pixel and mask 255 takes the pasted pixel |
| `Canvas.Image.New` | app.py:53 | a new image has the given size and every pixel is the fill colour |
| `Canvas.Image.Converted` | app.py:44 | `convert("RGBA")` gives a new image object holding `ToRgba` of its input |
| `Canvas.Image.PutData` | app.py:54 | `putdata` overwrites the leading pixels with the data in order and keeps the size |
| `Canvas.Image.Paste` | app.py:59 | `paste` with a mask replaces the image's pixels by `Pasted` of the old pixels, the source and the mask |
| `Remover.BackgroundRemover.constructor` | app.py:11-15 | the segmentation flag is fixed when the object is built (a `const` never reassigned) |
| `Remover.BackgroundRemover.RemoveBackground` | app.py:37-62 | succeeds exactly when `Process` does, with the same error otherwise, and returns a new image whose contents are `Process`'s result |
| `Properties.FallbackKeepsSize` | app.py:44-54 | the fallback always succeeds and keeps width, height and pixel count |
| `Properties.FallbackPixel` | app.py:47-54 | on the fallback path, near-white converted pixels become `(255,255,255,0)` and all others are kept exactly |
| `Properties.FallbackIdempotent` | app.py:43-54 | the fallback path run on its own output returns the same image |
| `Properties.FallbackIgnoresSegmenter` | app.py:39 | when the flag is false the segmentation library is never consulted |
| `Properties.DelegatedFailurePropagates` | app.py:39-41 | when the flag is true a segmentation failure is the result: no fallback and no fill |
| `Properties.DelegatedIgnoresImage` | app.py:39-41 | with the flag set, two images the segmentation library treats alike give the same result, so the threshold plays no part |
| `Properties.DelegatedUsesSegmenterOutput` | app.py:39-41 | with the flag set and the library succeeding, the `"transparent"` result is the library's decoded output converted to RGBA |
| `Properties.AsWrittenSegmenter` | app.py:40-41 | the segmentation step as line 41 is written fails on every input |
| `Properties.AsWrittenDelegatedAlwaysFails` | app.py:39-41 | with line 41 as written, the delegated path returns `SegmentationError` for every image and directive |
| `Properties.TransparentIsNoOp` | app.py:57 | the directive `"transparent"` returns the isolated result unchanged and parses no colour |
| `Properties.UnresolvableColorFails` | app.py:57-58 | any other directive that names no colour fails with `InvalidColorSpec` |
| `Properties.FillAt` | app.py:57-60 | a resolved colour yields an image of the result's size that shows the colour where alpha is 0 and the result pixel where alpha is 255 |
| `Properties.FallbackFillOverNearWhite` | app.py:49-50 | on the fallback path with a fill colour, every near-white input pixel shows exactly the fill colour |
| `Properties.RgbFallbackFillIsOpaque` | app.py:44-60 | an RGB input on the fallback path over an opaque colour gives, per pixel, the colour (near-white) or the opaque input pixel, so the whole output is opaque |
| `Properties.WhiteImageBecomesTransparent` | app.py:49-50 | on the fallback path an all-white image comes back with alpha 0 everywhere |
| `Properties.BlackRgbImageIsKept` | app.py:44-52 | on the fallback path an all-black RGB image comes back black and opaque |
| `Properties.TwoByTwoTransparent` | app.py:43-62 | 2×2 white-over-black RGB with `"transparent"` gives two `(255,255,255,0)` and two `(0,0,0,255)` |
| `Properties.TwoByTwoRed` | app.py:43-62 | the same image with a directive resolving to opaque red gives two `(255,0,0,255)` and two `(0,0,0,255)` |

## Left out

- `rembg.remove` and decoding its output (app.py:40-41) are one `Segmenter` parameter, and its failure is `SegmentationError`. For what line 41 does as written, see "## Findings".
- Input modes other than RGB and RGBA (palette, greyscale, …) are not modelled, because `convert("RGBA")` for them is library behaviour.
- Parsing the colour string in `Image.new(..., bg_color)` (app.py:58) is the `ColorParser` parameter.
- Canvas.Pasted: states nothing for mask values strictly between 0 and 255, because the library's blending arithmetic is not part of this model (it is the `Blend` parameter).
- A solid-colour result is not claimed to be fully opaque in general: the library blends the alpha band under a partial mask, and the fill colour itself may be translucent. Full opacity is proved only where it holds regardless of blending (`RgbFallbackFillIsOpaque`).
- Canvas.Image.PutData: requires that the data is not longer than the image. The library raises in that case; `remove_background` always passes exactly one entry per pixel.
- Canvas.Image.Paste: requires that source, mask and canvas have the same size. Without a box, the library takes the pasted region's size from the source and clips it to the canvas, and it raises only when the mask's size differs from the source's. Other sizes are not modelled, because `remove_background` always pastes an image of the canvas's own size with that image's own alpha band as the mask.
- The default `bg_color="transparent"` (app.py:37) is not modelled: `RemoveBackground` always takes the directive explicitly. The only caller, the upload route (app.py:79), always passes one, and its own form default is the same string.
- The start-up warning `print` (app.py:16) is console output.
- Routes, upload reading, error-to-JSON mapping and decoding of the upload (app.py:69-107) are framework glue and I/O. So are CORS (24-29), the output directory and saving with timestamped names (32, 82-84), the download existence check (99-102) and server start-up (113-117).
- Exceptions other than the two modelled failures (running out of memory, a corrupt image found while reading pixels) are not modelled.

## Findings

| source | as written | input that shows it | evidently intended | confidence | as-written member | corrected member |
|---|---|---|---|---|---|---|
| app.py:40-41 | `remove(image)` is given an image object. `rembg.remove` then returns an image object, not bytes, so `Image.open(io.BytesIO(output))` raises | any upload with `rembg` installed | decode the library's result as an image, or use it directly, and convert it to RGBA | medium; depends on `rembg`'s documented return type; not executed | `Properties.AsWrittenDelegatedAlwaysFails` | `Properties.DelegatedUsesSegmenterOutput` |
