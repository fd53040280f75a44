/** remove_background (app.py:37-62): isolate the subject, by the
    segmentation library when it was importable at start-up and by the
    threshold heuristic otherwise, then optionally paint the result over a
    solid colour. */
module Remover {
  import opened Pixels
  import opened Fallback
  import opened Canvas

  /** The failures remove_background passes on to its caller. */
  datatype Error =
    | SegmentationError   // the library call or decoding its output failed
    | InvalidColorSpec    // the background directive names no colour

  datatype Option<+T> = None | Some(value: T)

  datatype Result<+T> = Success(value: T) | Failure(error: Error)

  /** The directive that asks for no fill. */
  const TransparentDirective: string := "transparent"

  /** The segmentation library together with decoding what it returns
      (app.py:40-41); None when either raises. */
  type Segmenter = Picture -> Option<Picture>

  /** The library's parsing of a colour name or hex string (app.py:58). */
  type ColorParser = string -> Option<Pixel>

  /** The fallback path of app.py:44-54 as a value: convert, classify every
      pixel, and put the list into a new image of the same size. */
  function FallbackIsolate(image: Picture): (out: Picture)
    ensures out.RgbaRaster?
    ensures out.width == image.width && out.height == image.height
    ensures |out.rgba| == image.Area()
  {
    var rgba := ToRgba(image);
    RgbaRaster(rgba.width, rgba.height, Knockout(rgba.rgba))
  }

  /** The first half of remove_background: the subject on a transparent
      background, by whichever path the start-up flag chose. */
  function Isolate(rembgAvailable: bool, image: Picture, segment: Segmenter): (r: Result<Picture>)
    ensures r.Success? ==> r.value.RgbaRaster?
    ensures r.Failure? <==> rembgAvailable && segment(image).None?
    ensures r.Failure? ==> r.error == SegmentationError
    ensures !rembgAvailable ==> r.value.width == image.width && r.value.height == image.height
  {
    if rembgAvailable then
      match segment(image)
      case None => Failure(SegmentationError)
      case Some(decoded) => Success(ToRgba(decoded))
    else
      Success(FallbackIsolate(image))
  }

  /** The optional fill of app.py:56-60. */
  function Fill(result: Picture, bgColor: string, resolve: ColorParser, blend: Blend): (r: Result<Picture>)
    requires result.RgbaRaster?
    ensures r.Success? ==> r.value.RgbaRaster?
    ensures r.Success? ==> r.value.width == result.width && r.value.height == result.height
    ensures r.Failure? <==> bgColor != TransparentDirective && resolve(bgColor).None?
    ensures r.Failure? ==> r.error == InvalidColorSpec
  {
    if bgColor == TransparentDirective then Success(result)
    else
      match resolve(bgColor)
      case None => Failure(InvalidColorSpec)
      case Some(c) =>
        var canvas := Solid(result.Area(), c);
        Success(RgbaRaster(result.width, result.height, Pasted(canvas, result.rgba, Alphas(result.rgba), blend)))
  }

  /** remove_background as a value. */
  function Process(rembgAvailable: bool, image: Picture, bgColor: string,
                   segment: Segmenter, resolve: ColorParser, blend: Blend): (r: Result<Picture>)
    ensures r.Success? ==> r.value.RgbaRaster?
    ensures r.Failure? && r.error == SegmentationError ==> rembgAvailable && segment(image).None?
    ensures r.Failure? && r.error == InvalidColorSpec ==> bgColor != TransparentDirective && resolve(bgColor).None?
    ensures !rembgAvailable && bgColor == TransparentDirective ==> r.Success?
  {
    match Isolate(rembgAvailable, image, segment)
    case Failure(e) => Failure(e)
    case Success(result) => Fill(result, bgColor, resolve, blend)
  }

  /** The module of app.py after import: whether the segmentation library
      loaded is decided once, when it is built, and never changes. */
  class BackgroundRemover {
    const rembgAvailable: bool

    constructor (rembgAvailable: bool)
      ensures this.rembgAvailable == rembgAvailable
    {
      this.rembgAvailable := rembgAvailable;
    }

    method RemoveBackground(image: Picture, bgColor: string,
                            segment: Segmenter, resolve: ColorParser, blend: Blend)
      returns (res: Result<Image>)
      ensures res.Success? <==> Process(rembgAvailable, image, bgColor, segment, resolve, blend).Success?
      ensures res.Failure? ==> res.error == Process(rembgAvailable, image, bgColor, segment, resolve, blend).error
      ensures res.Success? ==> fresh(res.value) && res.value.Valid()
      ensures res.Success? ==> res.value.View() == Process(rembgAvailable, image, bgColor, segment, resolve, blend).value
    {
      var result: Image;
      if rembgAvailable {
        var output := segment(image);
        if output.None? {
          return Failure(SegmentationError);
        }
        result := new Image.Converted(output.value);
      } else {
        var converted := new Image.Converted(image);
        var newData := KnockoutLoop(converted.pixels);
        result := new Image.New(converted.width, converted.height, Blank);
        result.PutData(newData);
        assert result.pixels == newData;
      }

      if bgColor != TransparentDirective {
        var color := resolve(bgColor);
        if color.None? {
          return Failure(InvalidColorSpec);
        }
        var bg := new Image.New(result.width, result.height, color.value);
        bg.Paste(result, Alphas(result.pixels), blend);
        result := bg;
      }
      res := Success(result);
    }
  }
}
