/** What remove_background promises, stated over its value form Process and
    its two halves Isolate and Fill. */
module Properties {
  import opened Pixels
  import opened Fallback
  import opened Canvas
  import opened Remover

  /** On the fallback path the output has the input's size and one pixel per
      input pixel. */
  lemma FallbackKeepsSize(image: Picture, segment: Segmenter)
    ensures Isolate(false, image, segment).Success?
    ensures Isolate(false, image, segment).value.width == image.width
    ensures Isolate(false, image, segment).value.height == image.height
    ensures |Isolate(false, image, segment).value.rgba| == image.Area()
  {
  }

  /** On the fallback path output pixel k is decided by converted input pixel
      k alone: near-white becomes transparent white, anything else is kept,
      alpha included. */
  lemma FallbackPixel(image: Picture, segment: Segmenter, k: nat)
    requires k < image.Area()
    ensures Isolate(false, image, segment).Success?
    ensures IsNearWhite(ToRgba(image).rgba[k]) ==>
      Isolate(false, image, segment).value.rgba[k] == TransparentWhite
    ensures !IsNearWhite(ToRgba(image).rgba[k]) ==>
      Isolate(false, image, segment).value.rgba[k] == ToRgba(image).rgba[k]
  {
    KnockoutAt(ToRgba(image).rgba, k);
  }

  /** Running the fallback on its own output gives that output again. */
  lemma FallbackIdempotent(image: Picture, segment: Segmenter)
    ensures Isolate(false, image, segment).Success?
    ensures Isolate(false, Isolate(false, image, segment).value, segment) == Isolate(false, image, segment)
  {
    KnockoutIdempotent(ToRgba(image).rgba);
  }

  /** The fallback path never consults the segmentation library. */
  lemma FallbackIgnoresSegmenter(image: Picture, bgColor: string, s1: Segmenter, s2: Segmenter,
                                 resolve: ColorParser, blend: Blend)
    ensures Process(false, image, bgColor, s1, resolve, blend) == Process(false, image, bgColor, s2, resolve, blend)
  {
  }

  /** A failure of the segmentation library is passed on as it is: there is
      no retry with the fallback, and no fill is attempted. */
  lemma DelegatedFailurePropagates(image: Picture, bgColor: string, segment: Segmenter,
                                   resolve: ColorParser, blend: Blend)
    requires segment(image).None?
    ensures Process(true, image, bgColor, segment, resolve, blend) == Failure(SegmentationError)
  {
  }

  /** With the flag set, the result is decided by what the segmentation
      library returns: two images it treats alike give the same result. */
  lemma DelegatedIgnoresImage(i1: Picture, i2: Picture, bgColor: string, segment: Segmenter,
                              resolve: ColorParser, blend: Blend)
    requires segment(i1) == segment(i2)
    ensures Process(true, i1, bgColor, segment, resolve, blend) == Process(true, i2, bgColor, segment, resolve, blend)
  {
  }

  /** With the flag set and the library succeeding, the transparent result is
      the library's decoded output converted to RGBA; the threshold is not
      applied to it. */
  lemma DelegatedUsesSegmenterOutput(image: Picture, decoded: Picture, segment: Segmenter,
                                     resolve: ColorParser, blend: Blend)
    requires segment(image) == Some(decoded)
    ensures Process(true, image, TransparentDirective, segment, resolve, blend) == Success(ToRgba(decoded))
  {
  }

  /** Line 41 as written: the library, given an image object, returns an
      image object, and wrapping that in a byte stream raises, so every call
      behaves as a segmenter that fails. */
  function AsWrittenSegmenter(): (s: Segmenter)
    ensures forall image :: s(image).None?
  {
    _ => None
  }

  /** With line 41 as written, the delegated path fails on every input,
      whatever the directive. */
  lemma AsWrittenDelegatedAlwaysFails(image: Picture, bgColor: string, resolve: ColorParser, blend: Blend)
    ensures Process(true, image, bgColor, AsWrittenSegmenter(), resolve, blend) == Failure(SegmentationError)
  {
    DelegatedFailurePropagates(image, bgColor, AsWrittenSegmenter(), resolve, blend);
  }

  /** The directive "transparent" applies no fill, and does not parse a colour. */
  lemma TransparentIsNoOp(rembgAvailable: bool, image: Picture, segment: Segmenter,
                          resolve: ColorParser, blend: Blend)
    ensures Process(rembgAvailable, image, TransparentDirective, segment, resolve, blend)
         == Isolate(rembgAvailable, image, segment)
  {
  }

  /** Any other directive the colour parser rejects fails with
      InvalidColorSpec. */
  lemma UnresolvableColorFails(result: Picture, bgColor: string, resolve: ColorParser, blend: Blend)
    requires result.RgbaRaster?
    requires bgColor != TransparentDirective && resolve(bgColor).None?
    ensures Fill(result, bgColor, resolve, blend) == Failure(InvalidColorSpec)
  {
  }

  /** A resolved colour gives a new image of the result's size; where the
      result's alpha is 0 it shows the colour, where it is 255 it shows the
      result pixel. */
  lemma FillAt(result: Picture, bgColor: string, resolve: ColorParser, blend: Blend, c: Pixel, k: nat)
    requires result.RgbaRaster?
    requires bgColor != TransparentDirective && resolve(bgColor) == Some(c)
    requires k < result.Area()
    ensures Fill(result, bgColor, resolve, blend).Success?
    ensures Fill(result, bgColor, resolve, blend).value.width == result.width
    ensures Fill(result, bgColor, resolve, blend).value.height == result.height
    ensures result.rgba[k].a == 0 ==> Fill(result, bgColor, resolve, blend).value.rgba[k] == c
    ensures result.rgba[k].a == 255 ==> Fill(result, bgColor, resolve, blend).value.rgba[k] == result.rgba[k]
  {
  }

  /** On the fallback path with a fill colour, every near-white pixel shows
      exactly the fill colour. */
  lemma FallbackFillOverNearWhite(image: Picture, bgColor: string, segment: Segmenter,
                                  resolve: ColorParser, blend: Blend, c: Pixel, k: nat)
    requires bgColor != TransparentDirective && resolve(bgColor) == Some(c)
    requires k < image.Area() && IsNearWhite(ToRgba(image).rgba[k])
    ensures Process(false, image, bgColor, segment, resolve, blend).Success?
    ensures Process(false, image, bgColor, segment, resolve, blend).value.rgba[k] == c
  {
    FallbackPixel(image, segment, k);
    FillAt(Isolate(false, image, segment).value, bgColor, resolve, blend, c, k);
  }

  /** For an RGB input on the fallback path, painting over an opaque colour
      yields a fully opaque image: near-white pixels show the colour and all
      others the input pixel with alpha 255. No partial mask arises, so the
      library's blending never runs. */
  lemma RgbFallbackFillIsOpaque(image: Picture, bgColor: string, segment: Segmenter,
                                resolve: ColorParser, blend: Blend, c: Pixel)
    requires image.RgbRaster?
    requires bgColor != TransparentDirective && resolve(bgColor) == Some(c) && c.a == 255
    ensures Process(false, image, bgColor, segment, resolve, blend).Success?
    ensures forall k :: 0 <= k < image.Area() ==>
      Process(false, image, bgColor, segment, resolve, blend).value.rgba[k]
        == if IsNearWhite(ToRgba(image).rgba[k]) then c else Opaque(image.rgb[k])
    ensures forall k :: 0 <= k < image.Area() ==>
      Process(false, image, bgColor, segment, resolve, blend).value.rgba[k].a == 255
  {
    var result := Isolate(false, image, segment).value;
    forall k | 0 <= k < image.Area()
      ensures Process(false, image, bgColor, segment, resolve, blend).value.rgba[k]
        == if IsNearWhite(ToRgba(image).rgba[k]) then c else Opaque(image.rgb[k])
    {
      FallbackPixel(image, segment, k);
      FillAt(result, bgColor, resolve, blend, c, k);
    }
  }

  /** A fully white image loses every pixel to the background. */
  lemma WhiteImageBecomesTransparent(image: Picture, segment: Segmenter)
    requires forall k :: 0 <= k < image.Area() ==>
      ToRgba(image).rgba[k].r == 255 && ToRgba(image).rgba[k].g == 255 && ToRgba(image).rgba[k].b == 255
    ensures Isolate(false, image, segment).Success?
    ensures forall k :: 0 <= k < image.Area() ==> Isolate(false, image, segment).value.rgba[k].a == 0
  {
    forall k | 0 <= k < image.Area()
      ensures Isolate(false, image, segment).value.rgba[k].a == 0
    {
      FallbackPixel(image, segment, k);
    }
  }

  /** A fully black RGB image comes back with its colours and full opacity. */
  lemma BlackRgbImageIsKept(image: Picture, segment: Segmenter)
    requires image.RgbRaster?
    requires forall k :: 0 <= k < |image.rgb| ==> image.rgb[k] == Rgb(0, 0, 0)
    ensures Isolate(false, image, segment).Success?
    ensures forall k :: 0 <= k < image.Area() ==> Isolate(false, image, segment).value.rgba[k] == Rgba(0, 0, 0, 255)
  {
    forall k | 0 <= k < image.Area()
      ensures Isolate(false, image, segment).value.rgba[k] == Rgba(0, 0, 0, 255)
    {
      FallbackPixel(image, segment, k);
    }
  }

  /** Two white pixels over two black ones, as an RGB image. */
  function TwoByTwo(): (image: Picture)
    ensures image.RgbRaster? && image.Area() == 4
  {
    RgbRaster(2, 2, [Rgb(255, 255, 255), Rgb(255, 255, 255), Rgb(0, 0, 0), Rgb(0, 0, 0)])
  }

  /** The fallback with "transparent" on TwoByTwo: white becomes transparent
      white, black stays black and opaque. */
  lemma TwoByTwoTransparent(segment: Segmenter, resolve: ColorParser, blend: Blend)
    ensures Process(false, TwoByTwo(), TransparentDirective, segment, resolve, blend)
         == Success(RgbaRaster(2, 2, [TransparentWhite, TransparentWhite, Rgba(0, 0, 0, 255), Rgba(0, 0, 0, 255)]))
  {
    var image := TwoByTwo();
    var out := Isolate(false, image, segment).value;
    FallbackKeepsSize(image, segment);
    FallbackPixel(image, segment, 0);
    FallbackPixel(image, segment, 1);
    FallbackPixel(image, segment, 2);
    FallbackPixel(image, segment, 3);
    assert out.rgba == [TransparentWhite, TransparentWhite, Rgba(0, 0, 0, 255), Rgba(0, 0, 0, 255)];
  }

  /** The fallback with a red fill on TwoByTwo: red where it was white,
      opaque black where it was black. */
  lemma TwoByTwoRed(bgColor: string, segment: Segmenter, resolve: ColorParser, blend: Blend)
    requires bgColor != TransparentDirective && resolve(bgColor) == Some(Rgba(255, 0, 0, 255))
    ensures Process(false, TwoByTwo(), bgColor, segment, resolve, blend)
         == Success(RgbaRaster(2, 2, [Rgba(255, 0, 0, 255), Rgba(255, 0, 0, 255), Rgba(0, 0, 0, 255), Rgba(0, 0, 0, 255)]))
  {
    var image := TwoByTwo();
    RgbFallbackFillIsOpaque(image, bgColor, segment, resolve, blend, Rgba(255, 0, 0, 255));
    var out := Process(false, image, bgColor, segment, resolve, blend).value;
    assert out.rgba[0] == Rgba(255, 0, 0, 255);
    assert out.rgba[1] == Rgba(255, 0, 0, 255);
    assert out.rgba[2] == Rgba(0, 0, 0, 255);
    assert out.rgba[3] == Rgba(0, 0, 0, 255);
    assert out.rgba == [Rgba(255, 0, 0, 255), Rgba(255, 0, 0, 255), Rgba(0, 0, 0, 255), Rgba(0, 0, 0, 255)];
  }
}
