/** Pixel values and decoded rasters as the image library hands them over:
    an RGB raster (three bands) or an RGBA raster (four bands), each a
    row-major list of pixels with its width and height. */
module Pixels {

  /** One 8-bit band value. */
  type Channel = x: int | 0 <= x <= 255

  /** A pixel of a three-band (RGB) image. */
  datatype Rgb = Rgb(r: Channel, g: Channel, b: Channel)

  /** A pixel of a four-band (RGBA) image; `a` is the alpha band. */
  datatype Pixel = Rgba(r: Channel, g: Channel, b: Channel, a: Channel)

  /** Fully transparent white, what the fallback writes over background. */
  const TransparentWhite: Pixel := Rgba(255, 255, 255, 0)

  /** The colour a new RGBA image is filled with when none is given. */
  const Blank: Pixel := Rgba(0, 0, 0, 0)

  /** A decoded image, before the model has checked that its pixel list
      matches its size. */
  datatype Raster =
    | RgbRaster(width: nat, height: nat, rgb: seq<Rgb>)
    | RgbaRaster(width: nat, height: nat, rgba: seq<Pixel>)
  {
    predicate WellFormed() {
      match this
      case RgbRaster(w, h, p) => |p| == w * h
      case RgbaRaster(w, h, p) => |p| == w * h
    }

    /** Number of pixels the size calls for. */
    function Area(): nat {
      width * height
    }
  }

  /** A decoded image whose pixel list has exactly width * height entries. */
  type Picture = r: Raster | r.WellFormed() witness RgbaRaster(0, 0, [])

  /** An RGB pixel widened to RGBA; the new alpha band is opaque. */
  function Opaque(c: Rgb): (p: Pixel)
    ensures p.a == 255
  {
    Rgba(c.r, c.g, c.b, 255)
  }

  /** The library's convert("RGBA") on the two modes this model covers:
      an RGBA image is returned as it is, an RGB image gains an opaque
      alpha band; the size never changes. */
  function ToRgba(src: Picture): (out: Picture)
    ensures out.RgbaRaster?
    ensures out.width == src.width && out.height == src.height
    ensures |out.rgba| == src.Area()
    ensures src.RgbaRaster? ==> out == src
    ensures src.RgbRaster? ==> forall i :: 0 <= i < |src.rgb| ==>
      out.rgba[i].a == 255 &&
      out.rgba[i].r == src.rgb[i].r && out.rgba[i].g == src.rgb[i].g && out.rgba[i].b == src.rgb[i].b
  {
    match src
    case RgbaRaster(_, _, _) => src
    case RgbRaster(w, h, p) => RgbaRaster(w, h, seq(|p|, i requires 0 <= i < |p| => Opaque(p[i])))
  }

  /** The alpha band of an RGBA pixel list (split()[3]). */
  function Alphas(s: seq<Pixel>): (m: seq<Channel>)
    ensures |m| == |s|
    ensures forall i :: 0 <= i < |s| ==> m[i] == s[i].a
  {
    seq(|s|, i requires 0 <= i < |s| => s[i].a)
  }

  /** A pixel list of length n, every entry the given colour. */
  function Solid(n: nat, fill: Pixel): (s: seq<Pixel>)
    ensures |s| == n
    ensures forall i :: 0 <= i < n ==> s[i] == fill
  {
    seq(n, _ => fill)
  }
}
