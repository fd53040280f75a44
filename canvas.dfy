/** The mutable RGBA image object of the imaging library, restricted to the
    operations remove_background uses: creating an image of a given size,
    convert("RGBA"), putdata and a masked paste at the origin. */
module Canvas {
  import opened Pixels

  /** The library's blending of a destination and a source pixel under a
      mask value strictly between 0 and 255. Its arithmetic is not part of
      this model, so it is passed in. */
  type Blend = (Pixel, Pixel, Channel) -> Pixel

  /** One pixel of a masked paste: mask 0 keeps the destination, mask 255
      takes the source (all four bands), anything else blends. */
  function Composite(dst: Pixel, src: Pixel, m: Channel, blend: Blend): Pixel {
    if m == 0 then dst else if m == 255 then src else blend(dst, src, m)
  }

  /** The pixel list after pasting `src` over `dst` under `mask`. */
  function Pasted(dst: seq<Pixel>, src: seq<Pixel>, mask: seq<Channel>, blend: Blend): (out: seq<Pixel>)
    requires |src| == |dst| && |mask| == |dst|
    ensures |out| == |dst|
    ensures forall i :: 0 <= i < |dst| && mask[i] == 0 ==> out[i] == dst[i]
    ensures forall i :: 0 <= i < |dst| && mask[i] == 255 ==> out[i] == src[i]
  {
    seq(|dst|, i requires 0 <= i < |dst| => Composite(dst[i], src[i], mask[i], blend))
  }

  /** An RGBA image object. Its size is fixed when it is created; its pixel
      data can be replaced. */
  class Image {
    const width: nat
    const height: nat
    var pixels: seq<Pixel>

    ghost predicate Valid()
      reads this
    {
      |pixels| == width * height
    }

    /** The image's current contents as a value. */
    function View(): (r: Picture)
      reads this
      requires Valid()
      ensures r.RgbaRaster? && r.width == width && r.height == height && r.rgba == pixels
    {
      RgbaRaster(width, height, pixels)
    }

    /** Image.new("RGBA", (width, height), fill). */
    constructor New(width: nat, height: nat, fill: Pixel)
      ensures Valid()
      ensures this.width == width && this.height == height
      ensures pixels == Solid(width * height, fill)
    {
      this.width := width;
      this.height := height;
      pixels := Solid(width * height, fill);
    }

    /** src.convert("RGBA"): a new image object holding the converted pixels. */
    constructor Converted(src: Picture)
      ensures Valid()
      ensures View() == ToRgba(src)
    {
      var rgba := ToRgba(src);
      width := rgba.width;
      height := rgba.height;
      pixels := rgba.rgba;
    }

    /** putdata(data): the first |data| pixels are overwritten in order, the
        rest keep their values. */
    method PutData(data: seq<Pixel>)
      requires Valid()
      requires |data| <= |pixels|
      modifies this
      ensures Valid()
      ensures pixels == data + old(pixels)[|data|..]
    {
      pixels := data + pixels[|data|..];
    }

    /** paste(src, mask=mask) at the origin; source, mask and this image have
        the same size. */
    method Paste(src: Image, mask: seq<Channel>, blend: Blend)
      requires Valid() && src.Valid()
      requires src.width == width && src.height == height && |mask| == |pixels|
      modifies this
      ensures Valid()
      ensures pixels == Pasted(old(pixels), old(src.pixels), mask, blend)
    {
      pixels := Pasted(pixels, src.pixels, mask, blend);
    }
  }
}
