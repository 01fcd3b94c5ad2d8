/** RGBA pixels and decoded images, as the imaging library hands them to the stitcher. */
module Pixels {

  /** One 8-bit colour channel. */
  type Channel = x: int | 0 <= x < 256

  /** An RGBA pixel. */
  datatype Pixel = Pixel(r: Channel, g: Channel, b: Channel, a: Channel)

  /** (0, 0, 0, 0): what a new RGBA canvas is made of, and what the chroma key writes. */
  const Transparent := Pixel(0, 0, 0, 0)

  /** A decoded RGBA image of size (width, height); `data` is its pixel sequence in
      row-major order, the order in which the image's data is read and written back. */
  datatype Image = Image(width: nat, height: nat, data: seq<Pixel>) {

    predicate Valid() {
      |data| == width * height
    }

    /** `max(img.size)`: the larger of the two dimensions. */
    function Side(): (side: nat)
      ensures width <= side && height <= side
      ensures side == width || side == height
    {
      if width < height then height else width
    }

    /** The pixel at column x, row y. */
    function At(x: nat, y: nat): Pixel
      requires Valid() && x < width && y < height
    {
      RowMajorIndex(width, height, x, y);
      data[y * width + x]
    }
  }

  predicate AllValid(images: seq<Image>) {
    forall i :: 0 <= i < |images| ==> images[i].Valid()
  }

  /** The row-major index of a pixel inside the image lies inside its data. */
  lemma RowMajorIndex(width: nat, height: nat, x: nat, y: nat)
    requires x < width && y < height
    ensures y * width + x < width * height
  {
    assert y * width + x < (y + 1) * width;
    assert (y + 1) * width <= height * width;
  }

  /** How the library mixes a source pixel into a destination pixel when the mask is
      strictly between 0 and 255. It is library-internal, so the model leaves it open. */
  type Blend = (Pixel, Pixel) -> Pixel

  /** The two ways the stitcher pastes: a plain paste, and a paste that uses the
      source image itself as the mask (its alpha channel selects the source). */
  datatype PasteMode = Replace | AlphaMask(blend: Blend)

  /** What one canvas pixel `dst` becomes when the source pixel `src` is pasted onto it. */
  function Pasted(mode: PasteMode, src: Pixel, dst: Pixel): (pixel: Pixel)
    ensures mode.Replace? || src.a == 255 ==> pixel == src
    ensures mode.AlphaMask? && src.a == 0 ==> pixel == dst
    ensures pixel == src || pixel == dst || (mode.AlphaMask? && 0 < src.a < 255)
  {
    match mode
    case Replace => src
    case AlphaMask(blend) =>
      if src.a == 255 then src
      else if src.a == 0 then dst
      else blend(src, dst)
  }
}
