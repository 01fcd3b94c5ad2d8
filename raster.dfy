/** The output canvas: an RGBA pixel buffer created fully transparent and changed in
    place by successive pastes. Pixels are indexed [x, y]; the first dimension is the
    width. */
module Raster {
  import opened Pixels
  import opened Layout

  class Canvas {
    const pixels: array2<Pixel>

    function Width(): nat {
      pixels.Length0
    }

    function Height(): nat {
      pixels.Length1
    }

    /** A new RGBA canvas of the given size, every pixel (0, 0, 0, 0). */
    constructor (width: nat, height: nat)
      ensures Width() == width && Height() == height && fresh(pixels)
      ensures forall x, y :: 0 <= x < width && 0 <= y < height ==> pixels[x, y] == Transparent
    {
      pixels := new Pixel[width, height]((x, y) => Transparent);
    }

    /** Pastes `img` with its top-left corner at (left, top). Each canvas pixel under the
        image becomes what the paste mode makes of the image's pixel and the old canvas
        pixel; parts of the image beyond the canvas's edge are cut off; every canvas
        pixel outside the image's rectangle stays as it was. */
    method Paste(img: Image, left: nat, top: nat, mode: PasteMode)
      requires img.Valid()
      modifies pixels
      ensures forall x, y :: 0 <= x < Width() && 0 <= y < Height() ==>
        pixels[x, y] == if Covers(left, top, img.width, img.height, x, y)
                        then Pasted(mode, img.At(x - left, y - top), old(pixels[x, y]))
                        else old(pixels[x, y])
    {
      var dy := 0;
      while dy < img.height && top + dy < Height()
        invariant dy <= img.height
        invariant forall x, y :: 0 <= x < Width() && 0 <= y < Height() ==>
          pixels[x, y] == if Covers(left, top, img.width, dy, x, y)
                          then Pasted(mode, img.At(x - left, y - top), old(pixels[x, y]))
                          else old(pixels[x, y])
      {
        var dx := 0;
        while dx < img.width && left + dx < Width()
          invariant dx <= img.width
          invariant forall x, y :: 0 <= x < Width() && 0 <= y < Height() ==>
            pixels[x, y] == if Covers(left, top, img.width, dy, x, y) || Covers(left, top + dy, dx, 1, x, y)
                            then Pasted(mode, img.At(x - left, y - top), old(pixels[x, y]))
                            else old(pixels[x, y])
        {
          pixels[left + dx, top + dy] := Pasted(mode, img.At(dx, dy), pixels[left + dx, top + dy]);
          dx := dx + 1;
        }
        dy := dy + 1;
      }
    }
  }
}
