/** The grid-composition step of the stitcher: check the image count against the grid,
    size the cells, create the canvas, and paste every image, chroma-keyed when asked
    and over the fill image when one is given, into its row-major slot. */
module Stitch {
  import opened Wrappers
  import opened Pixels
  import opened ColorKey
  import opened Layout
  import opened Raster

  /** The fatal errors of the composition step. */
  datatype StitchError =
    | NoImages      // no input image at all
    | OverCapacity  // more images than grid_rows * grid_cols
    | NegativeSize  // the canvas would have a negative width or height

  /** The arguments of the composition step: the decoded fill image, already resized to
      one cell, the key list and its switch, and the grid's shape. */
  datatype StitchArgs = StitchArgs(
    fill: Option<Image>,
    colorkey: seq<int>,
    processColorkey: bool,
    gridRows: int,
    gridCols: int)

  /** The fill image, when there is one, is exactly one cell in size. */
  predicate FillFits(fill: Option<Image>, cell: nat) {
    fill.Some? ==> fill.value.Valid() && fill.value.width == cell && fill.value.height == cell
  }

  /** The image as it is pasted: chroma-keyed when keying is active, as decoded otherwise. */
  function Prepared(img: Image, args: StitchArgs): (pasted: Image)
    ensures pasted.width == img.width && pasted.height == img.height
    ensures img.Valid() ==> pasted.Valid()
  {
    if Active(args.processColorkey, args.colorkey) then KeyImage(img, args.colorkey) else img
  }

  /** What lies under a pasted image at offset (dx, dy) of its cell: the fill image's
      pixel when there is a fill, the canvas's transparent pixel otherwise. */
  function Background(args: StitchArgs, cell: nat, dx: nat, dy: nat): Pixel
    requires FillFits(args.fill, cell) && dx < cell && dy < cell
  {
    if args.fill.Some? then args.fill.value.At(dx, dy) else Transparent
  }

  /** The content of a cell at offset (dx, dy) once `img` has been placed in it: the
      background, with the prepared image pasted over it through its own alpha, anchored
      at the cell's top-left corner. */
  function CellPixel(img: Image, cell: nat, args: StitchArgs, blend: Blend, dx: nat, dy: nat): Pixel
    requires img.Valid() && FillFits(args.fill, cell) && dx < cell && dy < cell
  {
    var src := Prepared(img, args);
    if dx < src.width && dy < src.height
    then Pasted(AlphaMask(blend), src.At(dx, dy), Background(args, cell, dx, dy))
    else Background(args, cell, dx, dy)
  }

  /** The canvas pixel (x, y) once `images` have been placed in slots 0, 1, ... of a grid
      of `cell`-sized squares: the content of its slot's image, or transparency for a
      slot no image reaches. */
  function Composed(images: seq<Image>, cell: nat, args: StitchArgs, blend: Blend, x: nat, y: nat): Pixel
    requires AllValid(images) && FillFits(args.fill, cell)
    requires x < cell * args.gridCols && y < cell * args.gridRows
  {
    FactorsPositive(cell, args.gridCols, x);
    var i := SlotOf(x, y, args.gridCols, cell);
    if i < |images| then CellPixel(images[i], cell, args, blend, x % cell, y % cell) else Transparent
  }

  /** The sizing pass: the largest `max(width, height)` over all images, from 0. */
  method LargestSide(images: seq<Image>) returns (size: nat)
    ensures size == CellSize(images)
  {
    size := 0;
    var k := 0;
    while k < |images|
      invariant k <= |images|
      invariant size == CellSize(images[..k])
    {
      var side := images[k].Side();
      if size < side {
        size := side;
      }
      assert images[..k + 1][..k] == images[..k];
      k := k + 1;
    }
    assert images[..k] == images;
  }

  /** Placing image i changes exactly the pixels of slot i's square, which then show the
      cell content of image i at their offset inside the square. */
  lemma ComposedStep(images: seq<Image>, i: nat, cell: nat, args: StitchArgs, blend: Blend, x: nat, y: nat)
    requires AllValid(images) && FillFits(args.fill, cell) && i < |images|
    requires x < cell * args.gridCols && y < cell * args.gridRows
    ensures args.gridCols > 0 && cell > 0
    ensures InSlot(i, args.gridCols, cell, x, y) ==>
      Composed(images[..i + 1], cell, args, blend, x, y)
        == CellPixel(images[i], cell, args, blend, x - XPos(i, args.gridCols, cell), y - YPos(i, args.gridCols, cell))
      && Composed(images[..i], cell, args, blend, x, y) == Transparent
    ensures !InSlot(i, args.gridCols, cell, x, y) ==>
      Composed(images[..i + 1], cell, args, blend, x, y) == Composed(images[..i], cell, args, blend, x, y)
  {
    FactorsPositive(cell, args.gridCols, x);
    FactorsPositive(cell, args.gridRows, y);
    var cols := args.gridCols;
    InSlotIff(i, x, y, args.gridRows, cols, cell);
    if InSlot(i, cols, cell, x, y) {
      SlotOfCovered(i, cols, cell, x, y);
      assert images[..i + 1][i] == images[i];
    } else {
      var s := SlotOf(x, y, cols, cell);
      if s < i {
        assert images[..i + 1][s] == images[..i][s];
      }
    }
  }

  /** One turn of the placement loop, for one canvas pixel: `before` is the pixel before
      image i is placed, `filled` after the fill paste (when there is a fill), `after`
      after the masked paste of the prepared image at slot i's corner. Then `after` is
      what the composition of the first i + 1 images shows. */
  lemma PasteStep(images: seq<Image>, i: nat, cell: nat, args: StitchArgs, blend: Blend,
                  img: Image, left: nat, top: nat, x: nat, y: nat, before: Pixel, filled: Pixel, after: Pixel)
    requires AllValid(images) && FillFits(args.fill, cell) && i < |images|
    requires img == Prepared(images[i], args) && img.width <= cell && img.height <= cell
    requires x < cell * args.gridCols && y < cell * args.gridRows
    requires args.gridCols > 0 ==> left == XPos(i, args.gridCols, cell) && top == YPos(i, args.gridCols, cell)
    requires before == Composed(images[..i], cell, args, blend, x, y)
    requires filled == if args.fill.Some? && Covers(left, top, cell, cell, x, y)
                       then Pasted(Replace, args.fill.value.At(x - left, y - top), before)
                       else before
    requires after == if Covers(left, top, img.width, img.height, x, y)
                      then Pasted(AlphaMask(blend), img.At(x - left, y - top), filled)
                      else filled
    ensures after == Composed(images[..i + 1], cell, args, blend, x, y)
  {
    ComposedStep(images, i, cell, args, blend, x, y);
    if !InSlot(i, args.gridCols, cell, x, y) {
      assert !Covers(left, top, img.width, img.height, x, y);
    }
  }

  /** The composition step. It fails before any canvas exists when there is no image or
      more images than slots, and when the canvas size would be negative; otherwise it
      returns a new canvas of cell * cols by cell * rows pixels in which every pixel is
      the one `Composed` describes. */
  method Stitch(images: seq<Image>, args: StitchArgs, blend: Blend) returns (result: Result<Canvas, StitchError>)
    requires AllValid(images)
    requires FillFits(args.fill, CellSize(images))
    ensures |images| == 0 ==> result == Failure(NoImages)
    ensures 0 < |images| && args.gridRows * args.gridCols < |images| ==> result == Failure(OverCapacity)
    ensures 0 < |images| <= args.gridRows * args.gridCols
            && (CellSize(images) * args.gridCols < 0 || CellSize(images) * args.gridRows < 0)
            ==> result == Failure(NegativeSize)
    ensures result.Success? <==>
              0 < |images| <= args.gridRows * args.gridCols
              && 0 <= CellSize(images) * args.gridCols && 0 <= CellSize(images) * args.gridRows
    ensures result.Success? ==>
              var cell, canvas := CellSize(images), result.value;
              fresh(canvas.pixels)
              && canvas.Width() == cell * args.gridCols && canvas.Height() == cell * args.gridRows
              && forall x, y :: 0 <= x < canvas.Width() && 0 <= y < canvas.Height() ==>
                   canvas.pixels[x, y] == Composed(images, cell, args, blend, x, y)
  {
    if |images| == 0 {
      return Failure(NoImages);
    }
    var cells := args.gridRows * args.gridCols;
    if |images| > cells {
      return Failure(OverCapacity);
    }
    var cell := LargestSide(images);
    var width, height := cell * args.gridCols, cell * args.gridRows;
    if width < 0 || height < 0 {
      return Failure(NegativeSize);
    }
    var canvas := new Canvas(width, height);
    var i := 0;
    while i < |images|
      invariant i <= |images|
      invariant canvas.Width() == width && canvas.Height() == height && fresh(canvas.pixels)
      invariant forall x, y :: 0 <= x < width && 0 <= y < height ==>
        canvas.pixels[x, y] == Composed(images[..i], cell, args, blend, x, y)
    {
      var img := images[i];
      if Active(args.processColorkey, args.colorkey) {
        img := ApplyColorKey(img, args.colorkey);
      }
      // A non-positive column count gets this far only with a zero cell size, and then
      // every position is 0 whatever the sign of the column count.
      var left, top := 0, 0;
      if args.gridCols > 0 {
        left, top := XPos(i, args.gridCols, cell), YPos(i, args.gridCols, cell);
      }
      label Start:
      if args.fill.Some? {
        canvas.Paste(args.fill.value, left, top, Replace);
      }
      label Filled:
      canvas.Paste(img, left, top, AlphaMask(blend));
      forall x, y | 0 <= x < width && 0 <= y < height
        ensures canvas.pixels[x, y] == Composed(images[..i + 1], cell, args, blend, x, y)
      {
        PasteStep(images, i, cell, args, blend, img, left, top, x, y,
                  old@Start(canvas.pixels[x, y]), old@Filled(canvas.pixels[x, y]), canvas.pixels[x, y]);
      }
      i := i + 1;
    }
    assert images[..i] == images;
    return Success(canvas);
  }
  /** Placement: offset (dx, dy) inside the square of slot i, for any slot below the
      grid's capacity, lies on the canvas. There the composition shows image i's cell
      content, or, for a slot no image reaches, transparency without any fill. */
  lemma PlacedAt(images: seq<Image>, cell: nat, args: StitchArgs, blend: Blend, i: nat, dx: nat, dy: nat)
    requires AllValid(images) && FillFits(args.fill, cell)
    requires 0 < args.gridCols && i < args.gridRows * args.gridCols
    requires dx < cell && dy < cell
    ensures XPos(i, args.gridCols, cell) + dx < cell * args.gridCols
    ensures YPos(i, args.gridCols, cell) + dy < cell * args.gridRows
    ensures Composed(images, cell, args, blend, XPos(i, args.gridCols, cell) + dx, YPos(i, args.gridCols, cell) + dy)
            == if i < |images| then CellPixel(images[i], cell, args, blend, dx, dy) else Transparent
  {
    var cols := args.gridCols;
    assert i < cols * args.gridRows;
    FactorsPositive(cols, args.gridRows, i);
    var rows: nat := args.gridRows;
    SlotInsideCanvas(i, rows, cols, cell);
    var x, y := XPos(i, cols, cell) + dx, YPos(i, cols, cell) + dy;
    assert InSlot(i, cols, cell, x, y);
    SlotOfCovered(i, cols, cell, x, y);
    assert SlotOf(x, y, cols, cell) == i && x % cell == dx && y % cell == dy;
  }

  /** Where the pasted image has an opaque pixel, the canvas shows exactly that pixel,
      whatever the fill. */
  lemma OpaqueSourceShows(images: seq<Image>, cell: nat, args: StitchArgs, blend: Blend, i: nat, dx: nat, dy: nat)
    requires AllValid(images) && FillFits(args.fill, cell)
    requires 0 < args.gridCols && i < |images| && i < args.gridRows * args.gridCols
    requires images[i].width <= cell && images[i].height <= cell
    requires dx < images[i].width && dy < images[i].height
    requires Prepared(images[i], args).At(dx, dy).a == 255
    ensures XPos(i, args.gridCols, cell) + dx < cell * args.gridCols
    ensures YPos(i, args.gridCols, cell) + dy < cell * args.gridRows
    ensures Composed(images, cell, args, blend, XPos(i, args.gridCols, cell) + dx, YPos(i, args.gridCols, cell) + dy)
            == Prepared(images[i], args).At(dx, dy)
  {
    PlacedAt(images, cell, args, blend, i, dx, dy);
  }

  /** Where the pasted image has no pixel, or a fully transparent one, the canvas shows
      the fill image's pixel at the same offset, or transparency when there is no fill. */
  lemma BackgroundShowsThrough(images: seq<Image>, cell: nat, args: StitchArgs, blend: Blend, i: nat, dx: nat, dy: nat)
    requires AllValid(images) && FillFits(args.fill, cell)
    requires 0 < args.gridCols && i < |images| && i < args.gridRows * args.gridCols
    requires dx < cell && dy < cell
    requires dx < images[i].width && dy < images[i].height ==> Prepared(images[i], args).At(dx, dy).a == 0
    ensures XPos(i, args.gridCols, cell) + dx < cell * args.gridCols
    ensures YPos(i, args.gridCols, cell) + dy < cell * args.gridRows
    ensures Composed(images, cell, args, blend, XPos(i, args.gridCols, cell) + dx, YPos(i, args.gridCols, cell) + dy)
            == if args.fill.Some? then args.fill.value.At(dx, dy) else Transparent
  {
    PlacedAt(images, cell, args, blend, i, dx, dy);
  }

  /** With keying active, a source pixel of exactly the key's colour never reaches the
      canvas: the background shows in its place. Any other source pixel is pasted as
      decoded. */
  lemma KeyColourHidden(images: seq<Image>, cell: nat, args: StitchArgs, blend: Blend, i: nat, dx: nat, dy: nat)
    requires AllValid(images) && FillFits(args.fill, cell)
    requires 0 < args.gridCols && i < |images| && i < args.gridRows * args.gridCols
    requires images[i].width <= cell && images[i].height <= cell
    requires dx < images[i].width && dy < images[i].height
    ensures XPos(i, args.gridCols, cell) + dx < cell * args.gridCols
    ensures YPos(i, args.gridCols, cell) + dy < cell * args.gridRows
    ensures Active(args.processColorkey, args.colorkey) && Matches(images[i].At(dx, dy), args.colorkey) ==>
              Composed(images, cell, args, blend, XPos(i, args.gridCols, cell) + dx, YPos(i, args.gridCols, cell) + dy)
              == Background(args, cell, dx, dy)
    ensures !(Active(args.processColorkey, args.colorkey) && Matches(images[i].At(dx, dy), args.colorkey)) ==>
              Composed(images, cell, args, blend, XPos(i, args.gridCols, cell) + dx, YPos(i, args.gridCols, cell) + dy)
              == Pasted(AlphaMask(blend), images[i].At(dx, dy), Background(args, cell, dx, dy))
  {
    PlacedAt(images, cell, args, blend, i, dx, dy);
    KeyImageAt(images[i], args.colorkey, dx, dy);
  }
  /** Slots are independent: whatever image is placed in slot j, every canvas pixel
      outside slot j's square is the same. */
  lemma SlotsIndependent(images: seq<Image>, j: nat, other: Image, cell: nat, args: StitchArgs, blend: Blend, x: nat, y: nat)
    requires AllValid(images) && other.Valid() && FillFits(args.fill, cell) && j < |images|
    requires x < cell * args.gridCols && y < cell * args.gridRows
    ensures args.gridCols > 0
    ensures !InSlot(j, args.gridCols, cell, x, y) ==>
              Composed(images[j := other], cell, args, blend, x, y) == Composed(images, cell, args, blend, x, y)
  {
    FactorsPositive(cell, args.gridCols, x);
    FactorsPositive(cell, args.gridRows, y);
    InSlotIff(j, x, y, args.gridRows, args.gridCols, cell);
    var s := SlotOf(x, y, args.gridCols, cell);
    if s != j && s < |images| {
      assert images[j := other][s] == images[s];
    }
  }
}
