# image_stitch grid composition, modelled in Dafny

`image_stitch.py` tiles a directory of PNG images into one RGBA image laid out as a grid.
This project models the composition step of `stitch_images`:

- the two fatal checks on the image count;
- the sizing pass that picks one square cell size;
- the creation of the transparent canvas;
- the row-major placement of image `i`;
- the optional chroma key, which makes every pixel of exactly the key's RGB fully transparent;
- the optional fill image, pasted into each used cell first;
- the paste of each image through its own alpha.

Modules:

- `Wrappers` (wrappers.dfy): `Option` and `Result`.
- `Pixels` (pixels.dfy): `Pixel`, `Image`, and `Pasted`, which gives one canvas pixel after a plain paste or an alpha-masked paste.
  - An image is a width, a height and its row-major pixel sequence.
- `ColorKey` (colorkey.dfy): the key test and `KeyImage`, which says what keying does to an image.
  - `ApplyColorKey` is the loop that builds the new pixel list one pixel at a time.
- `Layout` (layout.dfy): the cell size `CellSize` and the slot corners `XPos` and `YPos`, which are `x_pos` and `y_pos`.
  - `SlotOf` gives the slot that a canvas pixel belongs to.
  - The arithmetic lemmas prove that each slot lies inside the canvas and that distinct slots are disjoint.
- `Raster` (raster.dfy): the class `Canvas` over an `array2<Pixel>`, indexed `[x, y]`.
  - Its one `Paste` method changes the buffer in place and clips at the canvas edge.
- `Stitch` (stitch.dfy): the `LargestSide` sizing loop and the `Stitch` method.
  - `Stitch` is proved against `Composed`, a pure description of every canvas pixel.
  - The lemmas about `Composed` state the placement, fill, alpha and key properties.

Modelling choices:

- `grid_rows` and `grid_cols` are unbounded integers, because the command line accepts any integer.
  - Two negative counts can pass the capacity check. The imaging library then refuses to create a canvas with a negative side; this is the `NegativeSize` error.
  - With a zero cell size, the canvas is empty and every paste position is 0.
- The key is a list of integers, as `stitch_images` receives it.
  - Keying runs only when `process_colorkey` is set and the list is non-empty.
  - A pixel matches only when the list is exactly its three RGB values. A key of another length, or with values outside 0..255, matches nothing.
- Image and canvas sizes are unbounded natural numbers, not the library's machine integers.
- The two count checks are Python `assert` statements (image_stitch.py:77, 80). `NoImages` and `OverCapacity` model a run without `python -O`, which would remove them.
- Two behaviours of the code differ from what one might expect:
  - The fill is pasted without a mask, so the fill's own alpha is copied into the cell. A partly transparent fill therefore does not cover the cell opaquely.
  - For a source alpha strictly between 0 and 255, the masked paste is the library's own per-channel mix, not standard alpha compositing. The model leaves that mix open: it is the `blend` parameter.

## Model

| member | source | states |
|---|---|---|
| `Layout.CellSize` | image_stitch.py:83-88 | The cell side fits every input image in both width and height. It is reached by some image's larger side, and it is 0 with no image. |
| `Stitch.LargestSide` | image_stitch.py:83-88 | The accumulator loop, starting from 0 and taking `max(width, height)` of each image in turn, ends with exactly `CellSize(images)`. |
| `Pixels.Image.Side` | image_stitch.py:86 | The side is at least the width and at least the height, and it is one of the two: `max(img.size)`. |
| `Layout.CellSizeMonotone` | image_stitch.py:83-88 | Replacing one image by one with a larger (or equal) larger side never makes the cell smaller. |
| `Layout.CellSizeOrderFree` | image_stitch.py:75-88 | Reordering the images (the same multiset in another order) leaves the cell size unchanged. The path sort decides placement only. |
| `Layout.CellSizeBelow` | image_stitch.py:83-88 | When every image of one list also occurs in another, the first list's cell is no larger than the second's. |
| `Pixels.Pasted` | image_stitch.py:120-122 | A plain paste gives the source pixel. A paste through the source's alpha gives the source pixel at alpha 255 and keeps the canvas pixel at alpha 0. Only an alpha strictly between 0 and 255 can give anything other than one of the two. |
| `Layout.XPos` | image_stitch.py:101 | `x_pos`: slot i's square ends inside a canvas `cols` cells wide. The first row's slots sit at `i * cell`, and a single-column grid puts every slot at x = 0. |
| `Layout.YPos` | image_stitch.py:102 | `y_pos`: the first `cols` slots sit at y = 0, and a single-column grid stacks slot i at `i * cell`. |
| `Raster.Canvas.constructor` | image_stitch.py:93 | The new canvas has the requested width and height, and every pixel is (0, 0, 0, 0). |
| `Raster.Canvas.Paste` | image_stitch.py:120-122 | Every canvas pixel under the pasted rectangle becomes the paste mode's result of the image pixel at the same offset and the old canvas pixel. The rectangle is anchored at (left, top) and clipped by the canvas. Every other pixel is unchanged. |
| `ColorKey.KeyImage` | image_stitch.py:109-116 | The keyed image has the original's width, height and pixel count, and it is well formed whenever the original is. |
| `Stitch.Prepared` | image_stitch.py:106-116 | The image as pasted, keyed or not, has the decoded image's width and height, and it is well formed whenever the decoded image is. |
| `ColorKey.ApplyColorKey` | image_stitch.py:107-116 | The pixel-by-pixel rebuild of the image data yields exactly `KeyImage`: same size, each pixel keyed where it stands. |
| `ColorKey.KeyImageAt` | image_stitch.py:109-116 | The keyed image's pixel at (x, y) is the key applied to the original pixel at (x, y): keying moves no pixel. |
| `ColorKey.Keyed` | image_stitch.py:111-115 | Keying leaves a pixel as it is or makes it (0, 0, 0, 0). It changes a pixel only when the pixel's RGB equals the key exactly, and a matching pixel, whatever its alpha, always becomes exactly (0, 0, 0, 0). |
| `ColorKey.Active` | image_stitch.py:107 | Keying runs only when `process_colorkey` is set and the key list is non-empty. |
| `ColorKey.Matches` | image_stitch.py:112 | A pixel matches exactly when the key has three entries equal to its red, green and blue, whatever its alpha. A matching key therefore has three entries, each in 0..255. |
| `ColorKey.KeyedNeverMatches` | image_stitch.py:111-115 | After keying, a pixel can still have the key's colour only when the key is black (0, 0, 0). |
| `ColorKey.KeyImageIdempotent` | image_stitch.py:107-116 | Keying an already keyed image changes nothing. |
| `ColorKey.DefaultKeyExample` | image_stitch.py:112-115 | With the default key (255, 0, 228), an exact magenta pixel of any alpha becomes transparent. The near-match (255, 0, 227) is kept. |
| `Layout.SlotInsideCanvas` | image_stitch.py:90-102 | For a slot below `rows * cols`, its square lies inside the `cell * cols` by `cell * rows` canvas. The square starts at `((i % cols) * cell, (i // cols) * cell)` and is `cell` wide. |
| `Layout.SlotOfCovered` | image_stitch.py:100-102 | A pixel in slot i's square belongs to slot i. Its offset inside the square is its coordinate modulo the cell size. |
| `Layout.CoveringSlot` | image_stitch.py:90-102 | Every canvas pixel lies in the square of its own slot, and that slot is below the grid's capacity. |
| `Layout.InSlotIff` | image_stitch.py:100-102 | On the canvas, a pixel lies in slot i's square exactly when its slot is i (both directions). |
| `Layout.SlotsDisjoint` | image_stitch.py:100-102 | The squares of two distinct slots share no pixel. |
| `Layout.RowMajorExample` | image_stitch.py:100-102 | On a grid two slots wide, images 0, 1 and 2 land at (0, 0), (cell, 0) and (0, cell). |
| `Stitch.Composed` | image_stitch.py:100-122 | The finished canvas as a value: pixel (x, y) lies in slot `(y // cell) * cols + x // cell`. It shows that slot's image content (fill, then the keyed image through its alpha) at offset (x % cell, y % cell), or (0, 0, 0, 0) for a slot no image reaches. |
| `Stitch.ComposedStep` | image_stitch.py:100-122 | Placing image i changes exactly the pixels of slot i's square. Those pixels were transparent before, and afterwards show image i's cell content at their offset. |
| `Stitch.PasteStep` | image_stitch.py:100-122 | One turn of the placement loop, for one canvas pixel: the fill paste over the whole cell, then the source paste through its alpha over the source's own rectangle at the slot's corner. Together they turn the composition of the first i images into that of the first i + 1. |
| `Stitch.Stitch` | image_stitch.py:76-122 | With no image the call fails with `NoImages`. With more images than `rows * cols` it fails with `OverCapacity`. With a negative canvas side it fails with `NegativeSize`. It succeeds exactly when none of these holds. The successful canvas is new, `cell * cols` by `cell * rows` with `cell = CellSize(images)`, and every pixel equals `Composed`. |
| `Stitch.PlacedAt` | image_stitch.py:100-122 | Offset (dx, dy) of slot i's square is on the canvas. It shows image i's cell content (fill, then the image through its alpha, anchored at the corner). A slot at or past the image count is fully transparent and gets no fill. |
| `Stitch.OpaqueSourceShows` | image_stitch.py:122 | Where the (keyed) source pixel has alpha 255, the canvas pixel is exactly that source pixel, fill or not. |
| `Stitch.BackgroundShowsThrough` | image_stitch.py:119-122 | Where the source is absent (outside its own width and height) or has alpha 0, the canvas shows the fill pixel at the same offset, or (0, 0, 0, 0) without a fill. |
| `Stitch.KeyColourHidden` | image_stitch.py:107-122 | With keying active, a source pixel of exactly the key's colour is replaced by the background on the canvas. Every other source pixel is pasted through its alpha as decoded. |
| `Stitch.SlotsIndependent` | image_stitch.py:100-122 | Whatever image is placed in slot j, no canvas pixel outside slot j's square changes. |

## Left out

- The overwrite prompt, the user's answer, the clean exit and the removal of the old output (image_stitch.py:68-73). These are interactive I/O.
- The directory scan and the sort by path (image_stitch.py:75). The images arrive as an already ordered sequence.
- Opening and decoding files: `lazy_open_image`, the header reads of the sizing pass, and the truncated-image switch (image_stitch.py:35-50, 85, 106). These are library I/O. A file that fails to decode aborts the real run; the model does not have that error.
- The resize of the fill image (image_stitch.py:96-98). This is a library resampling filter. `Stitch` takes the fill already resized and requires it to be exactly one cell in size.
- The conversion to RGBA (image_stitch.py:108). Every image is taken as RGBA. Without keying, the source relies on the decoded image already having an alpha band to serve as the mask; that is not modelled.
- The library's mix for a mask strictly between 0 and 255 (image_stitch.py:122). It is library-internal; the model takes it as the `blend` function parameter, so those pixels are left unspecified.
- Saving the canvas: the directory creation, the temporary file, `pngquant`, the move and the clean-up (image_stitch.py:124-138). These are file system and subprocess work.
- Verbose printing (image_stitch.py:103-104, 130-131) and argument parsing with output-path joining (image_stitch.py:141-161).
