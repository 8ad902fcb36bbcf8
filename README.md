# Multiscreen wallpaper mapper, modelled in Dafny

The mapper cuts one wallpaper image into per-screen images, so that a picture
spans several monitors of different sizes and resolutions as one physical
surface. Each `Screen` has a native resolution and a diagonal in inches. From
these come its physical width and height. `Shape` lays the screens side by
side, left to right in list order, on a canvas at least as tall as the
tallest screen: the height never shrinks from one layout to the next (see
the conventions below).
A `Mode` aligns the shorter screens to the centre, the top or the bottom.
`Shape` then:

- normalises every screen's corner to the unit square;
- crops the source image centrally to the canvas aspect ratio;
- resamples, for each screen, one image of its native resolution;
- for the preview, builds the bezel rectangle of every screen in image pixels
  and renders an RGBA buffer in which pixels near a bezel edge are red.

The model covers `utils.Screen` and `utils.Shape`:

- `screen.dfy` (module `Screens`): the `Screen` class. This covers its
  constructor with the id counter, its setters and the physical-size
  formulas. The counter is an explicit object here (see "Left out").
- `layout.dfy` (module `Layout`): the alignment modes and the arithmetic of
  `init`. That is the running maximum of the heights, the prefix sums of the
  widths, the mode's vertical offset, and the lemmas that put every screen
  inside the unit square.
- `resampling.dfy` (module `Resampling`): the crop offsets
  (`calculateOffsets`), the sample position of a screen pixel in the image,
  and the bezel rectangle of `computeRectangles`. Each comes with its bounds.
- `overlay.dfy` (module `Overlay`): the per-pixel test and byte layout of
  `fill`, and the specification of the whole preview buffer.
- `shape.dfy` (module `Shapes`): the `Shape` class. Its fields are updated
  in place by `Init`, `Compute`, `ComputeRectangles` and `Fill`, and each
  loop of the source is a method proved against the functions above.
- `options.dfy` (module `Options`): the `Option` type. `Mode.get` and `Fill`
  use it to return nothing.
- `arith.dfy` (module `Arith`): small lemmas on ordering, products and
  quotients of reals. Each multiplication or division step of the layout
  and resampling proofs goes through one of them.

Modelling conventions:

- `float` becomes `real`, and the `(int)` cast becomes `.Floor`. Every floor
  taken is of a non-negative value, so the two agree.
- `Math.sqrt` is a parameter `sqrt`, required to be the exact non-negative
  square root (`Screens.IsSqrt`).
- `BufferedImage` becomes `array2<int>`, indexed `[x, y]` like
  `getRGB(x, y)`. The three `HashMap`s become `map`s keyed by `Screen`
  reference.
- A loop over a `HashMap`'s keys or values takes the entries one at a time in
  an unspecified order: a nondeterministic choice from a shrinking set.
- The texture that `fill` loads is replaced by the buffer returned from
  `Fill`.
- As in the code, `init` clears `images` and `corners` but not
  `rectangles`, and the height it computes starts from the previous height.
  After a screen shrinks, the canvas keeps the old height, so in mode Top a
  lone screen is no longer at y = 0. A second `init` with unchanged screens
  still lays them out exactly as the first (`Shapes.InitIdempotent`).

## Model

| member | source | states |
|---|---|---|
| Screens.Norm | src/utils/Screen.java:44 | the divisor of both size formulas is positive and squares to `aspect² + 1` |
| Screens.Screen.constructor | src/utils/Screen.java:13-19 | stores resolution and diagonal, sets the aspect ratio to `pixelX / pixelY`, takes the next id from the counter and advances it; every earlier screen has a smaller id |
| Screens.IdProvider.constructor | src/utils/Screen.java:5 | the id counter starts at 0 with no screen issued |
| Screens.Screen.SetPixelX | src/utils/Screen.java:29-32 | sets the horizontal resolution and recomputes the aspect ratio; the other fields are unchanged |
| Screens.Screen.SetPixelY | src/utils/Screen.java:34-37 | sets the vertical resolution and recomputes the aspect ratio; the other fields are unchanged |
| Screens.Screen.SetDiagonal | src/utils/Screen.java:39-41 | sets the diagonal only |
| Screens.Screen.SizeY | src/utils/Screen.java:43-45 | the height times the hypotenuse of the aspect triangle is the diagonal; it is positive for a positive diagonal |
| Screens.Screen.SizeX | src/utils/Screen.java:47-49 | the width is the aspect ratio times the height |
| Screens.Screen.SizesPositive | src/utils/Screen.java:43-49 | positive resolution and diagonal give a positive width and height |
| Screens.Screen.SizesMatchDiagonal | src/utils/Screen.java:43-49 | width² + height² = diagonal² |
| Screens.Screen.ShapeFollowsResolution | src/utils/Screen.java:43-49 | width : height = pixelX : pixelY |
| Layout.ModeIndex | src/utils/Shape.java:162-165 | each mode's position in `values()` is below 3 |
| Layout.ModeAt | src/utils/Shape.java:174-176 | gives a mode exactly for indices 0..2, and that mode sits at the index |
| Layout.ModeIndexRoundTrip | src/utils/Shape.java:162-176 | looking up a mode's own index gives the mode back |
| Layout.Sum | src/utils/Shape.java:49-50 | definition: the widths added front to back, as `current_x` accumulates them; its properties are `SumSign`, `SumStep` and `PrefixWithin` |
| Layout.Tallest | src/utils/Shape.java:39-41 | definition: the running maximum from the previous height; its properties are `TallestBounds` and `TallestFromZero`, and `TallestHeight` is proved to compute it |
| Layout.RawY | src/utils/Shape.java:44-48 | definition: the y of the three `switch` arms before normalising; its property is `RawYWithin` |
| Layout.TallestBounds | src/utils/Shape.java:39-41 | the new height is at least the old height and every screen's height, and it equals one of them |
| Layout.TallestFromZero | src/utils/Shape.java:39-41 | from height 0, the canvas height is exactly the tallest screen |
| Layout.TallestAbove | src/utils/Shape.java:39-41 | a height at least every screen's height is kept unchanged |
| Layout.TallestIdempotent | src/utils/Shape.java:39-41 | running the maximum again over the same heights keeps the height |
| Layout.SumSign | src/utils/Shape.java:49-50 | the canvas width (the sum of the widths) is non-negative, and positive for a non-empty list of positive widths |
| Layout.SumStep | src/utils/Shape.java:49-50 | adding one screen moves `current_x` by its width |
| Layout.PrefixWithin | src/utils/Shape.java:42-51 | screen `j` starts at x ≥ 0 and ends within the total width |
| Layout.RawYWithin | src/utils/Shape.java:44-48 | in every mode the screen's y-extent lies inside the canvas height; the tallest screen gets y = 0 |
| Layout.ScaleFits | src/utils/Shape.java:52-55 | dividing a corner inside the canvas by the canvas extent puts the footprint inside the unit square |
| Layout.PlacementFits | src/utils/Shape.java:38-56 | every corner `init` computes, with its footprint, lies in the unit square, and its y is below 1 |
| Resampling.Offsets | src/utils/Shape.java:81-92 | both margins are non-negative and at most one is non-zero; the crop keeps pixels vertically, and horizontally too for a positive aspect ratio; the cropped image has exactly the canvas aspect ratio |
| Resampling.WiderThanCanvas | src/utils/Shape.java:84-86 | for an image wider than the canvas, the kept width `height · aspect` is non-negative and strictly below the image width, so the side margin is positive |
| Resampling.NarrowerThanCanvas | src/utils/Shape.java:87-89 | for an image no wider than the canvas, the aspect ratio is positive and the kept height `width / aspect` is positive, at most the image height, and has the canvas ratio |
| Resampling.CropExtent | src/utils/Shape.java:68 | definition: the image extent minus both margins, `getWidth() - 2 * offsets.x` or its vertical counterpart |
| Resampling.Percent | src/utils/Shape.java:66-71 | definition: the canvas fraction `i / n · size / extent + start` at which a screen pixel lands; bounded by `FractionBelow` |
| Resampling.Sample | src/utils/Shape.java:68-72 | definition: the image coordinate `p · (extent − 2·offset) + offset` of a canvas fraction; bounded by `SampleInside` |
| Resampling.Bezel | src/utils/Shape.java:102-111 | definition: `Rectanglef(x0, y1, x1, y0)` from the corner, the corner plus the screen's share, rows flipped; its properties are `BezelEdges` and `BezelEnclosesSamples` |
| Resampling.SampleInside | src/utils/Shape.java:66-72 | a pixel of a screen that fits the canvas samples an image coordinate in [0, extent) after truncation |
| Resampling.BezelEdges | src/utils/Shape.java:102-111 | the rectangle is proper (min ≤ max); its sides are the screen's share of the crop; its left edge `minX` is where pixel column 0 samples, and its lower edge `maxY` (`y0`, the larger row index) is where pixel row 0 samples; `minY` (`y1`) is the upper edge |
| Resampling.BezelEnclosesSamples | src/utils/Shape.java:64-111 | every sample taken for a screen's image lies inside that screen's bezel rectangle |
| Resampling.SampleBetween | src/utils/Shape.java:66-72 | along one axis, the sample of pixel `i` of `n` lies at or after the sample of the screen's corner and strictly before that of its far edge |
| Resampling.SampleBounds | src/utils/Shape.java:68-72 | a canvas fraction in [0, 1) truncates to an image index in [0, extent) |
| Resampling.FractionBelow | src/utils/Shape.java:66-67 | pixel `i` of `n` lands within the screen's share of the canvas, strictly before its end |
| Overlay.Overrides | src/utils/Shape.java:123-129 | the scan with `break` reports a hit exactly when some rectangle is near the pixel, that is, exactly when `Highlighted` holds |
| Overlay.Near | src/utils/Shape.java:125 | definition: the two-band test of one rectangle, with the margin 6 of `size`; `Overrides` is proved to decide it over all rectangles |
| Overlay.PixelBytes | src/utils/Shape.java:130-140 | every pixel contributes four bytes |
| Overlay.Red | src/utils/Shape.java:132 | definition: bits 16..23 of the packed pixel |
| Overlay.Green | src/utils/Shape.java:133 | definition: bits 8..15 of the packed pixel |
| Overlay.Blue | src/utils/Shape.java:134 | definition: bits 0..7 of the packed pixel |
| Overlay.RowAt | src/utils/Shape.java:122-141 | within a row, byte `i` of pixel `x` is byte `i` of that pixel's four bytes, at offset `4x + i` |
| Overlay.RowsAt | src/utils/Shape.java:121-142 | byte `t` of row `y` sits at offset `RowStart(width, y) + t` of the buffer, after `y` whole rows |
| Overlay.RowStartIsProduct | src/utils/Shape.java:120 | row `y` starts at byte `4 · y · width` |
| Overlay.PreviewAt | src/utils/Shape.java:118-142 | the buffer has `width · height · 4` bytes; at pixel (x, y) the alpha is 255, a highlighted pixel is pure red and any other keeps the image's R, G, B |
| Overlay.Preview | src/utils/Shape.java:118-142 | definition: `Rows` of the image, that is, every `Row` in order, each row its pixels' bytes in order and starting at byte `RowStart`; `PreviewAt` states its layout and `Render` is proved to build it |
| Shapes.Widths | src/utils/Shape.java:49-50 | definition: entry `i` is `getSizeX()` of screen `i` |
| Shapes.Heights | src/utils/Shape.java:39-41 | definition: entry `i` is `getSizeY()` of screen `i` |
| Shapes.Shape.constructor | src/utils/Shape.java:29-33 | three empty maps, no image, zero extent |
| Shapes.Shape.SetInputImage | src/utils/Shape.java:94-96 | replaces the image and keeps the shape valid |
| Shapes.Shape.Init | src/utils/Shape.java:35-57 | clears the images; the height is the running maximum from its previous value; the width is the sum of the widths (unchanged for an empty list); `aspect = width / height`; the corners are exactly the listed screens, each at its normalised placement and inside the unit square |
| Shapes.Shape.SetLayout | src/utils/Shape.java:36-56 | the fields `init` writes take the computed layout and `aspect = width / height` |
| Shapes.Shape.CropOffsets | src/utils/Shape.java:62 | definition: `calculateOffsets` on the loaded image and the canvas ratio, the value both `compute` and `computeRectangles` use; its properties are those of `Offsets` |
| Shapes.Shape.SourceInside | src/utils/Shape.java:68-73 | the indices passed to `getRGB`, `SourceColumn` and `SourceRow`, are inside the image, with no clamping, for every screen laid out by `init` |
| Shapes.Shape.Resample | src/utils/Shape.java:64-75 | a new image of the screen's native resolution in which every pixel is the image pixel at the sampled column and the flipped sampled row |
| Shapes.Shape.ResampleColumn | src/utils/Shape.java:65-75 | fills column `x` bottom-up from the sampled pixels and leaves the other columns unchanged |
| Shapes.Shape.Compute | src/utils/Shape.java:59-79 | without an image nothing changes; otherwise every screen with a corner gets a new image of its native resolution, and the entries of other screens are kept |
| Shapes.Shape.ComputeRectangles | src/utils/Shape.java:98-114 | without an image nothing changes; otherwise every screen with a corner gets its bezel rectangle, and the entries of other screens are kept |
| Shapes.Shape.Fill | src/utils/Shape.java:116-146 | rebuilds the bezels, then yields a buffer exactly when an image is loaded, namely the preview of the image with the current rectangles |
| Shapes.SourceColumnsAt | src/utils/Shape.java:65-68 | entry `x` of the precomputed columns is the column sampled by pixel column `x` |
| Shapes.SourceRowsAt | src/utils/Shape.java:69-73 | entry `r` of the precomputed rows is the row sampled by pixel row `pixelY - 1 - r`, as `setRGB` writes rows from the bottom |
| Shapes.ColumnsGatheredPixels | src/utils/Shape.java:64-75 | the column-by-column image predicate holds exactly when every pixel equals its sampled image pixel |
| Shapes.PlacedFits | src/utils/Shape.java:35-57 | corners placed by `init` from valid, positive screens all fit the unit square |
| Shapes.SizesPositive | src/utils/Shape.java:39-50 | all physical widths and heights of positive screens are positive |
| Shapes.Arrange | src/utils/Shape.java:38-55 | the three loops of `init` give the running-maximum height, the summed width (or the old width) and the normalised corners |
| Shapes.TallestHeight | src/utils/Shape.java:39-41 | the first loop computes the running maximum from the previous height |
| Shapes.Place | src/utils/Shape.java:42-51 | the second loop puts every listed screen at the prefix sum of the widths before it and the mode's offset; a repeated screen keeps its last placement; `width` ends at the total |
| Shapes.LastIndex | src/utils/Shape.java:42-48 | every listed screen has a last occurrence, whose `put` is the one kept |
| Shapes.Normalise | src/utils/Shape.java:52-55 | the third loop divides every corner by the canvas extent and keeps the key set |
| Shapes.PlacedUnique | src/utils/Shape.java:42-55 | the corners `init` places are determined by the screens, sizes, mode and canvas |
| Shapes.InitIdempotent | src/utils/Shape.java:35-57 | a second `init` with the same screens and mode, none resized, keeps the height and width, and the only corners it can place are those of the first call |
| Shapes.Shape.RebuiltBezels | src/utils/Shape.java:98-114 | definition: the rectangles `computeRectangles` leaves, the old entries with every cornered screen's bezel put over them; `RebuiltExactly` ties it to `BezelsRebuilt` |
| Shapes.Shape.RebuiltExactly | src/utils/Shape.java:98-114 | the contract of `ComputeRectangles` holds exactly for the rectangles `RebuiltBezels` gives |
| Shapes.Shape.RebuildIdempotent | src/utils/Shape.java:98-114 | rebuilding the bezels again over unchanged corners and image gives the same rectangles, so a repeated `fill` returns the same buffer |
| Shapes.Render | src/utils/Shape.java:119-142 | the nested loops append exactly the preview buffer, row by row and left to right |

## Left out

- `Screen.getPixelX`, `getPixelY`, `getDiagonal`, `getId`: these are plain field reads in the model.
- `Shape.save` and `Mode.getModes` are not modelled. They are file-dialog and PNG I/O, and a list of names for the UI.
- `Texture.load`, `BufferUtils` and `buffer.flip()` are not modelled: `Fill` returns the buffer instead.
- `BufferedImage.getType()` is not modelled. Pixels are plain `int`s, copied unchanged.
- The model uses exact real arithmetic. IEEE `float` rounding, `NaN`, infinities and the `double` result of `Math.sqrt` are not modelled.
- `Math.sqrt` is a parameter required to be exact. The library function itself is not part of this model.
- `id_provider` overflow after 2³¹ screens is not modelled; ids are unbounded integers.
- Screens.IdProvider.constructor: `id_provider` is a static field, so Java ids are unique across the whole process. The model passes an `IdProvider` to each `Screen` constructor, so ids are unique only among screens built from the same provider.
- Screens.Screen.constructor and Screens.Screen.SetPixelY require a non-zero vertical resolution. With zero, Java stores an infinite or `NaN` aspect ratio, which real arithmetic cannot represent.
- Shapes.Shape.Init requires every listed screen to have a positive resolution and diagonal, and a non-empty list unless an earlier call left a positive height. The model covers none of the excluded calls. Java does the following in each case:
  - An empty list on a fresh shape: `corners` stays empty and `aspect` is `0f/0f`, which is `NaN`. `fill` shows the plain image, as there are no rectangles.
  - Every diagonal negative on a fresh shape: no height exceeds 0, so `height` stays 0. Dividing by it makes the corners' y and `aspect` infinite or `NaN`.
  - A negative diagonal with a positive resolution: that screen's sizes are negative, and its corner can leave the unit square. `new BufferedImage` still gets the positive resolution and does not throw. The samples can fall outside the source image, and `getRGB` then throws.
  - A negative resolution: `compute` throws when it creates an image of non-positive size.
  - A zero horizontal resolution: the aspect ratio and the width of that screen are 0. If every screen has it, `width` is 0 and the corners' x are `0f/0f`, `NaN`. In any case `compute` throws on `new BufferedImage(0, …)`.
  - A zero diagonal: both sizes of that screen are 0. If every diagonal is 0 on a fresh shape, `width` and `height` are 0 and the corners are `NaN`. Otherwise every pixel of that screen samples its corner. In mode TOP that corner lies on the upper edge of the unit square, which can give row −1, where `getRGB` throws.
- Shapes.Shape.Compute requires `Laid`: the corners fit the unit square for the screens' current sizes. So it describes the state `init` leaves behind, as long as no screen has been resized since. After such a resize, Java may sample outside the image and throw. Shapes.Shape.Fill and Shapes.Shape.ComputeRectangles require only `Valid()`, so their contracts also cover resized screens: the rectangles are built from the current sizes, as in Java.
- Overlay.PreviewAt: Java computes the buffer size `getWidth() * getHeight() * 4` in 32-bit `int` arithmetic, which wraps for images of 2²⁹ pixels or more. The model's size `width · height · 4` is unbounded.
- Shapes.Shape.Compute states only the key set, the entries that are kept, and each new image's freshness and native resolution. It does not state the pixels. They are stated per screen by Shapes.Shape.Resample, which is exactly the body of the source's loop. Carrying the pixel statement for every stored image across the loop was beyond the verifier's budget.
- `HashMap` iteration order is not fixed. Every loop over keys or values takes its entries in an unspecified order, and each contract holds for every order.
- In `compute` and `computeRectangles` the model reads each screen's sizes once per screen, not once per pixel. The screens do not change during the loop, so the values are the same.
