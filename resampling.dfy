/** The map from normalised canvas space into source-image pixels:
    letterbox crop offsets (`Shape.calculateOffsets`), the per-pixel sample
    position used by `Shape.compute` and the bezel rectangle built by
    `Shape.computeRectangles`. */
module Resampling {
  import opened Layout
  import opened Arith

  /** Centred crop margins that give an `imageWidth` by `imageHeight` image
      the canvas aspect ratio `aspect`: the image is cut on its left and
      right when it is wider than the canvas, on its top and bottom
      otherwise. */
  function Offsets(imageWidth: int, imageHeight: int, aspect: real): (o: Point)
    requires 0 < imageWidth && 0 < imageHeight && 0.0 <= aspect
    ensures 0.0 <= o.x && 0.0 <= o.y && (o.x == 0.0 || o.y == 0.0)
    ensures 2.0 * o.x <= imageWidth as real && 2.0 * o.y < imageHeight as real
    ensures imageWidth as real - 2.0 * o.x == aspect * (imageHeight as real - 2.0 * o.y)
    ensures 0.0 < aspect ==> 2.0 * o.x < imageWidth as real
  {
    var w, h := imageWidth as real, imageHeight as real;
    var imageAspect := w / h;
    if imageAspect > aspect then
      WiderThanCanvas(w, h, aspect);
      Point((w - h * aspect) / 2.0, 0.0)
    else
      NarrowerThanCanvas(w, h, aspect);
      Point(0.0, (h - w / aspect) / 2.0)
  }

  /** An image wider than the canvas keeps a crop `aspect * h` wide that
      fits strictly inside it. */
  lemma WiderThanCanvas(w: real, h: real, aspect: real)
    requires 0.0 < h && 0.0 <= aspect && aspect < w / h
    ensures 0.0 <= h * aspect < w
  {
    DivMul(w, h);
    ScaleOrder(aspect, w / h, h);
    MulSign(aspect, h);
  }

  /** An image no wider than the canvas keeps a crop `w / aspect` high
      that is positive, fits inside it and has the canvas aspect ratio. */
  lemma NarrowerThanCanvas(w: real, h: real, aspect: real)
    requires 0.0 < w && 0.0 < h && w / h <= aspect
    ensures 0.0 < aspect && 0.0 < w / aspect <= h && aspect * (w / aspect) == w
  {
    Quotient(w, h);
    DivMul(w, h);
    ScaleOrder(w / h, aspect, h);
    DivOrder(w, h * aspect, aspect);
    DivMul(h, aspect);
    DivMul(w, aspect);
    Quotient(w, aspect);
  }

  /** Fraction of the canvas at which pixel `i` of `n` of a screen lands,
      the screen spanning `size` of a canvas of extent `extent` from
      `start`. */
  function Percent(i: int, n: int, size: real, extent: real, start: real): real
    requires n != 0 && extent != 0.0
  {
    (i as real / n as real) * size / extent + start
  }

  /** Image coordinate of the canvas fraction `p` inside the crop that
      leaves `offset` on both sides of an image of `imageExtent` pixels. */
  function Sample(p: real, imageExtent: int, offset: real): real
  {
    p * CropExtent(imageExtent, offset) + offset
  }

  /** Pixels of an image of `imageExtent` pixels left between the two
      margins of `offset` pixels. */
  function CropExtent(imageExtent: int, offset: real): real
  {
    imageExtent as real - 2.0 * offset
  }

  /** Every pixel of a screen whose footprint lies in the canvas samples a
      pixel inside the image: truncating the sample position gives an index
      in [0, imageExtent). */
  lemma SampleInside(i: int, n: int, size: real, extent: real, start: real, imageExtent: int, offset: real)
    requires 0 <= i < n && 0.0 < size && 0.0 < extent
    requires 0.0 <= start && start + size / extent <= 1.0
    requires 0.0 <= offset && 0.0 < imageExtent as real - 2.0 * offset
    ensures 0 <= Sample(Percent(i, n, size, extent, start), imageExtent, offset).Floor < imageExtent
  {
    FractionBelow(i, n, size, extent);
    SampleBounds(Percent(i, n, size, extent, start), imageExtent, offset);
  }

  /** A canvas fraction in [0, 1) maps to a pixel index of the image. */
  lemma SampleBounds(p: real, imageExtent: int, offset: real)
    requires 0.0 <= p < 1.0
    requires 0.0 <= offset && 0.0 < imageExtent as real - 2.0 * offset
    ensures 0 <= Sample(p, imageExtent, offset).Floor < imageExtent
  {
    Stretch(p, imageExtent, offset);
    FloorBelow(Sample(p, imageExtent, offset), imageExtent);
  }

  /** A fraction in [0, 1) of a crop with positive width samples inside
      the crop: in [offset, imageExtent - offset). */
  lemma Stretch(p: real, imageExtent: int, offset: real)
    requires 0.0 <= p < 1.0 && 0.0 < CropExtent(imageExtent, offset)
    ensures offset <= Sample(p, imageExtent, offset) < imageExtent as real - offset
  {
    Share(p, CropExtent(imageExtent, offset));
    assert p * CropExtent(imageExtent, offset) < CropExtent(imageExtent, offset);
    assert Sample(p, imageExtent, offset) == p * CropExtent(imageExtent, offset) + offset;
    assert CropExtent(imageExtent, offset) + offset == imageExtent as real - offset;
  }

  /** Moving the canvas fraction by `f` moves the sample by `f` crop widths. */
  lemma SampleStep(f: real, start: real, imageExtent: int, offset: real)
    ensures Sample(f + start, imageExtent, offset)
         == f * CropExtent(imageExtent, offset) + Sample(start, imageExtent, offset)
  {
    AddMul(f, start, CropExtent(imageExtent, offset));
  }

  /** A value in [0, n) truncates to an index in [0, n). */
  lemma FloorBelow(v: real, n: int)
    requires 0.0 <= v < n as real
    ensures 0 <= v.Floor < n
  {
  }

  /** `Rectanglef(x0, y1, x1, y0)`: the footprint of a screen with corner
      `c` and physical size `sizeX` by `sizeY` on a `width` by `height`
      canvas, mapped into the crop of the image, rows flipped. */
  function Bezel(c: Point, sizeX: real, sizeY: real, width: real, height: real,
                 imageWidth: int, imageHeight: int, offsets: Point): (r: Rect)
    requires width != 0.0 && height != 0.0
  {
    var x0 := Sample(c.x, imageWidth, offsets.x);
    var x1 := Sample(sizeX / width + c.x, imageWidth, offsets.x);
    var y0 := imageHeight as real - 1.0 - Sample(c.y, imageHeight, offsets.y);
    var y1 := imageHeight as real - 1.0 - Sample(sizeY / height + c.y, imageHeight, offsets.y);
    Rect(x0, y1, x1, y0)
  }

  /** An axis-aligned rectangle in image pixels (`Rectanglef`). */
  datatype Rect = Rect(minX: real, minY: real, maxX: real, maxY: real)

  /** The bezel is a proper rectangle: `y1 <= y0`, so `minY` (`y1`) is
      its upper edge and `maxY` (`y0`) its lower edge in image rows. It is
      as wide and as high as the screen's share of the crop. Its left edge
      `minX` is where column 0 samples and its lower edge `maxY` is where
      row 0 samples, for a screen with `pixelX` by `pixelY` pixels. */
  lemma BezelEdges(c: Point, sizeX: real, sizeY: real, width: real, height: real,
                   imageWidth: int, imageHeight: int, offsets: Point, pixelX: int, pixelY: int)
    requires 0.0 < width && 0.0 < height && 0.0 <= sizeX && 0.0 <= sizeY
    requires pixelX != 0 && pixelY != 0
    requires 2.0 * offsets.x <= imageWidth as real && 2.0 * offsets.y <= imageHeight as real
    ensures var r := Bezel(c, sizeX, sizeY, width, height, imageWidth, imageHeight, offsets);
      && r.minX <= r.maxX && r.minY <= r.maxY
      && r.maxX - r.minX == sizeX / width * CropExtent(imageWidth, offsets.x)
      && r.maxY - r.minY == sizeY / height * CropExtent(imageHeight, offsets.y)
      && r.minX == Sample(Percent(0, pixelX, sizeX, width, c.x), imageWidth, offsets.x)
      && r.maxY == imageHeight as real - 1.0 - Sample(Percent(0, pixelY, sizeY, height, c.y), imageHeight, offsets.y)
  {
    var spanX := CropExtent(imageWidth, offsets.x);
    var spanY := CropExtent(imageHeight, offsets.y);
    var fx, fy := sizeX / width, sizeY / height;
    SampleStep(fx, c.x, imageWidth, offsets.x);
    SampleStep(fy, c.y, imageHeight, offsets.y);
    Quotient(sizeX, width);
    Quotient(sizeY, height);
    MulSign(fx, spanX);
    MulSign(fy, spanY);
  }

  /** The bezel encloses every sample of its screen: the columns sampled
      by pixels 0 .. pixelX - 1 lie in [minX, maxX), and the flipped rows
      sampled by pixels 0 .. pixelY - 1 lie in (minY, maxY]. */
  lemma BezelEnclosesSamples(c: Point, sizeX: real, sizeY: real, width: real, height: real,
                             imageWidth: int, imageHeight: int, offsets: Point,
                             pixelX: int, pixelY: int, x: int, y: int)
    requires 0.0 < width && 0.0 < height && 0.0 <= sizeX && 0.0 <= sizeY
    requires 0 <= x < pixelX && 0 <= y < pixelY
    requires 2.0 * offsets.x < imageWidth as real && 2.0 * offsets.y < imageHeight as real
    ensures var r := Bezel(c, sizeX, sizeY, width, height, imageWidth, imageHeight, offsets);
      var sx := Sample(Percent(x, pixelX, sizeX, width, c.x), imageWidth, offsets.x);
      var sy := imageHeight as real - 1.0 - Sample(Percent(y, pixelY, sizeY, height, c.y), imageHeight, offsets.y);
      r.minX <= sx && (0.0 < sizeX ==> sx < r.maxX) && sy <= r.maxY && (0.0 < sizeY ==> r.minY < sy)
  {
    SampleBetween(c.x, sizeX, width, imageWidth, offsets.x, x, pixelX);
    SampleBetween(c.y, sizeY, height, imageHeight, offsets.y, y, pixelY);
  }

  /** Along one axis, pixel `i` of `n` of a screen spanning `size` of the
      canvas from `start` samples at or after the sample of `start`, and
      strictly before the sample of the screen's far edge when `size` is
      positive. */
  lemma SampleBetween(start: real, size: real, extent: real, imageExtent: int, offset: real, i: int, n: int)
    requires 0.0 <= size && 0.0 < extent && 0 <= i < n && 0.0 < CropExtent(imageExtent, offset)
    ensures var s := Sample(Percent(i, n, size, extent, start), imageExtent, offset);
      Sample(start, imageExtent, offset) <= s
      && (0.0 < size ==> s < Sample(size / extent + start, imageExtent, offset))
  {
    FractionBelow(i, n, size, extent);
    var f := (i as real / n as real) * size / extent;
    var span := CropExtent(imageExtent, offset);
    SampleStep(f, start, imageExtent, offset);
    SampleStep(size / extent, start, imageExtent, offset);
    ScaleOrder(0.0, f, span);
    ScaleOrder(f, size / extent, span);
  }

  /** Pixel `i` of `n` covers a fraction of the screen's share
      `size / extent` of the canvas that is below the whole share. */
  lemma FractionBelow(i: int, n: int, size: real, extent: real)
    requires 0 <= i < n && 0.0 <= size && 0.0 < extent
    ensures var f := (i as real / n as real) * size / extent;
      0.0 <= f <= size / extent && (0.0 < size ==> f < size / extent)
  {
    Quotient(i as real, n as real);
    Share(i as real / n as real, size);
    Quotient((i as real / n as real) * size, extent);
    DivOrder((i as real / n as real) * size, size, extent);
  }

  /** A fraction in [0, 1) of a non-negative `size` lies in [0, size],
      strictly below it when `size` is positive. */
  lemma Share(t: real, size: real)
    requires 0.0 <= t < 1.0 && 0.0 <= size
    ensures 0.0 <= t * size <= size && (0.0 < size ==> t * size < size)
  {
    MulSign(t, size);
    if 0.0 < size {
      ScaleOrder(t, 1.0, size);
    }
  }
}
