/** `utils.Shape`: lays the screens out on one canvas, resamples the source
    image for each of them and builds the bezel preview. */
module Shapes {
  import opened Screens
  import opened Layout
  import opened Resampling
  import opened Overlay
  import opened Options
  import opened Arith

  /** Physical widths of the screens, in list order. */
  function Widths(screens: seq<Screen>, sqrt: real -> real): (xs: seq<real>)
    reads screens
    requires IsSqrt(sqrt)
    ensures |xs| == |screens|
    ensures forall i {:trigger xs[i]} :: 0 <= i < |screens| ==> xs[i] == screens[i].SizeX(sqrt)
  {
    seq(|screens|, i requires 0 <= i < |screens| reads screens => screens[i].SizeX(sqrt))
  }

  /** Physical heights of the screens, in list order. */
  function Heights(screens: seq<Screen>, sqrt: real -> real): (ys: seq<real>)
    reads screens
    requires IsSqrt(sqrt)
    ensures |ys| == |screens|
    ensures forall i {:trigger ys[i]} :: 0 <= i < |screens| ==> ys[i] == screens[i].SizeY(sqrt)
  {
    seq(|screens|, i requires 0 <= i < |screens| reads screens => screens[i].SizeY(sqrt))
  }

  /** `screens[j]` does not occur again among the first `n` entries, so a
      map filled by `put`s in list order keeps the entry made for `j`. */
  ghost predicate LastBefore(screens: seq<Screen>, j: int, n: int)
    requires 0 <= j < n <= |screens|
  {
    forall k :: j < k < n ==> screens[k] != screens[j]
  }

  /** `corners` holds exactly the screens of the list, and the entry kept
      for each screen (made by its last occurrence) is its normalised
      corner: the widths `xs` of the screens before it and the vertical
      offset `mode` gives its height, divided by the canvas extent. */
  ghost predicate Placed(corners: map<Screen, Point>, screens: seq<Screen>, xs: seq<real>, ys: seq<real>,
                         mode: Mode, width: real, height: real)
    requires |xs| == |ys| == |screens| && (screens != [] ==> width != 0.0) && height != 0.0
  {
    (forall t :: t in corners ==> t in screens) &&
    (forall j :: 0 <= j < |screens| ==> screens[j] in corners) &&
    forall j {:trigger LastBefore(screens, j, |screens|)} ::
      0 <= j < |screens| && LastBefore(screens, j, |screens|) ==>
      corners[screens[j]] == Point(Sum(xs[..j]) / width, RawY(mode, height, ys[j]) / height)
  }

  class Shape {
    var corners: map<Screen, Point>
    var images: map<Screen, array2<int>>
    var rectangles: map<Screen, Rect>
    /** `null` until an image is loaded. */
    var inputImage: array2?<int>
    var aspect: real
    var width: real
    var height: real

    /** The canvas is never negative, `aspect` is the canvas ratio once the
        canvas has a height, a loaded image has pixels, and corners exist
        only on a canvas with a positive extent. */
    ghost predicate Valid()
      reads this`corners, this`inputImage, this`aspect, this`width, this`height
    {
      0.0 <= width && 0.0 <= height &&
      aspect == (if 0.0 < height then width / height else 0.0) &&
      (inputImage != null ==> 0 < inputImage.Length0 && 0 < inputImage.Length1) &&
      (corners != map[] ==> 0.0 < width && 0.0 < height)
    }

    /** The corners are those of the current screens: each screen has a
        positive size and its normalised footprint lies in the unit
        square. `init` establishes this; `compute` relies on it. */
    ghost predicate Laid(sqrt: real -> real)
      reads this`corners, this`inputImage, this`aspect, this`width, this`height, corners.Keys
      requires IsSqrt(sqrt)
    {
      Valid() && Fitted(corners, width, height, sqrt)
    }

    constructor ()
      ensures Valid()
      ensures corners == map[] && images == map[] && rectangles == map[]
      ensures inputImage == null && aspect == 0.0 && width == 0.0 && height == 0.0
    {
      corners := map[];
      images := map[];
      rectangles := map[];
      inputImage := null;
      aspect, width, height := 0.0, 0.0, 0.0;
    }

    method SetInputImage(img: array2?<int>)
      requires Valid() && (img != null ==> 0 < img.Length0 && 0 < img.Length1)
      modifies this`inputImage
      ensures Valid() && inputImage == img
    {
      inputImage := img;
    }

    /** Places `screens` left to right in list order and normalises the
        corners. `height` keeps its previous value unless a screen is
        taller, `width` keeps its previous value when the list is empty,
        and `rectangles` is left as it was. */
    method Init(screens: seq<Screen>, mode: Mode, sqrt: real -> real)
      requires Valid() && IsSqrt(sqrt)
      requires forall s :: s in screens ==> s.Valid() && s.Positive()
      requires screens != [] || 0.0 < height
      modifies this`images, this`corners, this`height, this`width, this`aspect
      ensures Laid(sqrt)
      ensures images == map[]
      ensures height == Tallest(old(height), old(Heights(screens, sqrt)))
      ensures width == if screens == [] then old(width) else Sum(old(Widths(screens, sqrt)))
      ensures 0.0 < height && aspect == width / height && (screens != [] ==> 0.0 < width)
      ensures Placed(corners, screens, old(Widths(screens, sqrt)), old(Heights(screens, sqrt)), mode, width, height)
    {
      var xs, ys := Widths(screens, sqrt), Heights(screens, sqrt);
      SizesPositive(screens, sqrt);
      var c, h, w := Arrange(screens, xs, ys, mode, height, width);
      PlacedFits(screens, c, mode, height, w, h, sqrt);
      SetLayout(c, h, w);
    }

    method SetLayout(c: map<Screen, Point>, h: real, w: real)
      requires h != 0.0
      modifies this`images, this`corners, this`height, this`width, this`aspect
      ensures images == map[] && corners == c && height == h && width == w && aspect == w / h
    {
      images, corners, height, width, aspect := map[], c, h, w, w / h;
    }

    /** `calculateOffsets` on the loaded image and the canvas ratio. */
    function CropOffsets(): Point
      reads this`inputImage, this`aspect
      requires inputImage != null && 0 < inputImage.Length0 && 0 < inputImage.Length1 && 0.0 <= aspect
    {
      Offsets(inputImage.Length0, inputImage.Length1, aspect)
    }

    /** What sampling the image for screen `s` reads: its corner and
        sizes, the canvas extent, the image size and the crop offsets. */
    function SamplingOf(s: Screen, sqrt: real -> real): (v: Sampling)
      reads this`corners, this`inputImage, this`aspect, this`width, this`height, s
      requires IsSqrt(sqrt) && Valid() && inputImage != null && s in corners
      ensures s.Positive() ==> v.Valid()
    {
      Sampling(corners[s], s.pixelX, s.pixelY, s.SizeX(sqrt), s.SizeY(sqrt), width, height,
               inputImage.Length0, inputImage.Length1, CropOffsets())
    }

    /** The sample indices `compute` passes to `getRGB` are never out of
        range, although the code does not clamp them. */
    lemma SourceInside(s: Screen, x: int, y: int, sqrt: real -> real)
      requires IsSqrt(sqrt) && Laid(sqrt) && inputImage != null && s in corners
      requires 0 <= x < s.pixelX && 0 <= y < s.pixelY
      ensures 0 <= SourceColumn(SamplingOf(s, sqrt), x) < inputImage.Length0
      ensures 0 <= SourceRow(SamplingOf(s, sqrt), y) < inputImage.Length1
    {
      assert FitsCanvas(s, corners[s], width, height, sqrt);
      Quotient(width, height);
      Quotient(s.pixelX as real, s.pixelY as real);
      var o := CropOffsets();
      SampleInside(x, s.pixelX, s.SizeX(sqrt), width, corners[s].x, inputImage.Length0, o.x);
      SampleInside(y, s.pixelY, s.SizeY(sqrt), height, corners[s].y, inputImage.Length1, o.y);
    }

    /** The image of one screen: column by column, each column sampled
        from the loaded image. */
    method Resample(s: Screen, offsets: Point, sqrt: real -> real) returns (wallpaper: array2<int>)
      requires IsSqrt(sqrt) && Laid(sqrt) && inputImage != null && s in corners
      requires offsets == CropOffsets()
      ensures fresh(wallpaper) && Resampled(wallpaper, inputImage, SamplingOf(s, sqrt))
    {
      assert FitsCanvas(s, corners[s], width, height, sqrt);
      ghost var v := SamplingOf(s, sqrt);
      ghost var cols, rows := SourceColumns(v, s.pixelX), SourceRows(v, s.pixelY);
      forall i | 0 <= i < s.pixelX
        ensures 0 <= cols[i] < inputImage.Length0
      {
        SourceColumnsAt(v, s.pixelX, i);
        SourceInside(s, i, 0, sqrt);
      }
      forall r | 0 <= r < s.pixelY
        ensures 0 <= rows[r] < inputImage.Length1
      {
        SourceRowsAt(v, s.pixelY, r);
        SourceInside(s, 0, s.pixelY - 1 - r, sqrt);
      }
      wallpaper := new int[s.pixelX, s.pixelY];
      var x := 0;
      while x < s.pixelX
        invariant 0 <= x <= s.pixelX
        invariant forall x', r :: 0 <= x' < x && 0 <= r < s.pixelY ==>
          wallpaper[x', r] == inputImage[cols[x'], rows[r]]
      {
        ResampleColumn(s, wallpaper, x, offsets, v, cols, rows, sqrt);
        x := x + 1;
      }
      ColumnsGatheredPixels(wallpaper, inputImage, cols, rows, s.pixelX);
    }

    /** Column `x` of the image of screen `s`: row by row, each pixel copied
        from the sampled image pixel, rows written bottom up; the other
        columns are left as they were. */
    method ResampleColumn(s: Screen, wallpaper: array2<int>, x: int, offsets: Point,
                          ghost v: Sampling, ghost cols: seq<int>, ghost rows: seq<int>, sqrt: real -> real)
      requires IsSqrt(sqrt) && Valid() && inputImage != null && s in corners && s.Positive()
      requires offsets == CropOffsets() && wallpaper != inputImage
      requires wallpaper.Length0 == s.pixelX && wallpaper.Length1 == s.pixelY && 0 <= x < s.pixelX
      requires v == SamplingOf(s, sqrt) && cols == SourceColumns(v, s.pixelX) && rows == SourceRows(v, s.pixelY)
      requires 0 <= cols[x] < inputImage.Length0
      requires forall r :: 0 <= r < s.pixelY ==> 0 <= rows[r] < inputImage.Length1
      modifies wallpaper
      ensures forall x', r :: 0 <= x' < s.pixelX && x' != x && 0 <= r < s.pixelY ==>
        wallpaper[x', r] == old(wallpaper[x', r])
      ensures forall r :: 0 <= r < s.pixelY ==> wallpaper[x, r] == inputImage[cols[x], rows[r]]
    {
      var input := inputImage;
      var pixelY, sizeY, cornerY := s.pixelY, s.SizeY(sqrt), corners[s].y;
      var percentX := Percent(x, s.pixelX, s.SizeX(sqrt), width, corners[s].x);
      var xSample := Sample(percentX, input.Length0, offsets.x);
      SourceColumnsAt(v, s.pixelX, x);
      assert cols[x] == xSample.Floor;
      forall r | 0 <= r < pixelY
        ensures rows[r] == input.Length1 - 1
          - Sample(Percent(pixelY - 1 - r, pixelY, sizeY, height, cornerY), input.Length1, offsets.y).Floor
      {
        SourceRowsAt(v, pixelY, r);
      }
      var y := 0;
      while y < pixelY
        invariant 0 <= y <= pixelY
        invariant forall x', r :: 0 <= x' < s.pixelX && x' != x && 0 <= r < pixelY ==>
          wallpaper[x', r] == old(wallpaper[x', r])
        invariant forall r :: pixelY - y <= r < pixelY ==> wallpaper[x, r] == input[cols[x], rows[r]]
      {
        var percentY := Percent(y, pixelY, sizeY, height, cornerY);
        var ySample := Sample(percentY, input.Length1, offsets.y);
        assert rows[pixelY - 1 - y] == input.Length1 - 1 - ySample.Floor;
        wallpaper[x, wallpaper.Length1 - 1 - y] := input[xSample.Floor, input.Length1 - 1 - ySample.Floor];
        y := y + 1;
      }
    }

    /** Resamples the image for every screen that has a corner, in the
        map's iteration order: each of them gets a new image of its native
        resolution, entries of `images` for other screens are kept, and
        nothing happens without an image. */
    method Compute(sqrt: real -> real)
      requires IsSqrt(sqrt) && Laid(sqrt)
      modifies this`images
      ensures inputImage == null ==> images == old(images)
      ensures inputImage != null ==> images.Keys == old(images).Keys + corners.Keys
      ensures inputImage != null ==> forall t :: t in old(images) && t !in corners ==> images[t] == old(images)[t]
      ensures inputImage != null ==> forall s :: s in corners ==>
        fresh(images[s]) && images[s].Length0 == s.pixelX && images[s].Length1 == s.pixelY
    {
      if inputImage != null {
        var offsets := CropOffsets();
        var pending := corners.Keys;
        while pending != {}
          invariant pending <= corners.Keys
          invariant images.Keys == old(images).Keys + (corners.Keys - pending)
          invariant forall t :: t in old(images) && (t !in corners || t in pending) ==> images[t] == old(images)[t]
          invariant forall s :: s in corners && s !in pending ==>
            fresh(images[s]) && images[s].Length0 == s.pixelX && images[s].Length1 == s.pixelY
          decreases pending
        {
          var s :| s in pending;
          var wallpaper := Resample(s, offsets, sqrt);
          images := images[s := wallpaper];
          pending := pending - {s};
        }
      }
    }

    /** The bezel of screen `s` in image pixels. */
    function BezelOf(s: Screen, sqrt: real -> real): Rect
      reads this`corners, this`inputImage, this`aspect, this`width, this`height, s
      requires IsSqrt(sqrt) && Valid() && inputImage != null && s in corners
    {
      Bezel(corners[s], s.SizeX(sqrt), s.SizeY(sqrt), width, height,
            inputImage.Length0, inputImage.Length1, CropOffsets())
    }

    /** The rectangles `computeRectangles` leaves when they were `before`:
        without an image `before` itself, otherwise `before` with the
        bezel of every screen that has a corner put over it. */
    ghost function RebuiltBezels(before: map<Screen, Rect>, sqrt: real -> real): map<Screen, Rect>
      reads this`corners, this`inputImage, this`aspect, this`width, this`height, corners.Keys
      requires IsSqrt(sqrt) && Valid()
    {
      if inputImage == null then before
      else map t | t in before.Keys + corners.Keys :: if t in corners then BezelOf(t, sqrt) else before[t]
    }

    /** `BezelsRebuilt` describes exactly one map of rectangles. */
    lemma RebuiltExactly(before: map<Screen, Rect>, sqrt: real -> real)
      requires IsSqrt(sqrt) && Valid()
      ensures BezelsRebuilt(before, sqrt) <==> rectangles == RebuiltBezels(before, sqrt)
    {
      if inputImage != null && BezelsRebuilt(before, sqrt) {
        assert rectangles.Keys == RebuiltBezels(before, sqrt).Keys;
      }
    }

    /** Rebuilding the bezels a second time, with the corners, sizes and
        image unchanged, gives the same rectangles, so a repeated `fill`
        yields the same buffer. */
    lemma RebuildIdempotent(before: map<Screen, Rect>, sqrt: real -> real)
      requires IsSqrt(sqrt) && Valid()
      ensures RebuiltBezels(RebuiltBezels(before, sqrt), sqrt) == RebuiltBezels(before, sqrt)
    {
      if inputImage != null {
        var once := RebuiltBezels(before, sqrt);
        assert RebuiltBezels(once, sqrt).Keys == once.Keys;
      }
    }

    /** `rectangles` after `computeRectangles` when it was `before`: a bezel
        for every screen with a corner, the other entries untouched. */
    ghost predicate BezelsRebuilt(before: map<Screen, Rect>, sqrt: real -> real)
      reads this`rectangles, this`corners, this`inputImage, this`aspect, this`width, this`height, corners.Keys
      requires IsSqrt(sqrt) && Valid()
    {
      if inputImage == null then rectangles == before
      else
        rectangles.Keys == before.Keys + corners.Keys &&
        (forall t :: t in before && t !in corners ==> rectangles[t] == before[t]) &&
        (forall s :: s in corners ==> rectangles[s] == BezelOf(s, sqrt))
    }

    method ComputeRectangles(sqrt: real -> real)
      requires IsSqrt(sqrt) && Valid()
      modifies this`rectangles
      ensures Valid() && BezelsRebuilt(old(rectangles), sqrt)
    {
      if inputImage != null {
        var offsets := CropOffsets();
        var pending := corners.Keys;
        while pending != {}
          invariant pending <= corners.Keys
          invariant rectangles.Keys == old(rectangles).Keys + (corners.Keys - pending)
          invariant forall t :: t in old(rectangles) && (t !in corners || t in pending) ==>
            rectangles[t] == old(rectangles)[t]
          invariant forall s :: s in corners && s !in pending ==> rectangles[s] == BezelOf(s, sqrt)
          decreases pending
        {
          var s :| s in pending;
          rectangles := rectangles[s := Bezel(corners[s], s.SizeX(sqrt), s.SizeY(sqrt), width, height,
                                              inputImage.Length0, inputImage.Length1, offsets)];
          pending := pending - {s};
        }
      }
    }

    /** Rebuilds the bezels, then hands the preview buffer to the texture
        (here: returns it); without an image there is no buffer. */
    method Fill(sqrt: real -> real) returns (buffer: Option<seq<byte>>)
      requires IsSqrt(sqrt) && Valid()
      modifies this`rectangles
      ensures Valid() && BezelsRebuilt(old(rectangles), sqrt)
      ensures buffer.Some? <==> inputImage != null
      ensures inputImage != null ==> buffer.value == Preview(inputImage, rectangles.Values)
    {
      ComputeRectangles(sqrt);
      if inputImage == null {
        return None;
      }
      var bytes := Render(inputImage, rectangles.Values);
      return Some(bytes);
    }
  }

  /** What the sampling of one screen depends on: its corner, its
      resolution and physical size, the canvas extent, the image size and
      the crop offsets. */
  datatype Sampling = Sampling(corner: Point, pixelX: int, pixelY: int, sizeX: real, sizeY: real,
                               width: real, height: real, imageX: int, imageY: int, offsets: Point)
  {
    predicate Valid() {
      0 < pixelX && 0 < pixelY && width != 0.0 && height != 0.0
    }
  }

  /** Image column sampled by column `x` of the screen. */
  function SourceColumn(v: Sampling, x: int): int
    requires v.Valid()
  {
    Sample(Percent(x, v.pixelX, v.sizeX, v.width, v.corner.x), v.imageX, v.offsets.x).Floor
  }

  /** Image row sampled by row `y` of the screen, counted from the bottom on
      both sides. */
  function SourceRow(v: Sampling, y: int): int
    requires v.Valid()
  {
    v.imageY - 1 - Sample(Percent(y, v.pixelY, v.sizeY, v.height, v.corner.y), v.imageY, v.offsets.y).Floor
  }

  /** Image columns sampled by the first `n` columns of the screen, left
      to right. */
  function SourceColumns(v: Sampling, n: int): (cols: seq<int>)
    requires v.Valid() && 0 <= n <= v.pixelX
    ensures |cols| == n
  {
    if n == 0 then [] else SourceColumns(v, n - 1) + [SourceColumn(v, n - 1)]
  }

  /** Entry `x` of the sampled columns is the column sampled by pixel `x`. */
  lemma {:induction false} SourceColumnsAt(v: Sampling, n: int, x: int)
    requires v.Valid() && 0 <= x < n <= v.pixelX
    ensures SourceColumns(v, n)[x] == SourceColumn(v, x)
  {
    if x < n - 1 {
      SourceColumnsAt(v, n - 1, x);
    }
  }

  /** Image rows sampled by the first `n` rows of the screen, top to bottom
      (row `r` from the top is row `pixelY - 1 - r` from the bottom). */
  function SourceRows(v: Sampling, n: int): (rows: seq<int>)
    requires v.Valid() && 0 <= n <= v.pixelY
    ensures |rows| == n
  {
    if n == 0 then [] else SourceRows(v, n - 1) + [SourceRow(v, v.pixelY - n)]
  }

  /** Entry `r` of the sampled rows is the row sampled by pixel row
      `pixelY - 1 - r`. */
  lemma {:induction false} SourceRowsAt(v: Sampling, n: int, r: int)
    requires v.Valid() && 0 <= r < n <= v.pixelY
    ensures SourceRows(v, n)[r] == SourceRow(v, v.pixelY - 1 - r)
  {
    if r < n - 1 {
      SourceRowsAt(v, n - 1, r);
    }
  }

  /** `wall` is the image of the screen sampled by `v`: exactly its native
      resolution, every pixel sampled from `img`. */
  ghost predicate Resampled(wall: array2<int>, img: array2<int>, v: Sampling)
    reads wall, img
  {
    v.Valid() && Gathered(wall, img, SourceColumns(v, v.pixelX), SourceRows(v, v.pixelY))
  }

  /** `wall` has one column per entry of `cols` and one row per entry of
      `rows`, every entry of `rows` names a row of `img`, and the columns
      of `wall` are gathered from `img` as `ColumnsGathered` says. */
  ghost predicate Gathered(wall: array2<int>, img: array2<int>, cols: seq<int>, rows: seq<int>)
    reads wall, img
  {
    wall.Length0 == |cols| && wall.Length1 == |rows| &&
    (forall r :: 0 <= r < |rows| ==> 0 <= rows[r] < img.Length1) &&
    ColumnsGathered(wall, img, cols, rows, |cols|)
  }

  /** Each of the first `n` columns `x` of `wall` names a column `cols[x]`
      of `img`, and its pixel at row `r` is the pixel of `img` at column
      `cols[x]` and row `rows[r]`. */
  ghost predicate ColumnsGathered(wall: array2<int>, img: array2<int>, cols: seq<int>, rows: seq<int>, n: int)
    reads wall, img
    requires 0 <= n <= |cols| == wall.Length0 && |rows| == wall.Length1
    requires forall r :: 0 <= r < |rows| ==> 0 <= rows[r] < img.Length1
  {
    n == 0 ||
    (ColumnsGathered(wall, img, cols, rows, n - 1) && 0 <= cols[n - 1] < img.Length0 &&
     forall r :: 0 <= r < |rows| ==> wall[n - 1, r] == img[cols[n - 1], rows[r]])
  }

  /** `ColumnsGathered` holds exactly when every pixel of the first `n`
      columns is the image pixel its column and row name. */
  lemma {:induction false} ColumnsGatheredPixels(wall: array2<int>, img: array2<int>, cols: seq<int>, rows: seq<int>, n: int)
    requires 0 <= n <= |cols| == wall.Length0 && |rows| == wall.Length1
    requires forall r :: 0 <= r < |rows| ==> 0 <= rows[r] < img.Length1
    ensures ColumnsGathered(wall, img, cols, rows, n) <==>
      (forall x :: 0 <= x < n ==> 0 <= cols[x] < img.Length0) &&
      forall x, r :: 0 <= x < n && 0 <= r < |rows| ==> 0 <= cols[x] < img.Length0 && wall[x, r] == img[cols[x], rows[r]]
  {
    if n != 0 {
      ColumnsGatheredPixels(wall, img, cols, rows, n - 1);
    }
  }

  /** Screen `s` is valid, has a positive size, and its footprint from the
      normalised corner `c` lies in the unit square of a `width` by
      `height` canvas. */
  ghost predicate FitsCanvas(s: Screen, c: Point, width: real, height: real, sqrt: real -> real)
    reads s
    requires IsSqrt(sqrt) && width != 0.0 && height != 0.0
  {
    s.Valid() && s.Positive() && Fits(c, s.SizeX(sqrt) / width, s.SizeY(sqrt) / height)
  }

  /** Every screen of `corners` fits the canvas from its corner. */
  ghost predicate Fitted(corners: map<Screen, Point>, width: real, height: real, sqrt: real -> real)
    reads corners.Keys
    requires IsSqrt(sqrt) && (corners != map[] ==> width != 0.0 && height != 0.0)
  {
    forall s {:trigger FitsCanvas(s, corners[s], width, height, sqrt)} :: s in corners ==>
      FitsCanvas(s, corners[s], width, height, sqrt)
  }

  /** Corners placed from the current sizes of valid screens, on a canvas
      whose height started at `h0`, lie in the unit square. */
  lemma PlacedFits(screens: seq<Screen>, corners: map<Screen, Point>, mode: Mode, h0: real,
                   width: real, height: real, sqrt: real -> real)
    requires IsSqrt(sqrt) && forall s :: s in screens ==> s.Valid() && s.Positive()
    requires height == Tallest(h0, Heights(screens, sqrt)) && 0.0 < height
    requires screens != [] ==> width == Sum(Widths(screens, sqrt)) && 0.0 < width
    requires Placed(corners, screens, Widths(screens, sqrt), Heights(screens, sqrt), mode, width, height)
    ensures Fitted(corners, width, height, sqrt)
  {
    var xs, ys := Widths(screens, sqrt), Heights(screens, sqrt);
    SizesPositive(screens, sqrt);
    forall t | t in corners
      ensures FitsCanvas(t, corners[t], width, height, sqrt)
    {
      var j := LastIndex(screens, t);
      PlacementFits(h0, xs, ys, mode, j);
    }
  }

  /** `Placed` pins the corners down: two maps placed from the same
      screens, sizes, mode and canvas are equal. */
  lemma PlacedUnique(c1: map<Screen, Point>, c2: map<Screen, Point>, screens: seq<Screen>,
                     xs: seq<real>, ys: seq<real>, mode: Mode, width: real, height: real)
    requires |xs| == |ys| == |screens| && (screens != [] ==> width != 0.0) && height != 0.0
    requires Placed(c1, screens, xs, ys, mode, width, height)
    requires Placed(c2, screens, xs, ys, mode, width, height)
    ensures c1 == c2
  {
    forall t | t in c1
      ensures t in c2 && c1[t] == c2[t]
    {
      var j := LastIndex(screens, t);
    }
    assert c1.Keys == c2.Keys;
  }

  /** A second `init` with the same screens and mode, none resized in
      between, leaves the shape as the first one did: from the height
      `h1`, width `w1` and corners `c1` of the first call (as
      `Shape.Init` ensures them), the second call computes the same
      height and width, and the only corners it can place are `c1`. */
  lemma InitIdempotent(screens: seq<Screen>, mode: Mode, sqrt: real -> real,
                       h0: real, w0: real, h1: real, w1: real, c1: map<Screen, Point>, c2: map<Screen, Point>)
    requires IsSqrt(sqrt)
    requires h1 == Tallest(h0, Heights(screens, sqrt)) && 0.0 < h1
    requires w1 == (if screens == [] then w0 else Sum(Widths(screens, sqrt))) && (screens != [] ==> 0.0 < w1)
    requires Placed(c1, screens, Widths(screens, sqrt), Heights(screens, sqrt), mode, w1, h1)
    ensures Tallest(h1, Heights(screens, sqrt)) == h1
    ensures (if screens == [] then w1 else Sum(Widths(screens, sqrt))) == w1
    ensures Placed(c2, screens, Widths(screens, sqrt), Heights(screens, sqrt), mode, w1, h1) <==> c2 == c1
  {
    TallestIdempotent(h0, Heights(screens, sqrt));
    if Placed(c2, screens, Widths(screens, sqrt), Heights(screens, sqrt), mode, w1, h1) {
      PlacedUnique(c1, c2, screens, Widths(screens, sqrt), Heights(screens, sqrt), mode, w1, h1);
    }
  }

  /** Screens with a positive resolution and diagonal have positive
      physical sizes. */
  lemma SizesPositive(screens: seq<Screen>, sqrt: real -> real)
    requires IsSqrt(sqrt) && forall s :: s in screens ==> s.Valid() && s.Positive()
    ensures forall i :: 0 <= i < |screens| ==> 0.0 < Widths(screens, sqrt)[i] && 0.0 < Heights(screens, sqrt)[i]
  {
    forall i | 0 <= i < |screens|
      ensures 0.0 < Widths(screens, sqrt)[i] && 0.0 < Heights(screens, sqrt)[i]
    {
      assert screens[i] in screens;
      screens[i].SizesPositive(sqrt);
    }
  }

  /** The three loops of `init` on the physical widths `xs` and heights
      `ys` of the screens, in list order: the new height, the new width
      and the normalised corners. */
  method Arrange(screens: seq<Screen>, xs: seq<real>, ys: seq<real>, mode: Mode, height: real, width: real)
    returns (corners: map<Screen, Point>, h: real, w: real)
    requires |xs| == |ys| == |screens|
    requires forall i :: 0 <= i < |screens| ==> 0.0 < xs[i] && 0.0 < ys[i]
    requires 0.0 <= height && (screens != [] || 0.0 < height)
    ensures h == Tallest(height, ys) && 0.0 < h
    ensures w == if screens == [] then width else Sum(xs)
    ensures screens != [] ==> 0.0 < w
    ensures Placed(corners, screens, xs, ys, mode, w, h)
  {
    h := TallestHeight(height, ys);
    var raw;
    raw, w := Place(screens, xs, ys, mode, h, width);
    if screens != [] {
      PlacementFits(height, xs, ys, mode, 0);
    } else {
      TallestBounds(height, ys);
    }
    corners := Normalise(raw, w, h);
    forall j {:trigger LastBefore(screens, j, |screens|)} | 0 <= j < |screens| && LastBefore(screens, j, |screens|)
      ensures corners[screens[j]] == Point(Sum(xs[..j]) / w, RawY(mode, h, ys[j]) / h)
    {
      assert screens[j] in raw;
    }
  }

  /** The first loop of `init`: raise `height` to every taller screen,
      `ys` holding the physical heights of the screens in list order. */
  method TallestHeight(height: real, ys: seq<real>) returns (h: real)
    ensures h == Tallest(height, ys)
  {
    h := height;
    var i := 0;
    while i < |ys|
      invariant 0 <= i <= |ys|
      invariant h == Tallest(height, ys[..i])
    {
      if ys[i] > h {
        h := ys[i];
      }
      assert ys[..i + 1][..i] == ys[..i];
      i := i + 1;
    }
    assert ys[..i] == ys;
  }

  /** The second loop of `init`, `xs` and `ys` holding the physical sizes
      of the screens in list order: each screen gets the running sum of
      the widths before it as x and the mode's offset as y, and `width`
      is moved to the right edge of the screen just placed. A screen
      listed twice keeps the corner of its last occurrence. */
  method Place(screens: seq<Screen>, xs: seq<real>, ys: seq<real>, mode: Mode, height: real, width: real)
    returns (raw: map<Screen, Point>, w: real)
    requires |xs| == |ys| == |screens|
    ensures forall t :: t in raw <==> t in screens
    ensures w == if screens == [] then width else Sum(xs)
    ensures forall j {:trigger LastBefore(screens, j, |screens|)} ::
      0 <= j < |screens| && LastBefore(screens, j, |screens|) ==>
      raw[screens[j]] == Point(Sum(xs[..j]), RawY(mode, height, ys[j]))
  {
    raw := map[];
    w := width;
    var currentX := 0.0;
    var i := 0;
    while i < |screens|
      invariant 0 <= i <= |screens|
      invariant currentX == Sum(xs[..i])
      invariant w == if i == 0 then width else currentX
      invariant forall t :: t in raw <==> t in screens[..i]
      invariant forall j {:trigger LastBefore(screens, j, i)} :: 0 <= j < i && LastBefore(screens, j, i) ==>
        raw[screens[j]] == Point(Sum(xs[..j]), RawY(mode, height, ys[j]))
    {
      var s := screens[i];
      ghost var before := raw;
      raw := raw[s := Point(currentX, RawY(mode, height, ys[i]))];
      forall j | 0 <= j < i + 1 && LastBefore(screens, j, i + 1)
        ensures raw[screens[j]] == Point(Sum(xs[..j]), RawY(mode, height, ys[j]))
      {
        if j < i {
          assert screens[i] != screens[j] && LastBefore(screens, j, i);
          assert raw[screens[j]] == before[screens[j]];
        }
      }
      w := currentX + xs[i];
      currentX := currentX + xs[i];
      SumStep(xs, i);
      PrefixStep(screens, i);
      i := i + 1;
    }
    assert xs[..i] == xs && screens[..i] == screens;
  }

  /** The elements of a prefix one longer are those of the shorter prefix
      and the element added. */
  lemma PrefixStep<T>(xs: seq<T>, i: nat)
    requires i < |xs|
    ensures forall t :: t in xs[..i + 1] <==> t in xs[..i] || t == xs[i]
  {
    assert xs[..i + 1] == xs[..i] + [xs[i]];
  }

  /** Every screen of the list has a last occurrence. */
  lemma {:induction false} LastIndex(screens: seq<Screen>, t: Screen) returns (j: nat)
    requires t in screens
    ensures j < |screens| && screens[j] == t && LastBefore(screens, j, |screens|)
  {
    var n := |screens| - 1;
    if screens[n] == t {
      j := n;
    } else {
      assert t in screens[..n];
      j := LastIndex(screens[..n], t);
      assert screens[..n][j] == t;
    }
  }

  /** The third loop of `init`: every corner divided by the canvas extent. */
  method Normalise(raw: map<Screen, Point>, width: real, height: real) returns (corners: map<Screen, Point>)
    requires forall t :: t in raw ==> width != 0.0 && height != 0.0
    ensures corners.Keys == raw.Keys
    ensures forall t :: t in raw ==> corners[t] == Point(raw[t].x / width, raw[t].y / height)
  {
    corners := raw;
    var pending := raw.Keys;
    while pending != {}
      invariant pending <= corners.Keys == raw.Keys
      invariant forall t :: t in pending ==> corners[t] == raw[t]
      invariant forall t :: t in raw && t !in pending ==> corners[t] == Point(raw[t].x / width, raw[t].y / height)
      decreases pending
    {
      var t :| t in pending;
      corners := corners[t := Point(corners[t].x / width, corners[t].y / height)];
      pending := pending - {t};
    }
  }

  /** The loops of `fill` over the image, row by row and left to right:
      four bytes per pixel, red where a bezel edge is near. */
  method Render(img: array2<int>, rects: set<Rect>) returns (bytes: seq<byte>)
    ensures bytes == Preview(img, rects)
  {
    bytes := [];
    var y := 0;
    while y < img.Length1
      invariant 0 <= y <= img.Length1
      invariant bytes == Rows(img, rects, y)
    {
      ghost var above := Rows(img, rects, y);
      var x := 0;
      while x < img.Length0
        invariant 0 <= x <= img.Length0
        invariant bytes == above + Row(img, rects, y, x)
      {
        ghost var before := bytes;
        var painted := Overrides(rects, x, y);
        if !painted {
          var rgb := img[x, y];
          bytes := bytes + [Red(rgb), Green(rgb), Blue(rgb)];
        } else {
          bytes := bytes + [255, 0, 0];
        }
        bytes := bytes + [255];
        assert bytes == before + PixelBytes(img[x, y], painted);
        AppendAssoc(above, Row(img, rects, y, x), PixelBytes(img[x, y], painted));
        x := x + 1;
      }
      y := y + 1;
    }
  }

  lemma AppendAssoc<T>(a: seq<T>, b: seq<T>, c: seq<T>)
    ensures a + (b + c) == (a + b) + c
  {
  }
}
