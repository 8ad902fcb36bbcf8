/** The preview buffer of `Shape.fill`: the source image in RGBA, with the
    pixels near the edge of any bezel rectangle painted red. */
module Overlay {
  import opened Resampling

  newtype byte = x: int | 0 <= x < 256

  /** Half-width, in pixels, of the band painted around each bezel edge. */
  const Margin: real := 6.0

  /** The test `fill` applies to pixel (x, y) and one rectangle: inside the
      widened x-extent and within the margin of the top or bottom edge, or
      inside the widened y-extent and within the margin of the left or right
      edge. */
  predicate Near(r: Rect, x: int, y: int)
  {
    var px, py := x as real, y as real;
    (px <= r.maxX + Margin && px >= r.minX - Margin &&
      ((py >= r.maxY - Margin && py <= r.maxY + Margin) || (py >= r.minY - Margin && py <= r.minY + Margin)))
    ||
    (py <= r.maxY + Margin && py >= r.minY - Margin &&
      ((px >= r.maxX - Margin && px <= r.maxX + Margin) || (px >= r.minX - Margin && px <= r.minX + Margin)))
  }

  /** Pixel (x, y) is painted when some rectangle is near it. */
  ghost predicate Highlighted(rects: set<Rect>, x: int, y: int)
  {
    exists r :: r in rects && Near(r, x, y)
  }

  /** The inner scan of `fill`: try the rectangles one at a time and stop
      at the first one near the pixel. */
  method Overrides(rects: set<Rect>, x: int, y: int) returns (hit: bool)
    ensures hit <==> Highlighted(rects, x, y)
  {
    hit := false;
    var pending := rects;
    while pending != {}
      invariant pending <= rects
      invariant forall r :: r in rects && r !in pending ==> !Near(r, x, y)
      decreases pending
    {
      var r :| r in pending;
      if Near(r, x, y) {
        hit := true;
        break;
      }
      pending := pending - {r};
    }
  }

  /** Bits 16..23, 8..15 and 0..7 of a packed `0xAARRGGBB` pixel. */
  function Red(rgb: int): byte { ((rgb / 0x1_0000) % 0x100) as byte }
  function Green(rgb: int): byte { ((rgb / 0x100) % 0x100) as byte }
  function Blue(rgb: int): byte { (rgb % 0x100) as byte }

  /** The four bytes `fill` appends for one pixel. */
  function PixelBytes(rgb: int, painted: bool): (b: seq<byte>)
    ensures |b| == 4
  {
    if painted then [255, 0, 0, 255] else [Red(rgb), Green(rgb), Blue(rgb), 255]
  }

  /** Bytes of the first `n` pixels of row `y`. */
  ghost function Row(img: array2<int>, rects: set<Rect>, y: int, n: int): (b: seq<byte>)
    reads img
    requires 0 <= y < img.Length1 && 0 <= n <= img.Length0
    ensures |b| == 4 * n
  {
    if n == 0 then []
    else Row(img, rects, y, n - 1) + PixelBytes(img[n - 1, y], Highlighted(rects, n - 1, y))
  }

  /** Offset of row `y` in a buffer of rows `w` pixels wide. */
  function RowStart(w: nat, y: nat): nat
  {
    if y == 0 then 0 else RowStart(w, y - 1) + 4 * w
  }

  /** Bytes of the first `m` rows, each row left to right. */
  ghost function Rows(img: array2<int>, rects: set<Rect>, m: int): (b: seq<byte>)
    reads img
    requires 0 <= m <= img.Length1
    ensures |b| == RowStart(img.Length0, m)
  {
    if m == 0 then []
    else Rows(img, rects, m - 1) + Row(img, rects, m - 1, img.Length0)
  }

  /** The whole preview buffer of an image. */
  ghost function Preview(img: array2<int>, rects: set<Rect>): seq<byte>
    reads img
  {
    Rows(img, rects, img.Length1)
  }

  /** Byte `i` of pixel `x` sits at offset `4 * x + i` of its row. */
  lemma {:induction false} RowAt(img: array2<int>, rects: set<Rect>, y: int, n: int, x: int, i: int)
    requires 0 <= y < img.Length1 && 0 <= x < n <= img.Length0 && 0 <= i < 4
    ensures Row(img, rects, y, n)[4 * x + i] == PixelBytes(img[x, y], Highlighted(rects, x, y))[i]
  {
    if x < n - 1 {
      RowAt(img, rects, y, n - 1, x, i);
    }
  }

  /** Byte `t` of row `y` sits at offset `RowStart(width, y) + t` of the
      buffer. */
  lemma {:induction false} RowsAt(img: array2<int>, rects: set<Rect>, m: int, y: int, t: int)
    requires 0 <= y < m <= img.Length1 && 0 <= t < 4 * img.Length0
    ensures RowStart(img.Length0, y) + t < |Rows(img, rects, m)|
    ensures Rows(img, rects, m)[RowStart(img.Length0, y) + t] == Row(img, rects, y, img.Length0)[t]
  {
    if y < m - 1 {
      RowsAt(img, rects, m - 1, y, t);
    }
  }

  /** Row `y` starts after `y` whole rows of four bytes per pixel. */
  lemma {:induction false} RowStartIsProduct(w: nat, y: nat)
    ensures RowStart(w, y) == 4 * (y * w)
  {
    if y > 0 {
      RowStartIsProduct(w, y - 1);
      assert (y - 1) * w + w == y * w;
    }
  }

  /** The buffer holds `width * height * 4` bytes, pixel (x, y) at offset
      `4 * (y * width + x)`; its alpha is always 255, a painted pixel is
      pure red and any other pixel keeps the image's colour. */
  lemma PreviewAt(img: array2<int>, rects: set<Rect>, x: int, y: int)
    requires 0 <= x < img.Length0 && 0 <= y < img.Length1
    ensures |Preview(img, rects)| == img.Length0 * img.Length1 * 4
    ensures var b, k := Preview(img, rects), 4 * (y * img.Length0 + x);
      && k + 3 < |b| && b[k + 3] == 255
      && (Highlighted(rects, x, y) ==> b[k] == 255 && b[k + 1] == 0 && b[k + 2] == 0)
      && (!Highlighted(rects, x, y) ==>
            b[k] == Red(img[x, y]) && b[k + 1] == Green(img[x, y]) && b[k + 2] == Blue(img[x, y]))
  {
    var w, h := img.Length0, img.Length1;
    RowStartIsProduct(w, y);
    RowStartIsProduct(w, h);
    assert 4 * (h * w) == w * h * 4;
    OffsetBelow(w, h, x, y);
    var k := RowStart(w, y) + 4 * x;
    assert k == 4 * (y * w + x);
    RowAt(img, rects, y, w, x, 0);
    RowsAt(img, rects, h, y, 4 * x);
    RowAt(img, rects, y, w, x, 1);
    RowsAt(img, rects, h, y, 4 * x + 1);
    RowAt(img, rects, y, w, x, 2);
    RowsAt(img, rects, h, y, 4 * x + 2);
    RowAt(img, rects, y, w, x, 3);
    RowsAt(img, rects, h, y, 4 * x + 3);
  }

  /** Pixel (x, y) of a `w` by `h` image comes before the end of the
      image in row-major order. */
  lemma OffsetBelow(w: int, h: int, x: int, y: int)
    requires 0 <= x < w && 0 <= y < h
    ensures y * w + x < h * w
  {
    assert h * w - (y + 1) * w == (h - y - 1) * w;
    assert 0 <= (h - y - 1) * w;
  }
}
