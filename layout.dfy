/** Placement of the screens on the virtual canvas (`Shape.init`): prefix
    sums of the physical widths, a running maximum of the physical heights
    and a vertical offset chosen by the alignment mode. */
module Layout {
  import opened Options
  import opened Arith

  /** `Shape.Mode`: vertical alignment of a screen within the tallest one. */
  datatype Mode = Center | Top | Bottom

  /** Position of a mode in `Mode.values()`. */
  function ModeIndex(m: Mode): (i: nat)
    ensures i < 3
  {
    match m
    case Center => 0
    case Top => 1
    case Bottom => 2
  }

  /** `Mode.get(i)`, i.e. `values()[i]`: the mode at that position, and
      no mode (the array access throws) for any other index. */
  function ModeAt(i: int): (m: Option<Mode>)
    ensures m.Some? <==> 0 <= i < 3
    ensures m.Some? ==> ModeIndex(m.value) == i
  {
    if i == 0 then Some(Center) else if i == 1 then Some(Top) else if i == 2 then Some(Bottom) else None
  }

  /** Every mode is found again at its own position. */
  lemma ModeIndexRoundTrip(m: Mode)
    ensures ModeAt(ModeIndex(m)) == Some(m)
  {
  }

  /** A corner of a screen (`Vector2f`). */
  datatype Point = Point(x: real, y: real)

  /** Sum of a sequence, accumulated front to back. */
  function Sum(xs: seq<real>): real
  {
    if xs == [] then 0.0 else Sum(xs[..|xs| - 1]) + xs[|xs| - 1]
  }

  /** The running maximum `init` keeps in `height`: starting from the
      previous `h0`, raised to every larger element in turn. */
  function Tallest(h0: real, ys: seq<real>): real
  {
    if ys == [] then h0
    else
      var m := Tallest(h0, ys[..|ys| - 1]);
      if ys[|ys| - 1] > m then ys[|ys| - 1] else m
  }

  /** Unnormalised y of a screen of physical height `sizeY` in a canvas of
      height `height`. */
  function RawY(mode: Mode, height: real, sizeY: real): real
  {
    match mode
    case Center => (height - sizeY) / 2.0
    case Top => height - sizeY
    case Bottom => 0.0
  }

  /** A normalised corner whose footprint spans `fx` by `fy` of the canvas
      lies inside the unit square. */
  predicate Fits(c: Point, fx: real, fy: real)
  {
    0.0 <= c.x && c.x + fx <= 1.0 && 0.0 <= c.y && c.y + fy <= 1.0
  }

  /** The height only ever grows: it dominates its previous value and every
      screen, and it is one of them. */
  lemma {:induction false} TallestBounds(h0: real, ys: seq<real>)
    ensures h0 <= Tallest(h0, ys)
    ensures forall i :: 0 <= i < |ys| ==> ys[i] <= Tallest(h0, ys)
    ensures Tallest(h0, ys) == h0 || exists i :: 0 <= i < |ys| && Tallest(h0, ys) == ys[i]
  {
    if ys != [] {
      var init := ys[..|ys| - 1];
      TallestBounds(h0, init);
      assert forall i :: 0 <= i < |init| ==> init[i] == ys[i];
    }
  }

  /** Starting from a fresh canvas (height 0), the height is exactly the
      tallest screen. */
  lemma TallestFromZero(ys: seq<real>)
    requires ys != [] && forall i :: 0 <= i < |ys| ==> 0.0 < ys[i]
    ensures exists i :: 0 <= i < |ys| && Tallest(0.0, ys) == ys[i]
    ensures forall i :: 0 <= i < |ys| ==> ys[i] <= Tallest(0.0, ys)
  {
    TallestBounds(0.0, ys);
    assert ys[0] <= Tallest(0.0, ys);
  }

  /** A height that already dominates every screen is kept as it is. */
  lemma {:induction false} TallestAbove(h: real, ys: seq<real>)
    requires forall i :: 0 <= i < |ys| ==> ys[i] <= h
    ensures Tallest(h, ys) == h
  {
    if ys != [] {
      var init := ys[..|ys| - 1];
      assert forall i :: 0 <= i < |init| ==> init[i] == ys[i];
      TallestAbove(h, init);
    }
  }

  /** Running the maximum again over the same heights changes nothing, so
      a second `init` with the same screens keeps the height, although
      the height is never reset. */
  lemma TallestIdempotent(h0: real, ys: seq<real>)
    ensures Tallest(Tallest(h0, ys), ys) == Tallest(h0, ys)
  {
    TallestBounds(h0, ys);
    TallestAbove(Tallest(h0, ys), ys);
  }

  /** A sum of non-negative (positive) terms is non-negative (positive). */
  lemma {:induction false} SumSign(xs: seq<real>)
    requires forall i :: 0 <= i < |xs| ==> 0.0 <= xs[i]
    ensures 0.0 <= Sum(xs)
    ensures (xs != [] && forall i :: 0 <= i < |xs| ==> 0.0 < xs[i]) ==> 0.0 < Sum(xs)
  {
    if xs != [] {
      var init := xs[..|xs| - 1];
      assert forall i :: 0 <= i < |init| ==> init[i] == xs[i];
      SumSign(init);
    }
  }

  /** Extending a prefix by one element adds that element to its sum. */
  lemma SumStep(xs: seq<real>, i: nat)
    requires i < |xs|
    ensures Sum(xs[..i + 1]) == Sum(xs[..i]) + xs[i]
  {
    assert xs[..i + 1][..i] == xs[..i];
  }

  /** Screen `j` starts at the sum of the widths before it and ends within
      the total width. */
  lemma {:induction false} PrefixWithin(xs: seq<real>, j: nat)
    requires j < |xs| && forall i :: 0 <= i < |xs| ==> 0.0 <= xs[i]
    ensures 0.0 <= Sum(xs[..j]) && Sum(xs[..j]) + xs[j] <= Sum(xs)
  {
    var init := xs[..|xs| - 1];
    assert forall i :: 0 <= i < |init| ==> init[i] == xs[i];
    if j == |xs| - 1 {
      assert xs[..j] == init;
      SumSign(init);
    } else {
      assert init[..j] == xs[..j];
      PrefixWithin(init, j);
      assert 0.0 <= xs[|xs| - 1];
    }
  }

  /** Whatever the mode, a screen shorter than the canvas is placed inside
      it, and a screen as tall as the canvas is placed at the bottom. */
  lemma RawYWithin(mode: Mode, height: real, sizeY: real)
    requires 0.0 <= sizeY <= height
    ensures 0.0 <= RawY(mode, height, sizeY) && RawY(mode, height, sizeY) + sizeY <= height
    ensures sizeY == height ==> RawY(mode, height, sizeY) == 0.0
  {
  }

  /** Normalising a raw corner that lies inside a `width` by `height`
      canvas gives a corner inside the unit square. */
  lemma ScaleFits(raw: Point, sizeX: real, sizeY: real, width: real, height: real)
    requires 0.0 < width && 0.0 < height && 0.0 <= sizeX && 0.0 <= sizeY
    requires 0.0 <= raw.x && raw.x + sizeX <= width
    requires 0.0 <= raw.y && raw.y + sizeY <= height
    ensures Fits(Point(raw.x / width, raw.y / height), sizeX / width, sizeY / height)
    ensures 0.0 < sizeY ==> raw.y / height < 1.0
  {
    ScaleWithin(raw.x, sizeX, width);
    ScaleWithin(raw.y, sizeY, height);
  }

  /** Dividing `0 <= a`, `a + b <= d` by `d` keeps both inside [0, 1], and
      `a / d` below 1 when `b` is positive. */
  lemma ScaleWithin(a: real, b: real, d: real)
    requires 0.0 < d && 0.0 <= a && 0.0 <= b && a + b <= d
    ensures 0.0 <= a / d && a / d + b / d <= 1.0
    ensures 0.0 < b ==> a / d < 1.0
  {
    Quotient(a, d);
    DivSum(a, b, d);
    Quotient(a + b, d);
  }

  /** The corner of screen `j`, as `init` computes it from the widths `xs`
      and heights `ys` of the list and the height `h0` left by earlier
      calls, lies in the unit square together with its footprint, and its
      y is below 1. */
  lemma PlacementFits(h0: real, xs: seq<real>, ys: seq<real>, mode: Mode, j: nat)
    requires j < |xs| == |ys|
    requires forall i :: 0 <= i < |xs| ==> 0.0 < xs[i] && 0.0 < ys[i]
    ensures 0.0 < Sum(xs) && 0.0 < Tallest(h0, ys)
    ensures var width, height := Sum(xs), Tallest(h0, ys);
      var c := Point(Sum(xs[..j]) / width, RawY(mode, height, ys[j]) / height);
      Fits(c, xs[j] / width, ys[j] / height) && c.y < 1.0
  {
    SumSign(xs);
    TallestBounds(h0, ys);
    PrefixWithin(xs, j);
    var width, height := Sum(xs), Tallest(h0, ys);
    RawYWithin(mode, height, ys[j]);
    ScaleFits(Point(Sum(xs[..j]), RawY(mode, height, ys[j])), xs[j], ys[j], width, height);
  }
}
