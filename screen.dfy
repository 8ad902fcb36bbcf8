/** A physical display: native resolution, diagonal size and the physical
    width and height derived from them (`utils.Screen`). */
module Screens {

  /** `Math.sqrt` is a library call the model cannot see: every member that
      needs it takes the square root as a parameter, required to be exact on
      the non-negative reals. */
  ghost predicate IsSqrt(sqrt: real -> real)
  {
    forall x: real :: 0.0 <= x ==> 0.0 <= sqrt(x) && sqrt(x) * sqrt(x) == x
  }

  /** `Math.sqrt(aspect * aspect + 1)`, the hypotenuse of a triangle whose
      legs are the aspect ratio and 1. */
  function Norm(aspect: real, sqrt: real -> real): (n: real)
    requires IsSqrt(sqrt)
    ensures n > 0.0 && n * n == aspect * aspect + 1.0
  {
    var n := sqrt(aspect * aspect + 1.0);
    assert n * n == aspect * aspect + 1.0;
    n
  }

  /** The process-wide counter `id_provider`, made an explicit object.
      `issued` records, in creation order, the screens that drew an id. */
  class IdProvider {
    var next: int
    ghost var issued: seq<Screen>

    ghost predicate Valid()
      reads this
    {
      next == |issued| &&
      forall i :: 0 <= i < |issued| ==> issued[i].id == i
    }

    constructor ()
      ensures Valid() && issued == [] && next == 0
    {
      next := 0;
      issued := [];
    }
  }

  class Screen {
    var pixelX: int
    var pixelY: int
    var aspectRatio: real
    var diagonal: real
    /** Assigned once at creation; no method writes it. */
    const id: int

    /** `aspectRatio` is never stale with respect to the resolution. */
    ghost predicate Valid()
      reads this
    {
      pixelY != 0 && aspectRatio == pixelX as real / pixelY as real
    }

    /** The dimensions the layout divides by are positive. */
    ghost predicate Positive()
      reads this
    {
      0 < pixelX && 0 < pixelY && 0.0 < diagonal
    }

    constructor (pixelX: int, pixelY: int, diagonal: real, ids: IdProvider)
      requires ids.Valid() && pixelY != 0
      modifies ids
      ensures Valid()
      ensures this.pixelX == pixelX && this.pixelY == pixelY && this.diagonal == diagonal
      ensures aspectRatio == pixelX as real / pixelY as real
      ensures id == old(ids.next) && ids.next == old(ids.next) + 1
      ensures forall t :: t in old(ids.issued) ==> t.id < id
      ensures ids.Valid() && ids.issued == old(ids.issued) + [this]
    {
      this.pixelX := pixelX;
      this.pixelY := pixelY;
      this.aspectRatio := pixelX as real / pixelY as real;
      this.diagonal := diagonal;
      this.id := ids.next;
      new;
      ids.next := ids.next + 1;
      ids.issued := ids.issued + [this];
    }

    method SetPixelX(pixelX: int)
      requires Valid()
      modifies this
      ensures Valid()
      ensures this.pixelX == pixelX && aspectRatio == pixelX as real / pixelY as real
      ensures pixelY == old(pixelY) && diagonal == old(diagonal)
    {
      this.pixelX := pixelX;
      aspectRatio := pixelX as real / pixelY as real;
    }

    method SetPixelY(pixelY: int)
      requires Valid() && pixelY != 0
      modifies this
      ensures Valid()
      ensures this.pixelY == pixelY && aspectRatio == pixelX as real / pixelY as real
      ensures pixelX == old(pixelX) && diagonal == old(diagonal)
    {
      this.pixelY := pixelY;
      aspectRatio := pixelX as real / pixelY as real;
    }

    method SetDiagonal(diagonal: real)
      modifies this
      ensures this.diagonal == diagonal
      ensures pixelX == old(pixelX) && pixelY == old(pixelY) && aspectRatio == old(aspectRatio)
    {
      this.diagonal := diagonal;
    }

    /** Physical height: the diagonal scaled down by the hypotenuse of the
        aspect-ratio triangle. */
    function SizeY(sqrt: real -> real): (h: real)
      reads this
      requires IsSqrt(sqrt)
      ensures diagonal > 0.0 ==> h > 0.0
      ensures h * Norm(aspectRatio, sqrt) == diagonal
    {
      diagonal / Norm(aspectRatio, sqrt)
    }

    /** Physical width: computed from the diagonal on its own, it is still
        exactly the aspect ratio times the physical height. */
    function SizeX(sqrt: real -> real): (w: real)
      reads this
      requires IsSqrt(sqrt)
      ensures w == aspectRatio * SizeY(sqrt)
      ensures diagonal > 0.0 && aspectRatio > 0.0 ==> w > 0.0
    {
      diagonal * aspectRatio / Norm(aspectRatio, sqrt)
    }

    /** A screen with a positive resolution and diagonal has a positive
        physical width and height. */
    lemma SizesPositive(sqrt: real -> real)
      requires IsSqrt(sqrt) && Valid() && Positive()
      ensures 0.0 < SizeX(sqrt) && 0.0 < SizeY(sqrt)
    {
      assert aspectRatio * pixelY as real == pixelX as real;
    }

    /** Width and height are the legs of a right triangle whose hypotenuse
        is the diagonal. */
    lemma SizesMatchDiagonal(sqrt: real -> real)
      requires IsSqrt(sqrt)
      ensures SizeX(sqrt) * SizeX(sqrt) + SizeY(sqrt) * SizeY(sqrt) == diagonal * diagonal
    {
      var n, a, h := Norm(aspectRatio, sqrt), aspectRatio, SizeY(sqrt);
      assert h * n == diagonal;
      calc {
        SizeX(sqrt) * SizeX(sqrt) + h * h;
        (a * h) * (a * h) + h * h;
        h * h * (a * a + 1.0);
        h * h * (n * n);
        (h * n) * (h * n);
      }
    }

    /** The physical footprint has the shape of the pixel grid. */
    lemma ShapeFollowsResolution(sqrt: real -> real)
      requires IsSqrt(sqrt) && Valid()
      ensures SizeX(sqrt) * pixelY as real == SizeY(sqrt) * pixelX as real
    {
      var h := SizeY(sqrt);
      assert aspectRatio * pixelY as real == pixelX as real;
      calc {
        SizeX(sqrt) * pixelY as real;
        (aspectRatio * h) * pixelY as real;
        h * (aspectRatio * pixelY as real);
      }
    }
  }
}
