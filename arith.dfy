/** Facts about products and quotients of reals, one step each, that the
    layout and sampling proofs combine. */
module Arith {

  /** Multiplying by a positive factor keeps (strict) order. */
  lemma ScaleOrder(a: real, b: real, s: real)
    requires a <= b && 0.0 < s
    ensures a * s <= b * s && (a < b ==> a * s < b * s)
  {
    assert b * s - a * s == (b - a) * s;
  }

  /** A product of non-negative (positive) factors is non-negative
      (positive). */
  lemma MulSign(a: real, b: real)
    requires 0.0 <= a && 0.0 <= b
    ensures 0.0 <= a * b && (0.0 < a && 0.0 < b ==> 0.0 < a * b)
  {
    if 0.0 < b {
      ScaleOrder(0.0, a, b);
    }
  }

  /** Dividing by `d` undoes multiplying by `d`, and the reverse. */
  lemma DivMul(a: real, d: real)
    requires d != 0.0
    ensures (a / d) * d == a && (a * d) / d == a
  {
  }

  /** Signs and the bound 1 carry over from `a` to `a / d` for `d > 0`. */
  lemma Quotient(a: real, d: real)
    requires 0.0 < d
    ensures (0.0 <= a ==> 0.0 <= a / d) && (0.0 < a ==> 0.0 < a / d)
    ensures (a <= d ==> a / d <= 1.0) && (a < d ==> a / d < 1.0)
  {
    DivMul(1.0, d);
    assert d / d == 1.0;
    if 0.0 <= a {
      DivOrder(0.0, a, d);
    }
    if a <= d {
      DivOrder(a, d, d);
    }
  }

  /** Dividing by a positive `d` keeps (strict) order. */
  lemma DivOrder(a: real, b: real, d: real)
    requires a <= b && 0.0 < d
    ensures a / d <= b / d && (a < b ==> a / d < b / d)
  {
    DivMul(a, d);
    DivMul(b, d);
    if b / d < a / d {
      ScaleOrder(b / d, a / d, d);
    }
    if a < b && b / d <= a / d {
      ScaleOrder(b / d, a / d, d);
    }
  }

  /** Multiplication distributes over a sum. */
  lemma AddMul(a: real, b: real, s: real)
    ensures (a + b) * s == a * s + b * s
  {
  }

  /** Quotients by the same `d` add up like their numerators. */
  lemma DivSum(a: real, b: real, d: real)
    requires d != 0.0
    ensures a / d + b / d == (a + b) / d
  {
    DivMul(a, d);
    DivMul(b, d);
    DivMul(a + b, d);
    assert (a / d + b / d) * d == a + b;
  }
}
