/** Order facts of exact real arithmetic used by several modules. */
module Arithmetic {

  function Max(a: real, b: real): real { if a >= b then a else b }

  function Min(a: real, b: real): real { if a <= b then a else b }

  function Abs(a: real): real { if a >= 0.0 then a else -a }

  /** h is the Euclidean norm of two coordinates. */
  ghost predicate IsHypot(h: (real, real) -> real) {
    forall x, y :: h(x, y) >= 0.0 && h(x, y) * h(x, y) == x * x + y * y
  }

  lemma SquareMonotone(x: real, y: real)
    requires 0.0 <= x <= y
    ensures x * x <= y * y
  {
    assert x * x <= x * y;
    assert x * y <= y * y;
  }

  lemma SquareReflects(x: real, y: real)
    requires y >= 0.0
    ensures x <= y && x >= 0.0 ==> x * x <= y * y
    ensures x * x <= y * y ==> x <= y
  {
    if 0.0 <= x <= y { SquareMonotone(x, y); }
    if x > y {
      assert x * x >= x * y;
      assert (x - y) * y >= 0.0;
      assert (x - y) * x > 0.0;
    }
  }

  /** Scaling by a positive factor preserves and reflects order. */
  lemma ScaleOrder(x: real, y: real, k: real)
    requires k > 0.0
    ensures x <= y <==> k * x <= k * y
  {
    if x <= y { assert k * (y - x) >= 0.0; } else { assert k * (x - y) > 0.0; }
  }

  lemma DivisionOrder(x: real, y: real, d: real)
    requires d > 0.0
    ensures x / d <= y <==> x <= y * d
  {
    assert (x / d) * d == x;
    ScaleOrder(x / d, y, d);
  }

  /** A product under a name, so that proofs can treat it as one quantity. */
  function Times(x: real, y: real): real { x * y }

  /** x lies in [-b, b]. */
  predicate Within(x: real, b: real) { Abs(x) <= b }

  lemma TimesBound(x: real, v: real, eps: real)
    requires Within(x, eps)
    ensures Within(Times(x, v), Times(eps, Abs(v)))
  {
    var y := Abs(v);
    assert (eps - x) * y >= 0.0 && (eps + x) * y >= 0.0;
    assert (eps - x) * y == eps * y - x * y && (eps + x) * y == eps * y + x * y;
    assert x * v == x * y || x * v == -(x * y);
  }

  lemma TimesAdd(k: real, x: real, y: real)
    ensures Times(k, x + y) == Times(k, x) + Times(k, y)
    ensures Times(x + y, k) == Times(x, k) + Times(y, k)
    ensures Times(k, x) == Times(x, k)
  {
  }

  lemma TimesSign(x: real, y: real)
    ensures x >= 0.0 && y >= 0.0 ==> Times(x, y) >= 0.0
    ensures x > 0.0 && y > 0.0 ==> Times(x, y) > 0.0
  {
  }

  lemma SquareSign(x: real)
    ensures Times(x, x) >= 0.0 && (x != 0.0 ==> Times(x, x) > 0.0) && (x == 0.0 ==> Times(x, x) == 0.0)
  {
    TimesSign(x, x);
    TimesSign(-x, -x);
    assert Times(-x, -x) == Times(x, x);
    assert Times(0.0, 0.0) == 0.0;
    hide Times;
  }

  lemma AddWithin(x: real, y: real, p: real, q: real)
    requires Within(x, p) && Within(y, q)
    ensures Within(x + y, p + q)
  {
  }
}
