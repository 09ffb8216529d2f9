/**
 * Affine blends (1-t)a + tb of two reals: the step of the Bernstein triangle,
 * the interpolation between two breakpoints of a sleefe component, and the
 * builder's aerp; with Min, Max and Clamp on which their contracts draw.
 */
module Affine {

  /** The smaller of a and b. */
  function Min(a: real, b: real): real { if a <= b then a else b }

  /** The larger of a and b. */
  function Max(a: real, b: real): real { if a <= b then b else a }

  /** v limited to [lo, hi]: lo below the interval, hi above it, v inside it. */
  function Clamp(v: real, lo: real, hi: real): (r: real)
    requires lo <= hi
    ensures lo <= r <= hi
    ensures lo <= v <= hi ==> r == v
    ensures v < lo ==> r == lo
    ensures v > hi ==> r == hi
  {
    if v < lo then lo else if hi < v then hi else v
  }

  /** The affine blend (1-t)a + tb of a and b. */
  function Blend(t: real, a: real, b: real): real
  {
    (1.0 - t) * a + t * b
  }

  /** Scaling x >= 0 by t in [0,1] keeps the result in [0,x]. */
  lemma ScaleInUnitRange(t: real, x: real)
    requires 0.0 <= t <= 1.0 && x >= 0.0
    ensures 0.0 <= t * x <= x
  {
    assert x - t * x == (1.0 - t) * x;
  }

  /** Blending two ordered values with t in [0,1] stays between them. */
  lemma BlendOrdered(t: real, a: real, b: real)
    requires 0.0 <= t <= 1.0 && a <= b
    ensures a <= Blend(t, a, b) <= b
  {
    var d := b - a;
    ScaleInUnitRange(t, d);
    assert Blend(t, a, b) == a + t * d;
  }

  /** A blend with t in [0,1] lies between the smaller and the larger of a and b. */
  lemma BlendBetween(t: real, a: real, b: real)
    requires 0.0 <= t <= 1.0
    ensures Min(a, b) <= Blend(t, a, b) <= Max(a, b)
  {
    if a <= b {
      BlendOrdered(t, a, b);
    } else {
      assert Blend(t, a, b) == Blend(1.0 - t, b, a);
      BlendOrdered(1.0 - t, b, a);
    }
  }

  /** For t in [0,1], p = Blend(t, a, b) and q = Blend(t, c, d) keep the order of their ends. */
  lemma BlendMonotone(t: real, a: real, b: real, c: real, d: real, p: real, q: real)
    requires 0.0 <= t <= 1.0 && a <= c && b <= d && p == Blend(t, a, b) && q == Blend(t, c, d)
    ensures p <= q
  {
    assert (1.0 - t) * c - (1.0 - t) * a == (1.0 - t) * (c - a) >= 0.0;
    assert t * d - t * b == t * (d - b) >= 0.0;
  }

  /** The blend multiplied out, a - ta + tb. */
  lemma BlendExpand(t: real, a: real, b: real)
    ensures Blend(t, a, b) == a - t * a + t * b
  {
  }

  /** Blending non-negative values with t in [0,1] gives a non-negative value. */
  lemma BlendNonNegative(t: real, a: real, b: real)
    requires 0.0 <= t <= 1.0 && a >= 0.0 && b >= 0.0
    ensures Blend(t, a, b) >= 0.0
  {
    assert (1.0 - t) * a >= 0.0;
    assert t * b >= 0.0;
  }
}
