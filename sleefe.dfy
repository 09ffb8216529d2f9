/**
 * The sleefe value type: the lower and upper components of a sleefe, each a
 * piecewise-linear function on [0,1] given by its values at the n+1 equally
 * spaced breakpoints i/n, i = 0..n. A parameter outside [0,1] is clamped to
 * the nearest end.
 */
module Sleefe {
  import opened Affine

  /**
   * The segment that holds t when [0,1] is cut into n equal segments: the
   * floor of t*n, with t = 1 assigned to the last segment.
   */
  function SegmentIndex(n: int, t: real): (i: int)
    requires n >= 1 && 0.0 <= t <= 1.0
    ensures 0 <= i < n
    ensures i as real <= t * n as real <= (i + 1) as real
  {
    var x := t * n as real;
    ScaleInUnitRange(t, n as real);
    assert 0.0 <= x <= n as real;
    var k := x.Floor;
    if k < n then k else n - 1
  }

  /** At the breakpoint t = j/n the segment index is j, or n-1 when j = n. */
  lemma SegmentAtBreakpoint(n: int, t: real, j: int)
    requires n >= 1 && 0.0 <= t <= 1.0 && 0 <= j <= n && t * n as real == j as real
    ensures SegmentIndex(n, t) == if j < n then j else n - 1
  {
    assert (j as real).Floor == j;
  }

  /**
   * The value at t of the piecewise-linear function through the points
   * (i/n, values[i]), where n = |values| - 1: linear interpolation inside the
   * segment i holding t, with local parameter t*n - i.
   */
  function PiecewiseLinearAt(values: seq<real>, t: real): (r: real)
    requires |values| >= 2 && 0.0 <= t <= 1.0
    ensures forall i :: 0 <= i < |values| && t * (|values| - 1) as real == i as real ==> r == values[i]
    ensures var i := SegmentIndex(|values| - 1, t);
      Min(values[i], values[i + 1]) <= r <= Max(values[i], values[i + 1])
  {
    var n := |values| - 1;
    var i := SegmentIndex(n, t);
    var s := t * n as real - i as real;
    BlendBetween(s, values[i], values[i + 1]);
    ExactAtSegmentEnds(values, t);
    Blend(s, values[i], values[i + 1])
  }

  /**
   * Interpolating at a breakpoint t = j/n gives values[j]: inside the segment
   * starting at j the local parameter is 0, and at t = 1 it is 1 in the last one.
   */
  lemma ExactAtSegmentEnds(values: seq<real>, t: real)
    requires |values| >= 2 && 0.0 <= t <= 1.0
    ensures var n := |values| - 1; var i := SegmentIndex(n, t);
      forall j :: 0 <= j <= n && t * n as real == j as real ==>
        Blend(t * n as real - i as real, values[i], values[i + 1]) == values[j]
  {
    var n := |values| - 1;
    forall j | 0 <= j <= n && t * n as real == j as real
      ensures Blend(t * n as real - SegmentIndex(n, t) as real, values[SegmentIndex(n, t)], values[SegmentIndex(n, t) + 1]) == values[j]
    {
      SegmentAtBreakpoint(n, t, j);
    }
  }

  /** At the parameter of breakpoint i the interpolation gives values[i]. */
  lemma PiecewiseLinearAtBreakpoint(values: seq<real>, t: real, i: int)
    requires |values| >= 2 && 0.0 <= t <= 1.0 && 0 <= i < |values|
    requires t * (|values| - 1) as real == i as real
    ensures PiecewiseLinearAt(values, t) == values[i]
  {
  }

  /**
   * r is a value a component with breakpoint values `values` over n segments
   * may take at t, with t clamped to [0,1]: the breakpoint value at every
   * breakpoint i/n, the first value for t <= 0 and the last for t >= 1, and
   * between the values of the two breakpoints around t.
   */
  predicate Interpolates(values: seq<real>, n: int, t: real, r: real)
    requires n >= 1 && |values| == n + 1
  {
    && (forall i :: 0 <= i <= n && 0.0 <= t <= 1.0 && t * n as real == i as real ==> r == values[i])
    && (t <= 0.0 ==> r == values[0])
    && (t >= 1.0 ==> r == values[n])
    && var i := SegmentIndex(n, Clamp(t, 0.0, 1.0));
      Min(values[i], values[i + 1]) <= r <= Max(values[i], values[i + 1])
  }

  /** Interpolation at the clamped parameter meets Interpolates. */
  lemma ClampedPiecewiseLinear(values: seq<real>, n: int, t: real)
    requires n >= 1 && |values| == n + 1
    ensures Interpolates(values, n, t, PiecewiseLinearAt(values, Clamp(t, 0.0, 1.0)))
  {
    var r := PiecewiseLinearAt(values, Clamp(t, 0.0, 1.0));
    ClampedExact(values, n, t, r);
    ClampedEnds(values, n, t, r);
    ClampedBetween(values, n, t, r);
  }

  /** Interpolates, exactness at the breakpoints: there the clamp changes nothing. */
  lemma ClampedExact(values: seq<real>, n: int, t: real, r: real)
    requires n >= 1 && |values| == n + 1 && r == PiecewiseLinearAt(values, Clamp(t, 0.0, 1.0))
    ensures forall i :: 0 <= i <= n && 0.0 <= t <= 1.0 && t * n as real == i as real ==> r == values[i]
  {
    forall i | 0 <= i <= n && 0.0 <= t <= 1.0 && t * n as real == i as real
      ensures r == values[i]
    {
      assert Clamp(t, 0.0, 1.0) == t;
      PiecewiseLinearAtBreakpoint(values, t, i);
    }
  }

  /** Interpolates, the ends: below 0 the first breakpoint value, above 1 the last. */
  lemma ClampedEnds(values: seq<real>, n: int, t: real, r: real)
    requires n >= 1 && |values| == n + 1 && r == PiecewiseLinearAt(values, Clamp(t, 0.0, 1.0))
    ensures t <= 0.0 ==> r == values[0]
    ensures t >= 1.0 ==> r == values[n]
  {
    if t <= 0.0 {
      PiecewiseLinearAtBreakpoint(values, 0.0, 0);
    }
    if t >= 1.0 {
      assert 1.0 * n as real == n as real;
      PiecewiseLinearAtBreakpoint(values, 1.0, n);
    }
  }

  /** Interpolates, the bound by the two neighbouring breakpoint values. */
  lemma ClampedBetween(values: seq<real>, n: int, t: real, r: real)
    requires n >= 1 && |values| == n + 1 && r == PiecewiseLinearAt(values, Clamp(t, 0.0, 1.0))
    ensures var i := SegmentIndex(n, Clamp(t, 0.0, 1.0));
      Min(values[i], values[i + 1]) <= r <= Max(values[i], values[i + 1])
  {
    assert |values| - 1 == n;
  }

  /** Interpolation preserves a pointwise order between two sets of breakpoint values. */
  lemma PiecewiseLinearMonotone(lo: seq<real>, hi: seq<real>, t: real)
    requires |lo| == |hi| >= 2 && 0.0 <= t <= 1.0
    requires forall i :: 0 <= i < |lo| ==> lo[i] <= hi[i]
    ensures PiecewiseLinearAt(lo, t) <= PiecewiseLinearAt(hi, t)
  {
    var n := |lo| - 1;
    var i := SegmentIndex(n, t);
    var s := t * n as real - i as real;
    PiecewiseLinearIsBlend(lo, t, i, s);
    PiecewiseLinearIsBlend(hi, t, i, s);
    BlendMonotone(s, lo[i], lo[i + 1], hi[i], hi[i + 1], PiecewiseLinearAt(lo, t), PiecewiseLinearAt(hi, t));
  }

  /** The interpolated value is the blend of the two breakpoint values around t, with 0 <= s <= 1. */
  lemma PiecewiseLinearIsBlend(values: seq<real>, t: real, i: int, s: real)
    requires |values| >= 2 && 0.0 <= t <= 1.0
    requires i == SegmentIndex(|values| - 1, t) && s == t * (|values| - 1) as real - i as real
    ensures 0.0 <= s <= 1.0 && PiecewiseLinearAt(values, t) == Blend(s, values[i], values[i + 1])
  {
  }

  /** t lies on segment i, [i/n, (i+1)/n] with both ends, of [0,1] cut into n equal pieces. */
  predicate OnSegment(n: int, t: real, i: int)
  {
    0 <= i < n && i as real <= t * n as real <= (i + 1) as real
  }

  /** Where t lies within segment i of [0,1] cut into n pieces: 0 at its start, 1 at its end. */
  function PositionInSegment(n: int, t: real, i: int): real
  {
    t * n as real - i as real
  }

  /**
   * On each closed segment [i/n, (i+1)/n] the interpolant is the blend of
   * breakpoints i and i+1, so the choice of segment at an interior breakpoint
   * does not matter.
   */
  lemma PiecewiseLinearOnSegment(values: seq<real>, n: int, t: real, i: int)
    requires n >= 1 && |values| == n + 1 && 0.0 <= t <= 1.0 && OnSegment(n, t, i)
    ensures PiecewiseLinearAt(values, t) == Blend(PositionInSegment(n, t, i), values[i], values[i + 1])
  {
    var x := t * n as real;
    if x == (i + 1) as real {
      PiecewiseLinearAtBreakpoint(values, t, i + 1);
      assert x - i as real == 1.0;
    } else {
      if x == i as real {
        SegmentAtBreakpoint(n, t, i);
      }
      var j := SegmentIndex(n, t);
      assert j == i;
      PiecewiseLinearIsBlend(values, t, j, x - j as real);
    }
  }

  /**
   * A sleefe with segmentCount segments; lower and upper hold the values of the
   * two components at the breakpoints. It is never changed once built.
   */
  datatype UniSleefe = UniSleefe(segmentCount: int, lower: seq<real>, upper: seq<real>)
  {
    /** At least one segment, and one value per breakpoint in each component. */
    predicate Valid()
    {
      segmentCount >= 1 && |lower| == segmentCount + 1 && |upper| == segmentCount + 1
    }

    /** The number of segments of each component. */
    function NumberOfSegments(): (n: int)
      requires Valid()
      ensures n >= 1 && n == |lower| - 1 && n == |upper| - 1
    {
      segmentCount
    }

    /** The values of the lower component at the breakpoints. */
    function LowerValues(): (v: seq<real>)
      requires Valid()
      ensures |v| == segmentCount + 1 && |v| >= 2
    {
      lower
    }

    /** The values of the upper component at the breakpoints. */
    function UpperValues(): (v: seq<real>)
      requires Valid()
      ensures |v| == segmentCount + 1 && |v| >= 2
    {
      upper
    }

    /**
     * The lower component at t, with t clamped to [0,1]: exact at every
     * breakpoint i/n, the first value for t <= 0 and the last for t >= 1, and
     * between the values of the two breakpoints around t elsewhere.
     */
    function LowerValueAt(t: real): (r: real)
      requires Valid()
      ensures Interpolates(lower, segmentCount, t, r)
    {
      ClampedPiecewiseLinear(lower, segmentCount, t);
      PiecewiseLinearAt(lower, Clamp(t, 0.0, 1.0))
    }

    /**
     * The upper component at t, with t clamped to [0,1]: exact at every
     * breakpoint i/n, the first value for t <= 0 and the last for t >= 1, and
     * between the values of the two breakpoints around t elsewhere.
     */
    function UpperValueAt(t: real): (r: real)
      requires Valid()
      ensures Interpolates(upper, segmentCount, t, r)
    {
      ClampedPiecewiseLinear(upper, segmentCount, t);
      PiecewiseLinearAt(upper, Clamp(t, 0.0, 1.0))
    }
  }

  /**
   * Creates a sleefe from the values of its lower and upper components at the
   * breakpoints; the number of segments is one less than the number of values.
   */
  function MakeUniSleefe(lower: seq<real>, upper: seq<real>): (s: UniSleefe)
    requires |lower| == |upper| >= 2
    ensures s.Valid() && s.NumberOfSegments() == |lower| - 1
    ensures s.LowerValues() == lower && s.UpperValues() == upper
  {
    UniSleefe(|lower| - 1, lower, upper)
  }

  /** Both components pass through their breakpoint values: t = i/n gives value i. */
  lemma ExactAtBreakpoints(s: UniSleefe, i: int)
    requires s.Valid() && 0 <= i <= s.NumberOfSegments()
    ensures s.LowerValueAt(i as real / s.NumberOfSegments() as real) == s.LowerValues()[i]
    ensures s.UpperValueAt(i as real / s.NumberOfSegments() as real) == s.UpperValues()[i]
  {
    var t := i as real / s.segmentCount as real;
    BreakpointParameter(i, s.segmentCount);
    PiecewiseLinearAtBreakpoint(s.lower, t, i);
    PiecewiseLinearAtBreakpoint(s.upper, t, i);
  }

  /** Both components are the interpolants of their breakpoint values at the clamped parameter. */
  lemma ValuesAtClamped(s: UniSleefe, t: real)
    requires s.Valid()
    ensures s.LowerValueAt(t) == PiecewiseLinearAt(s.lower, Clamp(t, 0.0, 1.0))
    ensures s.UpperValueAt(t) == PiecewiseLinearAt(s.upper, Clamp(t, 0.0, 1.0))
  {
  }

  /**
   * Each component is linear on every closed segment: for t between i/n and
   * (i+1)/n it is the blend of breakpoints i and i+1 by t's position in the
   * segment. At an interior breakpoint both neighbouring segments give its
   * value, so the components are continuous.
   */
  lemma LinearOnSegments(s: UniSleefe, t: real, i: int)
    requires s.Valid() && OnSegment(s.segmentCount, t, i)
    ensures s.LowerValueAt(t) == Blend(PositionInSegment(s.segmentCount, t, i), s.lower[i], s.lower[i + 1])
    ensures s.UpperValueAt(t) == Blend(PositionInSegment(s.segmentCount, t, i), s.upper[i], s.upper[i + 1])
  {
    ValuesAtClamped(s, t);
    ClampedOnSegment(s.lower, s.segmentCount, t, i);
    ClampedOnSegment(s.upper, s.segmentCount, t, i);
  }

  /** PiecewiseLinearOnSegment at the clamped parameter, which is t itself on a segment. */
  lemma ClampedOnSegment(values: seq<real>, n: int, t: real, i: int)
    requires n >= 1 && |values| == n + 1 && OnSegment(n, t, i)
    ensures PiecewiseLinearAt(values, Clamp(t, 0.0, 1.0)) == Blend(PositionInSegment(n, t, i), values[i], values[i + 1])
  {
    SegmentParameterInUnitRange(t, n, i);
    assert Clamp(t, 0.0, 1.0) == t;
    PiecewiseLinearOnSegment(values, n, t, i);
  }

  /** A parameter on a segment of [0,1] cut into n pieces lies in [0,1]. */
  lemma SegmentParameterInUnitRange(t: real, n: int, i: int)
    requires OnSegment(n, t, i)
    ensures 0.0 <= t <= 1.0
  {
    assert t * n as real - n as real == (t - 1.0) * n as real;
  }

  /** The parameter i/n of breakpoint i lies in [0,1] and scales back to i. */
  lemma BreakpointParameter(i: int, n: int)
    requires 0 <= i <= n && n >= 1
    ensures 0.0 <= i as real / n as real <= 1.0
    ensures (i as real / n as real) * n as real == i as real
  {
  }

  /**
   * If the lower values lie below the upper values at every breakpoint, the
   * lower component lies below the upper component at every parameter.
   */
  lemma ConsistentEverywhere(s: UniSleefe, t: real)
    requires s.Valid()
    requires forall i :: 0 <= i <= s.segmentCount ==> s.lower[i] <= s.upper[i]
    ensures s.LowerValueAt(t) <= s.UpperValueAt(t)
  {
    PiecewiseLinearMonotone(s.lower, s.upper, Clamp(t, 0.0, 1.0));
  }
}
