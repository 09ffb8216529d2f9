/**
 * The sleefe builder: validates a request (a segment count and the Bezier
 * coefficients of a polynomial, whose degree is one less than their number),
 * computes each breakpoint value by combining the precomputed table data for
 * that degree and segment count with the coefficients, and assembles the
 * sleefe. A table is modelled by what that combination yields, a function of
 * (degree, segment count, breakpoint, coefficients); the numeric table data
 * and the combination itself are not part of this model.
 */
module SleefeBuilder {
  import opened Wrappers
  import opened Sleefe
  import opened Bernstein
  import opened Affine

  /** The smallest degree the tables cover. */
  const MinimumDegree: int := 2

  /** Maximum degree of a polynomial basis function. */
  const MaximumDegree: int := 9

  /** Maximum number of linear segments of a sleefe. */
  const MaximumNumberOfSegments: int := 9

  /**
   * One bound table together with its use by the builder: the value of
   * breakpoint i of the n-segment sleefe of the degree-d polynomial with the
   * given coefficients, as bound(d, n, i, coeffs). The table data are fixed;
   * the value depends on the coefficients through the builder's combination.
   */
  type BoundFunction = (int, int, int, seq<real>) -> real

  /** The tables of lower and upper bounds; they are read and never written. */
  datatype BoundTables = BoundTables(lowerBounds: BoundFunction, upperBounds: BoundFunction)

  /** Why a request is refused. */
  datatype BuildError =
    | InvalidDegree        // fewer than MinimumDegree + 1 coefficients
    | UnsupportedDegree    // more than MaximumDegree + 1 coefficients
    | InvalidSegmentCount  // the segment count is outside [1, MaximumNumberOfSegments]

  /**
   * The affine combination (1-t)a + tb: a at t = 0, b at t = 1, a when both
   * values agree, and between the two for t in [0,1].
   */
  function Aerp(t: real, a: real, b: real): (r: real)
    ensures t == 0.0 ==> r == a
    ensures t == 1.0 ==> r == b
    ensures a == b ==> r == a
    ensures 0.0 <= t <= 1.0 ==> Min(a, b) <= r <= Max(a, b)
  {
    if 0.0 <= t <= 1.0 then
      BlendBetween(t, a, b);
      Blend(t, a, b)
    else
      Blend(t, a, b)
  }

  /** Requests the tables cover: degree 2..9 and 1..9 segments. */
  predicate SupportedRequest(numberOfSegments: int, coeffs: seq<real>)
  {
    MinimumDegree <= |coeffs| - 1 <= MaximumDegree && 1 <= numberOfSegments <= MaximumNumberOfSegments
  }

  /** The values of breakpoints 0..n read from one table. */
  function BreakpointValues(bound: BoundFunction, degree: int, n: nat, coeffs: seq<real>): (v: seq<real>)
    ensures |v| == n + 1
    ensures forall i :: 0 <= i <= n ==> v[i] == bound(degree, n, i, coeffs)
  {
    seq(n + 1, i => bound(degree, n, i, coeffs))
  }

  /**
   * Builds the sleefe with numberOfSegments segments for the polynomial with
   * coefficients coeffs. The C++ declaration has no error path; the three
   * failures and their order, the degree before the segment count, are this
   * model's choice.
   */
  function Build(tables: BoundTables, numberOfSegments: int, coeffs: seq<real>): (r: Result<UniSleefe, BuildError>)
    ensures r.Success? <==> SupportedRequest(numberOfSegments, coeffs)
    ensures |coeffs| - 1 < MinimumDegree ==> r == Failure(InvalidDegree)
    ensures |coeffs| - 1 > MaximumDegree ==> r == Failure(UnsupportedDegree)
    ensures MinimumDegree <= |coeffs| - 1 <= MaximumDegree && !(1 <= numberOfSegments <= MaximumNumberOfSegments) ==>
      r == Failure(InvalidSegmentCount)
    ensures r.Success? ==> r.value.Valid() && r.value.NumberOfSegments() == numberOfSegments
    ensures r.Success? ==> forall i :: 0 <= i <= numberOfSegments ==>
      r.value.LowerValues()[i] == tables.lowerBounds(|coeffs| - 1, numberOfSegments, i, coeffs) &&
      r.value.UpperValues()[i] == tables.upperBounds(|coeffs| - 1, numberOfSegments, i, coeffs)
  {
    var degree := |coeffs| - 1;
    if degree < MinimumDegree then Failure(InvalidDegree)
    else if degree > MaximumDegree then Failure(UnsupportedDegree)
    else if numberOfSegments < 1 || numberOfSegments > MaximumNumberOfSegments then Failure(InvalidSegmentCount)
    else
      Success(MakeUniSleefe(
        BreakpointValues(tables.lowerBounds, degree, numberOfSegments, coeffs),
        BreakpointValues(tables.upperBounds, degree, numberOfSegments, coeffs)))
  }

  /** Two table sets agree on the entry for this degree and segment count. */
  predicate SameEntry(tables: BoundTables, other: BoundTables, degree: int, numberOfSegments: int, coeffs: seq<real>)
  {
    forall i :: 0 <= i <= numberOfSegments ==>
      tables.lowerBounds(degree, numberOfSegments, i, coeffs) == other.lowerBounds(degree, numberOfSegments, i, coeffs) &&
      tables.upperBounds(degree, numberOfSegments, i, coeffs) == other.upperBounds(degree, numberOfSegments, i, coeffs)
  }

  /** A build depends on the tables only through the entry it looks up. */
  lemma {:induction false} BuildReadsOnlyItsEntry(tables: BoundTables, other: BoundTables, numberOfSegments: int, coeffs: seq<real>)
    requires SameEntry(tables, other, |coeffs| - 1, numberOfSegments, coeffs)
    ensures Build(tables, numberOfSegments, coeffs) == Build(other, numberOfSegments, coeffs)
  {
    if SupportedRequest(numberOfSegments, coeffs) {
      var s := Build(tables, numberOfSegments, coeffs).value;
      var o := Build(other, numberOfSegments, coeffs).value;
      assert s.lower == o.lower;
      assert s.upper == o.upper;
    }
  }

  /** Every covered table entry puts each lower value at or below its upper value. */
  ghost predicate ConsistentTables(tables: BoundTables)
  {
    forall d, n, i, coeffs: seq<real> ::
      MinimumDegree <= d <= MaximumDegree && 1 <= n <= MaximumNumberOfSegments && 0 <= i <= n && |coeffs| == d + 1 ==>
        tables.lowerBounds(d, n, i, coeffs) <= tables.upperBounds(d, n, i, coeffs)
  }

  /**
   * With consistent tables every built sleefe has lower <= upper at every
   * breakpoint, and hence at every parameter.
   */
  lemma BuildConsistent(tables: BoundTables, numberOfSegments: int, coeffs: seq<real>)
    requires ConsistentTables(tables) && SupportedRequest(numberOfSegments, coeffs)
    ensures var s := Build(tables, numberOfSegments, coeffs).value;
      (forall i :: 0 <= i <= numberOfSegments ==> s.LowerValues()[i] <= s.UpperValues()[i]) &&
      (forall t :: s.LowerValueAt(t) <= s.UpperValueAt(t))
  {
    var s := Build(tables, numberOfSegments, coeffs).value;
    forall i | 0 <= i <= numberOfSegments
      ensures s.lower[i] <= s.upper[i]
    {
      assert tables.lowerBounds(|coeffs| - 1, numberOfSegments, i, coeffs) <= tables.upperBounds(|coeffs| - 1, numberOfSegments, i, coeffs);
    }
    forall t
      ensures s.LowerValueAt(t) <= s.UpperValueAt(t)
    {
      ConsistentEverywhere(s, t);
    }
  }

  /** The sleefe encloses the graph of the Bezier polynomial with control values cv on [0,1]. */
  ghost predicate Encloses(s: UniSleefe, cv: seq<real>)
    requires s.Valid() && |cv| >= 1
  {
    forall t :: 0.0 <= t <= 1.0 ==> s.LowerValueAt(t) <= Bezier(cv, t) <= s.UpperValueAt(t)
  }

  /** The guarantee the tables are built for: every supported build encloses its polynomial. */
  ghost predicate EnclosingTables(tables: BoundTables)
  {
    forall numberOfSegments, coeffs: seq<real> {:trigger Build(tables, numberOfSegments, coeffs)} ::
      SupportedRequest(numberOfSegments, coeffs) ==>
        Encloses(Build(tables, numberOfSegments, coeffs).value, coeffs)
  }

  /** Enclosing tables are consistent, so BuildConsistent follows from the enclosure assumption alone. */
  lemma EnclosingIsConsistent(tables: BoundTables)
    requires EnclosingTables(tables)
    ensures ConsistentTables(tables)
  {
    forall d, n, i, coeffs: seq<real> |
      MinimumDegree <= d <= MaximumDegree && 1 <= n <= MaximumNumberOfSegments && 0 <= i <= n && |coeffs| == d + 1
      ensures tables.lowerBounds(d, n, i, coeffs) <= tables.upperBounds(d, n, i, coeffs)
    {
      assert SupportedRequest(n, coeffs);
      var s := Build(tables, n, coeffs).value;
      EnclosureImpliesConsistency(s, coeffs);
      assert s.LowerValues()[i] <= s.UpperValues()[i];
    }
  }

  /**
   * Enclosure forces consistency at every breakpoint, including the last one:
   * at t = i/n both components meet their breakpoint values around f(i/n).
   */
  lemma EnclosureImpliesConsistency(s: UniSleefe, cv: seq<real>)
    requires s.Valid() && |cv| >= 1 && Encloses(s, cv)
    ensures forall i :: 0 <= i <= s.NumberOfSegments() ==> s.LowerValues()[i] <= s.UpperValues()[i]
  {
    forall i | 0 <= i <= s.NumberOfSegments()
      ensures s.LowerValues()[i] <= s.UpperValues()[i]
    {
      var t := i as real / s.NumberOfSegments() as real;
      BreakpointParameter(i, s.NumberOfSegments());
      ExactAtBreakpoints(s, i);
      assert s.LowerValueAt(t) <= Bezier(cv, t) <= s.UpperValueAt(t);
    }
  }

  /** An enclosing sleefe brackets the first control value at its first breakpoint. */
  lemma EnclosureAtStart(s: UniSleefe, cv: seq<real>)
    requires s.Valid() && |cv| >= 1 && Encloses(s, cv)
    ensures s.LowerValues()[0] <= cv[0] <= s.UpperValues()[0]
  {
    assert 0.0 * s.segmentCount as real == 0 as real;
    assert s.LowerValueAt(0.0) == s.lower[0] && s.UpperValueAt(0.0) == s.upper[0];
    BezierAtZero(cv);
    assert s.LowerValueAt(0.0) <= Bezier(cv, 0.0) <= s.UpperValueAt(0.0);
  }

  /** An enclosing sleefe brackets the last control value at its last breakpoint. */
  lemma EnclosureAtEnd(s: UniSleefe, cv: seq<real>)
    requires s.Valid() && |cv| >= 1 && Encloses(s, cv)
    ensures s.LowerValues()[s.NumberOfSegments()] <= cv[|cv| - 1] <= s.UpperValues()[s.NumberOfSegments()]
  {
    var n := s.segmentCount;
    assert 1.0 * n as real == n as real;
    assert s.LowerValueAt(1.0) == s.lower[n] && s.UpperValueAt(1.0) == s.upper[n];
    BezierAtOne(cv);
    assert s.LowerValueAt(1.0) <= Bezier(cv, 1.0) <= s.UpperValueAt(1.0);
  }
}
