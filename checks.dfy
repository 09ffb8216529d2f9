/**
 * The properties the sleefe test suite checks, stated as predicates over the
 * bound tables: consistency of the two components, exactness at the
 * breakpoints, and enclosure of the polynomial at sampled parameters. Each
 * check helper becomes a predicate on one degree, each test a predicate on the
 * whole suite, and lemmas say under which assumption on the tables each test
 * passes.
 */
module SleefeChecks {
  import opened Wrappers
  import opened Bernstein
  import opened Sleefe
  import opened SleefeBuilder
  import opened Affine

  /** Control values of univariate Bezier functions; entry k has degree k + 2. */
  const ControlValues: seq<seq<real>> := [
    [0.0, 1.0, 0.8],
    [0.0, 1.0, 0.8, -0.2],
    [0.0, 1.0, 0.8, -0.2, 2.5],
    [0.0, 1.0, 0.8, -0.2, 2.5, 3.5],
    [0.0, 1.0, 0.8, -0.2, 2.5, 3.5, 2.0],
    [0.0, 1.0, 0.8, -0.2, 2.5, 3.5, 2.0, 5.2],
    [0.0, 1.0, 0.8, -0.2, 2.5, 3.5, 2.0, 5.2, 4.0],
    [0.0, 1.0, 0.8, -0.2, 2.5, 3.5, 2.0, 5.2, 4.0, 0.5]
  ]

  /** The enclosure check samples [0,1] at idx / NumberOfSamples, idx = 0..NumberOfSamples. */
  const NumberOfSamples: int := 10000

  /** Sample idx of the enclosure check. */
  function SampleAt(idx: int): real
  {
    idx as real / NumberOfSamples as real
  }

  /** The control values the suite uses for a degree. */
  function CoefficientsOf(degree: int): (cv: seq<real>)
    requires 2 <= degree <= |ControlValues| + 1
    ensures |cv| == degree + 1
  {
    ControlValues[degree - 2]
  }

  /**
   * The outcome of one build passes the consistency check: it is a sleefe
   * with nSegs + 1 values per component and lower <= upper at indices below
   * nSegs (the last index is not checked).
   */
  predicate ConsistentComponents(r: Result<UniSleefe, BuildError>, nSegs: int)
  {
    r.Success? &&
    |r.value.upper| == nSegs + 1 && |r.value.lower| == |r.value.upper| &&
    forall idx :: 0 <= idx < nSegs ==> r.value.lower[idx] <= r.value.upper[idx]
  }

  /** checkConsistencyOfLowerAndUpperComponents(degree) passes. */
  predicate ConsistencyCheckPasses(tables: BoundTables, degree: int)
  {
    2 <= degree <= |ControlValues| + 1 &&
    forall nSegs :: 1 <= nSegs <= MaximumNumberOfSegments ==>
      ConsistentComponents(Build(tables, nSegs, CoefficientsOf(degree)), nSegs)
  }

  /**
   * Both components of a sleefe with nSegs segments hit their breakpoint
   * values at the clamped parameters idx / nSegs.
   */
  predicate MatchesAtBreakpoints(s: UniSleefe, nSegs: int)
    requires s.Valid() && s.NumberOfSegments() == nSegs
  {
    forall idx :: 0 <= idx <= nSegs ==>
      var t := Clamp(idx as real / nSegs as real, 0.0, 1.0);
      s.LowerValueAt(t) == s.LowerValues()[idx] && s.UpperValueAt(t) == s.UpperValues()[idx]
  }

  /** checkValuesAtBreakpoints(degree) passes. */
  predicate BreakpointCheckPasses(tables: BoundTables, degree: int)
  {
    2 <= degree <= MaximumDegree && degree <= |ControlValues| + 1 &&
    forall nSegs :: 1 <= nSegs <= MaximumNumberOfSegments ==>
      var r := Build(tables, nSegs, CoefficientsOf(degree));
      r.Success? && r.value.Valid() && r.value.NumberOfSegments() == nSegs &&
      MatchesAtBreakpoints(r.value, nSegs)
  }

  /** The sleefe encloses the polynomial at the sample parameters idx / NumberOfSamples. */
  predicate EnclosedAtSamples(s: UniSleefe, cv: seq<real>)
    requires s.Valid() && |cv| >= 1
  {
    forall idx :: 0 <= idx <= NumberOfSamples ==>
      s.LowerValueAt(SampleAt(idx)) <= Bezier(cv, SampleAt(idx)) <= s.UpperValueAt(SampleAt(idx))
  }

  /** checkFunctionEnclosure(degree) passes. */
  predicate EnclosureCheckPasses(tables: BoundTables, degree: int)
  {
    2 <= degree <= MaximumDegree && degree <= |ControlValues| + 1 &&
    forall nSegs :: 1 <= nSegs <= MaximumNumberOfSegments ==>
      var r := Build(tables, nSegs, CoefficientsOf(degree));
      r.Success? && r.value.Valid() && EnclosedAtSamples(r.value, CoefficientsOf(degree))
  }

  /** The Consistency test: the consistency check for degrees 2..|ControlValues|. */
  predicate ConsistencyTestPasses(tables: BoundTables)
  {
    forall degree :: 2 <= degree <= |ControlValues| ==> ConsistencyCheckPasses(tables, degree)
  }

  /** The Breakpoints test: the breakpoint check for degrees 2..|ControlValues|. */
  predicate BreakpointsTestPasses(tables: BoundTables)
  {
    forall degree :: 2 <= degree <= |ControlValues| ==> BreakpointCheckPasses(tables, degree)
  }

  /** The Enclosure test: the enclosure check for degrees 2..|ControlValues|. */
  predicate EnclosureTestPasses(tables: BoundTables)
  {
    forall degree :: 2 <= degree <= |ControlValues| ==> EnclosureCheckPasses(tables, degree)
  }

  /** With consistent tables the consistency check passes for every degree the suite has data for. */
  lemma ConsistencyCheckHolds(tables: BoundTables, degree: int)
    requires ConsistentTables(tables) && 2 <= degree <= |ControlValues| + 1
    ensures ConsistencyCheckPasses(tables, degree)
  {
    var cv := CoefficientsOf(degree);
    forall nSegs | 1 <= nSegs <= MaximumNumberOfSegments
      ensures ConsistentComponents(Build(tables, nSegs, cv), nSegs)
    {
      BuildConsistent(tables, nSegs, cv);
    }
  }

  /** With consistent tables the Consistency test passes. */
  lemma ConsistencyTestHolds(tables: BoundTables)
    requires ConsistentTables(tables)
    ensures ConsistencyTestPasses(tables)
  {
    forall degree | 2 <= degree <= |ControlValues|
      ensures ConsistencyCheckPasses(tables, degree)
    {
      ConsistencyCheckHolds(tables, degree);
    }
  }

  /** Every valid sleefe passes through its breakpoint values at the clamped parameters idx / n. */
  lemma MatchesAtBreakpointsHolds(s: UniSleefe, nSegs: int)
    requires s.Valid() && s.NumberOfSegments() == nSegs
    ensures MatchesAtBreakpoints(s, nSegs)
  {
    forall idx | 0 <= idx <= nSegs
      ensures var t := Clamp(idx as real / nSegs as real, 0.0, 1.0);
        s.LowerValueAt(t) == s.LowerValues()[idx] && s.UpperValueAt(t) == s.UpperValues()[idx]
    {
      BreakpointParameter(idx, nSegs);
      ExactAtBreakpoints(s, idx);
    }
  }

  /** The breakpoint check passes for every degree the suite has data for, whatever the tables hold. */
  lemma BreakpointCheckHolds(tables: BoundTables, degree: int)
    requires 2 <= degree <= |ControlValues| + 1
    ensures BreakpointCheckPasses(tables, degree)
  {
    var cv := CoefficientsOf(degree);
    forall nSegs | 1 <= nSegs <= MaximumNumberOfSegments
      ensures var r := Build(tables, nSegs, cv);
        r.Success? && r.value.Valid() && r.value.NumberOfSegments() == nSegs &&
        MatchesAtBreakpoints(r.value, nSegs)
    {
      MatchesAtBreakpointsHolds(Build(tables, nSegs, cv).value, nSegs);
    }
  }

  /** The Breakpoints test passes whatever the tables hold. */
  lemma BreakpointsTestHolds(tables: BoundTables)
    ensures BreakpointsTestPasses(tables)
  {
    forall degree | 2 <= degree <= |ControlValues|
      ensures BreakpointCheckPasses(tables, degree)
    {
      BreakpointCheckHolds(tables, degree);
    }
  }

  /** A sleefe that encloses its polynomial on all of [0,1] encloses it at every sample. */
  lemma EnclosureGivesSamples(s: UniSleefe, cv: seq<real>)
    requires s.Valid() && |cv| >= 1 && Encloses(s, cv)
    ensures EnclosedAtSamples(s, cv)
  {
    forall idx | 0 <= idx <= NumberOfSamples
      ensures s.LowerValueAt(SampleAt(idx)) <= Bezier(cv, SampleAt(idx)) <= s.UpperValueAt(SampleAt(idx))
    {
      assert 0.0 <= SampleAt(idx) <= 1.0;
    }
  }

  /** With enclosing tables the enclosure check passes for every degree the suite has data for. */
  lemma EnclosureCheckHolds(tables: BoundTables, degree: int)
    requires EnclosingTables(tables) && 2 <= degree <= |ControlValues| + 1
    ensures EnclosureCheckPasses(tables, degree)
  {
    var cv := CoefficientsOf(degree);
    forall nSegs | 1 <= nSegs <= MaximumNumberOfSegments
      ensures var r := Build(tables, nSegs, cv);
        r.Success? && r.value.Valid() && EnclosedAtSamples(r.value, cv)
    {
      assert SupportedRequest(nSegs, cv);
      EnclosureGivesSamples(Build(tables, nSegs, cv).value, cv);
    }
  }

  /** With enclosing tables the Enclosure test passes. */
  lemma EnclosureTestHolds(tables: BoundTables)
    requires EnclosingTables(tables)
    ensures EnclosureTestPasses(tables)
  {
    forall degree | 2 <= degree <= |ControlValues|
      ensures EnclosureCheckPasses(tables, degree)
    {
      EnclosureCheckHolds(tables, degree);
    }
  }

  /** The quadratic with control values 0, 1, 0.8 takes the value 0.7 at t = 0.5. */
  lemma QuadraticAtHalf()
    ensures Bezier(ControlValues[0], 0.5) == 0.7
  {
    var b := BasisValues(2, 0.5);
    assert Binomial(2, 1) == 2 by {
      assert Binomial(1, 0) == 1 && Binomial(1, 1) == 1;
    }
    assert b[0] == 0.25 && b[1] == 0.5 && b[2] == 0.25;
    var cv := ControlValues[0];
    assert Dot(b, cv) == Dot(b[..2], cv[..2]) + b[2] * cv[2];
    assert Dot(b[..2], cv[..2]) == Dot(b[..1], cv[..1]) + b[1] * cv[1];
    assert Dot(b[..1], cv[..1]) == Dot(b[..0], cv[..0]) + b[0] * cv[0];
    assert Dot(b[..0], cv[..0]) == 0.0;
  }

  /**
   * The quadratic scenario with enclosing tables: one segment gives two
   * breakpoints per component, the lower component starts at its first value,
   * and the bounds at t = 0.5 enclose 0.7.
   */
  lemma QuadraticScenario(tables: BoundTables)
    requires EnclosingTables(tables)
    ensures var r := Build(tables, 1, ControlValues[0]);
      r.Success? && |r.value.LowerValues()| == 2 && |r.value.UpperValues()| == 2 &&
      r.value.LowerValueAt(0.0) == r.value.LowerValues()[0] &&
      r.value.LowerValueAt(0.5) <= 0.7 <= r.value.UpperValueAt(0.5)
  {
    var cv := ControlValues[0];
    var s := Build(tables, 1, cv).value;
    assert SupportedRequest(1, cv);
    assert 0.0 * 1 as real == 0 as real;
    QuadraticAtHalf();
    assert s.LowerValueAt(0.5) <= Bezier(cv, 0.5) <= s.UpperValueAt(0.5);
  }
}
