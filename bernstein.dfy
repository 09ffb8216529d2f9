/**
 * Bernstein basis functions and Bezier polynomials on [0,1], the independent
 * evaluator the sleefe tests compare the bounds against.
 *
 * The closed forms (Binomial, Pow, Basis, Bezier) are the reference
 * definitions; EvaluateBernsteinBasisFunctions and EvaluateBezierFunctionAt are
 * the imperative evaluators of the tests, proved against them.
 */
module Bernstein {
  import opened Wrappers
  import opened Affine

  // ---------------------------------------------------------------------------
  // Reference definitions
  // ---------------------------------------------------------------------------

  /** The binomial coefficient C(n, k) by Pascal's rule; zero when k > n. */
  function Binomial(n: nat, k: nat): nat
  {
    if k == 0 then 1
    else if n == 0 then 0
    else Binomial(n - 1, k - 1) + Binomial(n - 1, k)
  }

  /** x raised to the k-th power. */
  function Pow(x: real, k: nat): real
  {
    if k == 0 then 1.0 else x * Pow(x, k - 1)
  }

  /** The k-th Bernstein basis polynomial of degree n, C(n,k) t^k (1-t)^(n-k), at t. */
  function Basis(n: nat, k: nat, t: real): real
  {
    if k <= n then Binomial(n, k) as real * Pow(t, k) * Pow(1.0 - t, n - k) else 0.0
  }

  /** All n+1 Bernstein basis polynomials of degree n at t, in order of k. */
  function BasisValues(n: nat, t: real): seq<real>
  {
    seq(n + 1, k requires 0 <= k <= n => Basis(n, k, t))
  }

  /** Entry k of r, read as zero beyond the ends of r. */
  function Entry(r: seq<real>, k: int): real
  {
    if 0 <= k < |r| then r[k] else 0.0
  }

  /**
   * One degree-raising step with parameter t: entry k of the result is
   * (1-t) r[k] + t r[k-1], reading r as zero beyond its ends.
   */
  function Raise(r: seq<real>, t: real): (s: seq<real>)
    ensures |s| == |r| + 1
  {
    seq(|r| + 1, k requires 0 <= k <= |r| => Blend(t, Entry(r, k), Entry(r, k - 1)))
  }

  /** The basis of degree n as the triangle scheme builds it: n raising steps from [1]. */
  function BasisRow(n: nat, t: real): (row: seq<real>)
    ensures |row| == n + 1
  {
    if n == 0 then [1.0] else Raise(BasisRow(n - 1, t), t)
  }

  /** The sum of a sequence, accumulated from the front as the evaluators do. */
  function Sum(s: seq<real>): real
  {
    if |s| == 0 then 0.0 else Sum(s[..|s| - 1]) + s[|s| - 1]
  }

  /** The dot product of two sequences of equal length, accumulated from the front. */
  function Dot(a: seq<real>, b: seq<real>): real
    requires |a| == |b|
  {
    if |a| == 0 then 0.0 else Dot(a[..|a| - 1], b[..|a| - 1]) + a[|a| - 1] * b[|a| - 1]
  }

  /** The Bezier polynomial with the given control values, of degree |controlValues| - 1, at t. */
  function Bezier(controlValues: seq<real>, t: real): real
    requires |controlValues| >= 1
  {
    Dot(BasisValues(|controlValues| - 1, t), controlValues)
  }

  // ---------------------------------------------------------------------------
  // Facts about the reference definitions
  // ---------------------------------------------------------------------------

  lemma {:induction false} BinomialAboveDegree(n: nat, k: nat)
    requires k > n
    ensures Binomial(n, k) == 0
  {
    if n > 0 {
      BinomialAboveDegree(n - 1, k - 1);
      BinomialAboveDegree(n - 1, k);
    }
  }

  lemma {:induction false} BinomialDiagonal(n: nat)
    ensures Binomial(n, n) == 1
  {
    if n > 0 {
      BinomialDiagonal(n - 1);
      BinomialAboveDegree(n - 1, n);
    }
  }

  lemma {:induction false} PowNonNegative(x: real, k: nat)
    requires x >= 0.0
    ensures Pow(x, k) >= 0.0
  {
    if k > 0 {
      PowNonNegative(x, k - 1);
    }
  }

  lemma {:induction false} PowOfOne(k: nat)
    ensures Pow(1.0, k) == 1.0
  {
    if k > 0 {
      PowOfOne(k - 1);
    }
  }

  // The degree-raising recurrence B(n,k) = (1-t) B(n-1,k) + t B(n-1,k-1), by cases on k.

  lemma BasisRecurrenceFirst(n: nat, t: real)
    requires 1 <= n
    ensures Basis(n, 0, t) == Blend(t, Basis(n - 1, 0, t), 0.0)
  {
    var u := 1.0 - t;
    assert Basis(n, 0, t) == Pow(u, n);
    assert Basis(n - 1, 0, t) == Pow(u, n - 1);
  }

  lemma BasisRecurrenceLast(n: nat, t: real)
    requires 1 <= n
    ensures Basis(n, n, t) == Blend(t, 0.0, Basis(n - 1, n - 1, t))
  {
    BinomialAboveDegree(n - 1, n);
    var c := Binomial(n - 1, n - 1) as real;
    assert Binomial(n, n) as real == c;
    assert Basis(n, n, t) == c * Pow(t, n);
    assert Basis(n - 1, n - 1, t) == c * Pow(t, n - 1);
  }

  lemma BasisRecurrenceInterior(n: nat, k: nat, t: real)
    requires 1 <= k < n
    ensures Basis(n, k, t) == Blend(t, Basis(n - 1, k, t), Basis(n - 1, k - 1, t))
  {
    var u := 1.0 - t;
    var c1 := Binomial(n - 1, k - 1) as real;
    var c2 := Binomial(n - 1, k) as real;
    var p := Pow(t, k - 1);
    var q := Pow(u, n - k - 1);
    assert Basis(n, k, t) == (c1 + c2) * (t * p) * (u * q);
    assert Basis(n - 1, k, t) == c2 * (t * p) * q;
    assert Basis(n - 1, k - 1, t) == c1 * p * (u * q);
    PascalProduct(c1, c2, t, u, p, q, Basis(n, k, t), Basis(n - 1, k, t), Basis(n - 1, k - 1, t));
  }

  /** Pascal's rule C(n,k) = C(n-1,k) + C(n-1,k-1), lifted to the basis products. */
  lemma PascalProduct(c1: real, c2: real, t: real, u: real, p: real, q: real, x: real, a: real, b: real)
    requires u == 1.0 - t
    requires x == (c1 + c2) * (t * p) * (u * q) && a == c2 * (t * p) * q && b == c1 * p * (u * q)
    ensures x == Blend(t, a, b)
  {
    assert x == u * a + t * b;
  }

  /** On [0,1] every Bernstein basis polynomial is non-negative. */
  lemma BasisNonNegative(n: nat, k: nat, t: real)
    requires 0.0 <= t <= 1.0
    ensures Basis(n, k, t) >= 0.0
  {
    if k <= n {
      PowNonNegative(t, k);
      PowNonNegative(1.0 - t, n - k);
      var c := Binomial(n, k) as real;
      var p := Pow(t, k);
      var q := Pow(1.0 - t, n - k);
      assert c * p >= 0.0;
      assert c * p * q >= 0.0;
    }
  }

  /** At t = 0 only the first basis polynomial is non-zero, and it is 1. */
  lemma BasisAtZero(n: nat, k: nat)
    requires k <= n
    ensures Basis(n, k, 0.0) == if k == 0 then 1.0 else 0.0
  {
    if k == 0 {
      PowOfOne(n);
    }
  }

  /** At t = 1 only the last basis polynomial is non-zero, and it is 1. */
  lemma BasisAtOne(n: nat, k: nat)
    requires k <= n
    ensures Basis(n, k, 1.0) == if k == n then 1.0 else 0.0
  {
    if k == n {
      BinomialDiagonal(n);
      PowOfOne(n);
    } else {
      assert Pow(0.0, n - k) == 0.0 * Pow(0.0, n - k - 1);
    }
  }

  lemma SumOfPrefix(s: seq<real>, m: nat)
    requires 0 < m <= |s|
    ensures Sum(s[..m]) == Sum(s[..m - 1]) + s[m - 1]
  {
    assert s[..m][..m - 1] == s[..m - 1];
  }

  lemma DotOfPrefix(a: seq<real>, b: seq<real>, m: nat)
    requires |a| == |b| && 0 < m <= |a|
    ensures Dot(a[..m], b[..m]) == Dot(a[..m - 1], b[..m - 1]) + a[m - 1] * b[m - 1]
  {
    assert a[..m][..m - 1] == a[..m - 1];
    assert b[..m][..m - 1] == b[..m - 1];
  }

  /**
   * s arises from r by one degree-raising step with parameter t, stated entry
   * by entry; Raise(r, t) is the unique such s.
   */
  predicate IsRaised(s: seq<real>, r: seq<real>, t: real)
  {
    && |r| >= 1 && |s| == |r| + 1
    && forall k :: 0 <= k <= |r| ==> RaisedEntry(s, r, t, k)
  }

  /** Entry k of a raising step blends entries k and k-1 of the original. */
  predicate RaisedEntry(s: seq<real>, r: seq<real>, t: real, k: int)
    requires 0 <= k <= |r| && |s| == |r| + 1
  {
    s[k] == Blend(t, Entry(r, k), Entry(r, k - 1))
  }

  lemma RaiseIsRaised(r: seq<real>, t: real)
    requires |r| >= 1
    ensures IsRaised(Raise(r, t), r, t)
  {
    var s := Raise(r, t);
    forall k | 0 <= k <= |r|
      ensures RaisedEntry(s, r, t, k)
    {
      assert s[k] == Blend(t, Entry(r, k), Entry(r, k - 1));
    }
  }

  /** The first m entries of a raised sequence sum to the first m of the original, less t times entry m-1. */
  lemma {:induction false} RaisedPrefixSum(s: seq<real>, r: seq<real>, t: real, m: nat)
    requires IsRaised(s, r, t) && 1 <= m <= |r|
    ensures Sum(s[..m]) == Sum(r[..m]) - t * r[m - 1]
  {
    SumOfPrefix(s, m);
    SumOfPrefix(r, m);
    assert RaisedEntry(s, r, t, m - 1);
    assert Entry(r, m - 1) == r[m - 1];
    if m == 1 {
      assert s[..0] == [] && r[..0] == [];
      assert Entry(r, -1) == 0.0;
      BlendExpand(t, r[0], 0.0);
    } else {
      assert Entry(r, m - 2) == r[m - 2];
      BlendExpand(t, r[m - 1], r[m - 2]);
      RaisedPrefixSum(s, r, t, m - 1);
    }
  }

  /** A degree-raising step keeps the sum of a sequence. */
  lemma RaisingKeepsSum(s: seq<real>, r: seq<real>, t: real)
    requires IsRaised(s, r, t)
    ensures Sum(s) == Sum(r)
  {
    RaisedPrefixSum(s, r, t, |r|);
    RaisedWholeSum(s, r, t);
  }

  /** Adding the last raised entry t r[n-1] to the prefix sum completes the sum of r. */
  lemma RaisedWholeSum(s: seq<real>, r: seq<real>, t: real)
    requires IsRaised(s, r, t)
    requires Sum(s[..|r|]) == Sum(r[..|r|]) - t * r[|r| - 1]
    ensures Sum(s) == Sum(r)
  {
    var n := |r|;
    assert Sum(s) == Sum(s[..n]) + s[n];
    LastRaisedEntry(s, r, t);
    WholePrefix(r);
  }

  /** The last entry of a raised sequence is t times the last entry of the original. */
  lemma LastRaisedEntry(s: seq<real>, r: seq<real>, t: real)
    requires IsRaised(s, r, t)
    ensures s[|r|] == t * r[|r| - 1]
  {
    var n := |r|;
    assert RaisedEntry(s, r, t, n);
    assert Entry(r, n) == 0.0 && Entry(r, n - 1) == r[n - 1];
    BlendExpand(t, 0.0, r[n - 1]);
  }

  lemma WholePrefix(r: seq<real>)
    ensures Sum(r[..|r|]) == Sum(r)
  {
    assert r[..|r|] == r;
  }

  /** Entry k of one raising step applied to the degree-(n-1) basis is the degree-n basis polynomial k. */
  lemma RaiseBasisAt(n: nat, k: nat, t: real)
    requires 1 <= n && k <= n
    ensures Raise(BasisValues(n - 1, t), t)[k] == Basis(n, k, t)
  {
    var r := BasisValues(n - 1, t);
    assert Raise(r, t)[k] == Blend(t, Entry(r, k), Entry(r, k - 1));
    if k == 0 {
      BasisRecurrenceFirst(n, t);
      assert Entry(r, 0) == Basis(n - 1, 0, t) && Entry(r, -1) == 0.0;
    } else if k == n {
      BasisRecurrenceLast(n, t);
      assert Entry(r, n) == 0.0 && Entry(r, n - 1) == Basis(n - 1, n - 1, t);
    } else {
      BasisRecurrenceInterior(n, k, t);
      assert Entry(r, k) == Basis(n - 1, k, t) && Entry(r, k - 1) == Basis(n - 1, k - 1, t);
    }
  }

  /** The triangle scheme computes the closed-form basis: BasisRow(n, t)[k] = C(n,k) t^k (1-t)^(n-k). */
  lemma {:induction false} BasisRowIsBasis(n: nat, t: real)
    ensures BasisRow(n, t) == BasisValues(n, t)
  {
    if n == 0 {
      assert Basis(0, 0, t) == 1.0;
    } else {
      BasisRowIsBasis(n - 1, t);
      forall k | 0 <= k <= n
        ensures BasisRow(n, t)[k] == BasisValues(n, t)[k]
      {
        RaiseBasisAt(n, k, t);
      }
    }
  }

  /** Partition of unity for the triangle scheme: every raising step keeps the sum 1. */
  lemma {:induction false} BasisRowSumsToOne(n: nat, t: real)
    ensures Sum(BasisRow(n, t)) == 1.0
  {
    if n == 0 {
      assert [1.0][..0] == [];
    } else {
      BasisRowSumsToOne(n - 1, t);
      RaiseIsRaised(BasisRow(n - 1, t), t);
      RaisingKeepsSum(BasisRow(n, t), BasisRow(n - 1, t), t);
    }
  }

  /** Partition of unity: the Bernstein basis polynomials of every degree sum to 1 for every t. */
  lemma PartitionOfUnity(n: nat, t: real)
    ensures Sum(BasisValues(n, t)) == 1.0
  {
    BasisRowSumsToOne(n, t);
    BasisRowIsBasis(n, t);
  }

  /** For t in [0,1] a raising step keeps a non-negative sequence non-negative. */
  lemma RaisingKeepsNonNegative(s: seq<real>, r: seq<real>, t: real)
    requires IsRaised(s, r, t) && 0.0 <= t <= 1.0
    requires forall k :: 0 <= k < |r| ==> r[k] >= 0.0
    ensures forall k :: 0 <= k < |s| ==> s[k] >= 0.0
  {
    forall k | 0 <= k < |s|
      ensures s[k] >= 0.0
    {
      assert RaisedEntry(s, r, t, k);
      assert Entry(r, k) >= 0.0 && Entry(r, k - 1) >= 0.0;
      BlendNonNegative(t, Entry(r, k), Entry(r, k - 1));
    }
  }

  /** For t in [0,1] the triangle scheme yields non-negative values only. */
  lemma {:induction false} BasisRowNonNegative(n: nat, t: real)
    requires 0.0 <= t <= 1.0
    ensures forall k :: 0 <= k <= n ==> BasisRow(n, t)[k] >= 0.0
  {
    if n > 0 {
      BasisRowNonNegative(n - 1, t);
      RaiseIsRaised(BasisRow(n - 1, t), t);
      RaisingKeepsNonNegative(BasisRow(n, t), BasisRow(n - 1, t), t);
    }
  }

  lemma {:induction false} DotWithZeros(a: seq<real>, b: seq<real>)
    requires |a| == |b|
    requires forall k :: 0 <= k < |a| ==> a[k] == 0.0
    ensures Dot(a, b) == 0.0
  {
    if |a| > 0 {
      DotWithZeros(a[..|a| - 1], b[..|a| - 1]);
    }
  }

  /** Dotting with the j-th unit vector selects the j-th entry. */
  lemma {:induction false} DotWithUnit(a: seq<real>, b: seq<real>, j: nat)
    requires |a| == |b| && j < |a|
    requires a[j] == 1.0 && forall k :: 0 <= k < |a| && k != j ==> a[k] == 0.0
    ensures Dot(a, b) == b[j]
  {
    var m := |a| - 1;
    if j == m {
      DotWithZeros(a[..m], b[..m]);
    } else {
      DotWithUnit(a[..m], b[..m], j);
    }
  }

  /** Appending a weight wm >= 0 on a value cm in [lo, hi] keeps a weighted sum within its bounds. */
  lemma DotBoundsStep(lo: real, hi: real, sw: real, d: real, wm: real, cm: real, total: real, dt: real)
    requires lo * sw <= d <= hi * sw && wm >= 0.0 && lo <= cm <= hi
    requires total == sw + wm && dt == d + wm * cm
    ensures lo * total <= dt <= hi * total
  {
    assert wm * (cm - lo) >= 0.0;
    assert wm * (hi - cm) >= 0.0;
  }

  /** A combination with non-negative weights lies within the weighted bounds of what it combines. */
  lemma DotBounds(w: seq<real>, c: seq<real>, lo: real, hi: real)
    requires |w| == |c|
    requires forall k :: 0 <= k < |w| ==> w[k] >= 0.0 && lo <= c[k] <= hi
    ensures lo * Sum(w) <= Dot(w, c) <= hi * Sum(w)
  {
    assert w[..|w|] == w && c[..|w|] == c;
    DotBoundsUpTo(w, c, lo, hi, |w|, w, c);
  }

  /** DotBounds for the first m weights and values, wp and cp. */
  lemma {:induction false} DotBoundsUpTo(w: seq<real>, c: seq<real>, lo: real, hi: real, m: nat, wp: seq<real>, cp: seq<real>)
    requires |w| == |c| && m <= |w| && wp == w[..m] && cp == c[..m]
    requires forall k :: 0 <= k < |w| ==> w[k] >= 0.0 && lo <= c[k] <= hi
    ensures lo * Sum(wp) <= Dot(wp, cp) <= hi * Sum(wp)
  {
    if m == 0 {
      assert wp == [] && cp == [];
    } else {
      DotBoundsUpTo(w, c, lo, hi, m - 1, w[..m - 1], c[..m - 1]);
      DotBoundsExtend(w, c, lo, hi, m, wp, cp);
    }
  }

  /** The bounds for the first m - 1 weights and values extend to the first m. */
  lemma DotBoundsExtend(w: seq<real>, c: seq<real>, lo: real, hi: real, m: nat, wp: seq<real>, cp: seq<real>)
    requires |w| == |c| && 1 <= m <= |w| && wp == w[..m] && cp == c[..m]
    requires w[m - 1] >= 0.0 && lo <= c[m - 1] <= hi
    requires lo * Sum(w[..m - 1]) <= Dot(w[..m - 1], c[..m - 1]) <= hi * Sum(w[..m - 1])
    ensures lo * Sum(wp) <= Dot(wp, cp) <= hi * Sum(wp)
  {
    SumOfPrefix(w, m);
    DotOfPrefix(w, c, m);
    DotBoundsStep(lo, hi, Sum(w[..m - 1]), Dot(w[..m - 1], c[..m - 1]), w[m - 1], c[m - 1], Sum(wp), Dot(wp, cp));
  }

  /** A Bezier polynomial interpolates its first control value at t = 0. */
  lemma BezierAtZero(controlValues: seq<real>)
    requires |controlValues| >= 1
    ensures Bezier(controlValues, 0.0) == controlValues[0]
  {
    var n := |controlValues| - 1;
    forall k | 0 <= k <= n {
      BasisAtZero(n, k);
    }
    DotWithUnit(BasisValues(n, 0.0), controlValues, 0);
  }

  /** A Bezier polynomial interpolates its last control value at t = 1. */
  lemma BezierAtOne(controlValues: seq<real>)
    requires |controlValues| >= 1
    ensures Bezier(controlValues, 1.0) == controlValues[|controlValues| - 1]
  {
    var n := |controlValues| - 1;
    forall k | 0 <= k <= n {
      BasisAtOne(n, k);
    }
    DotWithUnit(BasisValues(n, 1.0), controlValues, n);
  }

  /** On [0,1] a Bezier polynomial stays within the range of its control values. */
  lemma BezierWithinControlRange(controlValues: seq<real>, t: real, lo: real, hi: real)
    requires |controlValues| >= 1 && 0.0 <= t <= 1.0
    requires forall k :: 0 <= k < |controlValues| ==> lo <= controlValues[k] <= hi
    ensures lo <= Bezier(controlValues, t) <= hi
  {
    var n := |controlValues| - 1;
    forall k | 0 <= k <= n {
      BasisNonNegative(n, k, t);
    }
    PartitionOfUnity(n, t);
    DotBounds(BasisValues(n, t), controlValues, lo, hi);
  }

  // ---------------------------------------------------------------------------
  // The evaluators
  // ---------------------------------------------------------------------------

  /**
   * Evaluates all Bernstein basis functions of degree n at t with the
   * degree-raising triangle, overwriting one vector in place: after outer step
   * ii its first ii+1 entries hold the degree-ii basis and the rest are 0.
   */
  method EvaluateBernsteinBasisFunctions(n: nat, t: real) returns (values: seq<real>)
    ensures |values| == n + 1
    ensures values == BasisValues(n, t)
    ensures Sum(values) == 1.0
    ensures 0.0 <= t <= 1.0 ==> forall k :: 0 <= k <= n ==> values[k] >= 0.0
  {
    var bfValues := new real[n + 1](_ => 0.0);
    bfValues[0] := 1.0;
    ghost var row: seq<real> := [1.0];
    for ii := 1 to n + 1
      invariant row == BasisRow(ii - 1, t)
      invariant forall k :: 0 <= k < ii ==> bfValues[k] == row[k]
      invariant forall k :: ii <= k <= n ==> bfValues[k] == 0.0
    {
      ghost var next := BasisRow(ii, t);
      BasisRowStep(ii, t);
      RaiseInPlace(bfValues, ii, t, row, next);
      row := next;
    }
    values := bfValues[..];
    assert values == row;
    BasisRowFacts(n, t, values);
  }

  /** Each row of the triangle arises from the previous one by a raising step. */
  lemma BasisRowStep(n: nat, t: real)
    requires 1 <= n
    ensures IsRaised(BasisRow(n, t), BasisRow(n - 1, t), t)
  {
    RaiseIsRaised(BasisRow(n - 1, t), t);
  }

  /** What EvaluateBernsteinBasisFunctions promises, for the row the triangle scheme computes. */
  lemma BasisRowFacts(n: nat, t: real, values: seq<real>)
    requires values == BasisRow(n, t)
    ensures values == BasisValues(n, t)
    ensures forall k :: 0 <= k <= n ==> values[k] == Basis(n, k, t)
    ensures Sum(values) == 1.0
    ensures 0.0 <= t <= 1.0 ==> forall k :: 0 <= k <= n ==> values[k] >= 0.0
  {
    BasisRowIsBasis(n, t);
    BasisRowSumsToOne(n, t);
    if 0.0 <= t <= 1.0 {
      BasisRowNonNegative(n, t);
    }
  }

  /**
   * One outer step of EvaluateBernsteinBasisFunctions: the inner loop turns the
   * degree-(ii-1) values in bfValues[..ii] into the degree-ii values in
   * bfValues[..ii+1], carrying the overwritten entry forward in result.
   */
  method RaiseInPlace(bfValues: array<real>, ii: nat, t: real, ghost previous: seq<real>, ghost next: seq<real>)
    requires 1 <= ii < bfValues.Length && |previous| == ii && IsRaised(next, previous, t)
    requires forall k :: 0 <= k < ii ==> bfValues[k] == previous[k]
    modifies bfValues
    ensures forall k :: 0 <= k <= ii ==> bfValues[k] == next[k]
    ensures forall k :: ii < k < bfValues.Length ==> bfValues[k] == old(bfValues[k])
  {
    var u := 1.0 - t;
    var result := 0.0;
    for jj := 0 to ii
      invariant forall k :: 0 <= k < jj ==> bfValues[k] == next[k]
      invariant forall k :: jj <= k < ii ==> bfValues[k] == previous[k]
      invariant forall k :: ii <= k < bfValues.Length ==> bfValues[k] == old(bfValues[k])
      invariant result == if jj == 0 then 0.0 else t * previous[jj - 1]
    {
      var temp := bfValues[jj];
      assert RaisedEntry(next, previous, t, jj);
      assert Entry(previous, jj) == temp;
      assert Entry(previous, jj - 1) == if jj == 0 then 0.0 else previous[jj - 1];
      assert next[jj] == u * temp + result;
      bfValues[jj] := result + u * temp;
      result := t * temp;
    }
    assert RaisedEntry(next, previous, t, ii);
    assert Entry(previous, ii) == 0.0 && Entry(previous, ii - 1) == previous[ii - 1];
    bfValues[ii] := result;
  }

  /** Why EvaluateBezierFunctionAt refuses its arguments. */
  datatype BezierError =
    | DegreeNotPositive          // the degree is 0 or negative
    | ParameterOutOfRange        // t lies outside [0,1]
    | InconsistentControlValues  // the number of control values is not degree + 1

  /**
   * Validates its arguments in the order the tests do, then takes the dot
   * product of the basis values with the control values.
   */
  method EvaluateBezierFunctionAt(controlValues: seq<real>, degree: int, t: real)
    returns (r: Result<real, BezierError>)
    ensures degree <= 0 ==> r == Failure(DegreeNotPositive)
    ensures degree > 0 && (t < 0.0 || t > 1.0) ==> r == Failure(ParameterOutOfRange)
    ensures degree > 0 && 0.0 <= t <= 1.0 && |controlValues| != degree + 1 ==> r == Failure(InconsistentControlValues)
    ensures r.Success? <==> degree > 0 && 0.0 <= t <= 1.0 && |controlValues| == degree + 1
    ensures r.Success? ==> r.value == Bezier(controlValues, t)
  {
    if degree <= 0 {
      return Failure(DegreeNotPositive);
    }
    if t < 0.0 || t > 1.0 {
      return Failure(ParameterOutOfRange);
    }
    var numberOfControlValues := |controlValues|;
    if degree + 1 != numberOfControlValues {
      return Failure(InconsistentControlValues);
    }
    var bbfValues := EvaluateBernsteinBasisFunctions(degree, t);
    // The tests guard here against a basis of the wrong length; it cannot happen.
    assert |bbfValues| == numberOfControlValues;
    var sum := WeightedSum(bbfValues, controlValues);
    return Success(sum);
  }

  /** The accumulation loop of EvaluateBezierFunctionAt: the dot product of weights and values. */
  method WeightedSum(weights: seq<real>, values: seq<real>) returns (sum: real)
    requires |weights| == |values|
    ensures sum == Dot(weights, values)
  {
    sum := 0.0;
    for idx := 0 to |values|
      invariant sum == Dot(weights[..idx], values[..idx])
    {
      DotOfPrefix(weights, values, idx + 1);
      sum := sum + weights[idx] * values[idx];
    }
    assert weights[..|values|] == weights;
    assert values[..|values|] == values;
  }
}
