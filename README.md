# SLEEFE in Dafny

SLEEFE computes a *sleefe*, a guaranteed piecewise-linear enclosure of a
univariate Bezier polynomial on [0,1]. A sleefe is a pair of piecewise-linear
functions, a lower and an upper component. Each component is given by its
values at the n+1 equally spaced breakpoints i/n, and together they enclose the
graph of the polynomial. The builder holds precomputed bound tables, one entry
per degree (2..9) and segment count (1..9). The table data do not depend on the
polynomial. At each `build` call the builder combines the entry for the
requested degree and segment count with the coefficients, which gives the
breakpoint values.

This project models that core over `real`:

- `affine.dfy` (module `Affine`): the affine blend (1-t)a + tb shared by the
  Bernstein triangle, the interpolation inside a segment and the builder's
  `aerp`. It also holds `Min`, `Max` and `Clamp`.
- `sleefe.dfy` (module `Sleefe`): the `UniSleefe` value type.
  - Its queries `NumberOfSegments`, `LowerValues` and `UpperValues`.
  - Its queries `LowerValueAt` and `UpperValueAt`. Each computes linear
    interpolation between breakpoints i and i+1, with breakpoint i at t = i/n.
- `builder.dfy` (module `SleefeBuilder`):
  - the limits `MaximumDegree` and `MaximumNumberOfSegments`;
  - `Aerp`;
  - `Build`, over an abstract, read-only pair of bound tables. `Build`
    validates the request. It then takes breakpoint value i from each table as
    a function of the degree, the segment count, i and the coefficients. That
    function stands for the table entry combined with the coefficients.
- `bernstein.dfy` (module `Bernstein`): the reference evaluator of the test
  suite.
  - `EvaluateBernsteinBasisFunctions` runs the in-place degree-raising
    triangle over an array.
  - `EvaluateBezierFunctionAt` validates its inputs and accumulates a dot
    product.
  - Both are proved against the closed form C(n,k) t^k (1-t)^(n-k).
- `checks.dfy` (module `SleefeChecks`): the test helpers
  `checkConsistencyOfLowerAndUpperComponents`, `checkValuesAtBreakpoints` and
  `checkFunctionEnclosure`, and the three `TEST`s, as predicates. Lemmas state
  under which assumption on the tables each check passes:
  - the breakpoint check passes for all tables;
  - the consistency check passes when every table entry has lower <= upper;
  - the enclosure check passes when the tables enclose every polynomial.

  Each check is proved for every degree 2..9 it accepts, and each test for
  the degrees 2..8 it loops over.
- `wrappers.dfy` (module `Wrappers`): the `Result` type used for error paths.

`UniSleefe` is a `datatype`, not a class, because the C++ class is an
immutable value. Its constructor sets the three fields once. Every other member
is a `const` query, and sleefes are returned by value.

The constructor's doc comment swaps the two parameters (src/lib/UniSleefe.hpp:16-19):
it calls `lower` the values of the upper component. The model follows the
parameter names.

## Model

| member | source | states |
|---|---|---|
| Affine.Clamp | src/tst/sleefetests.cpp:123 | the result lies in [lo,hi]; it is v inside the interval, lo below it and hi above it |
| Sleefe.SegmentIndex | src/lib/UniSleefe.hpp:23-39 | for n >= 1 and t in [0,1], the segment i holding t satisfies 0 <= i < n and i <= t*n <= i+1 |
| Sleefe.SegmentAtBreakpoint | src/lib/UniSleefe.hpp:23-39 | at t = j/n the segment is j, or the last segment n-1 when j = n |
| Sleefe.PiecewiseLinearAt | src/lib/UniSleefe.hpp:23-39 | the interpolant is exact at every breakpoint i/n and lies between the values of the two breakpoints around t |
| Sleefe.PiecewiseLinearMonotone | src/lib/UniSleefe.hpp:23-39 | breakpoint values ordered pointwise give interpolants in the same order at every t in [0,1] |
| Sleefe.PiecewiseLinearOnSegment | src/lib/UniSleefe.hpp:23-39 | on every closed segment [i/n, (i+1)/n] the interpolant is the blend of breakpoints i and i+1 by the position t*n - i, so an interior breakpoint gives the same value from either neighbouring segment |
| Sleefe.ClampedPiecewiseLinear | src/lib/UniSleefe.hpp:23-39 | interpolating at the clamped parameter satisfies Interpolates: exact at breakpoints, first or last value outside [0,1], between the neighbours |
| Sleefe.ClampedExact | src/lib/UniSleefe.hpp:23-39 | at a breakpoint i/n in [0,1] the clamped interpolant is values[i] |
| Sleefe.ClampedEnds | src/lib/UniSleefe.hpp:23-39 | for t <= 0 the clamped interpolant is the first value; for t >= 1 it is the last |
| Sleefe.UniSleefe.NumberOfSegments | src/lib/UniSleefe.hpp:59-68 | n >= 1, and each component has n+1 values |
| Sleefe.UniSleefe.LowerValues | src/lib/UniSleefe.hpp:41-48 | the stored lower values, one per breakpoint |
| Sleefe.UniSleefe.UpperValues | src/lib/UniSleefe.hpp:50-57 | the stored upper values, one per breakpoint |
| Sleefe.UniSleefe.LowerValueAt | src/lib/UniSleefe.hpp:23-30 | the lower component at t: _lower[i] at t = i/n, _lower[0] for t <= 0, _lower[n] for t >= 1, and between the neighbouring breakpoint values elsewhere |
| Sleefe.UniSleefe.UpperValueAt | src/lib/UniSleefe.hpp:32-39 | the same for the upper component and _upper |
| Sleefe.MakeUniSleefe | src/lib/UniSleefe.hpp:13-21 | the built sleefe is valid, has one segment fewer than values, and keeps both arguments unchanged |
| Sleefe.UniSleefe.Valid | src/lib/UniSleefe.hpp:59-74 | the invariant of a sleefe: at least one segment, and segmentCount + 1 values in each component |
| Sleefe.ExactAtBreakpoints | src/tst/sleefetests.cpp:122-129 | both components evaluated at i/n give the i-th lower and upper values, for i = 0..n |
| Sleefe.BreakpointParameter | src/tst/sleefetests.cpp:123 | i/n lies in [0,1] for 0 <= i <= n, so the test's clamp changes nothing, and (i/n)*n = i |
| Sleefe.ConsistentEverywhere | src/lib/UniSleefe.hpp:23-39 | lower <= upper at every breakpoint implies lower <= upper at every parameter |
| Sleefe.LinearOnSegments | src/lib/UniSleefe.hpp:23-39 | each component at any t of the closed segment i is the blend of its values at breakpoints i and i+1 by t's position in the segment; the two segments meeting at an interior breakpoint agree there, so both components are continuous |
| SleefeBuilder.MaximumDegree | src/lib/UniSleefeBuilder.hpp:39-40 | the largest supported polynomial degree, 9 |
| SleefeBuilder.MaximumNumberOfSegments | src/lib/UniSleefeBuilder.hpp:42-43 | the largest supported number of segments, 9 |
| SleefeBuilder.BoundFunction | src/lib/UniSleefeBuilder.hpp:45-52 | one bound table, by the value it yields for breakpoint i of an n-segment sleefe of a degree-d polynomial with the given coefficients |
| SleefeBuilder.BoundTables | src/lib/UniSleefeBuilder.hpp:45-52 | the read-only pair of tables, lower bounds and upper bounds |
| SleefeBuilder.Aerp | src/lib/UniSleefeBuilder.hpp:29-36 | (1-t)a + tb is a at t = 0, b at t = 1, a when a = b, and within [min(a,b), max(a,b)] for t in [0,1] |
| SleefeBuilder.SupportedRequest | src/lib/UniSleefeBuilder.hpp:39-43 | a request within the builder's limits: a degree (one less than the number of coefficients) in 2..9 and a segment count in 1..9 |
| SleefeBuilder.Build | src/lib/UniSleefeBuilder.hpp:18-26 | success exactly for degree 2..9 and 1..9 segments; otherwise InvalidDegree, UnsupportedDegree or InvalidSegmentCount; on success a valid sleefe with the requested segment count whose values are the table entries |
| SleefeBuilder.BuildReadsOnlyItsEntry | src/lib/UniSleefeBuilder.hpp:45-52 | two table sets that agree on the requested entry build equal results |
| SleefeBuilder.ConsistentTables | src/lib/UniSleefeBuilder.hpp:45-52 | the assumption on the tables that every entry of a supported degree and segment count gives lower <= upper at each breakpoint, for all coefficients |
| SleefeBuilder.BuildConsistent | src/lib/UniSleefeBuilder.hpp:48-52 | if every table entry has lower <= upper, a built sleefe has lower <= upper at each breakpoint and at every parameter |
| SleefeBuilder.Encloses | src/tst/sleefetests.cpp:147-160 | the lower component lies at or below, and the upper at or above, the Bezier polynomial of the control values at every t in [0,1] |
| SleefeBuilder.EnclosingTables | src/lib/UniSleefeBuilder.hpp:45-52 | the guarantee the tables are built for: every supported build encloses the polynomial of its coefficients |
| SleefeBuilder.EnclosingIsConsistent | src/lib/UniSleefeBuilder.hpp:45-52 | enclosing tables are consistent tables, so BuildConsistent needs only the enclosure assumption |
| SleefeBuilder.EnclosureImpliesConsistency | src/tst/sleefetests.cpp:147-160 | a sleefe enclosing a polynomial on [0,1] has lower <= upper at every breakpoint, the last one included |
| SleefeBuilder.EnclosureAtStart | src/tst/sleefetests.cpp:147-160 | an enclosing sleefe brackets the first control value at breakpoint 0 |
| SleefeBuilder.EnclosureAtEnd | src/tst/sleefetests.cpp:147-160 | an enclosing sleefe brackets the last control value at breakpoint n |
| Bernstein.BinomialAboveDegree | src/tst/sleefetests.cpp:27-45 | C(n,k) = 0 for k > n |
| Bernstein.BinomialDiagonal | src/tst/sleefetests.cpp:27-45 | C(n,n) = 1 |
| Bernstein.BasisRecurrenceFirst | src/tst/sleefetests.cpp:35-39 | B(n,0) = (1-t) B(n-1,0) |
| Bernstein.BasisRecurrenceLast | src/tst/sleefetests.cpp:41 | B(n,n) = t B(n-1,n-1) |
| Bernstein.BasisRecurrenceInterior | src/tst/sleefetests.cpp:35-39 | B(n,k) = (1-t) B(n-1,k) + t B(n-1,k-1) for 0 < k < n |
| Bernstein.BasisNonNegative | src/tst/sleefetests.cpp:27-45 | every Bernstein basis polynomial is >= 0 on [0,1] |
| Bernstein.BasisAtZero | src/tst/sleefetests.cpp:27-45 | at t = 0 the basis is the first unit vector |
| Bernstein.BasisAtOne | src/tst/sleefetests.cpp:27-45 | at t = 1 the basis is the last unit vector |
| Bernstein.Raise | src/tst/sleefetests.cpp:33-41 | one raising step of the triangle: one entry more than r, entry k being (1-t) r[k] + t r[k-1] with entries outside r taken as 0 |
| Bernstein.BasisRow | src/tst/sleefetests.cpp:27-45 | the triangle after n raising steps from [1], with n + 1 entries |
| Bernstein.Bezier | src/tst/sleefetests.cpp:49-80 | the Bezier polynomial: the dot product of the closed-form basis of degree one less than the number of control values with the control values |
| Bernstein.RaisedPrefixSum | src/tst/sleefetests.cpp:33-41 | the first m raised entries sum to the first m original entries less t times entry m-1 |
| Bernstein.RaisingKeepsSum | src/tst/sleefetests.cpp:32-42 | a raising step keeps the sum of the values |
| Bernstein.LastRaisedEntry | src/tst/sleefetests.cpp:41 | the new last entry is t times the old last entry |
| Bernstein.RaiseBasisAt | src/tst/sleefetests.cpp:33-41 | raising the degree-(n-1) basis gives the degree-n basis, entry by entry |
| Bernstein.BasisRowIsBasis | src/tst/sleefetests.cpp:32-42 | n raising steps from [1] give the closed-form basis of degree n |
| Bernstein.BasisRowSumsToOne | src/tst/sleefetests.cpp:32-42 | every row of the triangle sums to 1 |
| Bernstein.PartitionOfUnity | src/tst/sleefetests.cpp:27-45 | the Bernstein basis of every degree sums to 1 at every t |
| Bernstein.RaisingKeepsNonNegative | src/tst/sleefetests.cpp:35-39 | for t in [0,1] a raising step keeps non-negative values non-negative |
| Bernstein.BasisRowNonNegative | src/tst/sleefetests.cpp:30-42 | for t in [0,1] every entry of every row is >= 0 |
| Bernstein.BasisRowFacts | src/tst/sleefetests.cpp:27-45 | the computed row is the closed-form basis, sums to 1 and is non-negative on [0,1] |
| Bernstein.EvaluateBernsteinBasisFunctions | src/tst/sleefetests.cpp:27-45 | n+1 values, equal to C(n,k) t^k (1-t)^(n-k), summing to 1, and >= 0 for t in [0,1]; the loop keeps row ii-1 in front and zeros behind |
| Bernstein.RaiseInPlace | src/tst/sleefetests.cpp:33-41 | the inner loop with its carried result turns row ii-1 in entries 0..ii-1 into row ii in entries 0..ii, and leaves later entries alone |
| Bernstein.DotWithZeros | src/tst/sleefetests.cpp:74-77 | the dot product with a zero vector is 0 |
| Bernstein.DotWithUnit | src/tst/sleefetests.cpp:74-77 | the dot product with unit vector j selects entry j |
| Bernstein.DotBounds | src/tst/sleefetests.cpp:74-77 | with non-negative weights and values in [lo,hi], lo times the weight sum <= dot product <= hi times the weight sum |
| Bernstein.DotBoundsUpTo | src/tst/sleefetests.cpp:74-77 | DotBounds for every prefix |
| Bernstein.DotBoundsExtend | src/tst/sleefetests.cpp:74-77 | the bounds for a prefix extend to the next longer prefix |
| Bernstein.DotBoundsStep | src/tst/sleefetests.cpp:76 | adding a weight >= 0 on a value in [lo,hi] keeps a weighted sum within its bounds |
| Bernstein.BezierAtZero | src/tst/sleefetests.cpp:74-79 | the Bezier polynomial at t = 0 is the first control value |
| Bernstein.BezierAtOne | src/tst/sleefetests.cpp:74-79 | the Bezier polynomial at t = 1 is the last control value |
| Bernstein.BezierWithinControlRange | src/tst/sleefetests.cpp:74-79 | on [0,1] the Bezier polynomial stays within any bounds of its control values |
| Bernstein.EvaluateBezierFunctionAt | src/tst/sleefetests.cpp:49-80 | fails for degree <= 0, then for t outside [0,1], then for a control-value count other than degree+1; succeeds exactly otherwise, with the Bezier value; the runtime length check cannot fire |
| Bernstein.WeightedSum | src/tst/sleefetests.cpp:74-77 | the accumulated sum is the dot product of the basis values and the control values |
| SleefeChecks.CoefficientsOf | src/tst/sleefetests.cpp:14-24 | the control values for degree d have d+1 entries |
| SleefeChecks.ControlValues | src/tst/sleefetests.cpp:14-24 | the eight control-value lists of the suite, for degrees 2 through 9, entry by entry |
| SleefeChecks.NumberOfSamples | src/tst/sleefetests.cpp:136 | the enclosure check takes 10000 sample intervals, so 10001 samples |
| SleefeChecks.SampleAt | src/tst/sleefetests.cpp:136-148 | sample idx of the enclosure check lies at idx / 10000 |
| SleefeChecks.ConsistentComponents | src/tst/sleefetests.cpp:91-103 | a build outcome passes the consistency check: nSegs + 1 upper values, as many lower values, and lower <= upper at each index below nSegs |
| SleefeChecks.ConsistencyCheckPasses | src/tst/sleefetests.cpp:84-105 | the consistency check for a degree: degree >= 2 with control values for it, and every segment count 1..9 builds consistent components |
| SleefeChecks.MatchesAtBreakpoints | src/tst/sleefetests.cpp:122-130 | both components evaluated at the clamped idx / nSegs give the stored values idx, for idx = 0..nSegs |
| SleefeChecks.BreakpointCheckPasses | src/tst/sleefetests.cpp:109-132 | the breakpoint check for a degree: degree in 2..9 with control values for it, and every segment count 1..9 builds a sleefe matching its breakpoint values |
| SleefeChecks.EnclosedAtSamples | src/tst/sleefetests.cpp:147-161 | at each of the 10001 samples the lower component is at or below, and the upper at or above, the Bezier value |
| SleefeChecks.EnclosureCheckPasses | src/tst/sleefetests.cpp:135-163 | the enclosure check for a degree: degree in 2..9 with control values for it, and every segment count 1..9 builds a sleefe enclosing the polynomial at all samples |
| SleefeChecks.ConsistencyTestPasses | src/tst/sleefetests.cpp:166-171 | the Consistency test: the consistency check for degrees 2..8 |
| SleefeChecks.BreakpointsTestPasses | src/tst/sleefetests.cpp:173-178 | the Breakpoints test: the breakpoint check for degrees 2..8 |
| SleefeChecks.EnclosureTestPasses | src/tst/sleefetests.cpp:180-185 | the Enclosure test: the enclosure check for degrees 2..8 |
| SleefeChecks.ConsistencyCheckHolds | src/tst/sleefetests.cpp:84-105 | with consistent tables the consistency check passes for degree d, 1..9 segments: n+1 values per component, lower <= upper below index n |
| SleefeChecks.ConsistencyTestHolds | src/tst/sleefetests.cpp:166-171 | with consistent tables the Consistency test passes for degrees 2..8 |
| SleefeChecks.MatchesAtBreakpointsHolds | src/tst/sleefetests.cpp:122-130 | every valid sleefe meets its breakpoint values at the clamped i/n |
| SleefeChecks.BreakpointCheckHolds | src/tst/sleefetests.cpp:109-132 | the breakpoint check passes for every degree 2..9, whatever the tables hold |
| SleefeChecks.BreakpointsTestHolds | src/tst/sleefetests.cpp:173-178 | the Breakpoints test passes for degrees 2..8 whatever the tables hold |
| SleefeChecks.EnclosureGivesSamples | src/tst/sleefetests.cpp:147-161 | a sleefe enclosing its polynomial on [0,1] encloses it at each sample idx/10000 |
| SleefeChecks.EnclosureCheckHolds | src/tst/sleefetests.cpp:135-163 | with enclosing tables the enclosure check passes for every degree 2..9 |
| SleefeChecks.EnclosureTestHolds | src/tst/sleefetests.cpp:180-185 | with enclosing tables the Enclosure test passes for degrees 2..8 |
| SleefeChecks.QuadraticAtHalf | src/tst/sleefetests.cpp:16 | the quadratic with control values 0, 1, 0.8 is 0.7 at t = 0.5 |
| SleefeChecks.QuadraticScenario | src/tst/sleefetests.cpp:141-160 | with enclosing tables, the one-segment sleefe of that quadratic has two values per component, starts at its first lower value and brackets 0.7 at t = 0.5 |

## Left out

- src/demo/main.cpp is not part of this model. It parses arguments, checks files, reads and writes streams and times runs.
- The table contents are left out. The numeric contents of `LowerBounds`/`UpperBounds` and the body of `build` are in source files that are not part of this model. The tables are a parameter (`BoundTables`), and enclosure is an assumption on them (`EnclosingTables`), not a theorem.
- Integer overflow and narrowing are left out. `int` is unbounded, so the C++ `n + 1` at src/tst/sleefetests.cpp:28 and `degree + 1` at src/tst/sleefetests.cpp:62 cannot overflow at INT_MAX in the model, and the `size_t` to `int` casts at src/tst/sleefetests.cpp:61, :68 and :96 cannot truncate.
- Floating point is left out. `double` becomes `real`, so rounding does not exist in the model. The 1e-12 tolerance of `EXPECT_NEAR` becomes exact equality and exact inequality.
- The gtest machinery is left out: `ASSERT_*`/`EXPECT_*`, `TEST` registration and reporting. The checks are predicates, and lemmas state when they hold.
- SleefeBuilder.Build: only its declaration in src/lib/UniSleefeBuilder.hpp is part of this model; the C++ body is in an implementation file that is not part of this model. The declaration returns a `UniSleefe` with no error path, so the three failures `InvalidDegree`, `UnsupportedDegree` and `InvalidSegmentCount` are this model's rendering of the limits in src/lib/UniSleefeBuilder.hpp:39-43. Their precedence, the degree before the segment count, is a choice of this model. The demo's own argument checks run the other way round: the segment count at src/demo/main.cpp:37-44 before the degree at src/demo/main.cpp:56-59.
- Sleefe.UniSleefe.LowerValueAt: only its declaration in src/lib/UniSleefe.hpp is part of this model; the C++ body is in an implementation file that is not part of this model. Only the breakpoint placement at i/n is fixed by the source, by the breakpoint test at src/tst/sleefetests.cpp:122-129. Linear interpolation inside a segment is this model's rendering of "piecewise linear", and clamping outside [0,1] is a choice of this model; the header documents only t in [0,1].
- Sleefe.UniSleefe.UpperValueAt: the same as LowerValueAt.
- Sleefe.MakeUniSleefe: only the constructor's declaration in src/lib/UniSleefe.hpp is part of this model; its C++ body is in an implementation file that is not part of this model. The model requires two value sequences of equal length, at least 2, and derives the segment count from them.
- Bernstein.EvaluateBernsteinBasisFunctions: takes a natural n. The only caller passes a degree >= 1. For negative n the C++ code would size a vector negatively or write past an empty one.
- SleefeChecks.ConsistencyTestHolds: the Consistency, Breakpoints and Enclosure tests loop over degrees 2..8 (`ControlValues.size()` is 8), so degree 9 and its control values are never exercised. The predicates keep that range.
- SleefeChecks.ConsistencyCheckHolds: the consistency check compares lower and upper only at indices below nSegs. `ConsistentComponents` keeps that gap. `BuildConsistent` and `EnclosureImpliesConsistency` cover the last index.
- SleefeChecks.QuadraticScenario: the endpoint values of the quadratic, 0 at t = 0 and 0.8 at t = 1, are only bracketed by the bounds, as the enclosure assumption implies. That they are met exactly depends on the table contents.
- Two helper methods split the C++ code:
  - `RaiseInPlace` is the inner loop of `evaluateBernsteinBasisFunctions`;
  - `WeightedSum` is the accumulation loop of `evaluateBezierFunctionAt`.
  They run the same statements on the same data.
- Const-ness is left out. Determinism and non-mutation of `build` and of the `UniSleefe` queries hold by construction, because they are functions over immutable values. No separate lemma states them.
