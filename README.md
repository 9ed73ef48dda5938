# Splines: a verified model

The splines library does one-dimensional interpolation over a set of (x, y)
samples. It offers two strategies:

- a natural cubic spline (`NaturalSpline`);
- a monotone cubic Hermite interpolant (`MonotoneCubicHermitInterpolation`).

Both share a base constructor. It accepts the samples as named-field pairs
(`NumberPair`) or as 2-tuples (`NumberTuple`), and uses an index sort to store
them as two parallel arrays `xs`/`ys` ordered by x.

This project models that core in Dafny:

| file | module | source |
|---|---|---|
| `wrappers.dfy` | `Wrappers` | `Option`, `Result` and the error kinds the model reports |
| `number_pair.dfy` | `NumberPair` | the sample shapes and the two shape tests |
| `sort_indexes.dfy` | `SortIndexes` | `sortNumberPairIndexes` / `sortNumberTupleIndexes` |
| `spline_base.dfy` | `SplineBase` | the base constructor |
| `monotone_cubic_hermite.dfy` | `MonotoneCubicHermite` | the Fritsch–Carlson interpolant |
| `natural_spline.dfy` | `NaturalCubicSpline` | the natural spline, as the code is written |

Modelling choices:

- JavaScript numbers are modelled as `real`.
- State the source changes step by step is modelled imperatively:
  - the constructors' push loops are methods with loop invariants;
  - the spline objects are classes;
  - `solve` updates `sub`/`diag` arrays and the `a` field in place.
- Each method is proved against a specification function. The properties the
  library's comments and tests promise are then proved as lemmas about those
  functions.
- The Hermite `interpolate` evaluates the segment polynomial through
  `Hermite`, which is the source's `ys[i] + c1 d + c2 d² + c3 d·d²`.

## How the code behaves (and where it differs from a textbook natural spline)

The model follows the code. Where the code differs from a textbook natural
spline, the model keeps the code's behaviour and proves what follows from it.

- **The natural spline's right-hand side is built from `xs`, not `ys`**
  (natural-spline.ts:53). Each entry is `h/h - h/h = 0`
  (`RhsFromXsIsZero`). The solve of a zero right-hand side is zero
  (`SolveOfZeroIsZero`). So every assigned second derivative is 0 and the
  spline is piecewise linear (`ZeroMomentsGiveLine`, `NaturalSpline.Interpolate`).
- **With two or more samples, `a[N-1]` is never assigned.** The constructor
  writes only `a[0]` when N ≤ 2, and `a[0..N-2]` when N ≥ 3
  (`AssignedMoments`). With one sample `a[N-1]` is `a[0]`, which is assigned,
  and `interpolate` returns `ys[0]` without reading `a`. Any query whose
  segment needs `a[N-1]`, or `a[N]` and `h[N]`, reads `undefined` in the
  source and gives `NaN`. The model returns
  `Err(UnassignedRead)`. This covers:
  - every x beyond a positive second-to-last knot (`LastSegmentUnassigned`);
  - with two samples and a positive first knot, every x past it.
- **The segment scan starts `previous` at 0** (natural-spline.ts:80). Knots at
  or below 0 are never chosen as segment starts (`ScanFindsLastPositiveBelow`).
  Below the first knot, or at or below 0, the query returns `ys[0]`. The query
  is not clamped at the top.
- **The forward sweep is `for (i = 2; i < n; i++)`** (natural-spline.ts:59). It
  never eliminates row `n` (`LastRowNotEliminated`).
- `sub[0]` is set twice and `sup[0]` never (natural-spline.ts:46-48). Entry 0 is
  padding that `solve` does not read, so the model sets it to 0.
- Empty input: `isNumberPairArray` answers false, and `isNumberTupleArray`
  then indexes `values[0][0]` and raises a `TypeError`. The model returns
  `Err(EmptyInput)`. Because of this, the `xs.length === 0` branches of both
  `interpolate` methods are unreachable.
- Mixed shapes: the base constructor chooses the shape from the first element
  only. An element of the other shape would store `undefined`. The model
  returns `Err(MixedShapes)`.
- With one sample, the Hermite constructor reads `ms[0]` of an empty array and
  stores undefined coefficients that `interpolate` never reads. The model
  leaves the coefficient arrays empty.

## Model

| member | source | states |
|---|---|---|
| `NumberPair.IsNumberPairArray` | packages/splines/src/lib/number-pair.ts:26-28 | the pair test is false on the empty array, true on a non-empty array of pairs and false on an array of tuples |
| `NumberPair.IsNumberTupleArray` | packages/splines/src/lib/number-pair.ts:30-32 | the tuple test fails (`EmptyInput`) exactly on the empty array; on a non-empty array it answers true for tuples and false for pairs |
| `NumberPair.OnlyFirstElementMatters` | packages/splines/src/lib/number-pair.ts:26-32 | two non-empty arrays with the same first element get the same answers from both tests |
| `NumberPair.ShapesAreExclusive` | packages/splines/src/lib/number-pair.ts:26-32 | a non-empty array is a pair array exactly when it is not a tuple array |
| `NumberPair.AsPairs` | packages/splines/src/lib/number-pair.ts:26-28 | the narrowing to `NumberPair[]` succeeds exactly when every element is a pair, and keeps each element in place |
| `NumberPair.AsTuples` | packages/splines/src/lib/number-pair.ts:30-32 | the narrowing to `NumberTuple[]` succeeds exactly when every element is a tuple, and keeps each element in place |
| `SortIndexes.RangeMultiplicity` | libs/splines/src/lib/sort-indexes.ts:21-24 | the pushed index list holds every index below `n` exactly once and nothing else |
| `SortIndexes.InsertByKey` | libs/splines/src/lib/sort-indexes.ts:25 | inserting one index into a list sorted by key keeps it sorted and adds that index to its multiset |
| `SortIndexes.SortByKey` | libs/splines/src/lib/sort-indexes.ts:25 | the sorted indexes are a permutation of the input indexes and are ordered by key |
| `SortIndexes.SortNumberPairIndexes` | libs/splines/src/lib/sort-indexes.ts:20-27 | the result is a permutation of `0..n-1` that orders the pairs by non-decreasing `x` |
| `SortIndexes.SortNumberTupleIndexes` | libs/splines/src/lib/sort-indexes.ts:29-36 | the result is a permutation of `0..n-1` that orders the tuples by non-decreasing `[0]` |
| `SortIndexes.PermutationFacts` | libs/splines/src/lib/sort-indexes.ts:21-25 | a permutation of `0..n-1` has length `n`, in-range entries and no repeats |
| `SortIndexes.SmallPermutations` | libs/splines/src/lib/sort-indexes.ts:20-27 | no samples give `[]` and one sample gives `[0]` |
| `SortIndexes.SortedInputGivesIdentity` | libs/splines/src/lib/sort-indexes.ts:25 | strictly increasing keys are sorted into the identity order |
| `SortIndexes.ReversedInputGivesReversal` | libs/splines/src/lib/sort-indexes.ts:25 | strictly decreasing keys are sorted into the reversed order |
| `SortIndexes.PermutedReadKeepsMultiset` | libs/splines/src/lib/spline-base.ts:32-40 | reading samples through a permutation of indexes keeps their multiset |
| `SplineBase.LoadSamples` | libs/splines/src/lib/spline-base.ts:25-43 | fails exactly on empty input (`EmptyInput`) or mixed shapes (`MixedShapes`); otherwise `xs`/`ys` list the samples in a permutation order and `xs` is non-decreasing |
| `SplineBase.StoreKeepsPoints` | libs/splines/src/lib/spline-base.ts:32-40 | each x stays with its own y: the stored (x, y) points are the input points as a multiset |
| `SplineBase.StoreStrictlyIncreasing` | libs/splines/src/lib/spline-base.ts:29-42 | with distinct x values the stored `xs` are strictly increasing |
| `SplineBase.SameSamplesSameStore` | libs/splines/src/lib/spline-base.ts:25-43 | inputs with the same samples and distinct x, in either shape and any order, give the same `xs`/`ys` |
| `MonotoneCubicHermite.SecantsRebuildSamples` | libs/splines/src/lib/monotone-cubic-hermite-interpolation.ts:39-44 | each width is positive and each secant carries its sample to the next: `ys[i] + ms[i] * dxs[i] == ys[i+1]` |
| `MonotoneCubicHermite.ButlandMean` | libs/splines/src/lib/monotone-cubic-hermite-interpolation.ts:54-57 | the weighted harmonic mean of two same-sign secants lies between them |
| `MonotoneCubicHermite.InteriorTangent` | libs/splines/src/lib/monotone-cubic-hermite-interpolation.ts:51-58 | an interior tangent never leaves the range of its two neighbouring secants |
| `MonotoneCubicHermite.HarmonicMeanBounds` | libs/splines/src/lib/monotone-cubic-hermite-interpolation.ts:54-57 | for same-sign slopes the weighted harmonic mean has a non-zero denominator, shares their sign and lies between them |
| `MonotoneCubicHermite.InteriorTangentBounds` | libs/splines/src/lib/monotone-cubic-hermite-interpolation.ts:49-58 | an interior tangent is 0 exactly when the neighbouring secants' product is `<= 0`; otherwise it shares their sign and lies between them |
| `MonotoneCubicHermite.Hermite` | libs/splines/src/lib/monotone-cubic-hermite-interpolation.ts:106-108 | at offset 0 the segment polynomial is the segment's starting `y` |
| `MonotoneCubicHermite.SegmentEnds` | libs/splines/src/lib/monotone-cubic-hermite-interpolation.ts:62-70 | each segment cubic starts at `y` with slope `c1` and ends at `yNext` with slope `c1Next`, whatever the tangents are |
| `MonotoneCubicHermite.TangentRules` | libs/splines/src/lib/monotone-cubic-hermite-interpolation.ts:46-60 | the tangent at each knot follows the end rule or the interior rule |
| `MonotoneCubicHermite.SegmentsMeetAtKnots` | libs/splines/src/lib/monotone-cubic-hermite-interpolation.ts:62-70 | segment `i` passes through both of its knots, and its slope at the right end is the next segment's starting tangent (C1 continuity) |
| `MonotoneCubicHermite.StraightSegment` | libs/splines/src/lib/monotone-cubic-hermite-interpolation.ts:62-70 | equal tangents and secant give zero degree-2 and degree-3 coefficients, so the segment is a line |
| `MonotoneCubicHermite.InteriorTangentOfEqualSecants` | libs/splines/src/lib/monotone-cubic-hermite-interpolation.ts:51-58 | equal neighbouring secants give that secant as the tangent |
| `MonotoneCubicHermite.LinearDataTangents` | libs/splines/src/lib/monotone-cubic-hermite-interpolation.ts:46-60 | on collinear data every tangent is the common slope |
| `MonotoneCubicHermite.LinearDataIsExact` | libs/splines/src/lib/monotone-cubic-hermite-interpolation.ts:46-70 | on collinear data every segment is the line itself |
| `MonotoneCubicHermite.FlatNeighbourTangent` | libs/splines/src/lib/monotone-cubic-hermite-interpolation.ts:51-52 | a flat neighbouring secant gives a zero tangent |
| `MonotoneCubicHermite.FlatSegmentTangents` | libs/splines/src/lib/monotone-cubic-hermite-interpolation.ts:46-60 | a flat segment has zero secant and zero tangents at both ends |
| `MonotoneCubicHermite.FlatSegmentIsConstant` | libs/splines/src/lib/monotone-cubic-hermite-interpolation.ts:62-70 | a flat segment's cubic is constant: no overshoot between equal samples |
| `MonotoneCubicHermite.HermiteSegment` | libs/splines/src/lib/monotone-cubic-hermite-interpolation.ts:89-103 | the segment is at most the last one, is 0 or starts strictly below `x`, and no later knot up to the last segment start is below `x` |
| `MonotoneCubicHermite.SegmentFrom` | libs/splines/src/lib/monotone-cubic-hermite-interpolation.ts:89-103 | the chosen segment is 0 or starts strictly below `x`, and every later knot up to the bound is at or above `x` |
| `MonotoneCubicHermite.HermiteSegmentBrackets` | libs/splines/src/lib/monotone-cubic-hermite-interpolation.ts:89-103 | for a non-knot `x` the segment is a valid index that brackets `x` inside the data, is 0 below it and the last segment above it |
| `MonotoneCubicHermite.SearchFindsSegment` | libs/splines/src/lib/monotone-cubic-hermite-interpolation.ts:89-103 | the final `high` of the binary search determines the segment, as `max(0, high)` |
| `MonotoneCubicHermite.ComputeSecants` | libs/splines/src/lib/monotone-cubic-hermite-interpolation.ts:36-44 | the push loop produces exactly `Dxs` and `Secants` |
| `MonotoneCubicHermite.ComputeTangents` | libs/splines/src/lib/monotone-cubic-hermite-interpolation.ts:46-60 | the push loop produces exactly `TangentsOf` |
| `MonotoneCubicHermite.ComputeCoefficients` | libs/splines/src/lib/monotone-cubic-hermite-interpolation.ts:62-70 | the push loop produces exactly `QuadraticsOf` and `CubicsOf` |
| `MonotoneCubicHermite.SearchKnots` | libs/splines/src/lib/monotone-cubic-hermite-interpolation.ts:88-103 | the binary search either hits a knot equal to `x` or proves no knot below the last equals `x` and returns `HermiteSegment` |
| `MonotoneCubicHermite.MonotoneCubicHermitInterpolation.constructor` | libs/splines/src/lib/monotone-cubic-hermite-interpolation.ts:27-71 | with two or more samples, the stored coefficients are `Tangents`, `Quadratics` and `Cubics` of the samples |
| `MonotoneCubicHermite.MonotoneCubicHermitInterpolation.Interpolate` | libs/splines/src/lib/monotone-cubic-hermite-interpolation.ts:73-109 | one sample gives `ys[0]`; every knot gives its own `y` exactly; any other `x` gives the cubic of segment `HermiteSegment`, extrapolated without clamping |
| `MonotoneCubicHermite.NewMonotoneCubicHermite` | libs/splines/src/lib/monotone-cubic-hermite-interpolation.ts:27-28 | construction fails exactly on empty or mixed-shape input; otherwise it stores the sorted samples and valid coefficients |
| `NaturalCubicSpline.WidthsPositive` | libs/splines/src/lib/natural-spline.ts:35-37 | strictly increasing knots give positive widths after the first |
| `NaturalCubicSpline.WidthsTelescope` | libs/splines/src/lib/natural-spline.ts:32-37 | the widths up to knot `k` add up to `xs[k] - xs[0]`: they partition the sampled interval |
| `NaturalCubicSpline.RhsFromXsIsZero` | libs/splines/src/lib/natural-spline.ts:53 | every right-hand-side entry built from the x values is 0 |
| `NaturalCubicSpline.SetupIsDominant` | libs/splines/src/lib/natural-spline.ts:49-52 | the entries the constructor builds from positive widths form a diagonally dominant system |
| `NaturalCubicSpline.DominantDiagonalPositive` | libs/splines/src/lib/natural-spline.ts:60-66 | in a dominant system every pivot `solve` divides by is positive |
| `NaturalCubicSpline.EliminationStep` | libs/splines/src/lib/natural-spline.ts:60-62 | one row operation changes row `i` only, keeps the system's shape, and its multiplier times the previous pivot gives back the old sub-diagonal entry |
| `NaturalCubicSpline.StepKeepsDominant` | libs/splines/src/lib/natural-spline.ts:59-63 | one elimination step keeps the system dominant |
| `NaturalCubicSpline.Eliminated` | libs/splines/src/lib/natural-spline.ts:59-63 | the forward sweep keeps the system dominant and leaves rows 0, 1 and `n` (sub-diagonal, pivot and right-hand side) untouched |
| `NaturalCubicSpline.BackTo` | libs/splines/src/lib/natural-spline.ts:65-67 | the backward sweep leaves entries 0 and `n` of `a` untouched |
| `NaturalCubicSpline.SolveSpec` | libs/splines/src/lib/natural-spline.ts:58-68 | `solve` keeps the shape of the system, leaves `a[0]` alone and ends with positive pivots |
| `NaturalCubicSpline.SolveOfZeroIsZero` | libs/splines/src/lib/natural-spline.ts:58-68 | an all-zero right-hand side solves to all-zero second derivatives |
| `NaturalCubicSpline.SolveOneUnknown` | libs/splines/src/lib/natural-spline.ts:58-68 | with one unknown (three samples) `solve` only sets `a[1] = a[1] / diag[1]` |
| `NaturalCubicSpline.LastRowNotEliminated` | libs/splines/src/lib/natural-spline.ts:59 | the forward loop bound `i < n` leaves the sub-diagonal and pivot of row `n` as built |
| `NaturalCubicSpline.Scan` | libs/splines/src/lib/natural-spline.ts:79-86 | the gap is at most `N`; `previous` stays 0 while the gap is 0, and otherwise is the knot before the gap, strictly between 0 and `x` |
| `NaturalCubicSpline.NothingAfterGap` | libs/splines/src/lib/natural-spline.ts:79-86 | for strictly increasing knots, no knot at or after the gap lies strictly between 0 and `x` |
| `NaturalCubicSpline.ScanFindsLastPositiveBelow` | libs/splines/src/lib/natural-spline.ts:79-86 | `gap` is 0 exactly when no knot lies strictly between 0 and `x`; otherwise it is one past the last such knot |
| `NaturalCubicSpline.ScanBracketsX` | libs/splines/src/lib/natural-spline.ts:79-86 | for a gap inside the knots, `x` lies in `(xs[gap-1], xs[gap]]` |
| `NaturalCubicSpline.ScanBelowFirstKnot` | libs/splines/src/lib/natural-spline.ts:79-91 | at or below the first knot, or at or below 0, the gap is 0 |
| `NaturalCubicSpline.ScanAtKnot` | libs/splines/src/lib/natural-spline.ts:79-86 | at a knot whose left neighbour is positive, the scan picks the segment ending at that knot |
| `NaturalCubicSpline.SegmentFormula` | libs/splines/src/lib/natural-spline.ts:87-96 | the segment formula gives `ys[gap-1]` at the segment's start and `ys[gap]` at its end, whatever the second derivatives |
| `NaturalCubicSpline.LinearEnds` | libs/splines/src/lib/natural-spline.ts:92-96 | the line between two knots passes through both |
| `NaturalCubicSpline.ZeroMomentsGiveLine` | libs/splines/src/lib/natural-spline.ts:87-96 | with both second derivatives 0 the segment formula is the straight line between the segment's knots |
| `NaturalCubicSpline.InteriorKnotIsExact` | libs/splines/src/lib/natural-spline.ts:79-96 | at an interior knot with a positive left neighbour the spline reproduces that sample |
| `NaturalCubicSpline.LastSegmentUnassigned` | libs/splines/src/lib/natural-spline.ts:79-96 | beyond a positive second-to-last knot, the chosen segment needs an unassigned `a` entry |
| `NaturalCubicSpline.ComputeWidths` | libs/splines/src/lib/natural-spline.ts:31-37 | the width loop produces exactly `Widths` |
| `NaturalCubicSpline.BuildSystem` | libs/splines/src/lib/natural-spline.ts:43-54 | rows `1..N-2` hold diagonal `(h[i]+h[i+1])/3`, super-diagonal `h[i+1]/6` and sub-diagonal `h[i]/6`; the right-hand side is all zero |
| `NaturalCubicSpline.BuiltSystemSolvesToZero` | libs/splines/src/lib/natural-spline.ts:43-55 | the system the constructor builds is diagonally dominant and `solve` turns it into all-zero second derivatives |
| `NaturalCubicSpline.ScanKnots` | libs/splines/src/lib/natural-spline.ts:79-86 | the scan loop computes exactly `Scan` |
| `NaturalCubicSpline.NaturalSpline.constructor` | libs/splines/src/lib/natural-spline.ts:26-56 | stores the samples and their widths; `a` has `AssignedMoments(N)` entries, all 0 |
| `NaturalCubicSpline.NaturalSpline.SolveMoments` | libs/splines/src/lib/natural-spline.ts:43-55 | with three or more samples, `a` ends with `N-1` entries, all 0, and nothing else changes |
| `NaturalCubicSpline.NaturalSpline.Solve` | libs/splines/src/lib/natural-spline.ts:58-68 | the arrays and `a` end as `SolveSpec` of their old contents |
| `NaturalCubicSpline.NaturalSpline.ForwardSweep` | libs/splines/src/lib/natural-spline.ts:59-63 | the forward loop ends in the `Eliminated` state at `SweepEnd(n)` |
| `NaturalCubicSpline.NaturalSpline.SweepRow` | libs/splines/src/lib/natural-spline.ts:60-62 | one pass of the forward loop is one `EliminationStep` |
| `NaturalCubicSpline.NaturalSpline.BackSubstitute` | libs/splines/src/lib/natural-spline.ts:65-67 | the backward loop ends with `a == BackTo(..., 0)` |
| `NaturalCubicSpline.NaturalSpline.Interpolate` | libs/splines/src/lib/natural-spline.ts:70-97 | one sample or gap 0 gives `ys[0]`; it fails (`UnassignedRead`) exactly when the gap needs an unassigned `a` entry; otherwise it is the line between knots `gap-1` and `gap` |
| `NaturalCubicSpline.NewNaturalSpline` | libs/splines/src/lib/natural-spline.ts:26-27 | construction fails exactly on empty or mixed-shape input; otherwise it stores the sorted samples in a valid spline |

## Left out

- Floating point: numbers are exact reals. Rounding, `NaN`, `Infinity` and `-0` are not modelled.
- `NewMonotoneCubicHermite`: requires pairwise distinct x values, because the source divides by x differences unchecked and a zero width gives `Infinity`/`NaN`.
- `NewNaturalSpline`: requires pairwise distinct x values, for the same reason.
- `SortIndexes.SortByKey`: the engine's `Array.prototype.sort` algorithm is replaced by an insertion sort. Only the sorted permutation is promised. The source's comparator never returns 0, so the order of equal keys is engine-defined and the model does not fix it.
- `MonotoneCubicHermite.MonotoneCubicHermitInterpolation.Interpolate`: returns a plain number. The empty-samples branch that returns 0 is unreachable, because construction fails on empty input.
- `NaturalCubicSpline.NaturalSpline.Interpolate`: an `undefined` read becomes `Err(UnassignedRead)` rather than `NaN`.
- Monotonicity of the Hermite interpolant between monotone samples is not proved in general. Only the flat-segment case (`FlatSegmentIsConstant`) and the tangent sign and bound rules are proved.
- Inheritance: `SplineBase` is modelled by composition. `LoadSamples` is the base constructor, and each `New…` method runs it before the subclass constructor.
- The `Spline` interface (`./spline`) is not part of this model.
- The constructors' loops are separate methods (`ComputeWidths`, `BuildSystem`, `ComputeSecants`, `ComputeTangents`, `ComputeCoefficients`), and so are the loop of `interpolate` (`ScanKnots`, `SearchKnots`) and the three parts of `solve`. Inlined, they would be one large proof.
- `BuildSystem` builds the system as sequences. `ToArray` copies them into the arrays that `solve` updates in place. JavaScript arrays that grow by index assignment are modelled as sequences that grow by appending.
- The test files (`*.spec.ts`) are not modelled. They print values and compare them with tolerances.
- Packaging is not modelled: `tools/scripts/cleanPackage.mjs`, the jest configurations and the lint configuration.
