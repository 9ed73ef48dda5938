/** Natural cubic spline (libs/splines/src/lib/natural-spline.ts), modelled as
    the code is written: the right-hand side of the tridiagonal system is built
    from the x values, the forward sweep of `solve` stops one row early, with
    two or more samples the last second-derivative slot `a[N-1]` is never
    assigned, and the segment scan starts its running maximum at 0. */
module NaturalCubicSpline {
  import opened Wrappers
  import opened NumberPair
  import opened SortIndexes
  import opened SplineBase

  // ---------------------------------------------------------------------
  // Widths and the right-hand side

  /** `h[0] = 0` and `h[i] = xs[i] - xs[i-1]`: the distance to the previous knot. */
  function Widths(xs: seq<real>): (h: seq<real>)
    requires |xs| >= 1
    ensures |h| == |xs| && h[0] == 0.0
    ensures forall i {:trigger h[i]} :: 1 <= i < |xs| ==> h[i] == xs[i] - xs[i - 1]
  {
    [0.0] + seq(|xs| - 1, i requires 0 <= i < |xs| - 1 => xs[i + 1] - xs[i])
  }

  function Sum(s: seq<real>): real
  {
    if |s| == 0 then 0.0 else Sum(s[..|s| - 1]) + s[|s| - 1]
  }

  /** The widths up to knot `k` add up to the distance from the first knot:
      `h` partitions the sampled interval. */
  lemma {:induction false} WidthsTelescope(xs: seq<real>, k: nat)
    requires k < |xs|
    ensures Sum(Widths(xs)[..k + 1]) == xs[k] - xs[0]
    decreases k
  {
    var h := Widths(xs);
    if k == 0 {
      assert h[..1] == [0.0];
      assert Sum([0.0]) == Sum([]) + 0.0;
    } else {
      WidthsTelescope(xs, k - 1);
      assert h[..k + 1][..k] == h[..k];
    }
  }

  /** With strictly increasing knots every width after the first is positive. */
  lemma {:induction false} WidthsPositive(xs: seq<real>)
    requires |xs| >= 1 && StrictlyIncreasing(xs)
    ensures forall i {:trigger Widths(xs)[i]} :: 1 <= i < |xs| ==> Widths(xs)[i] > 0.0
  {
    forall i | 1 <= i < |xs|
      ensures Widths(xs)[i] > 0.0
    {
      assert xs[i - 1] < xs[i];
    }
  }

  /** Each right-hand-side entry divides a width by itself twice over, so it is
      `1 - 1 = 0`: the system is built from the x values, not the y values. */
  lemma {:induction false} RhsFromXsIsZero(xs: seq<real>, h: seq<real>, i: nat)
    requires |xs| >= 3 && StrictlyIncreasing(xs) && h == Widths(xs) && 1 <= i <= |xs| - 2
    ensures (xs[i + 1] - xs[i]) / h[i + 1] - (xs[i] - xs[i - 1]) / h[i] == 0.0
  {
    assert xs[i - 1] < xs[i] < xs[i + 1];
    assert h[i + 1] == xs[i + 1] - xs[i] && h[i] == xs[i] - xs[i - 1];
    SelfQuotient(h[i + 1]);
    SelfQuotient(h[i]);
  }

  lemma {:induction false} SelfQuotient(d: real)
    requires d > 0.0
    ensures d / d == 1.0
  {
  }

  // ---------------------------------------------------------------------
  // The tridiagonal system and the sweep of `solve`

  /** The arrays `solve` works on: `sub` and `diag` it overwrites, `rhs` is `a`.
      Rows `1 .. n` are the unknowns; row 0 is padding. */
  datatype Elimination = Elimination(sub: seq<real>, diag: seq<real>, rhs: seq<real>)

  predicate Shaped(e: Elimination, sup: seq<real>, n: nat)
  {
    n >= 1 && |e.sub| == n + 1 && |e.diag| == n + 1 && |e.rhs| == n + 1 && |sup| == n + 1
  }

  /** Diagonal dominance while the forward sweep is at row `i`: rows already
      swept (and row 1, which the sweep never touches) have `diag > sup`; rows
      still to come keep their original `sub[k] = sup[k-1]` and
      `diag > sub + sup`; every super-diagonal entry is positive. */
  predicate Dominant(e: Elimination, sup: seq<real>, n: nat, i: nat)
  {
    Shaped(e, sup, n) && 2 <= i <= n + 1 &&
    (forall k {:trigger sup[k]} :: 1 <= k <= n ==> sup[k] > 0.0) &&
    (forall k {:trigger e.diag[k]} :: 1 <= k < i && k <= n ==> e.diag[k] > sup[k]) &&
    (forall k {:trigger e.sub[k]} :: i <= k <= n ==> e.sub[k] == sup[k - 1]) &&
    (forall k {:trigger e.diag[k]} :: i <= k <= n ==> e.diag[k] > e.sub[k] + sup[k])
  }

  /** Under dominance every diagonal entry the sweep divides by is positive. */
  lemma {:induction false} DominantDiagonalPositive(e: Elimination, sup: seq<real>, n: nat, i: nat)
    requires Dominant(e, sup, n, i)
    ensures forall k {:trigger e.diag[k]} :: 1 <= k <= n ==> e.diag[k] > 0.0
  {
    forall k | 1 <= k <= n
      ensures e.diag[k] > 0.0
    {
      if k >= i {
        assert e.sub[k] == sup[k - 1] && sup[k - 1] > 0.0;
      }
    }
  }

  /** `value - factor * above`: the row operation both sweeps of `solve` apply. */
  function Reduced(value: real, factor: real, above: real): real
  {
    value - factor * above
  }

  /** One iteration of the forward loop, row `i`: scale `sub[i]` by the
      previous pivot, then update the pivot and the right-hand side. */
  function EliminationStep(e: Elimination, sup: seq<real>, n: nat, i: nat): (r: Elimination)
    requires Shaped(e, sup, n) && 2 <= i <= n && e.diag[i - 1] != 0.0
    ensures Shaped(r, sup, n)
    ensures forall k {:trigger r.sub[k]} :: 0 <= k <= n && k != i ==> r.sub[k] == e.sub[k]
    ensures forall k {:trigger r.diag[k]} :: 0 <= k <= n && k != i ==> r.diag[k] == e.diag[k]
    ensures forall k {:trigger r.rhs[k]} :: 0 <= k <= n && k != i ==> r.rhs[k] == e.rhs[k]
    ensures r.sub[i] * e.diag[i - 1] == e.sub[i]
  {
    var s := e.sub[i] / e.diag[i - 1];
    Elimination(e.sub[i := s], e.diag[i := Reduced(e.diag[i], s, sup[i - 1])], e.rhs[i := Reduced(e.rhs[i], s, e.rhs[i - 1])])
  }

  /** The scalar heart of dominance: with `0 < sup[i-1] < diag[i-1]` the
      scaled multiplier lies in (0, 1), so the new pivot still exceeds `sup[i]`. */
  lemma {:induction false} PivotStaysDominant(subI: real, diagPrev: real, supPrev: real, diagI: real, supI: real)
    requires 0.0 < supPrev < diagPrev && subI == supPrev && diagI > subI + supI
    ensures diagI - (subI / diagPrev) * supPrev > supI
  {
    var s := subI / diagPrev;
    SelfQuotient(diagPrev);
    assert s < diagPrev / diagPrev by {
      assert diagPrev / diagPrev - s == (diagPrev - subI) / diagPrev;
    }
    assert s * supPrev < supPrev;
  }

  lemma {:induction false} StepKeepsDominant(e: Elimination, sup: seq<real>, n: nat, i: nat)
    requires Dominant(e, sup, n, i) && i < n
    ensures e.diag[i - 1] > 0.0
    ensures Dominant(EliminationStep(e, sup, n, i), sup, n, i + 1)
  {
    DominantDiagonalPositive(e, sup, n, i);
    assert e.diag[i - 1] > sup[i - 1];
    PivotStaysDominant(e.sub[i], e.diag[i - 1], sup[i - 1], e.diag[i], sup[i]);
    var r := EliminationStep(e, sup, n, i);
    assert r.diag[i] > sup[i];
    forall k | 1 <= k < i + 1 && k <= n
      ensures r.diag[k] > sup[k]
    {
      if k < i {
        assert r.diag[k] == e.diag[k];
      }
    }
  }

  /** Where the forward loop `for (i = 2; i < n; i++)` stops. */
  function SweepEnd(n: nat): nat
  {
    if n < 2 then 2 else n
  }

  /** The state after the forward loop has swept rows `2 .. i-1`. It never
      reaches row `n`, which therefore keeps its original entries. */
  function Eliminated(e: Elimination, sup: seq<real>, n: nat, i: nat): (r: Elimination)
    requires Dominant(e, sup, n, 2) && 2 <= i <= SweepEnd(n)
    ensures Dominant(r, sup, n, i)
    ensures r.sub[0] == e.sub[0] && r.diag[0] == e.diag[0] && r.rhs[0] == e.rhs[0]
    ensures r.rhs[1] == e.rhs[1] && r.sub[1] == e.sub[1] && r.diag[1] == e.diag[1]
    ensures r.sub[n] == e.sub[n] && r.diag[n] == e.diag[n] && r.rhs[n] == e.rhs[n]
    decreases i
  {
    if i == 2 then e
    else
      var p := Eliminated(e, sup, n, i - 1);
      StepKeepsDominant(p, sup, n, i - 1);
      EliminationStep(p, sup, n, i - 1)
  }

  /** The state after the backward loop `for (i = n - 1; i >= 1; i--)` has
      updated rows `n-1` down to `j+1`. */
  function BackTo(diag: seq<real>, sup: seq<real>, a: seq<real>, n: nat, j: nat): (r: seq<real>)
    requires n >= 1 && |diag| == n + 1 && |sup| == n + 1 && |a| == n + 1 && j <= n - 1
    requires forall k {:trigger diag[k]} :: 1 <= k <= n ==> diag[k] > 0.0
    ensures |r| == n + 1 && r[0] == a[0] && r[n] == a[n]
    decreases n - j
  {
    if j == n - 1 then a
    else
      var p := BackTo(diag, sup, a, n, j + 1);
      p[j + 1 := Reduced(p[j + 1], sup[j + 1], p[j + 2]) / diag[j + 1]]
  }

  /** Everything `solve(sub, diag, sup, n)` computes: the forward sweep, the
      division of row `n` by its pivot, and the backward sweep. */
  function SolveSpec(e: Elimination, sup: seq<real>, n: nat): (r: Elimination)
    requires Dominant(e, sup, n, 2)
    ensures Shaped(r, sup, n) && r.rhs[0] == e.rhs[0]
    ensures forall k {:trigger r.diag[k]} :: 1 <= k <= n ==> r.diag[k] > 0.0
  {
    var f := Eliminated(e, sup, n, SweepEnd(n));
    DominantDiagonalPositive(f, sup, n, SweepEnd(n));
    var last := f.rhs[n := f.rhs[n] / f.diag[n]];
    Elimination(f.sub, f.diag, BackTo(f.diag, sup, last, n, 0))
  }

  predicate AllZero(s: seq<real>)
  {
    forall k :: 0 <= k < |s| ==> s[k] == 0.0
  }

  lemma {:induction false} EliminatedZero(e: Elimination, sup: seq<real>, n: nat, i: nat)
    requires Dominant(e, sup, n, 2) && 2 <= i <= SweepEnd(n) && AllZero(e.rhs)
    ensures AllZero(Eliminated(e, sup, n, i).rhs)
    decreases i
  {
    if i > 2 {
      EliminatedZero(e, sup, n, i - 1);
      var p := Eliminated(e, sup, n, i - 1);
      StepKeepsDominant(p, sup, n, i - 1);
      var r := EliminationStep(p, sup, n, i - 1);
      assert r.rhs[i - 1] == 0.0;
    }
  }

  lemma {:induction false} BackToZero(diag: seq<real>, sup: seq<real>, a: seq<real>, n: nat, j: nat)
    requires n >= 1 && |diag| == n + 1 && |sup| == n + 1 && |a| == n + 1 && j <= n - 1
    requires forall k {:trigger diag[k]} :: 1 <= k <= n ==> diag[k] > 0.0
    requires AllZero(a)
    ensures AllZero(BackTo(diag, sup, a, n, j))
    decreases n - j
  {
    if j < n - 1 {
      BackToZero(diag, sup, a, n, j + 1);
      var p := BackTo(diag, sup, a, n, j + 1);
      assert Reduced(p[j + 1], sup[j + 1], p[j + 2]) / diag[j + 1] == 0.0;
    }
  }

  /** An all-zero right-hand side gives all-zero second derivatives. */
  lemma {:induction false} SolveOfZeroIsZero(e: Elimination, sup: seq<real>, n: nat)
    requires Dominant(e, sup, n, 2) && AllZero(e.rhs)
    ensures AllZero(SolveSpec(e, sup, n).rhs)
  {
    var f := Eliminated(e, sup, n, SweepEnd(n));
    EliminatedZero(e, sup, n, SweepEnd(n));
    DominantDiagonalPositive(f, sup, n, SweepEnd(n));
    var last := f.rhs[n := f.rhs[n] / f.diag[n]];
    assert AllZero(last);
    BackToZero(f.diag, sup, last, n, 0);
  }

  /** One unknown (three samples): no sweep at all, `a[1] = rhs[1] / diag[1]`. */
  lemma {:induction false} SolveOneUnknown(e: Elimination, sup: seq<real>)
    requires Dominant(e, sup, 1, 2)
    ensures SolveSpec(e, sup, 1).rhs == [e.rhs[0], e.rhs[1] / e.diag[1]]
    ensures SolveSpec(e, sup, 1).sub == e.sub && SolveSpec(e, sup, 1).diag == e.diag
  {
  }

  /** Because the forward loop stops at `i < n`, the last row is never
      eliminated: its sub-diagonal and pivot come out unchanged. */
  lemma {:induction false} LastRowNotEliminated(e: Elimination, sup: seq<real>, n: nat)
    requires Dominant(e, sup, n, 2)
    ensures SolveSpec(e, sup, n).sub[n] == e.sub[n] && SolveSpec(e, sup, n).diag[n] == e.diag[n]
  {
  }

  /** The entries the constructor fills (rows `1 .. n`, from positive widths)
      are diagonally dominant, so `solve` never divides by zero. */
  lemma {:induction false} SetupIsDominant(h: seq<real>, e: Elimination, sup: seq<real>, n: nat)
    requires Shaped(e, sup, n) && |h| == n + 2
    requires forall k {:trigger h[k]} :: 1 <= k <= n + 1 ==> h[k] > 0.0
    requires forall k {:trigger e.diag[k]} :: 1 <= k <= n ==> e.diag[k] == (h[k] + h[k + 1]) / 3.0
    requires forall k {:trigger sup[k]} :: 1 <= k <= n ==> sup[k] == h[k + 1] / 6.0
    requires forall k {:trigger e.sub[k]} :: 1 <= k <= n ==> e.sub[k] == h[k] / 6.0
    ensures Dominant(e, sup, n, 2)
  {
    forall k | 1 <= k <= n
      ensures e.diag[k] > e.sub[k] + sup[k] && sup[k] > 0.0
    {
      assert h[k] > 0.0 && h[k + 1] > 0.0;
    }
    forall k | 2 <= k <= n
      ensures e.sub[k] == sup[k - 1]
    {
      assert sup[k - 1] == h[k] / 6.0;
    }
  }

  // ---------------------------------------------------------------------
  // The segment scan of `interpolate`

  /** The running state of the scan: the segment found so far and the knot it
      starts at. */
  datatype ScanState = ScanState(gap: nat, previous: real)

  /** The loop of `interpolate` over `xs`: a knot strictly between the running
      `previous` (which starts at 0) and `x` moves the gap past it. */
  function Scan(xs: seq<real>, x: real): (s: ScanState)
    ensures s.gap <= |xs|
    ensures s.gap == 0 ==> s.previous == 0.0
    ensures s.gap > 0 ==> 0.0 < s.previous < x && s.previous == xs[s.gap - 1]
    decreases |xs|
  {
    if |xs| == 0 then ScanState(0, 0.0)
    else
      var s := Scan(xs[..|xs| - 1], x);
      var last := xs[|xs| - 1];
      assert s.gap > 0 ==> xs[..|xs| - 1][s.gap - 1] == xs[s.gap - 1];
      if s.previous < last && last < x then ScanState(|xs|, last) else s
  }

  /** What the scan finds, for strictly increasing knots: `gap` is 0 exactly
      when no knot lies strictly between 0 and `x`, and otherwise one past the
      last such knot (`Scan` itself says that `previous` is that knot). Knots
      at or below 0 are never chosen. */
  lemma {:induction false} ScanFindsLastPositiveBelow(xs: seq<real>, x: real)
    requires StrictlyIncreasing(xs)
    ensures Scan(xs, x).gap == 0 <==> forall k :: 0 <= k < |xs| ==> !(0.0 < xs[k] < x)
    ensures forall k :: Scan(xs, x).gap <= k < |xs| ==> !(0.0 < xs[k] < x)
  {
    NothingAfterGap(xs, x);
    var g := Scan(xs, x).gap;
    if g > 0 {
      assert 0.0 < xs[g - 1] < x;
    }
  }

  /** No knot after the gap the scan reports lies strictly between 0 and `x`. */
  lemma {:induction false} NothingAfterGap(xs: seq<real>, x: real)
    requires StrictlyIncreasing(xs)
    ensures forall k :: Scan(xs, x).gap <= k < |xs| ==> !(0.0 < xs[k] < x)
    decreases |xs|
  {
    if |xs| > 0 {
      var init := xs[..|xs| - 1];
      assert StrictlyIncreasing(init) by {
        forall j, k | 0 <= j < k < |init|
          ensures init[j] < init[k]
        {
          assert init[j] == xs[j] && init[k] == xs[k];
        }
      }
      NothingAfterGap(init, x);
      var s := Scan(init, x);
      var last := xs[|xs| - 1];
      if !(s.previous < last && last < x) {
        assert Scan(xs, x) == s;
        if s.gap > 0 {
          assert s.previous == init[s.gap - 1] == xs[s.gap - 1] < last;
        }
        assert !(0.0 < last < x);
        forall k | s.gap <= k < |xs|
          ensures !(0.0 < xs[k] < x)
        {
          if k < |init| {
            assert xs[k] == init[k];
          }
        }
      }
    }
  }

  /** For `gap >= 1` inside the knots, `x` lies in `(xs[gap-1], xs[gap]]`. */
  lemma {:induction false} ScanBracketsX(xs: seq<real>, x: real)
    requires StrictlyIncreasing(xs)
    requires 1 <= Scan(xs, x).gap < |xs|
    ensures xs[Scan(xs, x).gap - 1] < x <= xs[Scan(xs, x).gap]
  {
    ScanFindsLastPositiveBelow(xs, x);
    var g := Scan(xs, x).gap;
    assert xs[g - 1] < xs[g];
  }

  /** Below the first knot, or at or below 0, the scan finds nothing. */
  lemma {:induction false} ScanBelowFirstKnot(xs: seq<real>, x: real)
    requires |xs| >= 1 && StrictlyIncreasing(xs) && (x <= xs[0] || x <= 0.0)
    ensures Scan(xs, x).gap == 0
  {
    ScanFindsLastPositiveBelow(xs, x);
    forall k | 0 <= k < |xs|
      ensures !(0.0 < xs[k] < x)
    {
      if 0 < k {
        assert xs[0] < xs[k];
      }
    }
  }

  /** At a knot `xs[k]` whose left neighbour is positive the scan stops at `k`. */
  lemma {:induction false} ScanAtKnot(xs: seq<real>, k: nat)
    requires StrictlyIncreasing(xs) && 1 <= k < |xs| && xs[k - 1] > 0.0
    ensures Scan(xs, xs[k]).gap == k
  {
    var x := xs[k];
    ScanFindsLastPositiveBelow(xs, x);
    var g := Scan(xs, x).gap;
    assert 0.0 < xs[k - 1] < x;
    assert g >= k;
    assert xs[g - 1] < xs[k];
  }

  /** Straight-line interpolation between `(x0, y0)` and `(x1, y1)`. */
  function Linear(x0: real, y0: real, x1: real, y1: real, x: real): real
    requires x0 < x1
  {
    (y0 * (x1 - x) + y1 * (x - x0)) / (x1 - x0)
  }

  /** The line passes through both of its end points. */
  lemma {:induction false} LinearEnds(x0: real, y0: real, x1: real, y1: real)
    requires x0 < x1
    ensures Linear(x0, y0, x1, y1, x0) == y0 && Linear(x0, y0, x1, y1, x1) == y1
  {
    var d := x1 - x0;
    assert y0 * (x1 - x0) + y1 * (x0 - x0) == y0 * d;
    CancelFactor(y0, d);
    assert y0 * (x1 - x1) + y1 * (x1 - x0) == y1 * d;
    CancelFactor(y1, d);
  }

  lemma {:induction false} CancelFactor(v: real, d: real)
    requires d != 0.0
    ensures v * d / d == v
  {
  }

  /** The segment formula of `interpolate`, with the running `previous` and
      the width `hGap` of the segment. */
  function SegmentFormula(aPrev: real, aGap: real, hGap: real, previous: real, y0: real, y1: real, x: real): (r: real)
    requires hGap != 0.0
    ensures x == previous ==> r == y0
    ensures x == previous + hGap ==> r == y1
  {
    var x1 := x - previous;
    var x2 := hGap - x1;
    var num := ((-aPrev / 6.0) * (x2 + hGap) * x1 + y0) * x2 + ((-aGap / 6.0) * (x1 + hGap) * x2 + y1) * x1;
    assert x == previous ==> num == y0 * hGap;
    assert x == previous + hGap ==> num == y1 * hGap;
    CancelFactor(y0, hGap);
    CancelFactor(y1, hGap);
    num / hGap
  }

  /** With both second derivatives zero the segment formula is the straight
      line between the segment's two knots. */
  lemma {:induction false} ZeroMomentsGiveLine(x0: real, y0: real, x1: real, y1: real, x: real)
    requires x0 < x1
    ensures SegmentFormula(0.0, 0.0, x1 - x0, x0, y0, y1, x) == Linear(x0, y0, x1, y1, x)
  {
    var hGap, x1Off := x1 - x0, x - x0;
    var x2Off := hGap - x1Off;
    assert x2Off == x1 - x;
    assert ((-0.0 / 6.0) * (x2Off + hGap) * x1Off + y0) * x2Off == y0 * (x1 - x);
    assert ((-0.0 / 6.0) * (x1Off + hGap) * x2Off + y1) * x1Off == y1 * (x - x0);
  }

  /** How many entries of `a` the constructor assigns: `a[0]` only with at most
      two samples, otherwise `a[0 .. N-2]`. With two or more samples `a[N-1]`
      is never written; with one sample it is `a[0]`, which is. */
  function AssignedMoments(n: nat): (m: nat)
    ensures 1 <= m
    ensures n >= 2 ==> m < n
    ensures n >= 3 ==> m == n - 1
  {
    if n <= 2 then 1 else n - 1
  }

  /** At an interior knot `xs[k]` (`1 <= k <= N-2`) whose left neighbour is
      positive, the scan picks segment `k`, whose line is `ys[k]` there: the
      spline reproduces that sample exactly. */
  lemma {:induction false} InteriorKnotIsExact(xs: seq<real>, ys: seq<real>, k: nat)
    requires |xs| == |ys| && StrictlyIncreasing(xs) && 1 <= k < AssignedMoments(|xs|) && xs[k - 1] > 0.0
    ensures Scan(xs, xs[k]).gap == k && xs[k - 1] < xs[k]
    ensures Linear(xs[k - 1], ys[k - 1], xs[k], ys[k], xs[k]) == ys[k]
  {
    ScanAtKnot(xs, k);
    LinearEnds(xs[k - 1], ys[k - 1], xs[k], ys[k]);
  }

  /** Beyond a positive second-to-last knot the scan picks a segment whose
      right end `a[gap]` was never assigned (for two samples, every query past
      a positive first knot), so `interpolate` fails there. */
  lemma {:induction false} LastSegmentUnassigned(xs: seq<real>, x: real)
    requires |xs| >= 2 && StrictlyIncreasing(xs) && 0.0 < xs[|xs| - 2] < x
    ensures 1 <= Scan(xs, x).gap && AssignedMoments(|xs|) <= Scan(xs, x).gap
  {
    ScanFindsLastPositiveBelow(xs, x);
  }

  /** The system `BuildSystem` returns is dominant and solves to all zeros. */
  lemma {:induction false} BuiltSystemSolvesToZero(xs: seq<real>, h: seq<real>, e: Elimination, sup: seq<real>)
    requires |xs| >= 3 && StrictlyIncreasing(xs) && h == Widths(xs)
    requires |e.sub| == |xs| - 1 && |e.diag| == |xs| - 1 && |sup| == |xs| - 1 && |e.rhs| == |xs| - 1
    requires AllZero(e.rhs)
    requires forall k {:trigger e.diag[k]} :: 1 <= k <= |xs| - 2 ==> e.diag[k] == (h[k] + h[k + 1]) / 3.0
    requires forall k {:trigger sup[k]} :: 1 <= k <= |xs| - 2 ==> sup[k] == h[k + 1] / 6.0
    requires forall k {:trigger e.sub[k]} :: 1 <= k <= |xs| - 2 ==> e.sub[k] == h[k] / 6.0
    ensures Dominant(e, sup, |xs| - 2, 2)
    ensures |SolveSpec(e, sup, |xs| - 2).rhs| == |xs| - 1 && AllZero(SolveSpec(e, sup, |xs| - 2).rhs)
  {
    WidthsPositive(xs);
    SetupIsDominant(h, e, sup, |xs| - 2);
    SolveOfZeroIsZero(e, sup, |xs| - 2);
  }

  // ---------------------------------------------------------------------
  // The loops of the constructor and of `interpolate`

  /** The first loop of the constructor: `h[0] = 0`, `h[i] = xs[i] - xs[i-1]`. */
  method ComputeWidths(xs: seq<real>) returns (h: seq<real>)
    requires |xs| >= 1
    ensures h == Widths(xs)
  {
    h := [0.0];
    for i := 1 to |xs|
      invariant |h| == i && h[0] == 0.0
      invariant forall k {:trigger h[k]} :: 1 <= k < i ==> h[k] == xs[k] - xs[k - 1]
    {
      h := h + [xs[i] - xs[i - 1]];
    }
  }

  /** The second loop of the constructor: rows `1 .. N-2` of the tridiagonal
      system and the right-hand side. Entry 0 of each is padding: the source
      sets `sub[0]` twice and never `sup[0]`, which `solve` never reads, so it
      is 0 here; `rhs[0]` is the `a[0] = 0` set before the loop. Entries
      `1 .. N-2` of the right-hand side come out 0 because they are computed
      from the x values. */
  method BuildSystem(xs: seq<real>, h: seq<real>) returns (sub: seq<real>, diag: seq<real>, sup: seq<real>, rhs: seq<real>)
    requires |xs| >= 3 && StrictlyIncreasing(xs) && h == Widths(xs)
    ensures |sub| == |xs| - 1 && |diag| == |xs| - 1 && |sup| == |xs| - 1 && |rhs| == |xs| - 1
    ensures sub[0] == 0.0 && diag[0] == 0.0 && sup[0] == 0.0 && AllZero(rhs)
    ensures forall k {:trigger diag[k]} :: 1 <= k <= |xs| - 2 ==> diag[k] == (h[k] + h[k + 1]) / 3.0
    ensures forall k {:trigger sup[k]} :: 1 <= k <= |xs| - 2 ==> sup[k] == h[k + 1] / 6.0
    ensures forall k {:trigger sub[k]} :: 1 <= k <= |xs| - 2 ==> sub[k] == h[k] / 6.0
  {
    sub, diag, sup := [0.0], [0.0], [0.0];
    rhs := [0.0];
    WidthsPositive(xs);
    for i := 1 to |xs| - 1
      invariant |sub| == i && |diag| == i && |sup| == i && |rhs| == i
      invariant sub[0] == 0.0 && diag[0] == 0.0 && sup[0] == 0.0 && AllZero(rhs)
      invariant forall k {:trigger diag[k]} :: 1 <= k < i ==> diag[k] == (h[k] + h[k + 1]) / 3.0
      invariant forall k {:trigger sup[k]} :: 1 <= k < i ==> sup[k] == h[k + 1] / 6.0
      invariant forall k {:trigger sub[k]} :: 1 <= k < i ==> sub[k] == h[k] / 6.0
    {
      diag := diag + [(h[i] + h[i + 1]) / 3.0];
      sup := sup + [h[i + 1] / 6.0];
      sub := sub + [h[i] / 6.0];
      RhsFromXsIsZero(xs, h, i);
      rhs := rhs + [(xs[i + 1] - xs[i]) / h[i + 1] - (xs[i] - xs[i - 1]) / h[i]];
    }
  }

  /** A fresh array holding `s`: the arrays `solve` updates in place. */
  method ToArray(s: seq<real>) returns (arr: array<real>)
    ensures fresh(arr) && arr[..] == s
  {
    arr := new real[|s|](k => if 0 <= k < |s| then s[k] else 0.0);
  }

  /** The scan loop of `interpolate`. */
  method ScanKnots(xs: seq<real>, x: real) returns (gap: nat, previous: real)
    ensures ScanState(gap, previous) == Scan(xs, x)
  {
    gap, previous := 0, 0.0;
    for i := 0 to |xs|
      invariant ScanState(gap, previous) == Scan(xs[..i], x)
    {
      assert xs[..i + 1][..i] == xs[..i];
      if previous < xs[i] && xs[i] < x {
        previous := xs[i];
        gap := i + 1;
      }
    }
    assert xs[..|xs|] == xs;
  }

  // ---------------------------------------------------------------------
  // The spline object

  class NaturalSpline {
    var xs: seq<real>
    var ys: seq<real>
    var a: seq<real>
    var h: seq<real>

    /** The samples are ordered with distinct x, `h` holds the widths, and the
        assigned second derivatives are all 0 (the system is built from xs). */
    ghost predicate Valid()
      reads this
    {
      |xs| == |ys| >= 1 && StrictlyIncreasing(xs) && h == Widths(xs) &&
      |a| == AssignedMoments(|xs|) && AllZero(a)
    }

    /** The constructor after `super(values)`: widths, then, with three or more
        samples, the tridiagonal entries and right-hand side of rows
        `1 .. N-2`, then `solve`. */
    constructor (samples: SampleArrays)
      requires |samples.xs| == |samples.ys| >= 1 && StrictlyIncreasing(samples.xs)
      ensures Valid() && xs == samples.xs && ys == samples.ys
    {
      xs := samples.xs;
      ys := samples.ys;
      a := [0.0];
      h := [0.0];
      new;
      var length := |xs|;
      h := ComputeWidths(xs);
      if length <= 2 {
        return;
      }
      SolveMoments();
    }

    /** The part of the constructor that runs with three or more samples: build
        the system of rows `1 .. N-2` and solve it into `a[0 .. N-2]`. */
    method SolveMoments()
      requires |xs| >= 3 && StrictlyIncreasing(xs) && h == Widths(xs)
      modifies this
      ensures xs == old(xs) && ys == old(ys) && h == old(h)
      ensures |a| == |xs| - 1 && AllZero(a)
    {
      var subs, diags, sups, rhs := BuildSystem(xs, h);
      ghost var n := |xs| - 2;
      ghost var system := Elimination(subs, diags, rhs);
      BuiltSystemSolvesToZero(xs, h, system, sups);
      var sub := ToArray(subs);
      var diag := ToArray(diags);
      var sup := ToArray(sups);
      a := rhs;
      Solve(sub, diag, sup, |xs| - 2);
      assert a == SolveSpec(system, sups, n).rhs;
    }

    /** `solve(sub, diag, sup, n)`: the forward sweep over rows `2 .. n-1`,
        the division of row `n`, and the backward sweep over rows `n-1 .. 1`,
        all in place. */
    method Solve(sub: array<real>, diag: array<real>, sup: array<real>, n: nat)
      requires sub != diag && sub != sup && diag != sup
      requires Dominant(Elimination(sub[..], diag[..], a), sup[..], n, 2)
      modifies this, sub, diag
      ensures Elimination(sub[..], diag[..], a) == SolveSpec(Elimination(old(sub[..]), old(diag[..]), old(a)), sup[..], n)
      ensures xs == old(xs) && ys == old(ys) && h == old(h)
    {
      ForwardSweep(sub, diag, sup, n);
      ghost var swept := Elimination(sub[..], diag[..], a);
      DominantDiagonalPositive(swept, sup[..], n, SweepEnd(n));
      a := a[n := a[n] / diag[n]];
      BackSubstitute(diag, sup, n);
    }

    /** The forward loop of `solve`. */
    method ForwardSweep(sub: array<real>, diag: array<real>, sup: array<real>, n: nat)
      requires sub != diag && sub != sup && diag != sup
      requires Dominant(Elimination(sub[..], diag[..], a), sup[..], n, 2)
      modifies this, sub, diag
      ensures Elimination(sub[..], diag[..], a) == Eliminated(Elimination(old(sub[..]), old(diag[..]), old(a)), sup[..], n, SweepEnd(n))
      ensures xs == old(xs) && ys == old(ys) && h == old(h)
    {
      ghost var start := Elimination(sub[..], diag[..], a);
      var i := 2;
      while i < n
        invariant 2 <= i <= SweepEnd(n)
        invariant Elimination(sub[..], diag[..], a) == Eliminated(start, sup[..], n, i)
        invariant xs == old(xs) && ys == old(ys) && h == old(h)
        decreases n - i
      {
        StepKeepsDominant(Elimination(sub[..], diag[..], a), sup[..], n, i);
        SweepRow(sub, diag, sup, n, i);
        i := i + 1;
      }
    }

    /** The body of the forward loop of `solve`, row `i`. */
    method SweepRow(sub: array<real>, diag: array<real>, sup: array<real>, n: nat, i: nat)
      requires sub != diag && sub != sup && diag != sup
      requires Shaped(Elimination(sub[..], diag[..], a), sup[..], n) && 2 <= i <= n && diag[i - 1] != 0.0
      modifies this, sub, diag
      ensures Elimination(sub[..], diag[..], a) == EliminationStep(Elimination(old(sub[..]), old(diag[..]), old(a)), sup[..], n, i)
      ensures xs == old(xs) && ys == old(ys) && h == old(h)
    {
      sub[i] := sub[i] / diag[i - 1];
      diag[i] := Reduced(diag[i], sub[i], sup[i - 1]);
      a := a[i := Reduced(a[i], sub[i], a[i - 1])];
    }

    /** The backward loop of `solve`, after row `n` has been divided by its pivot. */
    method BackSubstitute(diag: array<real>, sup: array<real>, n: nat)
      requires n >= 1 && diag.Length == n + 1 && sup.Length == n + 1 && |a| == n + 1
      requires forall k {:trigger diag[k]} :: 1 <= k <= n ==> diag[k] > 0.0
      modifies this
      ensures a == BackTo(diag[..], sup[..], old(a), n, 0)
      ensures xs == old(xs) && ys == old(ys) && h == old(h)
    {
      ghost var last := a;
      var j := n - 1;
      while j >= 1
        invariant 0 <= j <= n - 1
        invariant a == BackTo(diag[..], sup[..], last, n, j)
        invariant xs == old(xs) && ys == old(ys) && h == old(h)
        decreases j
      {
        a := a[j := Reduced(a[j], sup[j], a[j + 1]) / diag[j]];
        j := j - 1;
      }
    }

    /** `interpolate(x)`: one sample gives `ys[0]`; otherwise the scan picks
        `gap`, `gap = 0` gives `ys[0]`, and a segment formula that would read
        the unassigned `a[gap]` (or `h[N]`) fails. With the all-zero second
        derivatives the formula is the straight line between knots `gap-1` and
        `gap`. The empty-samples branch of the source is unreachable, since
        construction fails on empty input. */
    method Interpolate(x: real) returns (r: Result<real>)
      requires Valid()
      ensures |xs| == 1 ==> r == Ok(ys[0])
      ensures |xs| >= 2 && Scan(xs, x).gap == 0 ==> r == Ok(ys[0])
      ensures |xs| >= 2 ==>
                (r.Err? <==> 1 <= Scan(xs, x).gap && |a| <= Scan(xs, x).gap)
      ensures r.Err? ==> r.error == UnassignedRead
      ensures |xs| >= 2 && 1 <= Scan(xs, x).gap < |a| ==>
                xs[Scan(xs, x).gap - 1] < xs[Scan(xs, x).gap] &&
                r == Ok(Linear(xs[Scan(xs, x).gap - 1], ys[Scan(xs, x).gap - 1],
                               xs[Scan(xs, x).gap], ys[Scan(xs, x).gap], x))
    {
      if |xs| == 1 {
        return Ok(ys[0]);
      }
      var gap, previous := ScanKnots(xs, x);
      if gap == 0 {
        return Ok(ys[0]);
      }
      if gap >= |a| {
        return Err(UnassignedRead);
      }
      ScanFindsLastPositiveBelow(xs, x);
      assert xs[gap - 1] < xs[gap] && previous == xs[gap - 1];
      assert h[gap] == xs[gap] - xs[gap - 1] && a[gap - 1] == 0.0 && a[gap] == 0.0;
      ZeroMomentsGiveLine(xs[gap - 1], ys[gap - 1], xs[gap], ys[gap], x);
      r := Ok(SegmentFormula(a[gap - 1], a[gap], h[gap], previous, ys[gap - 1], ys[gap], x));
    }
  }

  /** `new NaturalSpline(values)`: the base constructor, then the set-up
      above. x values must be pairwise distinct: the source divides by their
      differences unchecked. */
  method NewNaturalSpline(values: NumberValues) returns (r: Result<NaturalSpline>)
    requires DistinctX(Points(values))
    ensures r.Err? <==> |values| == 0 || (!AllPairs(values) && !AllTuples(values))
    ensures |values| == 0 ==> r == Err(EmptyInput)
    ensures r.Ok? ==> fresh(r.value) && r.value.Valid() &&
                      exists order :: Arranges(Points(values), SampleArrays(r.value.xs, r.value.ys), order)
  {
    var loaded, order := LoadSamples(values);
    if loaded.Err? {
      return loaded.PropagateFailure();
    }
    StoreStrictlyIncreasing(Points(values), loaded.value, order);
    var spline := new NaturalSpline(loaded.value);
    assert SampleArrays(spline.xs, spline.ys) == loaded.value;
    r := Ok(spline);
  }
}
