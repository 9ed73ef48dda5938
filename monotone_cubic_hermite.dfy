/** Monotone cubic Hermite interpolation, Fritsch-Carlson method with
    Fritsch-Butland interior tangents
    (libs/splines/src/lib/monotone-cubic-hermite-interpolation.ts). */
module MonotoneCubicHermite {
  import opened Wrappers
  import opened NumberPair
  import opened SortIndexes
  import opened SplineBase

  function Min(a: real, b: real): real { if a <= b then a else b }
  function Max(a: real, b: real): real { if a <= b then b else a }

  // ---------------------------------------------------------------------
  // Specification of the coefficients the constructor pushes

  /** Consecutive differences `dxs[i] = xs[i+1] - xs[i]`. */
  function Dxs(xs: seq<real>): (dxs: seq<real>)
    requires |xs| >= 1
    ensures |dxs| == |xs| - 1
    ensures forall i {:trigger dxs[i]} :: 0 <= i < |dxs| ==> dxs[i] == xs[i + 1] - xs[i]
  {
    seq(|xs| - 1, i requires 0 <= i < |xs| - 1 => xs[i + 1] - xs[i])
  }

  /** Secant slopes `ms[i] = (ys[i+1] - ys[i]) / dxs[i]`. */
  function Secants(xs: seq<real>, ys: seq<real>): (ms: seq<real>)
    requires |xs| == |ys| >= 1 && StrictlyIncreasing(xs)
    ensures |ms| == |xs| - 1
    ensures forall i {:trigger ms[i]} :: 0 <= i < |ms| ==> ms[i] == (ys[i + 1] - ys[i]) / (xs[i + 1] - xs[i])
  {
    seq(|xs| - 1, i requires 0 <= i < |xs| - 1 => (ys[i + 1] - ys[i]) / (xs[i + 1] - xs[i]))
  }

  lemma {:induction false} DivideBounds(w: real, a: real, b: real)
    requires w > 0.0 && 0.0 < a <= b
    ensures 0.0 < w / b <= w / a
  {
    assert w / a - w / b == w * (b - a) / (a * b);
  }

  lemma {:induction false} SplitQuotient(w1: real, w2: real, c: real)
    requires c != 0.0
    ensures (w1 + w2) / c == w1 / c + w2 / c
  {
  }

  lemma {:induction false} InverseQuotient(w: real, c: real)
    requires w > 0.0 && c > 0.0
    ensures w / c > 0.0 && w / (w / c) == c
  {
  }

  /** `w1 / m + w2 / n` lies between `(w1 + w2) / hi` and `(w1 + w2) / lo`. */
  lemma {:induction false} WeightedSumBounds(w1: real, w2: real, m: real, n: real, lo: real, hi: real)
    requires w1 > 0.0 && w2 > 0.0 && 0.0 < lo <= m <= hi && lo <= n <= hi
    ensures (w1 + w2) / hi <= w1 / m + w2 / n <= (w1 + w2) / lo
  {
    DivideBounds(w1, lo, m);
    DivideBounds(w2, lo, n);
    DivideBounds(w1, m, hi);
    DivideBounds(w2, n, hi);
    SplitQuotient(w1, w2, hi);
    SplitQuotient(w1, w2, lo);
  }

  /** A weighted harmonic mean of two positive numbers lies between them. */
  lemma {:induction false} PositiveHarmonicMean(w1: real, w2: real, m: real, n: real)
    requires w1 > 0.0 && w2 > 0.0 && m > 0.0 && n > 0.0
    ensures w1 / m + w2 / n > 0.0
    ensures Min(m, n) <= (w1 + w2) / (w1 / m + w2 / n) <= Max(m, n)
  {
    var lo, hi := Min(m, n), Max(m, n);
    var d := w1 / m + w2 / n;
    var w := w1 + w2;
    WeightedSumBounds(w1, w2, m, n, lo, hi);
    InverseQuotient(w, hi);
    InverseQuotient(w, lo);
    DivideBounds(w, w / hi, d);
    DivideBounds(w, d, w / lo);
  }

  /** The same for two negative numbers, and in both cases the mean keeps their sign. */
  lemma {:induction false} HarmonicMeanBounds(w1: real, w2: real, m: real, n: real)
    requires w1 > 0.0 && w2 > 0.0 && m * n > 0.0
    ensures w1 / m + w2 / n != 0.0
    ensures Min(m, n) <= (w1 + w2) / (w1 / m + w2 / n) <= Max(m, n)
    ensures (w1 + w2) / (w1 / m + w2 / n) * m > 0.0
  {
    SameSign(m, n);
    var t := (w1 + w2) / (w1 / m + w2 / n);
    if m > 0.0 {
      PositiveHarmonicMean(w1, w2, m, n);
      ProductSign(t, m);
    } else {
      PositiveHarmonicMean(w1, w2, -m, -n);
      NegatedMean(w1, w2, m, n);
      ProductSign(t, m);
    }
  }

  lemma {:induction false} SameSign(m: real, n: real)
    requires m * n > 0.0
    ensures (m > 0.0 && n > 0.0) || (m < 0.0 && n < 0.0)
  {
    if m > 0.0 {
      assert n == (m * n) / m;
    } else {
      assert -n == (m * n) / (-m);
    }
  }

  lemma {:induction false} ProductSign(a: real, b: real)
    requires (a > 0.0 && b > 0.0) || (a < 0.0 && b < 0.0)
    ensures a * b > 0.0
  {
    if a < 0.0 {
      assert a * b == (-a) * (-b);
    }
  }

  lemma {:induction false} NegatedMean(w1: real, w2: real, m: real, n: real)
    requires m < 0.0 && n < 0.0
    ensures w1 / (-m) + w2 / (-n) == -(w1 / m + w2 / n)
    ensures w1 / m + w2 / n != 0.0 ==>
              (w1 + w2) / (w1 / (-m) + w2 / (-n)) == -((w1 + w2) / (w1 / m + w2 / n))
  {
  }

  /** The tangent at an interior knot: zero at a local extremum or next to a
      flat secant (`m * mNext <= 0`), otherwise the Fritsch-Butland weighted
      harmonic mean of the two secants. Either way it never leaves the range
      of the two neighbouring secants. */
  function InteriorTangent(dx1: real, dxNext: real, m: real, mNext: real): (t: real)
    requires dx1 > 0.0 && dxNext > 0.0
    ensures Min(m, mNext) <= t <= Max(m, mNext)
  {
    if m * mNext <= 0.0 then ZeroBetween(m, mNext); 0.0 else ButlandMean(dx1, dxNext, m, mNext)
  }

  /** Secants whose product is not positive have 0 between them. */
  lemma {:induction false} ZeroBetween(m: real, mNext: real)
    requires m * mNext <= 0.0
    ensures Min(m, mNext) <= 0.0 <= Max(m, mNext)
  {
    if (m > 0.0 && mNext > 0.0) || (m < 0.0 && mNext < 0.0) {
      ProductSign(m, mNext);
      assert false;
    }
  }

  /** The weighted harmonic mean of two secants of the same sign, with
      `common = dx1 + dxNext`: `m` is divided by the weight
      `common + dxNext = dx1 + 2 dxNext` and `mNext` by the weight
      `common + dx1 = 2 dx1 + dxNext`. It lies between the two secants. */
  function ButlandMean(dx1: real, dxNext: real, m: real, mNext: real): (t: real)
    requires dx1 > 0.0 && dxNext > 0.0 && m * mNext > 0.0
    ensures Min(m, mNext) <= t <= Max(m, mNext)
  {
    var common := dx1 + dxNext;
    HarmonicMeanBounds(common + dxNext, common + dx1, m, mNext);
    assert 3.0 * common == (common + dxNext) + (common + dx1);
    (3.0 * common) / ((common + dxNext) / m + (common + dx1) / mNext)
  }

  /** The interior tangent is 0 exactly when the secants change sign or one is
      flat; otherwise it has their common sign and lies between them. */
  lemma {:induction false} InteriorTangentBounds(dx1: real, dxNext: real, m: real, mNext: real)
    requires dx1 > 0.0 && dxNext > 0.0
    ensures m * mNext <= 0.0 <==> InteriorTangent(dx1, dxNext, m, mNext) == 0.0
    ensures m * mNext > 0.0 ==>
              Min(m, mNext) <= InteriorTangent(dx1, dxNext, m, mNext) <= Max(m, mNext) &&
              InteriorTangent(dx1, dxNext, m, mNext) * m > 0.0 &&
              InteriorTangent(dx1, dxNext, m, mNext) * mNext > 0.0
  {
    if m * mNext > 0.0 {
      var t := InteriorTangent(dx1, dxNext, m, mNext);
      SameSign(m, mNext);
      ProductSign(t, m);
      ProductSign(t, mNext);
    }
  }

  predicate AllPositive(dxs: seq<real>)
  {
    forall k :: 0 <= k < |dxs| ==> dxs[k] > 0.0
  }

  /** The tangents from the differences and secants: one-sided secants at the
      two ends, `InteriorTangent` in between. */
  function TangentsOf(dxs: seq<real>, ms: seq<real>): (c1s: seq<real>)
    requires |dxs| == |ms| >= 1 && AllPositive(dxs)
    ensures |c1s| == |ms| + 1
    ensures c1s[0] == ms[0] && c1s[|ms|] == ms[|ms| - 1]
    ensures forall i {:trigger c1s[i]} :: 0 < i < |ms| ==> c1s[i] == InteriorTangent(dxs[i - 1], dxs[i], ms[i - 1], ms[i])
  {
    [ms[0]]
    + seq(|ms| - 1, i requires 0 <= i < |ms| - 1 => InteriorTangent(dxs[i], dxs[i + 1], ms[i], ms[i + 1]))
    + [ms[|ms| - 1]]
  }

  /** The degree-1 coefficients `c1s` of the samples. */
  function Tangents(xs: seq<real>, ys: seq<real>): (c1s: seq<real>)
    requires |xs| == |ys| >= 2 && StrictlyIncreasing(xs)
    ensures |c1s| == |xs|
    ensures c1s[0] == Secants(xs, ys)[0] && c1s[|xs| - 1] == Secants(xs, ys)[|xs| - 2]
    ensures forall i {:trigger c1s[i]} :: 0 < i < |xs| - 1 ==>
              c1s[i] == InteriorTangent(Dxs(xs)[i - 1], Dxs(xs)[i], Secants(xs, ys)[i - 1], Secants(xs, ys)[i])
  {
    DxsPositive(xs);
    TangentsOf(Dxs(xs), Secants(xs, ys))
  }

  lemma {:induction false} DxsPositive(xs: seq<real>)
    requires |xs| >= 1 && StrictlyIncreasing(xs)
    ensures AllPositive(Dxs(xs))
  {
    forall k | 0 <= k < |xs| - 1
      ensures Dxs(xs)[k] > 0.0
    {
      assert xs[k] < xs[k + 1];
    }
  }

  /** `common = c1 + c1Next - 2 m`, the same quantity the source computes as `c1 + c1s[i+1] - m2 - m2`. */
  function Common(c1: real, c1Next: real, m: real): real
  {
    c1 + c1Next - m - m
  }

  function Quadratic(c1: real, c1Next: real, m: real, dx: real): real
    requires dx != 0.0
  {
    var invDx := 1.0 / dx;
    (m - c1 - Common(c1, c1Next, m)) * invDx
  }

  function Cubic(c1: real, c1Next: real, m: real, dx: real): real
    requires dx != 0.0
  {
    var invDx := 1.0 / dx;
    Common(c1, c1Next, m) * invDx * invDx
  }

  /** The degree-2 coefficients from the differences, secants and tangents. */
  function QuadraticsOf(dxs: seq<real>, ms: seq<real>, c1s: seq<real>): (c2s: seq<real>)
    requires |dxs| == |ms| && |c1s| == |ms| + 1 && AllPositive(dxs)
    ensures |c2s| == |ms|
    ensures forall i {:trigger c2s[i]} :: 0 <= i < |ms| ==> c2s[i] == Quadratic(c1s[i], c1s[i + 1], ms[i], dxs[i])
  {
    seq(|ms|, i requires 0 <= i < |ms| => Quadratic(c1s[i], c1s[i + 1], ms[i], dxs[i]))
  }

  /** The degree-3 coefficients from the differences, secants and tangents. */
  function CubicsOf(dxs: seq<real>, ms: seq<real>, c1s: seq<real>): (c3s: seq<real>)
    requires |dxs| == |ms| && |c1s| == |ms| + 1 && AllPositive(dxs)
    ensures |c3s| == |ms|
    ensures forall i {:trigger c3s[i]} :: 0 <= i < |ms| ==> c3s[i] == Cubic(c1s[i], c1s[i + 1], ms[i], dxs[i])
  {
    seq(|ms|, i requires 0 <= i < |ms| => Cubic(c1s[i], c1s[i + 1], ms[i], dxs[i]))
  }

  /** The degree-2 coefficients `c2s`, one per segment. */
  function Quadratics(xs: seq<real>, ys: seq<real>): (c2s: seq<real>)
    requires |xs| == |ys| >= 2 && StrictlyIncreasing(xs)
    ensures |c2s| == |xs| - 1
  {
    DxsPositive(xs);
    QuadraticsOf(Dxs(xs), Secants(xs, ys), Tangents(xs, ys))
  }

  /** The degree-3 coefficients `c3s`, one per segment. */
  function Cubics(xs: seq<real>, ys: seq<real>): (c3s: seq<real>)
    requires |xs| == |ys| >= 2 && StrictlyIncreasing(xs)
    ensures |c3s| == |xs| - 1
  {
    DxsPositive(xs);
    CubicsOf(Dxs(xs), Secants(xs, ys), Tangents(xs, ys))
  }

  /** Each secant carries a sample to the next: `ys[i] + ms[i] * dxs[i] == ys[i+1]`. */
  lemma {:induction false} SecantsRebuildSamples(xs: seq<real>, ys: seq<real>, i: nat)
    requires |xs| == |ys| >= 2 && StrictlyIncreasing(xs) && i < |xs| - 1
    ensures Dxs(xs)[i] > 0.0
    ensures ys[i] + Secants(xs, ys)[i] * Dxs(xs)[i] == ys[i + 1]
  {
    var d := xs[i + 1] - xs[i];
    assert xs[i] < xs[i + 1];
    assert Secants(xs, ys)[i] * d == ys[i + 1] - ys[i];
  }

  /** Segment i's coefficients are those of its two tangents, its secant and its width. */
  lemma {:induction false} CoefficientsAt(xs: seq<real>, ys: seq<real>, i: nat)
    requires |xs| == |ys| >= 2 && StrictlyIncreasing(xs) && i < |xs| - 1
    ensures Quadratics(xs, ys)[i] ==
              Quadratic(Tangents(xs, ys)[i], Tangents(xs, ys)[i + 1], Secants(xs, ys)[i], xs[i + 1] - xs[i])
    ensures Cubics(xs, ys)[i] ==
              Cubic(Tangents(xs, ys)[i], Tangents(xs, ys)[i + 1], Secants(xs, ys)[i], xs[i + 1] - xs[i])
  {
    DxsPositive(xs);
    assert Dxs(xs)[i] == xs[i + 1] - xs[i];
  }

  /** The segment polynomial `y + c1 d + c2 d^2 + c3 d^3` at offset `diff`. */
  function Hermite(y: real, c1: real, c2: real, c3: real, diff: real): (v: real)
    ensures diff == 0.0 ==> v == y
  {
    var diffSq := diff * diff;
    y + c1 * diff + c2 * diffSq + c3 * diff * diffSq
  }

  /** Its derivative in `diff`. */
  function HermiteSlope(c1: real, c2: real, c3: real, diff: real): real
  {
    c1 + 2.0 * c2 * diff + 3.0 * c3 * diff * diff
  }

  // ---------------------------------------------------------------------
  // What the coefficients promise

  /** Each segment cubic starts at `(0, y)` with slope `c1` and ends at
      `(dx, yNext)` with slope `c1Next`, whatever the two tangents are. */
  lemma {:induction false} SegmentEnds(y: real, yNext: real, dx: real, c1: real, c1Next: real)
    requires dx > 0.0
    ensures var m := (yNext - y) / dx;
            var c2, c3 := Quadratic(c1, c1Next, m, dx), Cubic(c1, c1Next, m, dx);
            Hermite(y, c1, c2, c3, 0.0) == y && HermiteSlope(c1, c2, c3, 0.0) == c1 &&
            Hermite(y, c1, c2, c3, dx) == yNext && HermiteSlope(c1, c2, c3, dx) == c1Next
  {
    var m := (yNext - y) / dx;
    var invDx := 1.0 / dx;
    var k := Common(c1, c1Next, m);
    var c2, c3 := Quadratic(c1, c1Next, m, dx), Cubic(c1, c1Next, m, dx);
    assert invDx * dx == 1.0;
    assert c2 * dx == m - c1 - k;
    assert c3 * dx * dx == k;
    assert c2 * (dx * dx) == (m - c1 - k) * dx;
    assert c3 * dx * (dx * dx) == k * dx;
    assert m * dx == yNext - y;
  }

  /** The tangent rules: end tangents are the one-sided secants; an interior
      tangent is 0 when the neighbouring secants change sign or one is flat,
      and otherwise shares their sign and lies between them. */
  lemma {:induction false} TangentRules(xs: seq<real>, ys: seq<real>, i: nat)
    requires |xs| == |ys| >= 2 && StrictlyIncreasing(xs) && i < |xs|
    ensures i == 0 ==> Tangents(xs, ys)[i] == Secants(xs, ys)[0]
    ensures i == |xs| - 1 ==> Tangents(xs, ys)[i] == Secants(xs, ys)[|xs| - 2]
    ensures 0 < i < |xs| - 1 && Secants(xs, ys)[i - 1] * Secants(xs, ys)[i] <= 0.0 ==>
              Tangents(xs, ys)[i] == 0.0
    ensures 0 < i < |xs| - 1 && Secants(xs, ys)[i - 1] * Secants(xs, ys)[i] > 0.0 ==>
              Min(Secants(xs, ys)[i - 1], Secants(xs, ys)[i]) <= Tangents(xs, ys)[i]
                <= Max(Secants(xs, ys)[i - 1], Secants(xs, ys)[i]) &&
              Tangents(xs, ys)[i] * Secants(xs, ys)[i] > 0.0
  {
    if 0 < i < |xs| - 1 {
      var ms, dxs := Secants(xs, ys), Dxs(xs);
      assert Tangents(xs, ys)[i] == InteriorTangent(dxs[i - 1], dxs[i], ms[i - 1], ms[i]);
      InteriorTangentBounds(dxs[i - 1], dxs[i], ms[i - 1], ms[i]);
    }
  }

  /** The interpolant passes through every sample: segment i ends at
      `(xs[i+1], ys[i+1])`, with the tangent `c1s[i+1]` the next segment starts with. */
  lemma {:induction false} SegmentsMeetAtKnots(xs: seq<real>, ys: seq<real>, i: nat)
    requires |xs| == |ys| >= 2 && StrictlyIncreasing(xs) && i < |xs| - 1
    ensures Hermite(ys[i], Tangents(xs, ys)[i], Quadratics(xs, ys)[i], Cubics(xs, ys)[i], 0.0) == ys[i]
    ensures Hermite(ys[i], Tangents(xs, ys)[i], Quadratics(xs, ys)[i], Cubics(xs, ys)[i], xs[i + 1] - xs[i]) == ys[i + 1]
    ensures HermiteSlope(Tangents(xs, ys)[i], Quadratics(xs, ys)[i], Cubics(xs, ys)[i], xs[i + 1] - xs[i])
            == Tangents(xs, ys)[i + 1]
  {
    var c1s := Tangents(xs, ys);
    var dx := xs[i + 1] - xs[i];
    var m := (ys[i + 1] - ys[i]) / dx;
    assert Secants(xs, ys)[i] == m;
    CoefficientsAt(xs, ys, i);
    var c2, c3 := Quadratic(c1s[i], c1s[i + 1], m, dx), Cubic(c1s[i], c1s[i + 1], m, dx);
    assert Quadratics(xs, ys)[i] == c2 && Cubics(xs, ys)[i] == c3;
    SegmentEnds(ys[i], ys[i + 1], dx, c1s[i], c1s[i + 1]);
  }

  /** Equal tangents equal to the secant make the higher coefficients vanish. */
  lemma {:induction false} StraightSegment(m: real, dx: real)
    requires dx != 0.0
    ensures Quadratic(m, m, m, dx) == 0.0 && Cubic(m, m, m, dx) == 0.0
    ensures forall y, d :: Hermite(y, m, 0.0, 0.0, d) == y + m * d
  {
    assert Common(m, m, m) == 0.0;
  }

  lemma {:induction false} InteriorTangentOfEqualSecants(dx1: real, dxNext: real, m: real)
    requires dx1 > 0.0 && dxNext > 0.0
    ensures InteriorTangent(dx1, dxNext, m, m) == m
  {
    InteriorTangentBounds(dx1, dxNext, m, m);
    if m * m > 0.0 {
      assert Min(m, m) == m == Max(m, m);
    } else {
      assert m == 0.0;
    }
  }

  /** Linear data (every secant the same `m`, including two samples): all
      tangents are `m`. */
  lemma {:induction false} LinearDataTangents(xs: seq<real>, ys: seq<real>, m: real)
    requires |xs| == |ys| >= 2 && StrictlyIncreasing(xs)
    requires forall i :: 0 <= i < |xs| - 1 ==> Secants(xs, ys)[i] == m
    ensures forall i :: 0 <= i < |xs| ==> Tangents(xs, ys)[i] == m
  {
    var c1s, ms, dxs := Tangents(xs, ys), Secants(xs, ys), Dxs(xs);
    forall i | 0 < i < |xs| - 1
      ensures c1s[i] == m
    {
      assert ms[i - 1] == m && ms[i] == m;
      InteriorTangentOfEqualSecants(dxs[i - 1], dxs[i], m);
    }
  }

  /** ... and so the higher coefficients vanish and each segment polynomial is the line. */
  lemma {:induction false} LinearDataIsExact(xs: seq<real>, ys: seq<real>, m: real)
    requires |xs| == |ys| >= 2 && StrictlyIncreasing(xs)
    requires forall i :: 0 <= i < |xs| - 1 ==> Secants(xs, ys)[i] == m
    ensures forall i :: 0 <= i < |xs| - 1 ==> Quadratics(xs, ys)[i] == 0.0 && Cubics(xs, ys)[i] == 0.0
    ensures forall i, d :: 0 <= i < |xs| - 1 ==>
              Hermite(ys[i], Tangents(xs, ys)[i], Quadratics(xs, ys)[i], Cubics(xs, ys)[i], d) == ys[i] + m * d
  {
    LinearDataTangents(xs, ys, m);
    var c1s := Tangents(xs, ys);
    forall i | 0 <= i < |xs| - 1
      ensures Quadratics(xs, ys)[i] == 0.0 && Cubics(xs, ys)[i] == 0.0
    {
      assert c1s[i] == m && c1s[i + 1] == m;
      CoefficientsAt(xs, ys, i);
      StraightSegment(m, xs[i + 1] - xs[i]);
    }
    StraightSegment(m, 1.0);
  }

  lemma {:induction false} FlatNeighbourTangent(dx1: real, dxNext: real, m: real, mNext: real)
    requires dx1 > 0.0 && dxNext > 0.0 && (m == 0.0 || mNext == 0.0)
    ensures InteriorTangent(dx1, dxNext, m, mNext) == 0.0
  {
    assert m * mNext == 0.0;
    InteriorTangentBounds(dx1, dxNext, m, mNext);
  }

  /** A flat segment (zero secant) has zero tangents at both ends ... */
  lemma {:induction false} FlatSegmentTangents(xs: seq<real>, ys: seq<real>, i: nat)
    requires |xs| == |ys| >= 2 && StrictlyIncreasing(xs) && i < |xs| - 1
    requires ys[i + 1] == ys[i]
    ensures Secants(xs, ys)[i] == 0.0
    ensures Tangents(xs, ys)[i] == 0.0 && Tangents(xs, ys)[i + 1] == 0.0
  {
    var ms, dxs := Secants(xs, ys), Dxs(xs);
    assert ms[i] == 0.0 by {
      var dx := xs[i + 1] - xs[i];
      assert dx > 0.0;
      assert ms[i] == (ys[i + 1] - ys[i]) / dx;
      assert ys[i + 1] - ys[i] == 0.0;
      assert 0.0 / dx == 0.0;
    }
    if 0 < i {
      FlatNeighbourTangent(dxs[i - 1], dxs[i], ms[i - 1], ms[i]);
    }
    if i + 1 < |xs| - 1 {
      FlatNeighbourTangent(dxs[i], dxs[i + 1], ms[i], ms[i + 1]);
    }
  }

  /** ... and is the constant `ys[i]`. */
  lemma {:induction false} FlatSegmentIsConstant(xs: seq<real>, ys: seq<real>, i: nat)
    requires |xs| == |ys| >= 2 && StrictlyIncreasing(xs) && i < |xs| - 1
    requires ys[i + 1] == ys[i]
    ensures Quadratics(xs, ys)[i] == 0.0 && Cubics(xs, ys)[i] == 0.0
    ensures forall d :: Hermite(ys[i], Tangents(xs, ys)[i], Quadratics(xs, ys)[i], Cubics(xs, ys)[i], d) == ys[i]
  {
    FlatSegmentTangents(xs, ys, i);
    CoefficientsAt(xs, ys, i);
    StraightSegment(0.0, xs[i + 1] - xs[i]);
    var c1, c2, c3 := Tangents(xs, ys)[i], Quadratics(xs, ys)[i], Cubics(xs, ys)[i];
    assert c1 == 0.0 && c2 == 0.0 && c3 == 0.0;
    forall d
      ensures Hermite(ys[i], c1, c2, c3, d) == ys[i]
    {
      assert Hermite(ys[i], 0.0, 0.0, 0.0, d) == ys[i];
    }
  }

  // ---------------------------------------------------------------------
  // Segment choice of `interpolate`

  /** The largest segment index `s <= j` with `s == 0` or `xs[s] < x`. */
  function SegmentFrom(xs: seq<real>, x: real, j: nat): (s: nat)
    requires j < |xs|
    ensures s <= j
    ensures s > 0 ==> xs[s] < x
    ensures forall k :: s < k <= j ==> x <= xs[k]
    decreases j
  {
    if j == 0 || xs[j] < x then j else SegmentFrom(xs, x, j - 1)
  }

  /** The segment whose cubic `interpolate` evaluates at a query that is not a knot. */
  function HermiteSegment(xs: seq<real>, x: real): (s: nat)
    requires |xs| >= 2
    ensures s <= |xs| - 2
    ensures s > 0 ==> xs[s] < x
    ensures forall k :: s < k <= |xs| - 2 ==> x <= xs[k]
  {
    SegmentFrom(xs, x, |xs| - 2)
  }

  /** The segment brackets the query inside the data range; below the range it
      is the first segment and above it the last: the cubic is extrapolated. */
  lemma {:induction false} HermiteSegmentBrackets(xs: seq<real>, x: real)
    requires |xs| >= 2 && StrictlyIncreasing(xs)
    requires forall k :: 0 <= k < |xs| ==> xs[k] != x
    ensures HermiteSegment(xs, x) <= |xs| - 2
    ensures xs[0] < x < xs[|xs| - 1] ==>
              xs[HermiteSegment(xs, x)] < x < xs[HermiteSegment(xs, x) + 1]
    ensures x < xs[0] ==> HermiteSegment(xs, x) == 0
    ensures x > xs[|xs| - 1] ==> HermiteSegment(xs, x) == |xs| - 2
  {
    var n, i := |xs|, HermiteSegment(xs, x);
    if x > xs[n - 1] {
      assert xs[n - 2] < x;
    }
    if i > 0 {
      assert xs[0] < xs[i];
    }
  }

  /** Where the binary search stops: every searched knot up to `high` lies
      below `x` and every one after it above. */
  lemma {:induction false} SearchFindsSegment(xs: seq<real>, x: real, j: nat, high: int)
    requires j < |xs| && -1 <= high <= j
    requires forall k :: 0 <= k <= high ==> xs[k] < x
    requires forall k :: high < k <= j ==> x < xs[k]
    ensures SegmentFrom(xs, x, j) == if high > 0 then high else 0
    decreases j
  {
    if j > 0 && high < j {
      SearchFindsSegment(xs, x, j - 1, high);
    }
  }

  // ---------------------------------------------------------------------
  // The constructor's three push loops

  /** The first loop: differences and secant slopes. */
  method ComputeSecants(xs: seq<real>, ys: seq<real>) returns (dxs: seq<real>, ms: seq<real>)
    requires |xs| == |ys| >= 2 && StrictlyIncreasing(xs)
    ensures dxs == Dxs(xs) && ms == Secants(xs, ys)
  {
    dxs, ms := [], [];
    for i := 0 to |xs| - 1
      invariant |dxs| == i && |ms| == i
      invariant forall k {:trigger dxs[k]} :: 0 <= k < i ==> dxs[k] == xs[k + 1] - xs[k]
      invariant forall k {:trigger ms[k]} :: 0 <= k < i ==> ms[k] == (ys[k + 1] - ys[k]) / (xs[k + 1] - xs[k])
    {
      var dx := xs[i + 1] - xs[i];
      var dy := ys[i + 1] - ys[i];
      dxs := dxs + [dx];
      ms := ms + [dy / dx];
    }
  }

  /** `TangentsOf` grows one interior tangent at a time. */
  lemma TangentsPrefix(dxs: seq<real>, ms: seq<real>, i: nat)
    requires |dxs| == |ms| >= 1 && AllPositive(dxs) && i < |ms| - 1
    ensures TangentsOf(dxs, ms)[..i + 2] ==
            TangentsOf(dxs, ms)[..i + 1] + [InteriorTangent(dxs[i], dxs[i + 1], ms[i], ms[i + 1])]
  {
    var c1s := TangentsOf(dxs, ms);
    assert c1s[i + 1] == InteriorTangent(dxs[i], dxs[i + 1], ms[i], ms[i + 1]);
    assert c1s[..i + 2] == c1s[..i + 1] + [c1s[i + 1]];
  }

  /** The second loop: the end secants and the interior tangents. */
  method ComputeTangents(dxs: seq<real>, ms: seq<real>) returns (c1s: seq<real>)
    requires |dxs| == |ms| >= 1 && AllPositive(dxs)
    ensures c1s == TangentsOf(dxs, ms)
  {
    ghost var tangents := TangentsOf(dxs, ms);
    c1s := [ms[0]];
    for i := 0 to |dxs| - 1
      invariant c1s == tangents[..i + 1]
    {
      var m := ms[i];
      var mNext := ms[i + 1];
      var t;
      if m * mNext <= 0.0 {
        t := 0.0;
      } else {
        t := ButlandMean(dxs[i], dxs[i + 1], m, mNext);
      }
      assert t == InteriorTangent(dxs[i], dxs[i + 1], m, mNext);
      TangentsPrefix(dxs, ms, i);
      c1s := c1s + [t];
    }
    assert tangents == tangents[..|ms|] + [ms[|ms| - 1]];
    c1s := c1s + [ms[|ms| - 1]];
  }

  /** The third loop: the degree-2 and degree-3 coefficients of each segment. */
  method ComputeCoefficients(dxs: seq<real>, ms: seq<real>, c1s: seq<real>)
    returns (c2s: seq<real>, c3s: seq<real>)
    requires |dxs| == |ms| && |c1s| == |ms| + 1 && AllPositive(dxs)
    ensures c2s == QuadraticsOf(dxs, ms, c1s) && c3s == CubicsOf(dxs, ms, c1s)
  {
    c2s, c3s := [], [];
    for i := 0 to |c1s| - 1
      invariant |c2s| == i && |c3s| == i
      invariant forall k {:trigger c2s[k]} :: 0 <= k < i ==> c2s[k] == Quadratic(c1s[k], c1s[k + 1], ms[k], dxs[k])
      invariant forall k {:trigger c3s[k]} :: 0 <= k < i ==> c3s[k] == Cubic(c1s[k], c1s[k + 1], ms[k], dxs[k])
    {
      c2s := c2s + [Quadratic(c1s[i], c1s[i + 1], ms[i], dxs[i])];
      c3s := c3s + [Cubic(c1s[i], c1s[i + 1], ms[i], dxs[i])];
    }
  }

  /** The binary search of `interpolate` over the knots `0 .. |xs| - 2`: it
      either hits a knot equal to `x`, or ends with `high` just below the
      segment `x` falls in and the source takes `max(0, high)`. */
  method SearchKnots(xs: seq<real>, x: real) returns (exact: bool, i: nat)
    requires |xs| >= 2 && StrictlyIncreasing(xs)
    ensures i <= |xs| - 2
    ensures exact ==> xs[i] == x
    ensures !exact ==> (forall k :: 0 <= k <= |xs| - 2 ==> xs[k] != x) && i == HermiteSegment(xs, x)
  {
    var low, high := 0, |xs| - 2;
    while low <= high
      invariant 0 <= low <= |xs| - 1 && -1 <= high <= |xs| - 2 && low <= high + 1
      invariant forall k :: 0 <= k < low ==> xs[k] < x
      invariant forall k :: high < k <= |xs| - 2 ==> x < xs[k]
      decreases high - low
    {
      var mid := (low + high) / 2;
      var xHere := xs[mid];
      if xHere < x {
        low := mid + 1;
      } else if xHere > x {
        high := mid - 1;
      } else {
        return true, mid;
      }
    }
    SearchFindsSegment(xs, x, |xs| - 2, high);
    exact, i := false, if high > 0 then high else 0;
  }

  /** What the constructor's three loops leave in the coefficient arrays, entry by entry. */
  lemma {:induction false} StoredCoefficients(xs: seq<real>, ys: seq<real>, c1s: seq<real>, c2s: seq<real>, c3s: seq<real>)
    requires |xs| == |ys| >= 2 && StrictlyIncreasing(xs) && AllPositive(Dxs(xs))
    requires c1s == TangentsOf(Dxs(xs), Secants(xs, ys))
    requires c2s == QuadraticsOf(Dxs(xs), Secants(xs, ys), c1s) && c3s == CubicsOf(Dxs(xs), Secants(xs, ys), c1s)
    ensures |c1s| == |xs| && |c2s| == |xs| - 1 && |c3s| == |xs| - 1
    ensures forall i {:trigger Tangents(xs, ys)[i]} :: 0 <= i < |xs| ==> c1s[i] == Tangents(xs, ys)[i]
    ensures forall i {:trigger Quadratics(xs, ys)[i]} :: 0 <= i < |xs| - 1 ==> c2s[i] == Quadratics(xs, ys)[i]
    ensures forall i {:trigger Cubics(xs, ys)[i]} :: 0 <= i < |xs| - 1 ==> c3s[i] == Cubics(xs, ys)[i]
  {
    assert c1s == Tangents(xs, ys);
    assert c2s == Quadratics(xs, ys) && c3s == Cubics(xs, ys);
  }

  // ---------------------------------------------------------------------
  // The interpolator object

  class MonotoneCubicHermitInterpolation {
    var xs: seq<real>
    var ys: seq<real>
    var c1s: seq<real>
    var c2s: seq<real>
    var c3s: seq<real>

    /** The samples are ordered with distinct x; with two or more samples the
        coefficient arrays are those the specification functions give. */
    ghost predicate Valid()
      reads this
    {
      |xs| == |ys| >= 1 && StrictlyIncreasing(xs) &&
      (|xs| == 1 ==> c1s == [] && c2s == [] && c3s == []) &&
      (|xs| >= 2 ==>
         |c1s| == |xs| && |c2s| == |xs| - 1 && |c3s| == |xs| - 1 &&
         (forall i {:trigger Tangents(xs, ys)[i]} :: 0 <= i < |xs| ==> c1s[i] == Tangents(xs, ys)[i]) &&
         (forall i {:trigger Quadratics(xs, ys)[i]} :: 0 <= i < |xs| - 1 ==> c2s[i] == Quadratics(xs, ys)[i]) &&
         (forall i {:trigger Cubics(xs, ys)[i]} :: 0 <= i < |xs| - 1 ==> c3s[i] == Cubics(xs, ys)[i]))
    }

    /** The constructor after `super(values)`. With one sample the source
        reads `ms[0]`, which does not exist, and stores undefined coefficients
        that `interpolate` never reads; the model skips the set-up. */
    constructor (samples: SampleArrays)
      requires |samples.xs| == |samples.ys| >= 1 && StrictlyIncreasing(samples.xs)
      ensures Valid() && xs == samples.xs && ys == samples.ys
    {
      var tangents, quadratics, cubics := [], [], [];
      if |samples.xs| >= 2 {
        var dxs, ms := ComputeSecants(samples.xs, samples.ys);
        DxsPositive(samples.xs);
        tangents := ComputeTangents(dxs, ms);
        quadratics, cubics := ComputeCoefficients(dxs, ms, tangents);
        StoredCoefficients(samples.xs, samples.ys, tangents, quadratics, cubics);
      }
      xs, ys := samples.xs, samples.ys;
      c1s, c2s, c3s := tangents, quadratics, cubics;
    }

    /** The cubic of segment i evaluated at x. */
    function SegmentValue(i: nat, x: real): real
      reads this
      requires Valid() && i < |xs| - 1
    {
      Hermite(ys[i], c1s[i], c2s[i], c3s[i], x - xs[i])
    }

    /** `interpolate(x)`: one sample gives `ys[0]`; the last knot and every
        knot the binary search hits give the stored y exactly; otherwise the
        cubic of segment `max(0, high)` is evaluated, without clamping. */
    method Interpolate(x: real) returns (r: real)
      requires Valid()
      ensures |xs| == 1 ==> r == ys[0]
      ensures forall k :: 0 <= k < |xs| && xs[k] == x ==> r == ys[k]
      ensures |xs| >= 2 && (forall k :: 0 <= k < |xs| ==> xs[k] != x) ==>
                r == SegmentValue(HermiteSegment(xs, x), x)
    {
      if |xs| == 1 {
        return ys[0];
      }
      var i := |xs| - 1;
      if x == xs[i] {
        return ys[i];
      }
      var exact, segment := SearchKnots(xs, x);
      if exact {
        return ys[segment];
      }
      i := segment;
      var diff := x - xs[i];
      r := Hermite(ys[i], c1s[i], c2s[i], c3s[i], diff);
    }
  }

  /** `new MonotoneCubicHermitInterpolation(values)`: the base constructor,
      then the coefficient set-up. x values must be pairwise distinct: the
      source divides by their differences unchecked. */
  method NewMonotoneCubicHermite(values: NumberValues) returns (r: Result<MonotoneCubicHermitInterpolation>)
    requires DistinctX(Points(values))
    ensures r.Err? <==> |values| == 0 || (!AllPairs(values) && !AllTuples(values))
    ensures |values| == 0 ==> r == Err(EmptyInput)
    ensures r.Ok? ==> fresh(r.value) && r.value.Valid() &&
                      exists order :: Arranges(Points(values), SampleArrays(r.value.xs, r.value.ys), order)
  {
    var loaded, order := LoadSamples(values);
    if loaded.Err? {
      return loaded.PropagateFailure();
    }
    StoreStrictlyIncreasing(Points(values), loaded.value, order);
    var spline := new MonotoneCubicHermitInterpolation(loaded.value);
    assert SampleArrays(spline.xs, spline.ys) == loaded.value;
    r := Ok(spline);
  }
}
