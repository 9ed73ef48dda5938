/** The shared sample store (libs/splines/src/lib/spline-base.ts): the base
    constructor turns either input shape into two parallel arrays ordered by x. */
module SplineBase {
  import opened Wrappers
  import opened NumberPair
  import opened SortIndexes

  /** The `xs`/`ys` fields every interpolator owns. */
  datatype SampleArrays = SampleArrays(xs: seq<real>, ys: seq<real>)

  predicate NonDecreasing(s: seq<real>)
  {
    forall j, k :: 0 <= j < k < |s| ==> s[j] <= s[k]
  }

  /** The samples as (x, y) points, index-aligned. */
  function Zip(xs: seq<real>, ys: seq<real>): (z: seq<(real, real)>)
    requires |xs| == |ys|
    ensures |z| == |xs|
    ensures forall k :: 0 <= k < |xs| ==> z[k] == (xs[k], ys[k])
  {
    seq(|xs|, k requires 0 <= k < |xs| => (xs[k], ys[k]))
  }

  /** `store` lists `points` in the order `order`, and that order sorts by x. */
  ghost predicate Arranges(points: seq<(real, real)>, store: SampleArrays, order: seq<nat>)
  {
    IsPermutation(order, |points|) &&
    |store.xs| == |points| && |store.ys| == |points| && |order| == |points| &&
    (forall k :: 0 <= k < |order| ==> order[k] < |points|) &&
    (forall k :: 0 <= k < |order| ==> store.xs[k] == points[order[k]].0 && store.ys[k] == points[order[k]].1) &&
    NonDecreasing(store.xs)
  }

  /** The base constructor. The first element decides the shape: the pair test
      comes first, and only one branch fills the arrays. An element of the
      other shape would give `undefined` fields in the original; the model
      reports it as `MixedShapes`. An empty array makes the tuple test fail. */
  method LoadSamples(values: NumberValues) returns (r: Result<SampleArrays>, ghost order: seq<nat>)
    ensures r.Err? <==> |values| == 0 || (!AllPairs(values) && !AllTuples(values))
    ensures r == Err(EmptyInput) <==> |values| == 0
    ensures r == Err(MixedShapes) <==> |values| > 0 && !AllPairs(values) && !AllTuples(values)
    ensures r.Ok? ==> Arranges(Points(values), r.value, order)
  {
    if IsNumberPairArray(values) {
      var cast := AsPairs(values);
      if cast.None? {
        return Err(MixedShapes), [];
      }
      var pairs := cast.value;
      var indexes := SortNumberPairIndexes(pairs);
      var xs, ys := [], [];
      for i := 0 to |values|
        invariant |xs| == i && |ys| == i
        invariant forall k :: 0 <= k < i ==> xs[k] == pairs[indexes[k]].x && ys[k] == pairs[indexes[k]].y
      {
        xs := xs + [pairs[indexes[i]].x];
        ys := ys + [pairs[indexes[i]].y];
      }
      r, order := Ok(SampleArrays(xs, ys)), indexes;
    } else {
      var isTuple := IsNumberTupleArray(values);
      if isTuple.Err? {
        return isTuple.PropagateFailure(), [];
      }
      // A non-empty array whose first element is not a pair starts with a
      // tuple, so the `else if` test holds here.
      assert isTuple.value;
      var cast := AsTuples(values);
      if cast.None? {
        return Err(MixedShapes), [];
      }
      var tuples := cast.value;
      var indexes := SortNumberTupleIndexes(tuples);
      var xs, ys := [], [];
      for i := 0 to |values|
        invariant |xs| == i && |ys| == i
        invariant forall k :: 0 <= k < i ==> xs[k] == tuples[indexes[k]].0 && ys[k] == tuples[indexes[k]].1
      {
        xs := xs + [tuples[indexes[i]].0];
        ys := ys + [tuples[indexes[i]].1];
      }
      r, order := Ok(SampleArrays(xs, ys)), indexes;
    }
  }

  /** Pairs stay together: the store holds the same multiset of (x, y) points as the input. */
  lemma {:induction false} StoreKeepsPoints(points: seq<(real, real)>, store: SampleArrays, order: seq<nat>)
    requires Arranges(points, store, order)
    ensures multiset(Zip(store.xs, store.ys)) == multiset(points)
  {
    PermutedReadKeepsMultiset(order, points);
    assert Zip(store.xs, store.ys) == Apply(order, points);
  }

  /** No two points share an x value. */
  predicate DistinctX(points: seq<(real, real)>)
  {
    forall j, k :: 0 <= j < k < |points| ==> points[j].0 != points[k].0
  }

  predicate AscendingX(z: seq<(real, real)>)
  {
    forall j, k :: 0 <= j < k < |z| ==> z[j].0 < z[k].0
  }

  /** With distinct x values the store is strictly increasing in x. */
  lemma {:induction false} StoreStrictlyIncreasing(points: seq<(real, real)>, store: SampleArrays, order: seq<nat>)
    requires Arranges(points, store, order) && DistinctX(points)
    ensures StrictlyIncreasing(store.xs)
    ensures AscendingX(Zip(store.xs, store.ys))
  {
    PermutationFacts(order, |points|);
    forall j, k | 0 <= j < k < |store.xs|
      ensures store.xs[j] < store.xs[k]
    {
      var p, q := order[j], order[k];
      assert p != q;
      if p < q {
        assert points[p].0 != points[q].0;
      } else {
        assert points[q].0 != points[p].0;
      }
    }
  }

  /** In a list ascending in x, every member is at or below the last entry,
      and a member with the last entry's x is the last entry. */
  lemma {:induction false} LastIsLargest(z: seq<(real, real)>, p: (real, real))
    requires AscendingX(z) && p in multiset(z)
    ensures |z| > 0 && p.0 <= z[|z| - 1].0
    ensures p.0 == z[|z| - 1].0 ==> p == z[|z| - 1]
  {
    assert p in z;
    var i :| 0 <= i < |z| && z[i] == p;
    if i < |z| - 1 {
      assert z[i].0 < z[|z| - 1].0;
    }
  }

  /** Dropping the last entry of an ascending list removes exactly that entry
      from its multiset and keeps the rest ascending. */
  lemma DropLast(z: seq<(real, real)>)
    requires |z| > 0 && AscendingX(z)
    ensures multiset(z[..|z| - 1]) == multiset(z) - multiset{z[|z| - 1]}
    ensures AscendingX(z[..|z| - 1])
  {
    assert z == z[..|z| - 1] + [z[|z| - 1]];
  }

  /** Two point lists ascending in x with the same multiset are equal. */
  lemma {:induction false} AscendingUnique(z1: seq<(real, real)>, z2: seq<(real, real)>)
    requires multiset(z1) == multiset(z2)
    requires AscendingX(z1) && AscendingX(z2)
    ensures z1 == z2
    decreases |z1|
  {
    assert |multiset(z1)| == |z1| && |multiset(z2)| == |z2|;
    var n := |z1|;
    if n > 0 {
      var a := z1[n - 1];
      assert a in multiset(z1);
      assert z2[n - 1] in multiset(z2);
      LastIsLargest(z2, a);
      LastIsLargest(z1, z2[n - 1]);
      assert z2[n - 1] == a;
      DropLast(z1);
      DropLast(z2);
      AscendingUnique(z1[..n - 1], z2[..n - 1]);
      forall k | 0 <= k < n - 1
        ensures z1[k] == z2[k]
      {
        assert z1[k] == z1[..n - 1][k] && z2[k] == z2[..n - 1][k];
      }
    }
  }

  /** Inputs carrying the same samples, in either shape and in any order, give
      the same `xs`/`ys` when their x values are distinct. */
  lemma {:induction false} SameSamplesSameStore(
    v: NumberValues, w: NumberValues,
    s1: SampleArrays, o1: seq<nat>, s2: SampleArrays, o2: seq<nat>)
    requires multiset(Points(v)) == multiset(Points(w))
    requires DistinctX(Points(v)) && DistinctX(Points(w))
    requires Arranges(Points(v), s1, o1) && Arranges(Points(w), s2, o2)
    ensures s1 == s2
  {
    StoreKeepsPoints(Points(v), s1, o1);
    StoreKeepsPoints(Points(w), s2, o2);
    StoreStrictlyIncreasing(Points(v), s1, o1);
    StoreStrictlyIncreasing(Points(w), s2, o2);
    var z1, z2 := Zip(s1.xs, s1.ys), Zip(s2.xs, s2.ys);
    AscendingUnique(z1, z2);
    assert s1.xs == s2.xs by {
      forall k | 0 <= k < |s1.xs| ensures s1.xs[k] == s2.xs[k] { assert z1[k] == z2[k]; }
    }
    assert s1.ys == s2.ys by {
      forall k | 0 <= k < |s1.ys| ensures s1.ys[k] == s2.ys[k] { assert z1[k] == z2[k]; }
    }
  }
}
