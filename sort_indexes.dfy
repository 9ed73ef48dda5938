/** Index sort by x (libs/splines/src/lib/sort-indexes.ts). */
module SortIndexes {
  import opened NumberPair

  /** The identity index list `[0, 1, ..., n-1]`. */
  function Range(n: nat): (r: seq<nat>)
    ensures |r| == n
    ensures forall k :: 0 <= k < n ==> r[k] == k
  {
    seq(n, k requires 0 <= k < n => k as nat)
  }

  /** `r` holds each of the indices 0..n-1 exactly once. */
  ghost predicate IsPermutation(r: seq<nat>, n: nat)
  {
    multiset(r) == multiset(Range(n))
  }

  /** Every index of `r` addresses `key`, and the keys read along `r` never decrease. */
  predicate SortedBy(key: seq<real>, r: seq<nat>)
  {
    (forall k :: 0 <= k < |r| ==> r[k] < |key|) &&
    (forall j, k :: 0 <= j < k < |r| ==> key[r[j]] <= key[r[k]])
  }

  /** `g` read through the index list `r`. */
  function Apply<T>(r: seq<nat>, g: seq<T>): (s: seq<T>)
    requires forall k :: 0 <= k < |r| ==> r[k] < |g|
    ensures |s| == |r|
    ensures forall k :: 0 <= k < |r| ==> s[k] == g[r[k]]
  {
    seq(|r|, k requires 0 <= k < |r| => g[r[k]])
  }

  /** Inserts index `v` after every index whose key is not larger than its own. */
  method InsertByKey(r: seq<nat>, v: nat, key: seq<real>) returns (s: seq<nat>)
    requires SortedBy(key, r) && v < |key|
    ensures SortedBy(key, s)
    ensures multiset(s) == multiset(r) + multiset{v}
  {
    var p := |r|;
    while p > 0 && key[r[p - 1]] > key[v]
      invariant 0 <= p <= |r|
      invariant forall k :: p <= k < |r| ==> key[r[k]] > key[v]
    {
      p := p - 1;
    }
    s := r[..p] + [v] + r[p..];
    InsertionKeepsSorted(r, p, v, key);
    InsertionAddsOne(r, p, v);
  }

  lemma {:induction false} InsertionAddsOne(r: seq<nat>, p: nat, v: nat)
    requires p <= |r|
    ensures multiset(r[..p] + [v] + r[p..]) == multiset(r) + multiset{v}
  {
    assert r == r[..p] + r[p..];
  }

  lemma {:induction false} InsertionKeepsSorted(r: seq<nat>, p: nat, v: nat, key: seq<real>)
    requires SortedBy(key, r) && v < |key| && p <= |r|
    requires p > 0 ==> key[r[p - 1]] <= key[v]
    requires forall k :: p <= k < |r| ==> key[r[k]] > key[v]
    ensures SortedBy(key, r[..p] + [v] + r[p..])
  {
    var s := r[..p] + [v] + r[p..];
    assert forall k :: 0 <= k < p ==> s[k] == r[k];
    assert forall k :: p < k < |s| ==> s[k] == r[k - 1];
    forall k | 0 <= k < p
      ensures key[r[k]] <= key[v]
    {
      assert key[r[k]] <= key[r[p - 1]];
    }
  }

  /** `indexes.sort((a, b) => key[a] < key[b] ? -1 : 1)`. The engine's sort
      algorithm is not part of the model: this is an insertion sort, and only
      its result (a sorted rearrangement of `indexes`) is promised. */
  method SortByKey(indexes: seq<nat>, key: seq<real>) returns (r: seq<nat>)
    requires forall k :: 0 <= k < |indexes| ==> indexes[k] < |key|
    ensures multiset(r) == multiset(indexes)
    ensures SortedBy(key, r)
  {
    r := [];
    for i := 0 to |indexes|
      invariant multiset(r) == multiset(indexes[..i])
      invariant SortedBy(key, r)
    {
      r := InsertByKey(r, indexes[i], key);
      assert indexes[..i + 1] == indexes[..i] + [indexes[i]];
    }
    assert indexes[..|indexes|] == indexes;
  }

  function PairKeys(values: seq<NumberPair>): (key: seq<real>)
    ensures |key| == |values|
    ensures forall k :: 0 <= k < |values| ==> key[k] == values[k].x
  {
    seq(|values|, k requires 0 <= k < |values| => values[k].x)
  }

  function TupleKeys(values: seq<NumberTuple>): (key: seq<real>)
    ensures |key| == |values|
    ensures forall k :: 0 <= k < |values| ==> key[k] == values[k].0
  {
    seq(|values|, k requires 0 <= k < |values| => values[k].0)
  }

  /** Builds the identity index list with a push loop and sorts it by `x`. */
  method SortNumberPairIndexes(values: seq<NumberPair>) returns (indexes: seq<nat>)
    ensures IsPermutation(indexes, |values|) && |indexes| == |values|
    ensures forall k :: 0 <= k < |indexes| ==> indexes[k] < |values|
    ensures forall j, k :: 0 <= j < k < |indexes| ==> values[indexes[j]].x <= values[indexes[k]].x
  {
    indexes := [];
    for i := 0 to |values|
      invariant indexes == Range(i)
    {
      indexes := indexes + [i];
    }
    indexes := SortByKey(indexes, PairKeys(values));
    PermutationFacts(indexes, |values|);
  }

  /** The same for tuples, with key `[0]`. */
  method SortNumberTupleIndexes(values: seq<NumberTuple>) returns (indexes: seq<nat>)
    ensures IsPermutation(indexes, |values|) && |indexes| == |values|
    ensures forall k :: 0 <= k < |indexes| ==> indexes[k] < |values|
    ensures forall j, k :: 0 <= j < k < |indexes| ==> values[indexes[j]].0 <= values[indexes[k]].0
  {
    indexes := [];
    for i := 0 to |values|
      invariant indexes == Range(i)
    {
      indexes := indexes + [i];
    }
    indexes := SortByKey(indexes, TupleKeys(values));
    PermutationFacts(indexes, |values|);
  }

  // ---------------------------------------------------------------------
  // What a permutation of 0..n-1 is

  lemma {:induction false} RangeMultiplicity(n: nat, v: nat)
    ensures multiset(Range(n))[v] == if v < n then 1 else 0
  {
    if n > 0 {
      assert Range(n) == Range(n - 1) + [n - 1];
      RangeMultiplicity(n - 1, v);
    }
  }

  /** A permutation has length n, holds only indices below n, and holds none twice. */
  lemma {:induction false} PermutationFacts(r: seq<nat>, n: nat)
    requires IsPermutation(r, n)
    ensures |r| == n
    ensures forall k :: 0 <= k < |r| ==> r[k] < n
    ensures forall j, k :: 0 <= j < k < |r| ==> r[j] != r[k]
  {
    assert |multiset(r)| == |r|;
    assert |multiset(Range(n))| == n;
    forall k | 0 <= k < |r|
      ensures r[k] < n
    {
      assert r[k] in multiset(r);
      RangeMultiplicity(n, r[k]);
    }
    forall j, k | 0 <= j < k < |r|
      ensures r[j] != r[k]
    {
      if r[j] == r[k] {
        var v := r[k];
        assert r == r[..k] + [v] + r[k + 1..];
        assert r[j] in multiset(r[..k]);
        assert multiset(r)[v] == multiset(r[..k])[v] + 1 + multiset(r[k + 1..])[v];
        RangeMultiplicity(n, v);
        assert false;
      }
    }
  }

  /** Empty input sorts to `[]`, a single sample to `[0]`. */
  lemma {:induction false} SmallPermutations(r: seq<nat>, n: nat)
    requires IsPermutation(r, n) && n <= 1
    ensures n == 0 ==> r == []
    ensures n == 1 ==> r == [0]
  {
    PermutationFacts(r, n);
  }

  lemma {:induction false} AscendingBoundedIsIdentity(r: seq<int>, n: nat)
    requires |r| == n
    requires forall k :: 0 <= k < n ==> 0 <= r[k] < n
    requires forall k :: 0 <= k < n - 1 ==> r[k] < r[k + 1]
    ensures forall k :: 0 <= k < n ==> r[k] == k
  {
    forall k | 0 <= k < n
      ensures r[k] == k
    {
      AscendingLowerBound(r, k);
      AscendingUpperBound(r, n, k);
    }
  }

  lemma {:induction false} AscendingLowerBound(r: seq<int>, k: nat)
    requires k < |r|
    requires forall i :: 0 <= i < |r| ==> 0 <= r[i]
    requires forall i :: 0 <= i < |r| - 1 ==> r[i] < r[i + 1]
    ensures k <= r[k]
  {
    if k > 0 {
      AscendingLowerBound(r, k - 1);
    }
  }

  lemma {:induction false} AscendingUpperBound(r: seq<int>, n: nat, k: nat)
    requires |r| == n && k < n
    requires forall i :: 0 <= i < n ==> r[i] < n
    requires forall i :: 0 <= i < n - 1 ==> r[i] < r[i + 1]
    ensures r[k] <= k
    decreases n - k
  {
    if k < n - 1 {
      AscendingUpperBound(r, n, k + 1);
    }
  }

  predicate StrictlyIncreasing(s: seq<real>)
  {
    forall j, k :: 0 <= j < k < |s| ==> s[j] < s[k]
  }

  predicate StrictlyDecreasing(s: seq<real>)
  {
    forall j, k :: 0 <= j < k < |s| ==> s[j] > s[k]
  }

  /** Already sorted, distinct keys: the sort returns the identity. */
  lemma {:induction false} SortedInputGivesIdentity(key: seq<real>, r: seq<nat>)
    requires IsPermutation(r, |key|) && SortedBy(key, r)
    requires StrictlyIncreasing(key)
    ensures r == Range(|key|)
  {
    var n := |key|;
    PermutationFacts(r, n);
    forall k | 0 <= k < n - 1
      ensures r[k] < r[k + 1]
    {
      assert key[r[k]] <= key[r[k + 1]];
      assert r[k] != r[k + 1];
    }
    AscendingBoundedIsIdentity(r, n);
  }

  /** Strictly reversed keys: the sort returns the reversed index list. */
  lemma {:induction false} ReversedInputGivesReversal(key: seq<real>, r: seq<nat>)
    requires IsPermutation(r, |key|) && SortedBy(key, r)
    requires StrictlyDecreasing(key)
    ensures |r| == |key|
    ensures forall k :: 0 <= k < |r| ==> r[k] == |key| - 1 - k
  {
    var n := |key|;
    PermutationFacts(r, n);
    var s := seq(n, k requires 0 <= k < n => n - 1 - r[k]);
    forall k | 0 <= k < n - 1
      ensures s[k] < s[k + 1]
    {
      assert key[r[k]] <= key[r[k + 1]];
      assert r[k] != r[k + 1];
    }
    AscendingBoundedIsIdentity(s, n);
    forall k | 0 <= k < n
      ensures r[k] == n - 1 - k
    {
      assert s[k] == k;
    }
  }

  // ---------------------------------------------------------------------
  // Reading a sequence through a permutation keeps its multiset

  /** Taking index j out of `r` takes `g[r[j]]` out of what `r` reads. */
  lemma {:induction false} ApplyRemove<T>(r: seq<nat>, j: nat, g: seq<T>)
    requires j < |r|
    requires forall k :: 0 <= k < |r| ==> r[k] < |g|
    ensures multiset(Apply(r, g)) == multiset(Apply(Without(r, j), g)) + multiset{g[r[j]]}
  {
    var a, b := Apply(r[..j], g), Apply(r[j + 1..], g);
    assert Apply(r, g) == a + [g[r[j]]] + b;
    assert Apply(Without(r, j), g) == a + b;
  }

  /** `r` with its j-th entry taken out. */
  function Without(r: seq<nat>, j: nat): (s: seq<nat>)
    requires j < |r|
    ensures |s| == |r| - 1
    ensures forall k :: 0 <= k < |s| ==> s[k] == if k < j then r[k] else r[k + 1]
  {
    r[..j] + r[j + 1..]
  }

  lemma {:induction false} RemoveAt(r: seq<nat>, j: nat)
    requires j < |r|
    ensures multiset(Without(r, j)) == multiset(r) - multiset{r[j]}
  {
    assert r == r[..j] + [r[j]] + r[j + 1..];
    assert multiset(r) == multiset(r[..j]) + multiset{r[j]} + multiset(r[j + 1..]);
  }

  lemma {:induction false} ApplyRespectsMultiset<T>(r1: seq<nat>, r2: seq<nat>, g: seq<T>)
    requires multiset(r1) == multiset(r2)
    requires forall k :: 0 <= k < |r1| ==> r1[k] < |g|
    requires forall k :: 0 <= k < |r2| ==> r2[k] < |g|
    ensures multiset(Apply(r1, g)) == multiset(Apply(r2, g))
    decreases |r1|
  {
    assert |multiset(r1)| == |r1| && |multiset(r2)| == |r2|;
    if |r1| > 0 {
      var v := r1[0];
      assert v in multiset(r2);
      var j :| 0 <= j < |r2| && r2[j] == v;
      RemoveAt(r2, j);
      RemoveAt(r1, 0);
      ApplyRespectsMultiset(Without(r1, 0), Without(r2, j), g);
      ApplyRemove(r2, j, g);
      ApplyRemove(r1, 0, g);
      assert Apply(r1, g)[0] == g[v];
    }
  }

  /** Reading `g` through a permutation of its indices rearranges it: the
      multiset of its elements is unchanged. */
  lemma {:induction false} PermutedReadKeepsMultiset<T>(r: seq<nat>, g: seq<T>)
    requires IsPermutation(r, |g|)
    ensures forall k :: 0 <= k < |r| ==> r[k] < |g|
    ensures multiset(Apply(r, g)) == multiset(g)
  {
    PermutationFacts(r, |g|);
    ApplyRespectsMultiset(r, Range(|g|), g);
    assert Apply(Range(|g|), g) == g;
  }
}
