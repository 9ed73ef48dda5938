/** Input sample shapes (packages/splines/src/lib/number-pair.ts). */
module NumberPair {
  import opened Wrappers

  /** The named-field sample `new NumberPair(x, y)`. */
  datatype NumberPair = NumberPair(x: real, y: real)

  /** The 2-tuple sample `[x, y]`: `.0` is `[0]`, `.1` is `[1]`. */
  type NumberTuple = (real, real)

  /** One element of a `NumberValues` array: either shape. */
  datatype Sample = Pair(pair: NumberPair) | Tuple(tuple: NumberTuple)

  type NumberValues = seq<Sample>

  /** The (x, y) numbers a sample carries, whatever its shape. */
  function Point(s: Sample): (real, real)
  {
    match s
    case Pair(p) => (p.x, p.y)
    case Tuple(t) => t
  }

  function Points(v: NumberValues): (r: seq<(real, real)>)
    ensures |r| == |v|
    ensures forall k :: 0 <= k < |v| ==> r[k] == Point(v[k])
  {
    seq(|v|, k requires 0 <= k < |v| => Point(v[k]))
  }

  /** The whole array has the shape of its first element (what the type
      guards `v is NumberPair[]` / `v is NumberTuple[]` take for granted). */
  predicate AllPairs(v: NumberValues)
  {
    forall k :: 0 <= k < |v| ==> v[k].Pair?
  }

  predicate AllTuples(v: NumberValues)
  {
    forall k :: 0 <= k < |v| ==> v[k].Tuple?
  }

  /** `isNumberPairArray`: `v[0]?.x !== undefined`. The optional chain makes
      the empty array give false; only the first element is inspected, so on
      an array of one shape the test names that shape. */
  function IsNumberPairArray(v: NumberValues): (b: bool)
    ensures b ==> |v| > 0
    ensures |v| > 0 && AllPairs(v) ==> b
    ensures AllTuples(v) ==> !b
  {
    |v| > 0 && v[0].Pair?
  }

  /** `isNumberTupleArray`: `v[0][0] !== undefined`, with no guard, so an empty
      array raises a TypeError. Only the first element is inspected. */
  function IsNumberTupleArray(v: NumberValues): (r: Result<bool>)
    ensures r.Err? <==> |v| == 0
    ensures r.Err? ==> r.error == EmptyInput
    ensures |v| > 0 && AllTuples(v) ==> r == Ok(true)
    ensures |v| > 0 && AllPairs(v) ==> r == Ok(false)
  {
    if |v| == 0 then Err(EmptyInput) else Ok(v[0].Tuple?)
  }

  /** The predicates look at `v[0]` only: arrays that agree on their first
      element get the same answers, whatever follows. */
  lemma {:induction false} OnlyFirstElementMatters(v: NumberValues, w: NumberValues)
    requires |v| > 0 && |w| > 0 && v[0] == w[0]
    ensures IsNumberPairArray(v) == IsNumberPairArray(w)
    ensures IsNumberTupleArray(v) == IsNumberTupleArray(w)
  {
  }

  /** A non-empty array is classified as exactly one of the two shapes. */
  lemma {:induction false} ShapesAreExclusive(v: NumberValues)
    requires |v| > 0
    ensures IsNumberPairArray(v) <==> !IsNumberTupleArray(v).value
  {
  }

  /** The narrowing cast `values as NumberPair[]`; None if some element is not a pair. */
  function AsPairs(v: NumberValues): (r: Option<seq<NumberPair>>)
    ensures r.Some? <==> AllPairs(v)
    ensures r.Some? ==> |r.value| == |v| && forall k :: 0 <= k < |v| ==> Pair(r.value[k]) == v[k]
  {
    if AllPairs(v) then Some(seq(|v|, k requires 0 <= k < |v| => v[k].pair)) else None
  }

  function AsTuples(v: NumberValues): (r: Option<seq<NumberTuple>>)
    ensures r.Some? <==> AllTuples(v)
    ensures r.Some? ==> |r.value| == |v| && forall k :: 0 <= k < |v| ==> Tuple(r.value[k]) == v[k]
  {
    if AllTuples(v) then Some(seq(|v|, k requires 0 <= k < |v| => v[k].tuple)) else None
  }
}
