/** The element `Collections.max` and `Collections.min` return under a
    comparator: the candidate starts at the first element and is replaced
    only by a strictly better one, so ties go to the earliest position. */
module Extremum {
  import opened Optional

  /** `a` beats `b`: larger when maximising, smaller when minimising. */
  predicate Better(a: real, b: real, max: bool)
  {
    if max then a > b else a < b
  }

  /** Among the first `n` values, position `i` holds a best one and every
      earlier value is strictly worse. */
  predicate IsFirstBestOf(xs: seq<real>, n: int, max: bool, i: int)
    requires n <= |xs|
  {
    && 0 <= i < n
    && (forall j :: 0 <= j < n ==> !Better(xs[j], xs[i], max))
    && (forall j :: 0 <= j < i ==> Better(xs[i], xs[j], max))
  }

  /** Position `i` is the first extremum of `xs`. */
  predicate IsFirstBest(xs: seq<real>, max: bool, i: int)
  {
    IsFirstBestOf(xs, |xs|, max, i)
  }

  /** The scan of `Collections.max`/`min`: `cand` is the candidate after
      looking at the first `k` values. */
  function Scan(xs: seq<real>, max: bool, cand: nat, k: nat): (r: nat)
    requires cand < k <= |xs| && IsFirstBestOf(xs, k, max, cand)
    ensures IsFirstBest(xs, max, r)
    decreases |xs| - k
  {
    if k == |xs| then cand
    else if Better(xs[k], xs[cand], max) then
      assert forall j :: 0 <= j < k ==> Better(xs[k], xs[j], max) by {
        forall j | 0 <= j < k
          ensures Better(xs[k], xs[j], max)
        {
          assert !Better(xs[j], xs[cand], max);
        }
      }
      Scan(xs, max, k, k + 1)
    else
      Scan(xs, max, cand, k + 1)
  }

  /** The position the library call returns for a non-empty list; an empty
      list throws `NoSuchElementException` (`None`). */
  function FirstBest(xs: seq<real>, max: bool): (r: Option<nat>)
    ensures r.None? <==> |xs| == 0
    ensures r.Some? ==> IsFirstBest(xs, max, r.value)
  {
    if |xs| == 0 then None else Some(Scan(xs, max, 0, 1))
  }

  /** At most one position is the first extremum, so the contract of
      `FirstBest` determines its result. */
  lemma FirstBestUnique(xs: seq<real>, max: bool, i: int, j: int)
    requires IsFirstBest(xs, max, i) && IsFirstBest(xs, max, j)
    ensures i == j
  {
    // neither value beats the other, so neither position can come first
    assert !Better(xs[i], xs[j], max) && !Better(xs[j], xs[i], max);
  }
}
