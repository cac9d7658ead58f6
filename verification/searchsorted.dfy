/**
  `numpy.searchsorted(x, v)` with its default left side: the position at which
  `v` would be inserted into the ascending array `x` before every element equal
  to it, i.e. the first index whose element is not below `v`.
*/
module SearchSorted {

  /** The precondition numpy states for `searchsorted`: `x` ascends (ties allowed). */
  predicate NonDecreasing(x: seq<real>)
  {
    forall i, j | 0 <= i < j < |x| :: x[i] <= x[j]
  }

  /** Reference definition by a left-to-right walk: the first index whose element is `>= v`, or `|x|`. */
  function LowerBound(x: seq<real>, v: real): (r: nat)
    ensures r <= |x|
    ensures forall j | 0 <= j < r :: x[j] < v
    ensures r < |x| ==> x[r] >= v
  {
    if |x| == 0 || x[0] >= v then 0 else 1 + LowerBound(x[1..], v)
  }

  /** Index `i` splits `x` into a part below `v` and a part at or above `v`. */
  predicate Partitions(x: seq<real>, v: real, i: int)
  {
    && 0 <= i <= |x|
    && (forall j | 0 <= j < i :: x[j] < v)
    && (forall j | i <= j < |x| :: x[j] >= v)
  }

  /** On ascending data the lower bound splits the array at `v`. */
  lemma LowerBoundPartitions(x: seq<real>, v: real)
    requires NonDecreasing(x)
    ensures Partitions(x, v, LowerBound(x, v))
  {
  }

  /** At most one index splits the array at `v`, and it is the lower bound. */
  lemma PartitionIsLowerBound(x: seq<real>, v: real, i: int)
    requires Partitions(x, v, i)
    ensures i == LowerBound(x, v)
  {
    var r := LowerBound(x, v);
    assert r < |x| ==> x[r] >= v;
    assert i < |x| ==> x[i] >= v;
  }

  /** A larger key never maps to an earlier position on ascending data. */
  lemma {:induction false} LowerBoundMonotone(x: seq<real>, v: real, w: real)
    requires NonDecreasing(x)
    requires v <= w
    ensures LowerBound(x, v) <= LowerBound(x, w)
  {
    if |x| > 0 && x[0] < v {
      LowerBoundMonotone(x[1..], v, w);
    }
  }

  /**
    numpy's binary search for the left side. Whatever `x` holds, the result is
    a boundary: the element before it is below `v` and the element at it is
    not. On ascending data that makes it the lower bound.
  */
  method SearchSortedLeft(x: seq<real>, v: real) returns (i: nat)
    ensures i <= |x|
    ensures i == 0 || x[i - 1] < v
    ensures i == |x| || x[i] >= v
    ensures NonDecreasing(x) ==> i == LowerBound(x, v)
  {
    var lo, hi := 0, |x|;
    while lo < hi
      invariant 0 <= lo <= hi <= |x|
      invariant lo == 0 || x[lo - 1] < v
      invariant hi == |x| || x[hi] >= v
    {
      var mid := lo + (hi - lo) / 2;
      if x[mid] < v {
        lo := mid + 1;
      } else {
        hi := mid;
      }
    }
    i := lo;
    if NonDecreasing(x) {
      assert Partitions(x, v, i);
      PartitionIsLowerBound(x, v, i);
    }
  }

}
