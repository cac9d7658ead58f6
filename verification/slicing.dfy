/**
  The slice the user picks after loading (`InitialWindow.sliceData`): the pair
  of parallel arrays `(x, y)` is cut either by index or by x-value, and the same
  window is taken from both arrays.
*/
module Slicing {

  import opened PySlice
  import opened SearchSorted

  /** The `(x, y)` pair of arrays handed from the loader to `sliceData`. */
  datatype Samples = Samples(xs: seq<real>, ys: seq<real>)

  /** Value of the "By Index" radio button; every other value selects by x-value. */
  const ByIndex: int := 0

  /** Python's `int(f)` on a finite float: truncation toward zero. */
  function Trunc(r: real): (t: int)
    ensures 0.0 <= r ==> 0 <= t && t as real <= r < t as real + 1.0
    ensures r < 0.0 ==> t <= 0 && t as real - 1.0 < r <= t as real
  {
    if r >= 0.0 then r.Floor else -((-r).Floor)
  }

  /** `(x[b:e], y[b:e])`: the same Python slice of both arrays. */
  function Window(data: Samples, b: int, e: int): (r: Samples)
    ensures |data.xs| == |data.ys| ==> |r.xs| == |r.ys|
  {
    Samples(Slice(data.xs, b, e), Slice(data.ys, b, e))
  }

  /**
    The integer bounds `sliceData` slices with: the truncated entries in index
    mode, the left-side insertion positions of the entries in value mode.
  */
  function Bounds(data: Samples, mode: int, begin: real, end: real): (int, int)
  {
    if mode == ByIndex then (Trunc(begin), Trunc(end))
    else (LowerBound(data.xs, begin), LowerBound(data.xs, end))
  }

  /** Specification of `sliceData`: the window of `data` between the resolved bounds. */
  function Sliced(data: Samples, mode: int, begin: real, end: real): (r: Samples)
    ensures |r.xs| <= |data.xs| && |r.ys| <= |data.ys|
    ensures |data.xs| == |data.ys| ==> |r.xs| == |r.ys|
  {
    var (b, e) := Bounds(data, mode, begin, end);
    Window(data, b, e)
  }

  /**
    `sliceData` as it runs: index mode slices by the truncated entries, value
    mode first asks the binary search for both positions.
  */
  method SliceData(data: Samples, mode: int, begin: real, end: real) returns (r: Samples)
    ensures mode == ByIndex || NonDecreasing(data.xs) ==> r == Sliced(data, mode, begin, end)
    ensures |r.xs| <= |data.xs| && |r.ys| <= |data.ys|
  {
    if mode == ByIndex {
      r := Window(data, Trunc(begin), Trunc(end));
    } else {
      var newBegin := SearchSortedLeft(data.xs, begin);
      var newEnd := SearchSortedLeft(data.xs, end);
      r := Window(data, newBegin, newEnd);
    }
  }

  /** The samples of `data` whose x lies in `[lo, hi)`, each with its own y, in the original order. */
  function InRange(data: Samples, lo: real, hi: real): (r: Samples)
    requires |data.xs| == |data.ys|
    ensures |r.xs| == |r.ys| <= |data.xs|
    ensures forall k | 0 <= k < |r.xs| :: lo <= r.xs[k] < hi
    decreases |data.xs|
  {
    if |data.xs| == 0 then Samples([], [])
    else
      var rest := InRange(Samples(data.xs[1..], data.ys[1..]), lo, hi);
      if lo <= data.xs[0] < hi then Samples([data.xs[0]] + rest.xs, [data.ys[0]] + rest.ys)
      else rest
  }

  /**
    Whatever the mode, the result is one contiguous run of the input that
    starts at the same position in `x` and in `y`, so paired samples stay paired.
  */
  lemma SlicedKeepsPairs(data: Samples, mode: int, begin: real, end: real)
    requires |data.xs| == |data.ys|
    ensures var r, s := Sliced(data, mode, begin, end), Bound(Bounds(data, mode, begin, end).0, |data.xs|);
      && |r.xs| == |r.ys|
      && s + |r.xs| <= |data.xs|
      && forall k | 0 <= k < |r.xs| :: r.xs[k] == data.xs[s + k] && r.ys[k] == data.ys[s + k]
  {
  }

  /**
    In index mode with entries that truncate to non-negative positions `b`
    and `e`, the result holds `max(0, min(e, n) - min(b, n))` samples:
    bounds past the end, or `b >= e`, shorten the result instead of failing.
  */
  lemma IndexSliceLength(data: Samples, begin: real, end: real)
    requires begin > -1.0 && end > -1.0
    ensures var b, e, n := Trunc(begin), Trunc(end), |data.xs|;
      |Sliced(data, ByIndex, begin, end).xs| == Max(0, Min(e, n) - Min(b, n))
  {
    SliceNonNegative(data.xs, Trunc(begin), Trunc(end));
  }

  /** On ascending x the value bounds resolve in order: `begin <= end` gives `newBegin <= newEnd`. */
  lemma ValueBoundsOrdered(data: Samples, mode: int, begin: real, end: real)
    requires mode != ByIndex
    requires NonDecreasing(data.xs)
    requires begin <= end
    ensures Bounds(data, mode, begin, end).0 <= Bounds(data, mode, begin, end).1
  {
    LowerBoundMonotone(data.xs, begin, end);
  }

  /**
    The in-range form of `Window`: `(x[b:e], y[b:e])` for positions already
    inside the arrays, written with Dafny's own slices so that the induction
    below can take it apart.
  */
  function Run(data: Samples, b: nat, e: nat): (r: Samples)
    requires b <= |data.xs| && b <= |data.ys| && e <= |data.xs| && e <= |data.ys|
    ensures |r.xs| == |r.ys| == if b < e then e - b else 0
    ensures r == Window(data, b, e)
  {
    if b < e then Samples(data.xs[b..e], data.ys[b..e]) else Samples([], [])
  }

  /** On ascending x, the window between the two lower bounds is exactly the samples in `[lo, hi)`. */
  lemma {:induction false} InRangeIsWindow(data: Samples, lo: real, hi: real)
    requires |data.xs| == |data.ys|
    requires NonDecreasing(data.xs)
    ensures InRange(data, lo, hi) == Run(data, LowerBound(data.xs, lo), LowerBound(data.xs, hi))
    decreases |data.xs|
  {
    if hi < lo {
      LowerBoundMonotone(data.xs, hi, lo);
      InRangeEmpty(data, lo, hi);
    } else if |data.xs| > 0 {
      var rest := Samples(data.xs[1..], data.ys[1..]);
      assert NonDecreasing(rest.xs);
      InRangeIsWindow(rest, lo, hi);
      if lo <= data.xs[0] < hi {
        WindowKeepsHead(data, lo, hi);
      } else if data.xs[0] < lo {
        WindowSkipsLowHead(data, lo, hi);
      } else {
        WindowStopsAtHighHead(data, lo, hi);
      }
    }
  }

  /** A range whose upper end lies below its lower end selects nothing. */
  lemma {:induction false} InRangeEmpty(data: Samples, lo: real, hi: real)
    requires |data.xs| == |data.ys|
    requires hi < lo
    ensures InRange(data, lo, hi) == Samples([], [])
    decreases |data.xs|
  {
    if |data.xs| > 0 {
      InRangeEmpty(Samples(data.xs[1..], data.ys[1..]), lo, hi);
    }
  }

  /** Induction step of InRangeIsWindow when the first sample lies in `[lo, hi)`. */
  lemma WindowKeepsHead(data: Samples, lo: real, hi: real)
    requires |data.xs| == |data.ys| > 0
    requires |data.xs| > 1 ==> data.xs[0] <= data.xs[1]
    requires lo <= data.xs[0] < hi
    requires var rest := Samples(data.xs[1..], data.ys[1..]);
      InRange(rest, lo, hi) == Run(rest, LowerBound(rest.xs, lo), LowerBound(rest.xs, hi))
    ensures InRange(data, lo, hi) == Run(data, LowerBound(data.xs, lo), LowerBound(data.xs, hi))
  {
    var rest := Samples(data.xs[1..], data.ys[1..]);
    var e' := LowerBound(rest.xs, hi);
    assert |rest.xs| > 0 ==> rest.xs[0] == data.xs[1];
    assert LowerBound(rest.xs, lo) == 0;
    assert LowerBound(data.xs, lo) == 0 && LowerBound(data.xs, hi) == 1 + e';
    RunCons(data, e');
  }

  /** A run from the start is the first sample followed by the run of the tails. */
  lemma RunCons(data: Samples, e: nat)
    requires |data.xs| == |data.ys| > 0
    requires e < |data.xs|
    ensures var r := Run(Samples(data.xs[1..], data.ys[1..]), 0, e);
      Run(data, 0, 1 + e) == Samples([data.xs[0]] + r.xs, [data.ys[0]] + r.ys)
  {
    assert data.xs[0..1 + e] == [data.xs[0]] + data.xs[1..][0..e];
    assert data.ys[0..1 + e] == [data.ys[0]] + data.ys[1..][0..e];
  }

  /** Induction step of InRangeIsWindow when the first sample lies below `lo <= hi`. */
  lemma WindowSkipsLowHead(data: Samples, lo: real, hi: real)
    requires |data.xs| == |data.ys| > 0
    requires data.xs[0] < lo <= hi
    requires var rest := Samples(data.xs[1..], data.ys[1..]);
      InRange(rest, lo, hi) == Run(rest, LowerBound(rest.xs, lo), LowerBound(rest.xs, hi))
    ensures InRange(data, lo, hi) == Run(data, LowerBound(data.xs, lo), LowerBound(data.xs, hi))
  {
    var rest := Samples(data.xs[1..], data.ys[1..]);
    var b', e' := LowerBound(rest.xs, lo), LowerBound(rest.xs, hi);
    assert InRange(data, lo, hi) == InRange(rest, lo, hi);
    assert LowerBound(data.xs, lo) == 1 + b' && LowerBound(data.xs, hi) == 1 + e';
    RunShift(data, b', e');
  }

  /** A run of the tails is the run one position further on in the whole arrays. */
  lemma RunShift(data: Samples, b: nat, e: nat)
    requires |data.xs| == |data.ys| > 0
    requires b < |data.xs| && e < |data.xs|
    ensures Run(data, 1 + b, 1 + e) == Run(Samples(data.xs[1..], data.ys[1..]), b, e)
  {
    if b < e {
      SliceOfTail(data.xs, b, e);
      SliceOfTail(data.ys, b, e);
    }
  }

  /** Slicing the tail at `[b, e)` is slicing the whole at `[1 + b, 1 + e)`. */
  lemma SliceOfTail(s: seq<real>, b: nat, e: nat)
    requires b <= e < |s|
    ensures s[1..][b..e] == s[1 + b..1 + e]
  {
    assert |s[1..][b..e]| == |s[1 + b..1 + e]|;
    forall i | 0 <= i < e - b
      ensures s[1..][b..e][i] == s[1 + b..1 + e][i]
    {
      assert s[1..][b..e][i] == s[1 + b + i];
    }
  }

  /** Induction step of InRangeIsWindow when the first sample is at or above `hi >= lo`. */
  lemma WindowStopsAtHighHead(data: Samples, lo: real, hi: real)
    requires |data.xs| == |data.ys| > 0
    requires |data.xs| > 1 ==> data.xs[0] <= data.xs[1]
    requires lo <= hi <= data.xs[0]
    requires var rest := Samples(data.xs[1..], data.ys[1..]);
      InRange(rest, lo, hi) == Run(rest, LowerBound(rest.xs, lo), LowerBound(rest.xs, hi))
    ensures InRange(data, lo, hi) == Run(data, LowerBound(data.xs, lo), LowerBound(data.xs, hi))
  {
    var rest := Samples(data.xs[1..], data.ys[1..]);
    assert InRange(data, lo, hi) == InRange(rest, lo, hi);
    assert |rest.xs| > 0 ==> rest.xs[0] == data.xs[1];
    assert LowerBound(rest.xs, lo) == 0 && LowerBound(rest.xs, hi) == 0;
  }

  /**
    In value mode on ascending x the result holds exactly the samples with
    `begin <= x < end`, in their original order and with their own y.
  */
  lemma ValueSliceSelectsRange(data: Samples, mode: int, begin: real, end: real)
    requires mode != ByIndex
    requires |data.xs| == |data.ys|
    requires NonDecreasing(data.xs)
    ensures Sliced(data, mode, begin, end) == InRange(data, begin, end)
  {
    InRangeIsWindow(data, begin, end);
  }

  /** The entries `load` pre-fills: start `"0"` and end `str(len(x))`. */
  function DefaultEntries(data: Samples): (r: (real, real))
    ensures Trunc(r.0) == 0 && Trunc(r.1) == |data.xs|
  {
    (0.0, |data.xs| as real)
  }

  /** With the default entries and the default radio button the whole dataset comes back. */
  lemma DefaultEntriesKeepAll(data: Samples)
    requires |data.xs| == |data.ys|
    ensures Sliced(data, ByIndex, DefaultEntries(data).0, DefaultEntries(data).1) == data
  {
    var n := |data.xs|;
    assert Trunc(n as real) == n;
    WholeSlice(data.xs);
    WholeSlice(data.ys);
  }

  /** Taking the first `k` samples twice is the same as taking them once. */
  lemma IndexPrefixIdempotent(data: Samples, k: nat)
    ensures var once := Sliced(data, ByIndex, 0.0, k as real);
      Sliced(once, ByIndex, 0.0, k as real) == once
  {
    assert Trunc(k as real) == k;
    PrefixSliceIdempotent(data.xs, k);
    PrefixSliceIdempotent(data.ys, k);
  }

  /**
    When every x equals its own index, selecting by x-values `b` and `e`
    selects the same samples as selecting by indices `b` and `e`.
  */
  lemma ValueAgreesWithIndex(data: Samples, mode: int, b: nat, e: nat)
    requires mode != ByIndex
    requires forall j | 0 <= j < |data.xs| :: data.xs[j] == j as real
    requires b <= |data.xs| && e <= |data.xs|
    ensures Sliced(data, mode, b as real, e as real) == Sliced(data, ByIndex, b as real, e as real)
  {
    assert Partitions(data.xs, b as real, b);
    assert Partitions(data.xs, e as real, e);
    PartitionIsLowerBound(data.xs, b as real, b);
    PartitionIsLowerBound(data.xs, e as real, e);
    assert Trunc(b as real) == b && Trunc(e as real) == e;
  }

}
