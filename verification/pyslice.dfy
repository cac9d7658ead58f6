/**
  Python's slicing `s[b:e]` with step 1, for integer bounds: a negative bound
  counts from the end, and a bound that is still out of range after that is
  clamped to `[0, len(s)]`. A slice whose resolved begin is not below its
  resolved end is empty; slicing never fails.
*/
module PySlice {

  /** The position one slice bound denotes in a sequence of length `n`. */
  function Bound(i: int, n: nat): (r: nat)
    ensures r <= n
  {
    if i < 0 then (if i + n < 0 then 0 else i + n)
    else if i > n then n
    else i
  }

  function Min(a: int, b: int): int { if a <= b then a else b }

  function Max(a: int, b: int): int { if a <= b then b else a }

  /** `s[b:e]`: the contiguous run of `s` from the resolved begin up to the resolved end. */
  function Slice<T>(s: seq<T>, b: int, e: int): (r: seq<T>)
    ensures |r| == Max(0, Bound(e, |s|) - Bound(b, |s|))
    ensures Bound(b, |s|) + |r| <= |s|
    ensures forall k | 0 <= k < |r| :: r[k] == s[Bound(b, |s|) + k]
  {
    var lo, hi := Bound(b, |s|), Bound(e, |s|);
    if lo < hi then s[lo..hi] else []
  }

  /** With non-negative bounds only the clamping at the end applies. */
  lemma SliceNonNegative<T>(s: seq<T>, b: int, e: int)
    requires 0 <= b && 0 <= e
    ensures |Slice(s, b, e)| == Max(0, Min(e, |s|) - Min(b, |s|))
    ensures Slice(s, b, e) == if Min(b, |s|) < Min(e, |s|) then s[Min(b, |s|)..Min(e, |s|)] else []
  {
  }

  /** A negative bound within range denotes the position counted back from the end. */
  lemma SliceFromEnd<T>(s: seq<T>, b: int, e: int)
    requires -|s| <= b < 0
    ensures Slice(s, b, e) == Slice(s, |s| + b, e)
  {
  }

  /** Slicing a prefix again with the same bounds changes nothing. */
  lemma PrefixSliceIdempotent<T>(s: seq<T>, k: nat)
    ensures Slice(Slice(s, 0, k), 0, k) == Slice(s, 0, k)
  {
  }

  /** Bounds `0` and `len(s)` give the whole sequence back. */
  lemma WholeSlice<T>(s: seq<T>)
    ensures Slice(s, 0, |s|) == s
  {
  }

}
