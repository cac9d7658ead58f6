/**
  The scanning loop of Python's `re.findall` for a pattern that never matches
  the empty string. It is independent of the pattern, which is given as a
  table with one entry per position of the text: the end of the match that
  starts there, or `None`. The scan tries every position from left to right,
  reports each match, resumes at the match's end, and moves on by one
  character where nothing matches.
*/
module FindAll {

  import opened Wrappers

  /** Every match in the table starts where it is listed, is non-empty and ends inside the text. */
  predicate ValidTable(table: seq<Option<nat>>)
  {
    forall q | 0 <= q < |table| :: table[q].Some? ==> q < table[q].value <= |table|
  }

  /** A match reported by findall: the half-open span `[start, end)` of the text. */
  datatype Span = Span(start: nat, end: nat)

  /** The spans findall reports from position `p` on, left to right. */
  function Scan(table: seq<Option<nat>>, p: nat): (spans: seq<Span>)
    requires ValidTable(table)
    requires p <= |table|
    ensures forall k | 0 <= k < |spans| :: p <= spans[k].start < spans[k].end <= |table|
    ensures forall i, j | 0 <= i < j < |spans| :: spans[i].end <= spans[j].start
    ensures |spans| <= |table| - p
    decreases |table| - p
  {
    if p == |table| then []
    else
      match table[p]
      case Some(e) => [Span(p, e)] + Scan(table, e)
      case None => Scan(table, p + 1)
  }

  /** No span of `spans` covers position `q`. */
  predicate Uncovered(spans: seq<Span>, q: nat)
  {
    forall k | 0 <= k < |spans| :: !(spans[k].start <= q < spans[k].end)
  }

  /** The `k`-th span Scan reports from `p` is the table's match at its start. */
  lemma {:induction false} ScanSpanIsMatch(table: seq<Option<nat>>, p: nat, k: nat)
    requires ValidTable(table)
    requires p <= |table|
    requires k < |Scan(table, p)|
    ensures table[Scan(table, p)[k].start] == Some(Scan(table, p)[k].end)
    decreases |table| - p
  {
    if table[p].Some? {
      var e := table[p].value;
      assert Scan(table, p) == [Span(p, e)] + Scan(table, e);
      if k > 0 {
        ScanSpanIsMatch(table, e, k - 1);
      }
    } else {
      ScanSpanIsMatch(table, p + 1, k);
    }
  }

  /** A position from `p` on that no reported span covers starts no match. */
  lemma {:induction false} ScanSkipsOnlyNonMatches(table: seq<Option<nat>>, p: nat, q: nat)
    requires ValidTable(table)
    requires p <= q < |table|
    requires Uncovered(Scan(table, p), q)
    ensures table[q].None?
    decreases |table| - p
  {
    var spans := Scan(table, p);
    if table[p].Some? {
      var e := table[p].value;
      var tail := Scan(table, e);
      assert spans == [Span(p, e)] + tail;
      assert !(spans[0].start <= q < spans[0].end);
      forall k | 0 <= k < |tail|
        ensures !(tail[k].start <= q < tail[k].end)
      {
        assert tail[k] == spans[k + 1];
      }
      ScanSkipsOnlyNonMatches(table, e, q);
    } else if p < q {
      assert spans == Scan(table, p + 1);
      ScanSkipsOnlyNonMatches(table, p + 1, q);
    }
  }

  /**
    findall semantics of Scan: every reported span is the match at its start,
    and no position from `p` on that no span covers starts a match, so no
    match was skipped.
  */
  lemma ScanIsFindAll(table: seq<Option<nat>>, p: nat)
    requires ValidTable(table)
    requires p <= |table|
    ensures var spans := Scan(table, p);
      && (forall k | 0 <= k < |spans| :: table[spans[k].start] == Some(spans[k].end))
      && (forall q | p <= q < |table| && Uncovered(spans, q) :: table[q].None?)
  {
    forall k | 0 <= k < |Scan(table, p)|
      ensures table[Scan(table, p)[k].start] == Some(Scan(table, p)[k].end)
    {
      ScanSpanIsMatch(table, p, k);
    }
    forall q | p <= q < |table| && Uncovered(Scan(table, p), q)
      ensures table[q].None?
    {
      ScanSkipsOnlyNonMatches(table, p, q);
    }
  }

}
