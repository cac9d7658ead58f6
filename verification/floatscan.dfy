/**
  `re.findall` with the float-literal pattern
      [+-]?(\d+(\.\d*)?|\.\d+)([eE][+-]?\d+)?
  as `loadRawData` uses it to count the columns of a line: the match of the
  pattern at one position, the language it matches, and the findall scan of
  a line with it. Only the spans of the matches are modelled (findall returns
  group tuples here, never the matched text itself).
*/
module FloatScan {

  import opened Wrappers
  import opened FindAll

  predicate IsDigit(c: char) { '0' <= c <= '9' }

  predicate IsSign(c: char) { c == '+' || c == '-' }

  predicate IsExpMark(c: char) { c == 'e' || c == 'E' }

  predicate AllDigits(t: string)
  {
    forall i | 0 <= i < |t| :: IsDigit(t[i])
  }

  // ---- The language of the pattern, stated declaratively ----

  /** `\d+(\.\d*)?|\.\d+`: digits and at most one point, with at least one digit. */
  predicate IsMantissa(t: string)
  {
    && (forall i | 0 <= i < |t| :: IsDigit(t[i]) || t[i] == '.')
    && (forall i, j | 0 <= i < j < |t| :: !(t[i] == '.' && t[j] == '.'))
    && (exists i | 0 <= i < |t| :: IsDigit(t[i]))
  }

  /** `[eE][+-]?\d+` */
  predicate IsExponent(t: string)
  {
    && |t| >= 2
    && IsExpMark(t[0])
    && ((IsSign(t[1]) && |t| >= 3 && AllDigits(t[2..])) || AllDigits(t[1..]))
  }

  /** `t` without its leading sign, if it has one. */
  function Unsigned(t: string): string
  {
    if |t| > 0 && IsSign(t[0]) then t[1..] else t
  }

  /**
    Where the exponent of `t` would begin: at its first `e` or `E`, or at its
    end. A mantissa holds no such mark, so this is the only place a literal
    can be split into mantissa and exponent.
  */
  function ExpStart(t: string): (k: nat)
    ensures k <= |t|
    ensures forall i | 0 <= i < k :: !IsExpMark(t[i])
    ensures k < |t| ==> IsExpMark(t[k])
  {
    if |t| == 0 || IsExpMark(t[0]) then 0 else 1 + ExpStart(t[1..])
  }

  /** The whole pattern: an optional sign, a mantissa, then an optional exponent. */
  predicate IsFloatLiteral(t: string)
  {
    var body := Unsigned(t);
    var k := ExpStart(body);
    IsMantissa(body[..k]) && (k == |body| || IsExponent(body[k..]))
  }

  // ---- The scanner ----

  /** How many digits follow position `i` of `s` without a break (`\d+` taken greedily). */
  function DigitRun(s: string, i: nat): (d: nat)
    requires i <= |s|
    ensures i + d <= |s|
    ensures forall j | i <= j < i + d :: IsDigit(s[j])
    ensures i + d == |s| || !IsDigit(s[i + d])
    decreases |s| - i
  {
    if i < |s| && IsDigit(s[i]) then 1 + DigitRun(s, i + 1) else 0
  }

  /**
    Where the mantissa starting at `q` ends: the digit branch first (digits,
    then a point and any digits), otherwise a point followed by at least one
    digit; `None` when neither branch matches.
  */
  function MantissaEnd(s: string, q: nat): (r: Option<nat>)
    requires q <= |s|
    ensures r.Some? ==> q < r.value <= |s|
    ensures r.Some? ==> forall j | q <= j < r.value :: IsDigit(s[j]) || s[j] == '.'
  {
    var d := DigitRun(s, q);
    if d > 0 then
      var k := q + d;
      if k < |s| && s[k] == '.' then Some(k + 1 + DigitRun(s, k + 1)) else Some(k)
    else if q < |s| && s[q] == '.' && DigitRun(s, q + 1) > 0 then
      Some(q + 1 + DigitRun(s, q + 1))
    else
      None
  }

  /**
    Where the optional exponent after position `m` ends: a mark, an optional
    sign and at least one digit; `m` itself when no exponent follows.
  */
  function ExponentEnd(s: string, m: nat): (r: nat)
    requires m <= |s|
    ensures m <= r <= |s|
    ensures m < r ==> IsExpMark(s[m])
  {
    if m < |s| && IsExpMark(s[m]) then
      var j := if m + 1 < |s| && IsSign(s[m + 1]) then m + 2 else m + 1;
      var d := DigitRun(s, j);
      if d > 0 then j + d else m
    else m
  }

  /** Where the sign, if any, stops: the mantissa must start there. */
  function AfterSign(s: string, p: nat): (q: nat)
    requires p <= |s|
    ensures p <= q <= |s|
  {
    if p < |s| && IsSign(s[p]) then p + 1 else p
  }

  /**
    The end of the match of the pattern at position `p`, or `None`. When a
    sign is taken and no mantissa follows it, leaving the sign out cannot
    help either, since a sign is neither a digit nor a point.
  */
  function MatchAt(s: string, p: nat): (r: Option<nat>)
    requires p <= |s|
    ensures r.Some? ==> p < r.value <= |s|
  {
    match MantissaEnd(s, AfterSign(s, p))
    case Some(m) => Some(ExponentEnd(s, m))
    case None => None
  }

  /** The pattern's match at every position of `line`. */
  function MatchTable(line: string): (table: seq<Option<nat>>)
    ensures |table| == |line|
    ensures ValidTable(table)
  {
    seq(|line|, q requires 0 <= q < |line| => MatchAt(line, q))
  }

  /** `re.findall(regex, line)`, as the spans of its matches. */
  function FindFloats(line: string): (spans: seq<Span>)
    ensures forall k | 0 <= k < |spans| :: spans[k].start < spans[k].end <= |line|
    ensures forall i, j | 0 <= i < j < |spans| :: spans[i].end <= spans[j].start
    ensures |spans| <= |line|
  {
    Scan(MatchTable(line), 0)
  }

  /** `len(re.findall(regex, line))`: every match takes at least one character, so there are at most as many as characters. */
  function CountFloats(line: string): (n: nat)
    ensures n <= |line|
  {
    |FindFloats(line)|
  }

  // ---- The scanner against the language ----

  /** A run of digits starting at `i` is never longer than what DigitRun finds there. */
  lemma {:induction false} DigitRunCovers(s: string, i: nat, j: nat)
    requires i <= j <= |s|
    requires forall k | i <= k < j :: IsDigit(s[k])
    ensures j - i <= DigitRun(s, i)
    decreases j - i
  {
    if i < j {
      DigitRunCovers(s, i + 1, j);
    }
  }

  /** A mantissa at `q` lies inside the one the scanner takes there. */
  lemma MantissaMaximal(s: string, q: nat, k: nat)
    requires q + k <= |s|
    requires IsMantissa(s[q..q + k])
    ensures MantissaEnd(s, q).Some? && q + k <= MantissaEnd(s, q).value
  {
    var t := s[q..q + k];
    var d := DigitRun(s, q);
    if k > d {
      assert t[d] == s[q + d];
      assert s[q + d] == '.';
      forall j | q + d + 1 <= j < q + k
        ensures IsDigit(s[j])
      {
        assert t[j - q] == s[j];
        assert t[d] == '.';
      }
      DigitRunCovers(s, q + d + 1, q + k);
      if d == 0 {
        var i :| 0 <= i < |t| && IsDigit(t[i]);
        assert i > 0;
      }
    }
  }

  /** An exponent at `m` lies inside the one the scanner takes there. */
  lemma ExponentMaximal(s: string, m: nat, e: nat)
    requires m < e <= |s|
    requires IsExponent(s[m..e])
    ensures e <= ExponentEnd(s, m)
  {
    var t := s[m..e];
    assert t[1] == s[m + 1];
    if IsSign(s[m + 1]) {
      assert !IsDigit(t[1]);
      forall j | m + 2 <= j < e
        ensures IsDigit(s[j])
      {
        assert t[2..][j - m - 2] == s[j];
      }
      DigitRunCovers(s, m + 2, e);
    } else {
      forall j | m + 1 <= j < e
        ensures IsDigit(s[j])
      {
        assert t[1..][j - m - 1] == s[j];
      }
      DigitRunCovers(s, m + 1, e);
    }
  }

  /** A literal split into a mantissa at `q` and an optional exponent ends within the scanner's match. */
  lemma SplitWithinMatch(s: string, p: nat, k: nat, e: nat)
    requires p <= |s|
    requires AfterSign(s, p) + k <= e <= |s|
    requires IsMantissa(s[AfterSign(s, p)..AfterSign(s, p) + k])
    requires AfterSign(s, p) + k == e || IsExponent(s[AfterSign(s, p) + k..e])
    ensures MatchAt(s, p).Some? && e <= MatchAt(s, p).value
  {
    var q := AfterSign(s, p);
    MantissaMaximal(s, q, k);
    var m := MantissaEnd(s, q).value;
    if q + k < e {
      assert IsExpMark(s[q + k]);
      assert q + k == m;
      ExponentMaximal(s, m, e);
    }
  }

  /** Every float literal starting at `p` ends no later than the scanner's match there. */
  lemma LiteralWithinMatch(s: string, p: nat, e: nat)
    requires p <= e <= |s|
    requires IsFloatLiteral(s[p..e])
    ensures MatchAt(s, p).Some? && e <= MatchAt(s, p).value
  {
    var k := ExpStart(Unsigned(s[p..e]));
    LiteralParts(s, p, e, AfterSign(s, p), k);
    SplitWithinMatch(s, p, k, e);
  }

  /** A literal from `p` to `e`, read in place: after the sign, a mantissa then an optional exponent. */
  lemma LiteralParts(s: string, p: nat, e: nat, q: nat, k: nat)
    requires p <= e <= |s|
    requires IsFloatLiteral(s[p..e])
    requires q == AfterSign(s, p) && k == ExpStart(Unsigned(s[p..e]))
    ensures q + k <= e
    ensures IsMantissa(s[q..q + k])
    ensures q + k == e || IsExponent(s[q + k..e])
  {
    var body := Unsigned(s[p..e]);
    LiteralSplit(s[p..e]);
    UnsignedSlice(s, p, e);
    PartsInPlace(s, q, k, e, body);
  }

  /** A literal is non-empty, and splits at ExpStart into its mantissa and optional exponent. */
  lemma LiteralSplit(t: string)
    requires IsFloatLiteral(t)
    ensures |t| > 0
    ensures var body := Unsigned(t); var k := ExpStart(body);
      IsMantissa(body[..k]) && (k == |body| || IsExponent(body[k..]))
  {
    var body := Unsigned(t);
    MantissaNonEmpty(body[..ExpStart(body)]);
  }

  /** A mantissa and exponent found in the slice `s[q..e]` are the same text read in `s`. */
  lemma PartsInPlace(s: string, q: nat, k: nat, e: nat, body: string)
    requires q + k <= e <= |s|
    requires body == s[q..e]
    requires IsMantissa(body[..k])
    requires k == |body| || IsExponent(body[k..])
    ensures IsMantissa(s[q..q + k])
    ensures q + k == e || IsExponent(s[q + k..e])
  {
    SliceOfSlice(s, q, q + k, e);
  }

  /** The exponent starts at the first mark, wherever that is shown to be. */
  lemma ExpStartAt(t: string, k: nat)
    requires k <= |t|
    requires forall i | 0 <= i < k :: !IsExpMark(t[i])
    requires k < |t| ==> IsExpMark(t[k])
    ensures ExpStart(t) == k
  {
    var r := ExpStart(t);
    assert r < |t| ==> IsExpMark(t[r]);
    assert k < |t| ==> IsExpMark(t[k]);
  }

  /** A mantissa holds at least one character. */
  lemma MantissaNonEmpty(t: string)
    requires IsMantissa(t)
    ensures |t| > 0
  {
  }

  /** Cutting a slice of `s` again is slicing `s` itself. */
  lemma SliceOfSlice(s: string, a: nat, c: nat, b: nat)
    requires a <= c <= b <= |s|
    ensures s[a..b][..c - a] == s[a..c]
    ensures s[a..b][c - a..] == s[c..b]
  {
  }

  /** Without its sign, the text from `p` to `e` starts where the mantissa does. */
  lemma UnsignedSlice(s: string, p: nat, e: nat)
    requires p <= e <= |s|
    requires p < e || AfterSign(s, p) == p
    ensures Unsigned(s[p..e]) == s[AfterSign(s, p)..e]
  {
    if AfterSign(s, p) == p + 1 {
      SliceOfSlice(s, p, p + 1, e);
    }
  }

  /** The scanner's match is a float literal of the language. */
  lemma MatchIsLiteral(s: string, p: nat)
    requires p <= |s|
    requires MatchAt(s, p).Some?
    ensures IsFloatLiteral(s[p..MatchAt(s, p).value])
  {
    var e := MatchAt(s, p).value;
    var q := AfterSign(s, p);
    var m := MantissaEnd(s, q).value;
    MantissaSound(s, q);
    if m < e {
      ExponentSound(s, m);
    }
    UnsignedSlice(s, p, e);
    SplitIsLiteral(s, p, m, e);
  }

  /**
    The text from `p` to `e` is a literal when, after the sign, it splits at
    `m` into a mantissa and an optional exponent.
  */
  lemma SplitIsLiteral(s: string, p: nat, m: nat, e: nat)
    requires p <= |s|
    requires p <= AfterSign(s, p) <= m <= e <= |s|
    requires Unsigned(s[p..e]) == s[AfterSign(s, p)..e]
    requires IsMantissa(s[AfterSign(s, p)..m])
    requires forall j | AfterSign(s, p) <= j < m :: IsDigit(s[j]) || s[j] == '.'
    requires m == e || IsExponent(s[m..e])
    ensures IsFloatLiteral(s[p..e])
  {
    var q := AfterSign(s, p);
    var body := Unsigned(s[p..e]);
    var k := m - q;
    SliceOfSlice(s, q, m, e);
    forall i | 0 <= i < k
      ensures !IsExpMark(body[i])
    {
      assert body[i] == s[q + i];
    }
    ExpStartAt(body, k);
  }

  /** The scanner's match holds at least one digit. */
  lemma MatchHasDigit(s: string, p: nat)
    requires p <= |s|
    requires MatchAt(s, p).Some?
    ensures exists i | p <= i < MatchAt(s, p).value :: IsDigit(s[i])
  {
    var q := AfterSign(s, p);
    if DigitRun(s, q) > 0 {
      assert IsDigit(s[q]);
    } else {
      assert IsDigit(s[q + 1]);
    }
  }

  /** The scanner's match is a float literal, the longest one starting at `p`, and holds a digit. */
  lemma MatchIsLongestLiteral(s: string, p: nat)
    requires p <= |s|
    requires MatchAt(s, p).Some?
    ensures var e := MatchAt(s, p).value;
      && IsFloatLiteral(s[p..e])
      && (forall e' | e < e' <= |s| :: !IsFloatLiteral(s[p..e']))
      && (exists i | p <= i < e :: IsDigit(s[i]))
  {
    var e := MatchAt(s, p).value;
    MatchIsLiteral(s, p);
    MatchHasDigit(s, p);
    forall e' | e < e' <= |s|
      ensures !IsFloatLiteral(s[p..e'])
    {
      if IsFloatLiteral(s[p..e']) {
        LiteralWithinMatch(s, p, e');
      }
    }
  }

  /** Where the scanner finds no match, no float literal starts. */
  lemma NoMatchNoLiteral(s: string, p: nat)
    requires p <= |s|
    requires MatchAt(s, p).None?
    ensures forall e | p <= e <= |s| :: !IsFloatLiteral(s[p..e])
  {
    forall e | p <= e <= |s|
      ensures !IsFloatLiteral(s[p..e])
    {
      if IsFloatLiteral(s[p..e]) {
        LiteralWithinMatch(s, p, e);
      }
    }
  }

  /** The mantissa the scanner takes is a mantissa of the language. */
  lemma MantissaSound(s: string, q: nat)
    requires q <= |s|
    requires MantissaEnd(s, q).Some?
    ensures IsMantissa(s[q..MantissaEnd(s, q).value])
  {
    var m := MantissaEnd(s, q).value;
    var t := s[q..m];
    var d := DigitRun(s, q);
    if d > 0 {
      assert IsDigit(t[0]);
      if q + d < |s| && s[q + d] == '.' {
        forall i, j | 0 <= i < j < |t|
          ensures !(t[i] == '.' && t[j] == '.')
        {
          if i != d {
            assert IsDigit(s[q + i]);
          } else {
            assert IsDigit(s[q + j]);
          }
        }
      }
    } else {
      assert IsDigit(t[1]);
      forall i, j | 0 <= i < j < |t|
        ensures !(t[i] == '.' && t[j] == '.')
      {
        assert IsDigit(s[q + j]);
      }
    }
  }

  /** A non-empty exponent the scanner takes is an exponent of the language. */
  lemma ExponentSound(s: string, m: nat)
    requires m <= |s|
    requires m < ExponentEnd(s, m)
    ensures IsExponent(s[m..ExponentEnd(s, m)])
  {
    var e := ExponentEnd(s, m);
    var t := s[m..e];
    if m + 1 < |s| && IsSign(s[m + 1]) {
      assert forall i | 0 <= i < |t[2..]| :: t[2..][i] == s[m + 2 + i];
    } else {
      assert forall i | 0 <= i < |t[1..]| :: t[1..][i] == s[m + 1 + i];
    }
  }

  /** Every reported match is a longest float literal and holds at least one digit. */
  lemma FoundFloatsAreLiterals(s: string, k: nat)
    requires k < |FindFloats(s)|
    ensures var sp := FindFloats(s)[k];
      && IsFloatLiteral(s[sp.start..sp.end])
      && (forall e' | sp.end < e' <= |s| :: !IsFloatLiteral(s[sp.start..e']))
      && (exists i | sp.start <= i < sp.end :: IsDigit(s[i]))
  {
    var sp := FindFloats(s)[k];
    ScanSpanIsMatch(MatchTable(s), 0, k);
    assert MatchAt(s, sp.start) == Some(sp.end);
    MatchIsLongestLiteral(s, sp.start);
  }

  /**
    findall finds every literal: a position that no reported match covers
    starts no float literal at all.
  */
  lemma FindFloatsSkipsNoLiteral(s: string, q: nat)
    requires q < |s|
    requires Uncovered(FindFloats(s), q)
    ensures forall e | q <= e <= |s| :: !IsFloatLiteral(s[q..e])
  {
    ScanSkipsOnlyNonMatches(MatchTable(s), 0, q);
    assert MatchAt(s, q).None?;
    NoMatchNoLiteral(s, q);
  }

  /** A line has at least one column exactly when a float literal occurs somewhere in it. */
  lemma CountFloatsPositiveIffLiteral(line: string)
    ensures CountFloats(line) > 0 <==> exists i, j | 0 <= i <= j <= |line| :: IsFloatLiteral(line[i..j])
  {
    var spans := FindFloats(line);
    if |spans| > 0 {
      FoundFloatsAreLiterals(line, 0);
      assert IsFloatLiteral(line[spans[0].start..spans[0].end]);
    } else {
      forall i, j | 0 <= i <= j <= |line|
        ensures !IsFloatLiteral(line[i..j])
      {
        if i < |line| {
          assert Uncovered(spans, i);
          FindFloatsSkipsNoLiteral(line, i);
        } else {
          assert line[i..j] == [];
        }
      }
    }
  }

}
