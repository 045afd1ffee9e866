/** The histogram pre-filter of net/http/dedup/5_similar_texts.go: a lower bound of the
    relative edit distance, so that cutting off early loses no similar pair. */
module Dedup {
  import opened Levenshtein
  import opened LevenshteinMetric
  import opened LevenshteinMatrix

  datatype TextifiedTree = TextifiedTree(NumTokens: nat, Histo: map<string, int>)

  const OPT := Options(1, 1, 1)

  function SameToken(x: string, y: string): bool { x == y }

  /** The loop over the histogram keys. */
  method CountCommon(larger: set<string>, inner: set<string>) returns (same: nat)
    ensures same == |larger * inner|
  {
    same := 0;
    var left := larger;
    while left != {}
      invariant left <= larger
      invariant same == |(larger - left) * inner|
      decreases left
    {
      var k :| k in left;
      ghost var seen := (larger - left) * inner;
      left := left - {k};
      if k in inner {
        same := same + 1;
        assert (larger - left) * inner == seen + {k};
      } else {
        assert (larger - left) * inner == seen;
      }
    }
    assert larger - left == larger;
  }

  method HistoBasedDistance(src: TextifiedTree, dst: TextifiedTree) returns (ret: real)
    ensures ret == HistoDistance(src, dst)
  {
    var largerOuter, inner := src, dst;
    if src.NumTokens < dst.NumTokens {
      largerOuter, inner := dst, src;
    }
    if largerOuter.NumTokens == 0 {
      return 0.0;
    }
    var same := CountCommon(largerOuter.Histo.Keys, inner.Histo.Keys);
    assert src.Histo.Keys * dst.Histo.Keys == largerOuter.Histo.Keys * inner.Histo.Keys;
    var distinctBySheerSize := largerOuter.NumTokens - inner.NumTokens;
    var distinctInner := inner.NumTokens - same;
    ret := Ratio(distinctBySheerSize + distinctInner, largerOuter.NumTokens);
  }

  /** The share of the larger side's tokens that is not common to both. */
  function HistoDistance(src: TextifiedTree, dst: TextifiedTree): real {
    var larger := if src.NumTokens < dst.NumTokens then dst.NumTokens else src.NumTokens;
    if larger == 0 then 0.0
    else Ratio(larger - |src.Histo.Keys * dst.Histo.Keys|, larger)
  }

  function Tokens(a: seq<string>): set<string> { set x | x in a }

  predicate NoDuplicates(a: seq<string>) {
    forall i, j :: 0 <= i < j < |a| ==> a[i] != a[j]
  }

  /** The tree whose tokens are `a`. */
  predicate Describes(t: TextifiedTree, a: seq<string>) {
    t.NumTokens == |a| && t.Histo.Keys == Tokens(a)
  }

  // ---------- counting common tokens ----------

  lemma ChopMultiset<T>(s: seq<T>)
    requires |s| > 0
    ensures multiset(s) == multiset(Chop(s)) + multiset{Last(s)}
  {
    assert s == Chop(s) + [Last(s)];
  }

  lemma Smaller<T>(a: multiset<T>, b: multiset<T>)
    requires a <= b
    ensures |a| <= |b|
  {
    assert b == a + (b - a);
  }

  /** The distance is at least the longer list's length less the number of common tokens. */
  lemma {:induction false} DistanceAgainstCommon(o: Options, a: seq<string>, b: seq<string>)
    requires o == OPT
    ensures Cell(SameToken, o, a, b) + |multiset(a) * multiset(b)| >= |a|
    ensures Cell(SameToken, o, a, b) + |multiset(a) * multiset(b)| >= |b|
    decreases |a| + |b|
  {
    if |a| > 0 && |b| > 0 {
      var a', b' := Chop(a), Chop(b);
      ChopMultiset(a);
      ChopMultiset(b);
      var c := multiset(a) * multiset(b);
      Smaller(multiset(a') * multiset(b), c);
      Smaller(multiset(a) * multiset(b'), c);
      Smaller(multiset(a') * multiset(b'), c);
      if Last(a) == Last(b) {
        var d := multiset(a') * multiset(b') + multiset{Last(a)};
        Smaller(d, c);
        assert |d| == |multiset(a') * multiset(b')| + 1;
      }
      DistanceAgainstCommon(o, a', b);
      DistanceAgainstCommon(o, a, b');
      DistanceAgainstCommon(o, a', b');
    }
  }

  lemma {:induction false} NoDuplicatesMultiset(a: seq<string>)
    requires NoDuplicates(a)
    ensures multiset(a) == multiset(Tokens(a))
  {
    if a != [] {
      NoDuplicatesMultiset(Chop(a));
      ChopMultiset(a);
      assert Last(a) !in Tokens(Chop(a));
      assert Tokens(a) == Tokens(Chop(a)) + {Last(a)};
    }
  }

  lemma {:induction false} SetSize<T>(s: set<T>)
    ensures |multiset(s)| == |s|
  {
    if s != {} {
      var x :| x in s;
      SetSize(s - {x});
      assert multiset(s) == multiset(s - {x}) + multiset{x};
      assert |s| == |s - {x}| + 1;
    }
  }

  lemma DivideMonotone(x: int, y: int, d: nat)
    requires x <= y && d > 0
    ensures Ratio(x, d) <= Ratio(y, d)
  {}

  lemma CommonTokens(a: seq<string>, b: seq<string>)
    requires NoDuplicates(a) && NoDuplicates(b)
    ensures |multiset(a) * multiset(b)| == |Tokens(a) * Tokens(b)|
  {
    NoDuplicatesMultiset(a);
    NoDuplicatesMultiset(b);
    var s, t := Tokens(a), Tokens(b);
    assert multiset(s) * multiset(t) == multiset(s * t);
    SetSize(s * t);
  }

  lemma DistanceAgainstDistinct(a: seq<string>, b: seq<string>)
    requires NoDuplicates(a) && NoDuplicates(b)
    ensures Larger(|a|, |b|) - |Tokens(a) * Tokens(b)| <= Cell(SameToken, OPT, a, b)
  {
    DistanceAgainstCommon(OPT, a, b);
    CommonTokens(a, b);
  }

  lemma SameDivisor(src: TextifiedTree, dst: TextifiedTree, dist: int)
    requires Larger(src.NumTokens, dst.NumTokens) - |src.Histo.Keys * dst.Histo.Keys| <= dist
    requires dist >= 0
    ensures HistoDistance(src, dst) <= RelDist(dist, src.NumTokens, dst.NumTokens)
  {
    var larger := Larger(src.NumTokens, dst.NumTokens);
    if larger > 0 {
      DivideMonotone(larger - |src.Histo.Keys * dst.Histo.Keys|, dist, larger);
    }
  }

  lemma {:induction false} NonNegative(a: seq<string>, b: seq<string>)
    ensures Cell(SameToken, OPT, a, b) >= 0
    decreases |a| + |b|
  {
    if |a| > 0 && |b| > 0 {
      NonNegative(Chop(a), b);
      NonNegative(a, Chop(b));
      NonNegative(Chop(a), Chop(b));
    }
  }

  /** The distance is the share of the larger side's tokens that the smaller side does not have: one
      for texts without a common token, nothing for equal sets of tokens only. */
  lemma HistoIsShare(src: TextifiedTree, dst: TextifiedTree, a: seq<string>, b: seq<string>)
    requires NoDuplicates(a) && NoDuplicates(b) && Describes(src, a) && Describes(dst, b) && |a| >= |b| && |a| > 0
    ensures 0.0 <= HistoDistance(src, dst) <= 1.0
    ensures IsShare(HistoDistance(src, dst), |Tokens(a) - Tokens(b)|, |a|)
    ensures HistoDistance(src, dst) == 1.0 <==> Tokens(a) * Tokens(b) == {}
    ensures HistoDistance(src, dst) == 0.0 <==> Tokens(a) == Tokens(b)
    ensures HistoDistance(dst, src) == HistoDistance(src, dst)
  {
    TokensSize(a);
    TokensSize(b);
    HistoOfSets(src, dst, Tokens(a), Tokens(b));
  }

  lemma HistoOfSets(src: TextifiedTree, dst: TextifiedTree, s: set<string>, t: set<string>)
    requires src.Histo.Keys == s && dst.Histo.Keys == t
    requires src.NumTokens == |s| >= |t| == dst.NumTokens && |s| > 0
    ensures 0.0 <= HistoDistance(src, dst) <= 1.0
    ensures IsShare(HistoDistance(src, dst), |s - t|, |s|)
    ensures HistoDistance(src, dst) == 1.0 <==> s * t == {}
    ensures HistoDistance(src, dst) == 0.0 <==> s == t
    ensures HistoDistance(dst, src) == HistoDistance(src, dst)
  {
    var uncommon := |s - t|;
    Uncommon(s, t);
    HistoIsRatio(src, dst, s, t, uncommon);
    Share(uncommon, |s|);
  }

  lemma HistoIsRatio(src: TextifiedTree, dst: TextifiedTree, s: set<string>, t: set<string>, uncommon: nat)
    requires src.Histo.Keys == s && dst.Histo.Keys == t
    requires src.NumTokens == |s| >= |t| == dst.NumTokens && |s| > 0
    requires uncommon == |s| - |s * t|
    ensures HistoDistance(src, dst) == Ratio(uncommon, |s|) && HistoDistance(dst, src) == Ratio(uncommon, |s|)
  {
    assert t * s == s * t;
  }

  lemma Uncommon<T>(s: set<T>, t: set<T>)
    requires |s| >= |t|
    ensures |s - t| == |s| - |s * t| <= |s|
    ensures |s - t| == 0 <==> s == t
    ensures |s - t| == |s| <==> s * t == {}
  {
    assert s == (s - t) + s * t;
    if s - t == {} {
      Within(s, t);
    }
  }

  lemma TokensSize(a: seq<string>)
    requires NoDuplicates(a)
    ensures |Tokens(a)| == |a|
  {
    NoDuplicatesMultiset(a);
    SetSize(Tokens(a));
  }

  lemma Within<T>(s: set<T>, t: set<T>)
    requires s <= t && |s| >= |t|
    ensures s == t
  {
    assert t == s + (t - s);
  }

  /** The histogram distance never exceeds the relative edit distance. */
  lemma HistoIsLowerBound(src: TextifiedTree, dst: TextifiedTree, a: seq<string>, b: seq<string>)
    requires NoDuplicates(a) && NoDuplicates(b) && Describes(src, a) && Describes(dst, b)
    ensures HistoDistance(src, dst) <= RelDist(Cell(SameToken, OPT, a, b), |a|, |b|)
  {
    DistanceAgainstDistinct(a, b);
    NonNegative(a, b);
    SameDivisor(src, dst, Cell(SameToken, OPT, a, b));
  }

  /** A pair dropped for a histogram distance above 0.51 would not have passed the test for
      a relative distance below 0.26. */
  lemma EarlyCutIsSafe(src: TextifiedTree, dst: TextifiedTree, a: seq<string>, b: seq<string>)
    requires NoDuplicates(a) && NoDuplicates(b) && Describes(src, a) && Describes(dst, b)
    requires HistoDistance(src, dst) > 0.51
    ensures !(RelDist(Cell(SameToken, OPT, a, b), |a|, |b|) < 0.26)
  {
    HistoIsLowerBound(src, dst, a, b);
  }
}
