/** What the distance means beyond its own table: the cheapest way to rewrite one list into
    the other by single-token edits anywhere, the longest common subsequence, and an upper
    bound for a cheaper measure. */
module LevenshteinMetric {
  import opened Wrappers
  import opened Levenshtein

  // ---------- free editing ----------

  /** A single-token edit at any position, with any token. */
  datatype Edit<T> = Insert(pos: nat, token: T) | Delete(pos: nat) | Substitute(pos: nat, token: T)

  predicate Possible<T>(s: seq<T>, e: Edit<T>) {
    match e
    case Insert(p, _) => p <= |s|
    case Delete(p) => p < |s|
    case Substitute(p, _) => p < |s|
  }

  function Perform<T>(s: seq<T>, e: Edit<T>): seq<T>
    requires Possible(s, e)
  {
    match e
    case Insert(p, x) => s[..p] + [x] + s[p..]
    case Delete(p) => s[..p] + s[p + 1..]
    case Substitute(p, x) => s[p := x]
  }

  function Price<T>(o: Options, e: Edit<T>): int {
    match e
    case Insert(_, _) => o.ins
    case Delete(_) => o.del
    case Substitute(_, _) => o.sub
  }

  /** `edits` can be performed on `s` one after the other and end in `t`. */
  ghost predicate Rewrites<T>(s: seq<T>, edits: seq<Edit<T>>, t: seq<T>)
    decreases |edits|
  {
    if edits == [] then s == t
    else Possible(s, edits[0]) && Rewrites(Perform(s, edits[0]), edits[1..], t)
  }

  function TotalPrice<T>(o: Options, edits: seq<Edit<T>>): int
    decreases |edits|
  {
    if edits == [] then 0 else Price(o, edits[0]) + TotalPrice(o, edits[1..])
  }

  lemma ChopJoin<T>(u: seq<T>, w: seq<T>)
    requires |w| > 0
    ensures Chop(u + w) == u + Chop(w) && Last(u + w) == Last(w)
  {
    assert Chop(u + w) == u + Chop(w);
  }

  lemma ChopOne<T>(u: seq<T>, x: T)
    ensures Chop(u + [x]) == u && Last(u + [x]) == x
  {
    assert Chop(u + [x]) == u;
  }

  /** Taking a token out of the first list changes the distance by at most one. */
  lemma {:induction false} TakeOut<T>(eq: (T, T) -> bool, o: Options, u: seq<T>, x: T, w: seq<T>, b: seq<T>)
    requires Unit(o) && o.sub >= 0
    ensures Cell(eq, o, u + [x] + w, b) <= 1 + Cell(eq, o, u + w, b)
    decreases |w| + |b|
  {
    var s, t := u + [x] + w, u + w;
    if b == [] {
    } else if w == [] {
      assert s == u + [x] && t == u;
      ChopOne(u, x);
    } else {
      ChopJoin(u + [x], w);
      ChopJoin(u, w);
      TakeOut(eq, o, u, x, Chop(w), b);
      TakeOut(eq, o, u, x, Chop(w), Chop(b));
      TakeOut(eq, o, u, x, w, Chop(b));
    }
  }

  lemma {:induction false} PutIn<T>(eq: (T, T) -> bool, o: Options, u: seq<T>, x: T, w: seq<T>, b: seq<T>)
    requires Unit(o) && o.sub >= 0
    ensures Cell(eq, o, u + w, b) <= 1 + Cell(eq, o, u + [x] + w, b)
    decreases |w| + |b|
  {
    var s, t := u + [x] + w, u + w;
    if b == [] {
    } else if w == [] {
      assert s == u + [x] && t == u;
      ChopOne(u, x);
      PutIn(eq, o, u, x, [], Chop(b));
      assert Cell(eq, o, u, b) <= Cell(eq, o, u, Chop(b)) + 1;
    } else {
      ChopJoin(u + [x], w);
      ChopJoin(u, w);
      PutIn(eq, o, u, x, Chop(w), b);
      PutIn(eq, o, u, x, Chop(w), Chop(b));
      PutIn(eq, o, u, x, w, Chop(b));
    }
  }

  lemma {:induction false} Exchange<T>(eq: (T, T) -> bool, o: Options, u: seq<T>, x: T, y: T, w: seq<T>, b: seq<T>)
    requires Unit(o) && o.sub >= 0
    ensures Cell(eq, o, u + [x] + w, b) <= o.sub + Cell(eq, o, u + [y] + w, b)
    decreases |w| + |b|
  {
    var s, t := u + [x] + w, u + [y] + w;
    if b == [] {
    } else if w == [] {
      assert s == u + [x] && t == u + [y];
      ChopOne(u, x);
      ChopOne(u, y);
      Exchange(eq, o, u, x, y, [], Chop(b));
    } else {
      ChopJoin(u + [x], w);
      ChopJoin(u + [y], w);
      Exchange(eq, o, u, x, y, Chop(w), b);
      Exchange(eq, o, u, x, y, Chop(w), Chop(b));
      Exchange(eq, o, u, x, y, w, Chop(b));
    }
  }

  /** One edit brings the distance down by no more than its price. */
  lemma OneEdit<T>(eq: (T, T) -> bool, o: Options, s: seq<T>, e: Edit<T>, b: seq<T>)
    requires Unit(o) && o.sub >= 0 && Possible(s, e)
    ensures Cell(eq, o, s, b) <= Price(o, e) + Cell(eq, o, Perform(s, e), b)
  {
    var p := e.pos;
    match e
    case Insert(_, x) =>
      assert s == s[..p] + s[p..];
      PutIn(eq, o, s[..p], x, s[p..], b);
    case Delete(_) =>
      assert s == s[..p] + [s[p]] + s[p + 1..];
      TakeOut(eq, o, s[..p], s[p], s[p + 1..], b);
    case Substitute(_, x) =>
      assert s == s[..p] + [s[p]] + s[p + 1..];
      assert s[p := x] == s[..p] + [x] + s[p + 1..];
      Exchange(eq, o, s[..p], s[p], x, s[p + 1..], b);
  }

  /** Two lists whose tokens are equal pairwise are at distance at most zero. */
  lemma {:induction false} EqualLists<T>(eq: (T, T) -> bool, o: Options, s: seq<T>, b: seq<T>)
    requires Unit(o) && |s| == |b| && forall k :: 0 <= k < |b| ==> eq(s[k], b[k])
    ensures Cell(eq, o, s, b) <= 0
  {
    if s != [] { EqualLists(eq, o, Chop(s), Chop(b)); }
  }

  /** No way of rewriting `a` into a list equal to `b`, by any single-token edits at any
      places in any order, is cheaper than the distance. */
  lemma {:induction false} NoCheaperRewriting<T>(
    eq: (T, T) -> bool, o: Options, a: seq<T>, edits: seq<Edit<T>>, t: seq<T>, b: seq<T>)
    requires Unit(o) && o.sub >= 0 && Rewrites(a, edits, t)
    requires |t| == |b| && forall k :: 0 <= k < |b| ==> eq(t[k], b[k])
    ensures Cell(eq, o, a, b) <= TotalPrice(o, edits)
    decreases |edits|
  {
    if edits == [] {
      EqualLists(eq, o, a, b);
    } else {
      OneEdit(eq, o, a, edits[0], b);
      NoCheaperRewriting(eq, o, Perform(a, edits[0]), edits[1..], t, b);
    }
  }

  /** The edits an aligned script performs, at the positions the applier computes. */
  function EditsOf<T>(b: seq<T>, es: Script, i: nat, j: nat): seq<Edit<T>>
    requires j <= |b|
    decreases |es|
  {
    if es == [] then []
    else
      match Last(es).op
      case Ins => if j == 0 then [] else EditsOf(b, Chop(es), i, j - 1) + [Insert(j - 1, b[j - 1])]
      case Del => if i == 0 then [] else EditsOf(b, Chop(es), i - 1, j) + [Delete(j)]
      case Sub => if i == 0 || j == 0 then [] else EditsOf(b, Chop(es), i - 1, j - 1) + [Substitute(j - 1, b[j - 1])]
      case Match => if i == 0 || j == 0 then [] else EditsOf(b, Chop(es), i - 1, j - 1)
  }

  lemma {:induction false} RewritesOn<T>(s: seq<T>, edits: seq<Edit<T>>, t: seq<T>, e: Edit<T>, o: Options)
    requires Rewrites(s, edits, t) && Possible(t, e)
    ensures Rewrites(s, edits + [e], Perform(t, e))
    ensures TotalPrice(o, edits + [e]) == TotalPrice(o, edits) + Price(o, e)
    decreases |edits|
  {
    if edits == [] {
      assert [e][1..] == [];
    } else {
      RewritesOn(Perform(s, edits[0]), edits[1..], t, e, o);
      assert (edits + [e])[1..] == edits[1..] + [e];
    }
  }

  /** The edit an operation of the script performs at position p. */
  function EditAt<T>(b: seq<T>, op: EditOp, p: nat): Edit<T>
    requires op == Del || p < |b|
  {
    match op
    case Del => Delete(p)
    case Ins => Insert(p, b[p])
    case _ => Substitute(p, b[p])
  }

  lemma OperationEdits<T>(b: seq<T>, s: Applied<T>, e: EditOpExt, p: nat)
    requires e.op != Match && p == e.src + s.sumIns - s.sumDel
    requires if e.op == Ins then p <= |s.rows| else p < |s.rows|
    requires e.op != Del ==> p == e.dst < |b|
    ensures Possible(s.rows, EditAt(b, e.op, p))
    ensures ApplyOp(s, b, e).Some? && ApplyOp(s, b, e).value.rows == Perform(s.rows, EditAt(b, e.op, p))
  {
  }

  lemma {:induction false} ScriptRewrites<T>(
    eq: (T, T) -> bool, o: Options, a: seq<T>, b: seq<T>, i: nat, j: nat, es: Script)
    requires i <= |a| && j <= |b| && Aligns(eq, a, b, i, j, es)
    ensures Apply(a, b, es).Some?
    ensures Rewrites(a, EditsOf(b, es, i, j), Apply(a, b, es).value.rows)
    ensures TotalPrice(o, EditsOf(b, es, i, j)) == Cost(o, es)
    decreases |es|
  {
    if es != [] {
      var e := Last(es);
      var i' := if e.op == Ins then i else i - 1;
      var j' := if e.op == Del then j else j - 1;
      ApplyAligned(eq, a, b, i', j', Chop(es));
      ScriptRewrites(eq, o, a, b, i', j', Chop(es));
      var edits, s := EditsOf(b, Chop(es), i', j'), Apply(a, b, Chop(es)).value;
      assert Apply(a, b, es) == ApplyOp(s, b, e);
      if e.op == Match {
        assert EditsOf(b, es, i, j) == edits;
      } else {
        OperationEdits(b, s, e, j');
        assert EditsOf(b, es, i, j) == edits + [EditAt(b, e.op, j')];
        RewritesOn(a, edits, s.rows, EditAt(b, e.op, j'), o);
      }
    }
  }

  /** The distance is reached: the returned script is such a rewriting, at exactly that price. */
  lemma DistanceIsReached<T>(eq: (T, T) -> bool, o: Options, a: seq<T>, b: seq<T>)
    returns (edits: seq<Edit<T>>, t: seq<T>)
    requires Unit(o)
    ensures Rewrites(a, edits, t) && TotalPrice(o, edits) == Cell(eq, o, a, b)
    ensures |t| == |b| && forall k :: 0 <= k < |b| ==> t[k] == b[k] || eq(t[k], b[k])
  {
    var es := Backtrace(eq, o, a, b, |a|, |b|);
    assert a[..|a|] == a && b[..|b|] == b;
    BacktraceIsOptimal(eq, o, a, b, |a|, |b|);
    ApplyAligned(eq, a, b, |a|, |b|, es);
    ScriptRewrites(eq, o, a, b, |a|, |b|, es);
    edits, t := EditsOf(b, es, |a|, |b|), Apply(a, b, es).value.rows;
  }

  ghost predicate NeverCheaper<T(!new)>(eq: (T, T) -> bool, o: Options) {
    forall a: seq<T>, edits: seq<Edit<T>>, b: seq<T> ::
      Rewrites(a, edits, b) ==> Cell(eq, o, a, b) <= TotalPrice(o, edits)
  }

  /** Free rewriting never beats the distance exactly when substitutions are not paid for. */
  lemma SubstitutionMustCost<T(!new)>(eq: (T, T) -> bool, o: Options, x: T)
    requires Unit(o) && forall y :: eq(y, y)
    ensures NeverCheaper(eq, o) <==> o.sub >= 0
  {
    if o.sub >= 0 {
      forall a: seq<T>, edits: seq<Edit<T>>, b: seq<T> | Rewrites(a, edits, b)
        ensures Cell(eq, o, a, b) <= TotalPrice(o, edits)
      {
        NoCheaperRewriting(eq, o, a, edits, b, b);
      }
    } else {
      var e := Substitute(0, x);
      assert Perform([x], e) == [x];
      RewritesOn([x], [], [x], e, o);
      assert [] + [e] == [e];
      assert Chop([x]) == [];
      assert Cell(eq, o, [x], [x]) == 0;
    }
  }

  // ---------- longest common subsequence ----------

  /** Strictly increasing index pairs joining equal tokens. */
  predicate Common<T>(eq: (T, T) -> bool, a: seq<T>, b: seq<T>, ps: seq<(nat, nat)>) {
    && (forall k :: 0 <= k < |ps| ==> ps[k].0 < |a| && ps[k].1 < |b| && eq(a[ps[k].0], b[ps[k].1]))
    && (forall k, l :: 0 <= k < l < |ps| ==> ps[k].0 < ps[l].0 && ps[k].1 < ps[l].1)
  }

  lemma CommonMore<T>(eq: (T, T) -> bool, a: seq<T>, b: seq<T>, ps: seq<(nat, nat)>)
    requires |a| > 0 && |b| > 0 && Common(eq, Chop(a), Chop(b), ps) && eq(Last(a), Last(b))
    ensures Common(eq, a, b, ps + [(|a| - 1, |b| - 1)])
  {
    var qs := ps + [(|a| - 1, |b| - 1)];
    forall k | 0 <= k < |qs| ensures qs[k].0 < |a| && qs[k].1 < |b| && eq(a[qs[k].0], b[qs[k].1]) {
      if k < |ps| { assert qs[k] == ps[k]; }
    }
    forall k, l | 0 <= k < l < |qs| ensures qs[k].0 < qs[l].0 && qs[k].1 < qs[l].1 {
      assert qs[k] == ps[k];
      if l < |ps| { assert qs[l] == ps[l]; }
    }
  }

  lemma CommonLonger<T>(eq: (T, T) -> bool, a: seq<T>, b: seq<T>, c: seq<T>, d: seq<T>, ps: seq<(nat, nat)>)
    requires Common(eq, a, b, ps) && a <= c && b <= d
    ensures Common(eq, c, d, ps)
  {
    forall k | 0 <= k < |ps| ensures ps[k].0 < |c| && ps[k].1 < |d| && eq(c[ps[k].0], d[ps[k].1]) {
      assert c[ps[k].0] == a[ps[k].0] && d[ps[k].1] == b[ps[k].1];
    }
  }

  /** A longest list of such pairs. */
  function Longest<T>(eq: (T, T) -> bool, a: seq<T>, b: seq<T>): (ps: seq<(nat, nat)>)
    ensures Common(eq, a, b, ps)
    decreases |a| + |b|
  {
    if |a| == 0 || |b| == 0 then []
    else
      var p, q := Longest(eq, Chop(a), b), Longest(eq, a, Chop(b));
      var d := Longest(eq, Chop(a), Chop(b));
      CommonLonger(eq, Chop(a), b, a, b, p);
      CommonLonger(eq, a, Chop(b), a, b, q);
      CommonLonger(eq, Chop(a), Chop(b), a, b, d);
      var r := if eq(Last(a), Last(b)) then CommonMore(eq, a, b, d); d + [(|a| - 1, |b| - 1)] else d;
      if |p| >= |q| && |p| >= |r| then p else if |q| >= |r| then q else r
  }

  /** Pairs that do not reach the last token of a list lie in the list without it. */
  lemma CommonShorter<T>(eq: (T, T) -> bool, a: seq<T>, b: seq<T>, ps: seq<(nat, nat)>)
    requires Common(eq, a, b, ps) && |ps| > 0 && |a| > 0 && |b| > 0
    ensures Last(ps).0 < |a| - 1 ==> Common(eq, Chop(a), b, ps)
    ensures Last(ps).1 < |b| - 1 ==> Common(eq, a, Chop(b), ps)
    ensures Last(ps) == (|a| - 1, |b| - 1) ==> eq(Last(a), Last(b)) && Common(eq, Chop(a), Chop(b), Chop(ps))
  {
    var n := |ps| - 1;
    forall k | 0 <= k < n ensures ps[k].0 < ps[n].0 && ps[k].1 < ps[n].1 {}
  }

  lemma {:induction false} LongestIsLongest<T>(eq: (T, T) -> bool, a: seq<T>, b: seq<T>, ps: seq<(nat, nat)>)
    requires Common(eq, a, b, ps)
    ensures |ps| <= |Longest(eq, a, b)|
    decreases |a| + |b|
  {
    if |ps| > 0 {
      assert Last(ps).0 < |a| && Last(ps).1 < |b|;
      CommonShorter(eq, a, b, ps);
      if Last(ps).0 < |a| - 1 {
        LongestIsLongest(eq, Chop(a), b, ps);
      } else if Last(ps).1 < |b| - 1 {
        LongestIsLongest(eq, a, Chop(b), ps);
      } else {
        LongestIsLongest(eq, Chop(a), Chop(b), Chop(ps));
      }
    }
  }

  /** When a substitution is no cheaper than a deletion and an insertion, as with the
      default options, the distance counts the tokens outside a longest common subsequence. */
  lemma {:induction false} DistanceCountsUncommon<T>(eq: (T, T) -> bool, o: Options, a: seq<T>, b: seq<T>)
    requires Unit(o) && o.sub >= 2
    ensures Cell(eq, o, a, b) == |a| + |b| - 2 * |Longest(eq, a, b)|
    decreases |a| + |b|
  {
    if |a| > 0 && |b| > 0 {
      DistanceCountsUncommon(eq, o, Chop(a), b);
      DistanceCountsUncommon(eq, o, a, Chop(b));
      DistanceCountsUncommon(eq, o, Chop(a), Chop(b));
      LongestIsLongest(eq, Chop(a), b, Longest(eq, Chop(a), Chop(b)));
    }
  }

  const DEFAULT_OPTIONS := Options(1, 1, 2)

  /** The package's default options: distance = |a| + |b| - 2 LCS(a, b). */
  lemma DefaultDistance<T>(eq: (T, T) -> bool, a: seq<T>, b: seq<T>, ps: seq<(nat, nat)>)
    requires Common(eq, a, b, ps)
    ensures Cell(eq, DEFAULT_OPTIONS, a, b) <= |a| + |b| - 2 * |ps|
    ensures Common(eq, a, b, Longest(eq, a, b))
      && Cell(eq, DEFAULT_OPTIONS, a, b) == |a| + |b| - 2 * |Longest(eq, a, b)|
  {
    DistanceCountsUncommon(eq, DEFAULT_OPTIONS, a, b);
    LongestIsLongest(eq, a, b, ps);
  }

  // ---------- the range of the distance ----------

  /** The lists agree token by token. */
  predicate Pairwise<T>(eq: (T, T) -> bool, a: seq<T>, b: seq<T>) {
    |a| == |b| && forall k :: 0 <= k < |a| ==> eq(a[k], b[k])
  }

  /** At least the surplus of the longer list, and nothing only for lists that agree. */
  lemma {:induction false} CellAtLeast<T>(eq: (T, T) -> bool, o: Options, a: seq<T>, b: seq<T>)
    requires Unit(o) && o.sub >= 1
    ensures Cell(eq, o, a, b) >= |a| - |b| && Cell(eq, o, a, b) >= |b| - |a|
    ensures Cell(eq, o, a, b) == 0 <==> Pairwise(eq, a, b)
    decreases |a| + |b|
  {
    if |a| > 0 && |b| > 0 {
      CellAtLeast(eq, o, Chop(a), b);
      CellAtLeast(eq, o, a, Chop(b));
      CellAtLeast(eq, o, Chop(a), Chop(b));
      PairwiseChop(eq, a, b);
    }
  }

  lemma PairwiseChop<T>(eq: (T, T) -> bool, a: seq<T>, b: seq<T>)
    requires |a| > 0 && |b| > 0
    ensures Pairwise(eq, a, b) <==> Pairwise(eq, Chop(a), Chop(b)) && eq(Last(a), Last(b))
  {
    if Pairwise(eq, Chop(a), Chop(b)) && eq(Last(a), Last(b)) {
      forall k | 0 <= k < |a| ensures eq(a[k], b[k]) {
        if k < |a| - 1 { assert Chop(a)[k] == a[k] && Chop(b)[k] == b[k]; }
      }
    }
    if Pairwise(eq, a, b) {
      forall k | 0 <= k < |a| - 1 ensures eq(Chop(a)[k], Chop(b)[k]) {
        assert Chop(a)[k] == a[k] && Chop(b)[k] == b[k];
      }
    }
  }

  function Larger(n: nat, m: nat): nat { if n < m then m else n }

  /** No token of the one list equals one of the other. */
  predicate Apart<T>(eq: (T, T) -> bool, a: seq<T>, b: seq<T>) {
    forall i, j :: 0 <= i < |a| && 0 <= j < |b| ==> !eq(a[i], b[j])
  }

  /** Where a substitution costs as much as an insertion, at most the longer list's length, and that
      much for lists without a common token. */
  lemma {:induction false} CellAtMost<T>(eq: (T, T) -> bool, o: Options, a: seq<T>, b: seq<T>)
    requires Unit(o) && o.sub == 1
    ensures Cell(eq, o, a, b) <= Larger(|a|, |b|)
    ensures Apart(eq, a, b) ==> Cell(eq, o, a, b) == Larger(|a|, |b|)
    decreases |a| + |b|
  {
    if |a| > 0 && |b| > 0 {
      CellAtMost(eq, o, Chop(a), b);
      CellAtMost(eq, o, a, Chop(b));
      CellAtMost(eq, o, Chop(a), Chop(b));
    }
  }
}
