/** The stock of amorphs and its shape indexes, from transposablematrix/20-amorph.go,
    22-edges-permutated.go, 45-fnd-lvl1.go and 49-fnd-lvl3-straight.go. */
module Reservoir {
  import opened Wrappers
  import opened Shapes
  import opened Sorting

  datatype Amorph = Amorph(
    IdxArticle: int, NElements: nat, Cols: int, Rows: int, Slack: int, Edge: seq<int>, Padded: nat)

  /** The number of elements without padding. */
  function Base(a: Amorph): int { a.NElements - a.Padded }

  /** The number of elements, worked out from the sides where it was not given. */
  function ElementsOf(a: Amorph): int { if a.NElements == 0 then a.Cols * a.Rows - a.Slack else a.NElements }

  /** An amorph as it is stored at position `pos`. */
  function Stored(a: Amorph, pos: nat): (r: Amorph)
    requires ElementsOf(a) >= 0
    ensures if a.NElements > 0 then r.NElements == a.NElements else r.NElements + a.Slack == a.Cols * a.Rows
    ensures r.IdxArticle == pos || r.IdxArticle == a.IdxArticle != 0
  {
    a.(IdxArticle := if a.IdxArticle == 0 then pos else a.IdxArticle, NElements := ElementsOf(a))
  }

  /** Unpadded, and with no index number other than its position. */
  predicate Plain(a: Amorph, pos: nat) {
    a.Padded == 0 && (a.IdxArticle == 0 || a.IdxArticle == pos)
  }

  // ---------- submaps ----------

  type Index = map<int, set<int>>

  function Get(m: Index, k: int): set<int> { if k in m then m[k] else {} }

  function SubmapAddRemove(doRemoval: bool, mp: Index, k1: int, k2: int): Index {
    if doRemoval then
      var m := if k1 in mp then mp[k1 := mp[k1] - {k2}] else mp;
      if Get(m, k1) == {} then m - {k1} else m
    else mp[k1 := Get(mp, k1) + {k2}]
  }

  ghost predicate NoEmpty(m: Index) { forall k :: k in m ==> m[k] != {} }

  /** `m'` is `m` with id taken out of, or put into, exactly the submaps of `keys`. */
  ghost predicate Changed(m: Index, m': Index, keys: set<int>, id: int, doRemoval: bool) {
    && (NoEmpty(m) ==> NoEmpty(m'))
    && forall k, i :: i in Get(m', k) <==> if i == id && k in keys then !doRemoval else i in Get(m, k)
  }

  lemma ChangedMore(m: Index, m': Index, keys: set<int>, id: int, doRemoval: bool, k1: int)
    requires Changed(m, m', keys, id, doRemoval)
    ensures Changed(m, SubmapAddRemove(doRemoval, m', k1, id), keys + {k1}, id, doRemoval)
  {
    var m2 := SubmapAddRemove(doRemoval, m', k1, id);
    forall k, i
      ensures i in Get(m2, k) <==> if i == id && k in keys + {k1} then !doRemoval else i in Get(m, k)
    {
      assert i in Get(m2, k) <==> if i == id && k == k1 then !doRemoval else i in Get(m', k);
    }
  }

  method AddBoth(ghost m: Index, mp: Index, ghost keys: set<int>, id: int, doRemoval: bool, k1: int, k2: int)
    returns (mp': Index)
    requires Changed(m, mp, keys, id, doRemoval)
    ensures Changed(m, mp', keys + {k1, k2}, id, doRemoval)
  {
    ChangedMore(m, mp, keys, id, doRemoval, k1);
    mp' := SubmapAddRemove(doRemoval, mp, k1, id);
    ChangedMore(m, mp', keys + {k1}, id, doRemoval, k2);
    mp' := SubmapAddRemove(doRemoval, mp', k2, id);
    assert keys + {k1} + {k2} == keys + {k1, k2};
  }

  // ---------- the keys of a shape ----------

  /** Numbers the table of primes covers. */
  const PRIME_TABLE := 2559

  /** With more elements than this, the slack of some shape lies beyond the table. */
  const MOST_ELEMENTS := 102

  function SlackKeys(n: nat): set<int> {
    set w | 1 <= w <= n && Divides(w, n) :: Enc(w, n / w, 0)
  }

  function PlugKey(p: Plug): int { Enc(p.x1, p.y, p.x2) }

  function Granularize(t: int): int { if t > 9 then 9 else if t > 4 then 4 else t }

  function CondKey(p: Plug): int { Enc(Granularize(p.x1), Granularize(p.y), Granularize(p.x2)) }

  function PlugKeys(ps: set<Plug>): set<int> { set p | p in ps :: PlugKey(p) }

  function CondKeys(ps: set<Plug>): set<int> { set p | p in ps :: CondKey(p) }

  /** The slackless index lists n elements under w x h exactly when w * h = n. */
  lemma SlacklessExactly(n: nat, w: nat, h: nat)
    requires 0 < n < FACTOR && Digit(w) && Digit(h)
    ensures Enc(w, h, 0) in SlackKeys(n) <==> w * h == n
  {
    if w * h == n {
      NonZero(w, h, n);
      DivUnique(n, w, h);
      MulMono(1, h, w);
    }
    if Enc(w, h, 0) in SlackKeys(n) {
      var v :| 1 <= v <= n && Divides(v, n) && Enc(v, n / v, 0) == Enc(w, h, 0);
      DivideOut(v, n);
      QuotientAtMost(n, v);
      EncInjective(v, n / v, 0, w, h, 0);
    }
  }

  /** From a hundred elements on, codes run into each other, so that the index lists a shape of another area. */
  lemma SlacklessSoundIff(n: nat)
    requires 0 < n <= MOST_ELEMENTS
    ensures (forall w: nat, h: nat :: Digit(w) && Digit(h) ==> (Enc(w, h, 0) in SlackKeys(n) <==> w * h == n))
       <==> n < FACTOR
  {
    if n < FACTOR {
      forall w: nat, h: nat | Digit(w) && Digit(h) ensures Enc(w, h, 0) in SlackKeys(n) <==> w * h == n {
        SlacklessExactly(n, w, h);
      }
    } else {
      DivUnique(n, 1, n);
      var h := n - FACTOR;
      assert Enc(1, n / 1, 0) == Enc(2, h, 0);
      assert Enc(2, h, 0) in SlackKeys(n) && Digit(2) && Digit(h) && 2 * h != n;
    }
  }

  lemma QuotientAtMost(n: nat, v: nat)
    requires 1 <= v
    ensures 0 <= n / v <= n
  {
    Division(n, v, n / v, n % v);
    MulMono(1, v, n / v);
  }

  // ---------- the loops of PermutateShapes ----------

  /** Lines 63-64 for one width. */
  function WidthKeys(n: nat, cols: nat): set<int>
    requires cols > 0
  {
    var (rows, slack) := OtherSide(n, cols);
    if slack == 0 then {Enc(cols, rows, 0), Enc(rows, cols, 0)} else {}
  }

  lemma WidthKeysAre(n: nat, cols: nat)
    requires 0 < cols <= n
    ensures WidthKeys(n, cols) <= SlackKeys(n)
    ensures Divides(cols, n) ==> WidthKeys(n, cols) == {Enc(cols, n / cols, 0), Enc(n / cols, cols, 0)}
  {
    var (rows, slack) := OtherSide(n, cols);
    if slack == 0 {
      OtherSideAtMost(n, cols);
      NonZero(cols, rows, n);
      DivUnique(n, cols, rows);
      DivUnique(n, rows, cols);
    }
    if Divides(cols, n) {
      DivideOut(cols, n);
    }
  }

  function AllWidthKeys(n: nat): set<int> {
    set cols, k | RootCeiling(n) <= cols <= n && 0 < cols && k in WidthKeys(n, cols) :: k
  }

  lemma NonZero(w: nat, h: nat, n: nat)
    requires w * h == n > 0
    ensures w > 0 && h > 0
  {}

  /** Starting at the root loses nothing: one of the two sides is at least the root. */
  lemma WidthsCover(n: nat)
    requires n > 0
    ensures AllWidthKeys(n) == SlackKeys(n)
  {
    forall k | k in AllWidthKeys(n) ensures k in SlackKeys(n) {
      var cols :| RootCeiling(n) <= cols <= n && 0 < cols && k in WidthKeys(n, cols);
      WidthKeysAre(n, cols);
    }
    forall k | k in SlackKeys(n) ensures k in AllWidthKeys(n) {
      var w :| 1 <= w <= n && Divides(w, n) && Enc(w, n / w, 0) == k;
      WidthCovered(n, w);
    }
  }

  lemma WidthCovered(n: nat, w: nat)
    requires 1 <= w <= n && Divides(w, n)
    ensures Enc(w, n / w, 0) in AllWidthKeys(n)
  {
    DivideOut(w, n);
    var h := n / w;
    QuotientAtMost(n, w);
    NonZero(w, h, n);
    DivUnique(n, h, w);
    LargerSide(n, w, h);
    WidthKeysAre(n, w);
    WidthKeysAre(n, h);
    var k := Enc(w, h, 0);
    assert k in WidthKeys(n, w) && k in WidthKeys(n, h);
  }

  lemma LargerSide(n: nat, w: nat, h: nat)
    requires w * h == n
    ensures w >= RootCeiling(n) || h >= RootCeiling(n)
  {
    if w >= h { MulMono(h, w, w); } else { MulMono(w, h, h); }
  }

  // ---------- the loops, as methods ----------

  function FactorsBelow(prod: int, m: int): set<int> {
    (set i | i in SmallFactors(prod) && i < m)
    + set i | i in SmallFactors(prod) && i < m :: prod / i
  }

  lemma FactorStep(prod: nat, m: nat)
    requires 2 <= m < 100 && m * m <= prod
    ensures prod / m * m == prod <==> Divides(m, prod)
    ensures Divides(m, prod) ==> FactorsBelow(prod, m + 1) == FactorsBelow(prod, m) + {m, prod / m}
    ensures !Divides(m, prod) ==> FactorsBelow(prod, m + 1) == FactorsBelow(prod, m)
  {
    NoRemainder(prod, m, prod / m, prod % m);
    assert m in SmallFactors(prod) <==> Divides(m, prod);
  }

  lemma NoRemainder(n: nat, d: nat, q: nat, r: nat)
    requires d > 0 && q == n / d && r == n % d
    ensures q * d == n <==> r == 0
  {
    Division(n, d, q, r);
  }

  lemma NoMoreFactors(prod: nat, m: nat)
    requires 2 <= m && (m >= 100 || m * m > prod)
    ensures FactorsBelow(prod, m) == Factors(prod)
  {
    forall i | i in SmallFactors(prod) ensures i < m {
      if i >= m { MulMono(m, i, m); MulMono(m, i, i); }
    }
    assert forall i :: i in SmallFactors(prod) ==> i in FactorsBelow(prod, m) && prod / i in FactorsBelow(prod, m);
    assert FactorsBelow(prod, m) <= Factors(prod);
    forall d | d in Factors(prod) ensures d in FactorsBelow(prod, m) {
      var i :| i in SmallFactors(prod) && (d == i || d == prod / i);
    }
  }

  /** A divisor found by trial division is new, and so is its counterpart. */
  lemma NewFactors(prod: nat, m: nat)
    requires 2 <= m && m * m <= prod && Divides(m, prod)
    ensures m !in FactorsBelow(prod, m) && prod / m !in FactorsBelow(prod, m) && m <= prod / m
    ensures m == prod / m ==> (m + 1) * (m + 1) > prod
  {
    var q := prod / m;
    DivideOut(m, prod);
    ProperFactors(m, q, prod);
    forall i | i in SmallFactors(prod) && i < m ensures prod / i > q {
      DivideOut(i, prod);
      FartherApart(i, prod / i, m, q);
    }
    if m == q { MulMono(m, m + 1, m + 1); }
  }

  /** Of two ways to write a product, the one with the smaller factor has the larger counterpart. */
  lemma FartherApart(i: nat, c: nat, m: nat, q: nat)
    requires 0 < i < m <= q && i * c == m * q
    ensures c > q
  {
    if c <= q {
      MulMono(c, q, i);
      MulMono(i + 1, m, q);
    }
  }

  /** Trial division: all proper divisors in increasing order; None where the original panics. */
  method Factorize(prod: nat) returns (r: Option<seq<int>>)
    ensures r == None <==> prod > 10000
    ensures r.Some? ==> Elems(r.value) == Factors(prod) && Increasing(r.value)
  {
    if prod > 100 * 100 {
      return None;
    }
    var ret: seq<int> := [];
    var i1 := 2;
    while i1 < 100 && i1 * i1 <= prod
      invariant 2 <= i1 <= 100
      invariant Elems(ret) == FactorsBelow(prod, i1) && Distinct(ret)
      invariant |ret| == 1 ==> i1 * i1 > prod
      invariant |ret| == 2 ==> ret[0] < ret[1]
    {
      FactorStep(prod, i1);
      var i2 := prod / i1;
      if i2 * i1 == prod {
        NewFactors(prod, i1);
        AppendNew(ret, i1, i2);
        if i2 == i1 {
          ret := ret + [i1];
        } else {
          ret := ret + [i1, i2];
        }
      }
      i1 := i1 + 1;
    }
    NoMoreFactors(prod, i1);
    SortSorts(ret);
    if |ret| > 2 {
      ret := SortInts(ret);
    }
    return Some(ret);
  }

  method AppendTwoWays(cols: int, rows: int, x: int, y: int, plugs: seq<Plug>) returns (r: seq<Plug>)
    ensures Elems(r) == Elems(plugs) + TwoWays(cols, rows, x, y)
  {
    r := plugs;
    if rows > x && cols > y {
      r := r + [Plug(rows - x, y, x)];
      r := r + [Plug(cols - y, x, y)];
    }
    if rows > y && cols > x {
      r := r + [Plug(rows - y, x, y)];
      r := r + [Plug(cols - x, y, x)];
    }
  }

  /** All plugs for one rectangle; None where the original reads beyond its table of primes. */
  method PermutateEdges(prime: int -> bool, cols: int, rows: int, slack: int, plugs: seq<Plug>)
    returns (r: Option<seq<Plug>>)
    ensures r == None <==> slack >= PRIME_TABLE
    ensures r.Some? ==> Elems(r.value) == Elems(plugs) + EdgePlugs(prime, cols, rows, slack)
  {
    var all := plugs;
    if slack > 0 {
      all := AppendTwoWays(cols, rows, 1, slack, all);
      if slack >= PRIME_TABLE {
        return None;
      }
      if !prime(slack) {
        var factored := Factorize(slack);
        var factors := factored.value;
        forall x | x in factors ensures x != 0 {
          assert x in Elems(factors);
          FactorFound(slack, x);
        }
        all := AppendFactored(cols, rows, slack, factors, all);
      }
    }
    return Some(all);
  }

  method AppendFactored(cols: int, rows: int, slack: int, factors: seq<int>, plugs: seq<Plug>) returns (r: seq<Plug>)
    requires forall x :: x in factors ==> x != 0
    ensures Elems(r) == Elems(plugs) + FactorPlugs(cols, rows, slack, Elems(factors))
  {
    r := plugs;
    for i := 0 to |factors|
      invariant Elems(r) == Elems(plugs) + FactorPlugs(cols, rows, slack, Elems(factors[..i]))
    {
      var x := factors[i];
      assert x in factors;
      ElemsMore(factors, i);
      MorePlugs(cols, rows, slack, Elems(factors[..i]), x);
      ghost var before := Elems(r);
      r := AppendTwoWays(cols, rows, x, slack / x, r);
      assert Elems(r) == before + TwoWays(cols, rows, x, slack / x);
    }
    assert factors[..|factors|] == factors;
  }

  lemma MorePlugs(cols: int, rows: int, slack: int, xs: set<int>, x: int)
    requires x != 0
    ensures FactorPlugs(cols, rows, slack, xs + {x})
         == FactorPlugs(cols, rows, slack, xs) + TwoWays(cols, rows, x, slack / x)
  {
    forall p | p in TwoWays(cols, rows, x, slack / x) ensures p in FactorPlugs(cols, rows, slack, xs + {x}) {
      assert x in xs + {x};
    }
  }

  // ---------- all widths, all boxes ----------

  function WidthPlugsFrom(prime: int -> bool, n: nat, lo: nat, hi: nat): set<Plug> {
    set cols, p | lo <= cols < hi && 0 < cols && p in WidthPlugs(prime, n, cols) :: p
  }

  function WidthKeysFrom(n: nat, lo: nat, hi: nat): set<int> {
    set cols, k | lo <= cols < hi && 0 < cols && k in WidthKeys(n, cols) :: k
  }

  function BoxPlugsFrom(prime: int -> bool, n: nat, cols: int, lo: int, hi: int): set<Plug> {
    set rows, p | lo <= rows < hi && p in BoxPlugs(prime, n, cols, rows) :: p
  }

  function SuperPlugsFrom(prime: int -> bool, n: nat, lo: nat, hi: nat): set<Plug> {
    set cols, p | lo <= cols < hi && p in SuperPlugs(prime, n, cols) :: p
  }

  lemma SuperStep(prime: int -> bool, n: nat, root: nat, cols: nat, start: set<Plug>)
    requires root <= cols
    ensures start + SuperPlugsFrom(prime, n, root, cols + 1)
         == start + SuperPlugsFrom(prime, n, root, cols) + SuperPlugs(prime, n, cols)
  {}

  lemma NoMoreSuper(prime: int -> bool, n: nat, root: nat, cols: nat)
    requires cols == Super2(n) + 1 || (cols == root && cols > Super2(n))
    ensures SuperPlugsFrom(prime, n, root, cols) == SuperPlugsFrom(prime, n, root, Super2(n) + 1)
  {}

  lemma WidthStep(prime: int -> bool, n: nat, root: nat, cols: nat)
    requires root <= cols && 0 < cols
    ensures WidthPlugsFrom(prime, n, root, cols + 1)
         == WidthPlugsFrom(prime, n, root, cols) + WidthPlugs(prime, n, cols)
  {
    var f := c requires 0 < c => WidthPlugs(prime, n, c);
    RangeStep(f, root, cols);
    SamePlugs(prime, n, root, cols + 1, f);
    SamePlugs(prime, n, root, cols, f);
  }

  lemma SamePlugs(prime: int -> bool, n: nat, lo: nat, hi: nat, f: nat --> set<Plug>)
    requires forall c: nat :: 0 < c ==> f.requires(c) && f(c) == WidthPlugs(prime, n, c)
    ensures WidthPlugsFrom(prime, n, lo, hi) == set c, p | lo <= c < hi && 0 < c && p in f(c) :: p
  {}

  /** A union over a range of widths grows by the last width's share. */
  lemma RangeStep<T>(f: nat --> set<T>, lo: nat, hi: nat)
    requires lo <= hi && 0 < hi && forall c: nat :: 0 < c ==> f.requires(c)
    ensures (set c, p | lo <= c < hi + 1 && 0 < c && p in f(c) :: p)
         == (set c, p | lo <= c < hi && 0 < c && p in f(c) :: p) + f(hi)
  {}

  lemma WidthKeyStep(n: nat, root: nat, cols: nat)
    requires root <= cols && 0 < cols
    ensures WidthKeysFrom(n, root, cols + 1) == WidthKeysFrom(n, root, cols) + WidthKeys(n, cols)
  {
    assert forall k :: k in WidthKeysFrom(n, root, cols + 1) ==> k in WidthKeysFrom(n, root, cols) + WidthKeys(n, cols);
  }

  lemma BoxStep(prime: int -> bool, n: nat, cols: int, lo: int, rows: int, start: set<Plug>)
    requires lo <= rows
    ensures start + BoxPlugsFrom(prime, n, cols, lo, rows + 1)
         == start + BoxPlugsFrom(prime, n, cols, lo, rows) + BoxPlugs(prime, n, cols, rows)
  {}

  lemma BoxesAre(prime: int -> bool, n: nat, cols: nat)
    ensures BoxPlugsFrom(prime, n, cols, cols, Super1(n) + 1) == SuperPlugs(prime, n, cols)
  {}

  lemma AllPlugsAre(prime: int -> bool, n: nat)
    requires RootCeiling(n) <= n + 1
    ensures AllPlugs(prime, n)
         == WidthPlugsFrom(prime, n, RootCeiling(n), n + 1) + SuperPlugsFrom(prime, n, RootCeiling(n), Super2(n) + 1)
  {
    assert WidthPlugsFrom(prime, n, RootCeiling(n), n + 1)
        == set cols, p | RootCeiling(n) <= cols <= n && 0 < cols && p in WidthPlugs(prime, n, cols) :: p;
    assert SuperPlugsFrom(prime, n, RootCeiling(n), Super2(n) + 1)
        == set cols, p | RootCeiling(n) <= cols <= Super2(n) && p in SuperPlugs(prime, n, cols) :: p;
  }

  lemma RootAtMost(n: nat)
    requires n > 0
    ensures 0 < RootCeiling(n) <= n
  {
    MulMono(1, n, n);
    assert n * n >= n;
  }

  /** Up to 102 elements the slack of every box searched lies within the table of primes. */
  lemma SuperSlack(n: nat, cols: nat, rows: nat)
    requires n <= MOST_ELEMENTS && cols <= Super2(n) && rows <= Super1(n)
    ensures BoxSlack(n, cols, rows) < PRIME_TABLE
  {
    MulMono(cols, Super2(n), rows);
    MulMono(rows, Super1(n), Super2(n));
    if n <= 101 {
      MulMono(Super2(n), 51, Super1(n));
      MulMono(Super1(n), 51, 51);
    }
  }

  /** With more, the largest box is searched and lies beyond it. */
  lemma LargestBox(n: nat)
    requires n > MOST_ELEMENTS
    ensures RootCeiling(n) <= Super2(n) <= Super1(n) && BoxSlack(n, Super2(n), Super1(n)) >= PRIME_TABLE
  {
    var h := Super2(n);
    MulMono(52, h, h);
    assert h * h >= 52 * h;
    MulMono(h, Super1(n), h);
    if n % 2 == 0 {
      assert Super1(n) == h + 1 && n == 2 * h;
      assert h * (h + 1) == h * h + h;
    }
  }

  lemma SearchedSlack(n: nat, cols: nat, rows: nat)
    requires 0 < n <= MOST_ELEMENTS && Searched(n, cols, rows)
    ensures BoxSlack(n, cols, rows) < PRIME_TABLE
  {
    if !(0 < cols <= n && rows == OtherSide(n, cols).0) { SuperSlack(n, cols, rows); }
  }

  /** Some rectangle tried for n elements has this edge's kerf for its slack. */
  ghost predicate Conceivable(n: nat, p: Plug) {
    exists cols: nat, rows: nat :: Searched(n, cols, rows) && BoxSlack(n, cols, rows) > 0
                         && KerfOf(p, cols, rows, BoxSlack(n, cols, rows))
  }

  /** The plugs of n elements are exactly the conceivable ones: none is missed, whatever its kerf. */
  lemma AllPlugsIff(prime: int -> bool, n: nat, p: Plug)
    requires 0 < n <= MOST_ELEMENTS && PrimesTold(prime)
    ensures p in AllPlugs(prime, n) <==> Conceivable(n, p)
  {
    AllPlugsAreBoxes(prime, n, p);
    forall cols: nat, rows: nat | Searched(n, cols, rows)
      ensures p in BoxPlugs(prime, n, cols, rows) <==>
        BoxSlack(n, cols, rows) > 0 && KerfOf(p, cols, rows, BoxSlack(n, cols, rows))
    {
      SearchedSlack(n, cols, rows);
      EdgePlugsIff(prime, cols, rows, BoxSlack(n, cols, rows), p);
    }
  }

  /** In other words: the edge inscribes them in a rectangle that is tried, this way or the other around. */
  lemma ConceivableIff(n: nat, p: Plug)
    ensures Conceivable(n, p) <==>
      exists r: nat :: Inscribes(n, p, r) && (Searched(n, p.x1 + p.x2, r) || Searched(n, r, p.x1 + p.x2))
  {
    var wide := p.x1 + p.x2;
    if Conceivable(n, p) {
      var cols: nat, rows: nat :| Searched(n, cols, rows) && BoxSlack(n, cols, rows) > 0
                                  && KerfOf(p, cols, rows, BoxSlack(n, cols, rows));
      KerfInscribes(cols, rows, n, p, wide);
      var r := if wide == cols && p.y < rows then rows else cols;
      assert Inscribes(n, p, r) && (Searched(n, wide, r) || Searched(n, r, wide));
    }
    if r: nat :| Inscribes(n, p, r) && (Searched(n, wide, r) || Searched(n, r, wide)) {
      KerfBack(n, p, wide, r);
    }
  }

  lemma KerfBack(n: nat, p: Plug, wide: nat, r: nat)
    requires Inscribes(n, p, r) && wide == p.x1 + p.x2 && (Searched(n, wide, r) || Searched(n, r, wide))
    ensures Conceivable(n, p)
  {
    MulMono(1, p.x2, p.y);
    assert wide * r == r * wide && wide * r - n == p.x2 * p.y;
    if Searched(n, wide, r) {
      assert KerfOf(p, wide, r, BoxSlack(n, wide, r));
    } else {
      assert KerfOf(p, r, wide, BoxSlack(n, r, wide));
    }
  }

  /** Not all shapes are tried: twelve elements fill three by ten but for two by nine, and are not listed so. */
  lemma MissedShape()
    ensures Inscribes(12, Plug(1, 9, 2), 10) && !Conceivable(12, Plug(1, 9, 2))
  {
    ConceivableIff(12, Plug(1, 9, 2));
    forall r: nat | Inscribes(12, Plug(1, 9, 2), r) ensures !Searched(12, 3, r) && !Searched(12, r, 3) {
      assert r == 10 && RootCeiling(12) > 3;
      assert OtherSide(12, 10) == (2, 8);
    }
  }

  // ---------- what the indexes hold ----------

  datatype Kind = Elements | Slackless | Edges | Condensed

  /** The keys under which one index lists an amorph of n elements. */
  function Keys(prime: int -> bool, kind: Kind, n: nat): set<int> {
    match kind
    case Elements => {n}
    case Slackless => SlackKeys(n)
    case Edges => PlugKeys(AllPlugs(prime, n))
    case Condensed => CondKeys(AllPlugs(prime, n))
  }

  ghost predicate Known(ams: seq<Amorph>, id: int) {
    0 <= id < |ams| && ams[id].IdxArticle == id && 0 < Base(ams[id]) <= MOST_ELEMENTS
  }

  /** Stored under another number than its own, or listed by a wrong number of elements. */
  ghost predicate Wrong(m: Index, ams: seq<Amorph>, id: int) {
    0 <= id < |ams| && (Known(ams, id) ==> exists k :: id in Get(m, k) && k != Base(ams[id]))
  }

  ghost predicate AllKnown(ams: seq<Amorph>, live: set<int>) { forall id :: id in live ==> Known(ams, id) }

  /** The index lists exactly the live amorphs, each under exactly its own keys. */
  ghost predicate Exact(prime: int -> bool, kind: Kind, m: Index, ams: seq<Amorph>, live: set<int>) {
    && NoEmpty(m)
    && AllKnown(ams, live)
    && forall k, id :: id in Get(m, k) <==> id in live && k in Keys(prime, kind, Base(ams[id]))
  }

  /** Whatever an exact index lists is unspent. */
  lemma ListedIsLive(prime: int -> bool, kind: Kind, m: Index, ams: seq<Amorph>, live: set<int>, k: int, id: int)
    requires Exact(prime, kind, m, ams, live) && id in Get(m, k)
    ensures id in live && Known(ams, id) && k in Keys(prime, kind, Base(ams[id]))
  {
    assert AllKnown(ams, live);
  }

  /** So the slackless index lists an amorph of fewer than a hundred elements under w x h exactly when it
      has w * h elements. */
  lemma SlacklessIndex(prime: int -> bool, m: Index, ams: seq<Amorph>, live: set<int>, id: int, w: nat, h: nat)
    requires Exact(prime, Slackless, m, ams, live) && Digit(w) && Digit(h)
    requires Known(ams, id) ==> Base(ams[id]) < FACTOR
    ensures id in Get(m, Enc(w, h, 0)) <==> id in live && Known(ams, id) && w * h == Base(ams[id])
  {
    if id in live {
      assert Known(ams, id);
      SlacklessExactly(Base(ams[id]), w, h);
    }
  }

  lemma ExactAdd(prime: int -> bool, kind: Kind, m: Index, m': Index, ams: seq<Amorph>, live: set<int>, a: Amorph)
    requires Exact(prime, kind, m, ams, live) && a.IdxArticle == |ams| && 0 < Base(a) <= MOST_ELEMENTS
    requires Changed(m, m', Keys(prime, kind, Base(a)), |ams|, false)
    ensures Exact(prime, kind, m', ams + [a], live + {|ams|})
  {
    assert |ams| !in live;
    forall id | id in live ensures (ams + [a])[id] == ams[id] { assert Known(ams, id); }
    forall id | id in live + {|ams|} ensures Known(ams + [a], id) {
      if id in live { assert Known(ams, id); }
    }
  }

  lemma ExactRemove(prime: int -> bool, kind: Kind, m: Index, m': Index, ams: seq<Amorph>, live: set<int>, id: int)
    requires Exact(prime, kind, m, ams, live) && id in live && Known(ams, id)
    requires Changed(m, m', Keys(prime, kind, Base(ams[id])), id, true)
    ensures Exact(prime, kind, m', ams, live - {id})
  {}

  /** An index for the others does not depend on the amorph that is gone. */
  lemma ExactElsewhere(
    prime: int -> bool, kind: Kind, m: Index, ams: seq<Amorph>, live: set<int>, id: int, filed: Amorph)
    requires 0 <= id < |ams| && id !in live && Exact(prime, kind, m, ams[id := filed], live)
    ensures Exact(prime, kind, m, ams, live)
  {
    forall i | i in live ensures Known(ams, i) && ams[i] == ams[id := filed][i] {
      assert Known(ams[id := filed], i);
    }
  }

  /** Removal under another number of elements leaves the entry under the right one behind. */
  lemma StaysListed(prime: int -> bool, m: Index, m': Index, ams: seq<Amorph>, live: set<int>, id: int, n: int)
    requires Exact(prime, Elements, m, ams, live) && id in live && Base(ams[id]) != n
    requires Changed(m, m', {n}, id, true)
    ensures id in Get(m', Base(ams[id]))
    ensures forall now :: !Exact(prime, Elements, m', now, live - {id})
  {
    assert id in Get(m, Base(ams[id]));
  }

  lemma ExactSameBase(prime: int -> bool, kind: Kind, m: Index, ams: seq<Amorph>, live: set<int>, id: int, a: Amorph)
    requires Exact(prime, kind, m, ams, live) && id in live && Known(ams, id)
    requires a.IdxArticle == id && Base(a) == Base(ams[id])
    ensures Exact(prime, kind, m, ams[id := a], live)
  {
    var ams' := ams[id := a];
    forall i | i in live ensures Known(ams', i) && Base(ams'[i]) == Base(ams[i]) {
      assert Known(ams, i);
    }
    forall k, i ensures i in Get(m, k) <==> i in live && k in Keys(prime, kind, Base(ams'[i])) {
      if i in live { assert Base(ams'[i]) == Base(ams[i]); }
    }
  }

  class Stock {
    var Amorphs: seq<Amorph>
    var MElements: Index
    var Edge3: Index
    var EdgeCond: Index
    var EdgesSlackless: Index
    const prime: int -> bool
    ghost var live: set<int>    // amorphs added and not yet spent

    constructor (prime: int -> bool)
      ensures Valid() && Amorphs == [] && live == {}
    {
      this.prime := prime;
      Amorphs, live := [], {};
      MElements, Edge3, EdgeCond, EdgesSlackless := map[], map[], map[], map[];
    }

    ghost function IndexOf(kind: Kind): Index
      reads this`MElements, this`EdgesSlackless, this`Edge3, this`EdgeCond
    {
      match kind
      case Elements => MElements
      case Slackless => EdgesSlackless
      case Edges => Edge3
      case Condensed => EdgeCond
    }

    /** All four indexes are exact for the live amorphs. */
    ghost predicate Valid()
      reads this
    {
      AllKnown(Amorphs, live) && forall kind :: Exact(prime, kind, IndexOf(kind), Amorphs, live)
    }

    /** Puts one amorph's shapes into the three shape indexes, or takes them out. False where the original
        panics: no width to divide by, or a slack beyond the table of primes. */
    method PermutateShapes(am: Amorph, doRemoval: bool) returns (ok: bool)
      requires Base(am) >= 0
      modifies this`Edge3, this`EdgeCond, this`EdgesSlackless
      ensures ok <==> 0 < Base(am) <= MOST_ELEMENTS
      ensures ok ==>
        Changed(old(EdgesSlackless), EdgesSlackless, Keys(prime, Slackless, Base(am)), am.IdxArticle, doRemoval)
      ensures ok ==> Changed(old(Edge3), Edge3, Keys(prime, Edges, Base(am)), am.IdxArticle, doRemoval)
      ensures ok ==> Changed(old(EdgeCond), EdgeCond, Keys(prime, Condensed, Base(am)), am.IdxArticle, doRemoval)
    {
      var n: nat := am.NElements - am.Padded;
      if n == 0 {
        return false;
      }
      RootAtMost(n);
      AllPlugsAre(prime, n);
      var plugs := PermutateWidths(n, am.IdxArticle, doRemoval);
      if plugs == None {
        return false;
      }
      plugs := PermutateBoxes(n, plugs.value);
      if plugs == None {
        return false;
      }
      AttachKerfs(plugs.value, am.IdxArticle, doRemoval);
      return true;
    }

    method PermutateWidths(n: nat, id: int, doRemoval: bool) returns (plugs: Option<seq<Plug>>)
      requires 0 < n
      modifies this`EdgesSlackless
      ensures plugs == None ==> n > MOST_ELEMENTS
      ensures plugs.Some? ==> Elems(plugs.value) == WidthPlugsFrom(prime, n, RootCeiling(n), n + 1)
      ensures plugs.Some? ==> Changed(old(EdgesSlackless), EdgesSlackless, SlackKeys(n), id, doRemoval)
    {
      var root := RootCeiling(n);
      RootAtMost(n);
      plugs := Some([]);
      assert WidthKeysFrom(n, root, root) == {} && WidthPlugsFrom(prime, n, root, root) == {};
      for cols := root to n + 1
        invariant plugs.Some? && Elems(plugs.value) == WidthPlugsFrom(prime, n, root, cols)
        invariant Changed(old(EdgesSlackless), EdgesSlackless, WidthKeysFrom(n, root, cols), id, doRemoval)
      {
        var (rows, slack) := OtherSide(n, cols);
        WidthKeyStep(n, root, cols);
        if slack == 0 {
          EdgesSlackless := AddBoth(old(EdgesSlackless), EdgesSlackless, WidthKeysFrom(n, root, cols),
                                    id, doRemoval, Enc(cols, rows, 0), Enc(rows, cols, 0));
        }
        WidthStep(prime, n, root, cols);
        plugs := PermutateEdges(prime, cols, rows, slack, plugs.value);
        if plugs == None {
          return;
        }
      }
      WidthsCover(n);
      assert WidthKeysFrom(n, root, n + 1) == AllWidthKeys(n);
    }

    method PermutateBoxes(n: nat, plugs0: seq<Plug>) returns (plugs: Option<seq<Plug>>)
      requires 0 < n
      ensures plugs == None <==> n > MOST_ELEMENTS
      ensures plugs.Some? ==>
        Elems(plugs.value) == Elems(plugs0) + SuperPlugsFrom(prime, n, RootCeiling(n), Super2(n) + 1)
    {
      plugs := Some(plugs0);
      var superEdge1 := n / 2 + 1;
      var superEdge2 := superEdge1;
      if n % 2 == 0 {
        superEdge2 := n / 2;
      }
      var cols := RootCeiling(n);
      ghost var root := cols;
      assert SuperPlugsFrom(prime, n, root, root) == {};
      while cols <= superEdge2
        invariant root <= cols
        invariant cols <= superEdge2 + 1 || cols == root
        invariant plugs.Some? && Elems(plugs.value) == Elems(plugs0) + SuperPlugsFrom(prime, n, root, cols)
        invariant cols > superEdge2 >= root && Super2(n) <= Super1(n)
          ==> BoxSlack(n, Super2(n), Super1(n)) < PRIME_TABLE
      {
        plugs := PermutateRows(n, cols, superEdge1, plugs.value);
        if plugs == None {
          return;
        }
        SuperStep(prime, n, root, cols, Elems(plugs0));
        cols := cols + 1;
      }
      NoMoreSuper(prime, n, root, cols);
      if n > MOST_ELEMENTS { LargestBox(n); }
    }

    method PermutateRows(n: nat, cols: nat, superEdge1: nat, plugs0: seq<Plug>) returns (plugs: Option<seq<Plug>>)
      requires 0 < n && cols <= Super2(n) && superEdge1 == Super1(n)
      ensures plugs == None ==> n > MOST_ELEMENTS
      ensures plugs.Some? ==> Elems(plugs.value) == Elems(plugs0) + SuperPlugs(prime, n, cols)
      ensures plugs.Some? && cols <= superEdge1 ==> BoxSlack(n, cols, superEdge1) < PRIME_TABLE
    {
      plugs := Some(plugs0);
      assert BoxPlugsFrom(prime, n, cols, cols, cols) == {};
      for rows := cols to superEdge1 + 1
        invariant plugs.Some? && Elems(plugs.value) == Elems(plugs0) + BoxPlugsFrom(prime, n, cols, cols, rows)
        invariant rows > cols ==> BoxSlack(n, cols, rows - 1) < PRIME_TABLE
      {
        plugs := PermutateBox(n, cols, rows, plugs.value, Elems(plugs0));
        if plugs == None {
          return;
        }
      }
      BoxesAre(prime, n, cols);
    }

    method PermutateBox(n: nat, cols: nat, rows: nat, plugs0: seq<Plug>, ghost start: set<Plug>)
      returns (plugs: Option<seq<Plug>>)
      requires cols <= Super2(n) && cols <= rows <= Super1(n)
      requires Elems(plugs0) == start + BoxPlugsFrom(prime, n, cols, cols, rows)
      ensures plugs == None ==> n > MOST_ELEMENTS
      ensures plugs.Some? ==> Elems(plugs.value) == start + BoxPlugsFrom(prime, n, cols, cols, rows + 1)
      ensures plugs.Some? ==> BoxSlack(n, cols, rows) < PRIME_TABLE
    {
      if n <= MOST_ELEMENTS { SuperSlack(n, cols, rows); }
      BoxStep(prime, n, cols, cols, rows, start);
      plugs := PermutateEdges(prime, cols, rows, BoxSlack(n, cols, rows), plugs0);
    }

    method AttachKerfs(plugs: seq<Plug>, id: int, doRemoval: bool)
      modifies this`Edge3, this`EdgeCond
      ensures Changed(old(Edge3), Edge3, PlugKeys(Elems(plugs)), id, doRemoval)
      ensures Changed(old(EdgeCond), EdgeCond, CondKeys(Elems(plugs)), id, doRemoval)
    {
      for i := 0 to |plugs|
        invariant Changed(old(Edge3), Edge3, PlugKeys(Elems(plugs[..i])), id, doRemoval)
        invariant Changed(old(EdgeCond), EdgeCond, CondKeys(Elems(plugs[..i])), id, doRemoval)
      {
        var k := plugs[i];
        ElemsMore(plugs, i);
        assert PlugKeys(Elems(plugs[..i + 1])) == PlugKeys(Elems(plugs[..i])) + {PlugKey(k)};
        assert CondKeys(Elems(plugs[..i + 1])) == CondKeys(Elems(plugs[..i])) + {CondKey(k)};
        ChangedMore(old(Edge3), Edge3, PlugKeys(Elems(plugs[..i])), id, doRemoval, PlugKey(k));
        Edge3 := SubmapAddRemove(doRemoval, Edge3, Enc(k.x1, k.y, k.x2), id);
        ChangedMore(old(EdgeCond), EdgeCond, CondKeys(Elems(plugs[..i])), id, doRemoval, CondKey(k));
        EdgeCond := SubmapAddRemove(doRemoval, EdgeCond, CondKey(k), id);
      }
      assert plugs[..|plugs|] == plugs;
    }

    /** Some amorph counted as unspent is stored or listed wrongly. */
    ghost predicate Spoiled()
      reads this
    {
      exists id :: id in live && Wrong(MElements, Amorphs, id)
    }

    lemma SpoiledIsInvalid()
      requires Spoiled()
      ensures !Valid()
    {
      var id :| id in live && Wrong(MElements, Amorphs, id);
      assert Valid() ==> Exact(prime, Elements, IndexOf(Elements), Amorphs, live);
    }

    /** Appends one amorph under the next position and indexes it; false where the original panics. The
        indexes stay exact if and only if it comes unpadded and without an index number of its own; what
        was wrong stays wrong. */
    method AddAmorph(a: Amorph) returns (ok: bool)
      requires ElementsOf(a) >= a.Padded
      modifies this
      ensures ok <==> 0 < ElementsOf(a) - a.Padded <= MOST_ELEMENTS
      ensures ok ==> live == old(live) + {|old(Amorphs)|} && Amorphs == old(Amorphs) + [Stored(a, |old(Amorphs)|)]
      ensures ok && old(Valid()) && Plain(a, |old(Amorphs)|) ==> Valid()
      ensures ok && (old(Spoiled()) || !Plain(a, |old(Amorphs)|)) ==> Spoiled()
    {
      ghost var pos, lp := |Amorphs|, Stored(a, |Amorphs|);
      ok := Enlist(a);
      if !ok {
        return;
      }
      StillSpoiled(old(MElements), old(Amorphs), old(live), lp);
      if Plain(a, pos) {
        forall kind ensures old(Valid()) ==> Exact(prime, kind, IndexOf(kind), Amorphs, live) {
          if old(Valid()) {
            ExactAdd(prime, kind, old(IndexOf(kind)), IndexOf(kind), old(Amorphs), old(live), lp);
          }
        }
      } else {
        if lp.IdxArticle == pos { assert pos in Get(MElements, lp.NElements); }
        assert Wrong(MElements, Amorphs, pos);
      }
    }

    /** What AddAmorph does to the list and the indexes. */
    method Enlist(a: Amorph) returns (ok: bool)
      requires ElementsOf(a) >= a.Padded
      modifies this
      ensures ok <==> 0 < ElementsOf(a) - a.Padded <= MOST_ELEMENTS
      ensures ok ==> live == old(live) + {|old(Amorphs)|} && Amorphs == old(Amorphs) + [Stored(a, |old(Amorphs)|)]
      ensures ok ==> var lp := Stored(a, |old(Amorphs)|);
        && Changed(old(MElements), MElements, {lp.NElements}, lp.IdxArticle, false)
        && Changed(old(EdgesSlackless), EdgesSlackless, Keys(prime, Slackless, Base(lp)), lp.IdxArticle, false)
        && Changed(old(Edge3), Edge3, Keys(prime, Edges, Base(lp)), lp.IdxArticle, false)
        && Changed(old(EdgeCond), EdgeCond, Keys(prime, Condensed, Base(lp)), lp.IdxArticle, false)
    {
      ghost var pos := |Amorphs|;
      var lp := Stored(a, |Amorphs|);
      Amorphs := Amorphs + [lp];
      ok := PermutateShapes(lp, false);
      if !ok {
        return;
      }
      ChangedMore(MElements, MElements, {}, lp.IdxArticle, false, lp.NElements);
      MElements := SubmapAddRemove(false, MElements, lp.NElements, lp.IdxArticle);
      assert {} + {lp.NElements} == {lp.NElements};
      live := live + {pos};
    }

    /** Entries and stored amorphs only come to what there was. */
    lemma StillSpoiled(m: Index, ams: seq<Amorph>, was: set<int>, lp: Amorph)
      requires Amorphs == ams + [lp] && was <= live
      requires forall k, i :: i in Get(m, k) ==> i in Get(MElements, k)
      ensures (exists id :: id in was && Wrong(m, ams, id)) ==> Spoiled()
    {
      if id :| id in was && Wrong(m, ams, id) {
        assert Amorphs[id] == ams[id] && Wrong(MElements, Amorphs, id);
      }
    }

    /** AddAmorphs: the new amorphs are appended and indexed under their positions; false where the
        original panics at one of them. The indexes stay exact if and only if all of them come unpadded
        and without an index number of their own. */
    method AddAmorphs(newA: seq<Amorph>) returns (ok: bool)
      requires Valid()
      requires forall a :: a in newA ==> ElementsOf(a) >= a.Padded
      modifies this
      ensures ok <==> forall i :: 0 <= i < |newA| ==> 0 < ElementsOf(newA[i]) - newA[i].Padded <= MOST_ELEMENTS
      ensures ok ==> |Amorphs| == |old(Amorphs)| + |newA| && old(Amorphs) <= Amorphs
      ensures ok ==> forall i :: 0 <= i < |newA| ==>
        var id := |old(Amorphs)| + i; Amorphs[id] == Stored(newA[i], id)
      ensures ok ==> forall id :: id in live <==> id in old(live) || |old(Amorphs)| <= id < |Amorphs|
      ensures ok ==> (Valid() <==> forall i :: 0 <= i < |newA| ==> Plain(newA[i], |old(Amorphs)| + i))
    {
      ghost var start := |Amorphs|;
      ghost var good := true;
      ok := true;
      for i := 0 to |newA|
        invariant ok && |Amorphs| == start + i && old(Amorphs) <= Amorphs
        invariant forall j :: 0 <= j < i ==> 0 < ElementsOf(newA[j]) - newA[j].Padded <= MOST_ELEMENTS
        invariant forall j :: 0 <= j < i ==> Amorphs[start + j] == Stored(newA[j], start + j)
        invariant forall id :: id in live <==> id in old(live) || start <= id < |Amorphs|
        invariant good <==> forall j :: 0 <= j < i ==> Plain(newA[j], start + j)
        invariant if good then Valid() else Spoiled()
      {
        ok := AddAmorph(newA[i]);
        if !ok {
          return;
        }
        good := good && Plain(newA[i], start + i);
      }
      if !good { SpoiledIsInvalid(); }
    }

    /** Takes a chosen amorph, however reshaped or padded, out of every index; false where the original
        panics. `filed` is the amorph as it was when it was indexed; afterwards the indexes are exact for
        the others if and only if the number of elements they go by has not changed since. */
    method RemoveSpentEdges(am: Amorph, ghost filed: Amorph) returns (ok: bool)
      requires am.IdxArticle in live && 0 <= am.IdxArticle < |Amorphs| && Base(am) >= 0
      requires Filed(am.IdxArticle, filed)
      modifies this`MElements, this`Edge3, this`EdgeCond, this`EdgesSlackless, this`live
      ensures ok <==> 0 < Base(am) <= MOST_ELEMENTS
      ensures ok ==> live == old(live) - {am.IdxArticle}
      ensures ok ==> (Valid() <==> Base(am) == Base(filed))
    {
      ghost var id, ams := am.IdxArticle, Amorphs[am.IdxArticle := filed];
      assert Exact(prime, Elements, IndexOf(Elements), ams, live);
      ChangedMore(MElements, MElements, {}, am.IdxArticle, true, Base(am));
      MElements := SubmapAddRemove(true, MElements, am.NElements - am.Padded, am.IdxArticle);
      ok := PermutateShapes(am, true);
      if !ok {
        return;
      }
      live := live - {am.IdxArticle};
      assert {} + {Base(am)} == Keys(prime, Elements, Base(am));
      forall kind ensures Base(am) == Base(filed) ==> Exact(prime, kind, IndexOf(kind), Amorphs, live) {
        if Base(am) == Base(filed) {
          ExactRemove(prime, kind, old(IndexOf(kind)), IndexOf(kind), ams, old(live), id);
          ExactElsewhere(prime, kind, IndexOf(kind), Amorphs, live, id, filed);
        }
      }
      if Base(am) != Base(filed) {
        StaysListed(prime, old(MElements), MElements, ams, old(live), id, Base(am));
        assert IndexOf(Elements) == MElements;
      }
    }

    /** All indexes are exact for the amorphs as they are, except that one counts as it was filed. */
    ghost predicate Filed(id: int, filed: Amorph)
      requires 0 <= id < |Amorphs|
      reads this
    {
      AllKnown(Amorphs[id := filed], live)
      && forall kind :: Exact(prime, kind, IndexOf(kind), Amorphs[id := filed], live)
    }

    /** ByNumElementsWrap's tail: reshapes the stored amorph to width x1 and pads it. The
        number of elements the indexes go by survives unless it had been padded before. */
    method PadToWidth(id: int, x1: nat)
      requires Valid() && id in live && Known(Amorphs, id) && x1 > 0
      modifies this`Amorphs
      ensures live == old(live) && |Amorphs| == |old(Amorphs)|
      ensures forall i :: 0 <= i < |Amorphs| && i != id ==> Amorphs[i] == old(Amorphs)[i]
      ensures var a := Amorphs[id];
        a.IdxArticle == id && a.Cols == x1 && a.Slack == 0 && a.Cols * a.Rows == a.NElements
      ensures var slack := OtherSide(old(Amorphs)[id].NElements, x1).1;
        Amorphs[id].NElements == old(Amorphs)[id].NElements + slack && slack < x1 &&
        (Base(Amorphs[id]) == Base(old(Amorphs)[id]) <==> slack == 0 || old(Amorphs)[id].Padded == 0)
      ensures old(Amorphs)[id].Padded == 0 ==> Valid()
      ensures Filed(id, old(Amorphs)[id]) && Amorphs[id] == Padded(old(Amorphs)[id], x1)
    {
      var was := Amorphs[id];
      var chosen := Padded(was, x1);
      Amorphs := Amorphs[id := chosen];
      assert Amorphs[id := was] == old(Amorphs);
      if was.Padded == 0 {
        forall kind ensures Exact(prime, kind, IndexOf(kind), Amorphs, live) {
          ExactSameBase(prime, kind, IndexOf(kind), old(Amorphs), live, id, chosen);
        }
      }
    }

    /** Choosing an amorph by its number of elements and taking it out of the indexes, as the loop
        over the fusions does: the others stay indexed exactly if and only if the amorph has not
        been padded twice. False where the removal panics, as padding can leave too many elements. */
    method PadAndRemove(id: int, x1: nat) returns (ok: bool)
      requires Valid() && id in live && Known(Amorphs, id) && x1 > 0
      requires Amorphs[id].Padded <= Amorphs[id].NElements
      modifies this
      ensures ok <==> Base(Padded(old(Amorphs)[id], x1)) <= MOST_ELEMENTS
      ensures ok ==> live == old(live) - {id}
      ensures ok ==> (Valid() <==>
        old(Amorphs)[id].Padded == 0 || OtherSide(old(Amorphs)[id].NElements, x1).1 == 0)
    {
      ghost var filed := Amorphs[id];
      PadToWidth(id, x1);
      ok := RemoveSpentEdges(Amorphs[id], filed);
    }

    /** One amorph listed under an edge is reshaped to it; None where the original panics, which it does
        not for an edge of two-digit numbers. */
    method ReshapeIndexed(amIdx: int, x1: int, y: int, x2: int) returns (r: Option<Amorph>)
      requires Valid() && amIdx in Get(Edge3, Enc(x1, y, x2))
      ensures amIdx in live && Known(Amorphs, amIdx)
      ensures r == Outcome(Amorphs[amIdx], x1, y, x2)
      ensures Digit(x1) && Digit(Abs(y)) && Digit(x2) ==> r.Some?
    {
      assert Exact(prime, Edges, IndexOf(Edges), Amorphs, live);
      ListedIsLive(prime, Edges, IndexOf(Edges), Amorphs, live, Enc(x1, y, x2), amIdx);
      r := Reshape(Amorphs[amIdx], x1, y, x2);
      if Digit(x1) && Digit(Abs(y)) && Digit(x2) {
        CodeHasWidth(prime, Base(Amorphs[amIdx]), x1, y, x2);
        NeverPanics(Amorphs[amIdx].NElements, x1, Abs(y), x2);
      }
    }

    lemma AllListed(order: seq<int>, key: int)
      requires Valid() && Elems(order) == Get(Edge3, key)
      ensures AllStored(Amorphs, order) && forall i :: 0 <= i < |order| ==> order[i] in live && Known(Amorphs, order[i])
    {
      assert Exact(prime, Edges, IndexOf(Edges), Amorphs, live);
      forall i | 0 <= i < |order| ensures order[i] in live && Known(Amorphs, order[i]) {
        assert order[i] in Elems(order);
        ListedIsLive(prime, Edges, IndexOf(Edges), Amorphs, live, key, order[i]);
      }
    }

    /** exactStairyEdge: copies of the amorphs indexed under the edge, reshaped to it, at most `limit` of
        them but never none if there is one; None where one of them panics. `order` is the order in
        which the map is ranged over, which is unspecified. */
    method ExactStairyEdge(x1: int, y: int, x2: int, limit: int, order: seq<int>) returns (r: Option<seq<Amorph>>)
      requires Valid() && Elems(order) == Get(Edge3, Enc(x1, y, x2))
      ensures AllStored(Amorphs, order) && forall i :: 0 <= i < |order| ==> order[i] in live && Known(Amorphs, order[i])
      ensures r == Outcomes(Amorphs, order, Tried(|order|, limit), x1, y, x2)
      ensures r.Some? && limit >= |order| ==> |r.value| == |order|
      ensures r.Some? && limit < |order| && order != [] ==> |r.value| == if limit > 0 then limit else 1
      ensures Digit(x1) && Digit(Abs(y)) && Digit(x2) ==> r.Some?
    {
      var amorphs: seq<Amorph> := [];
      AllListed(order, Enc(x1, y, x2));
      for i := 0 to |order|
        invariant |amorphs| == i && (i == 0 || i < limit)
        invariant Outcomes(Amorphs, order, i, x1, y, x2) == Some(amorphs)
      {
        assert order[i] in Elems(order);
        var lp := ReshapeIndexed(order[i], x1, y, x2);
        if lp == None {
          NoOutcome(Amorphs, order, i + 1, Tried(|order|, limit), x1, y, x2);
          return None;
        }
        amorphs := amorphs + [lp.value];
        if |amorphs| >= limit {
          return Some(amorphs);
        }
      }
      return Some(amorphs);
    }
  }

  /** How many of n listed amorphs are reshaped. */
  function Tried(n: nat, limit: int): nat {
    var most := if limit < 1 then 1 else limit;
    if n < most then n else most
  }

  /** What becomes of one listed amorph. */
  function Outcome(am: Amorph, x1: int, y: int, x2: int): Option<Amorph> {
    if x1 + x2 <= 0 then None
    else if RowsFor(am.NElements, x1 + x2, Abs(y), Abs(x2) * Abs(y)) > OtherSide(am.NElements, x1 + x2).0 + 100
    then None
    else Some(Reshaped(am, x1, y, x2))
  }

  predicate AllStored(ams: seq<Amorph>, order: seq<int>) {
    forall i :: 0 <= i < |order| ==> 0 <= order[i] < |ams|
  }

  /** The first n listed amorphs reshaped, or None where one of them panics. */
  function Outcomes(ams: seq<Amorph>, order: seq<int>, n: nat, x1: int, y: int, x2: int): Option<seq<Amorph>>
    requires AllStored(ams, order) && n <= |order|
  {
    if n == 0 then Some([])
    else
      var before := Outcomes(ams, order, n - 1, x1, y, x2);
      var here := Outcome(ams[order[n - 1]], x1, y, x2);
      if before.Some? && here.Some? then Some(before.value + [here.value]) else None
  }

  lemma {:induction false} NoOutcome(
    ams: seq<Amorph>, order: seq<int>, i: nat, n: nat, x1: int, y: int, x2: int)
    requires AllStored(ams, order) && i <= n <= |order| && Outcomes(ams, order, i, x1, y, x2) == None
    ensures Outcomes(ams, order, n, x1, y, x2) == None
  {
    if i < n {
      NoOutcome(ams, order, i, n - 1, x1, y, x2);
    }
  }

  /** Each returned amorph is its own outcome; none is returned exactly if one of them panics. */
  lemma {:induction false} OutcomesAre(ams: seq<Amorph>, order: seq<int>, n: nat, x1: int, y: int, x2: int)
    requires AllStored(ams, order) && n <= |order|
    ensures match Outcomes(ams, order, n, x1, y, x2)
      case None => exists i :: 0 <= i < n && Outcome(ams[order[i]], x1, y, x2) == None
      case Some(amorphs) =>
        |amorphs| == n && forall i :: 0 <= i < n ==> Outcome(ams[order[i]], x1, y, x2) == Some(amorphs[i])
  {
    if n > 0 {
      OutcomesAre(ams, order, n - 1, x1, y, x2);
    }
  }

  /** `a` is a live amorph in the shape the edge asks for: as wide as the edge, higher than
      the kerf, and with exactly the kerf for slack. */
  ghost predicate Rebuilt(ams: seq<Amorph>, live: set<int>, a: Amorph, x1: nat, y: nat, x2: nat) {
    && a.IdxArticle in live && Known(ams, a.IdxArticle)
    && a.NElements == ams[a.IdxArticle].NElements
    && a.Cols == x1 + x2 && a.Rows > y && a.Edge == [x1, y, x2]
    && a.Slack == x2 * y && a.Cols * a.Rows - a.Slack == a.NElements
  }

  /** Every code an amorph is listed under has a width in it. */
  lemma CodeHasWidth(prime: int -> bool, n: nat, x1: int, y: int, x2: int)
    requires Digit(x1) && Digit(Abs(y)) && Digit(x2) && Enc(x1, y, x2) in Keys(prime, Edges, n)
    ensures x1 + x2 > 0
  {
    var p :| p in AllPlugs(prime, n) && PlugKey(p) == Enc(x1, y, x2);
    AllPlugsInscribe(prime, n, p);
  }

  /** Lookup by code finds only amorphs whose own plugs contain the triple. (With 102 elements some plugs
      have a part of three digits, whose code is that of a triple with a zero.) */
  lemma IndexedPlug(prime: int -> bool, m: Index, ams: seq<Amorph>, live: set<int>, id: int, x1: nat, y: nat, x2: nat)
    requires Exact(prime, Edges, m, ams, live) && id in Get(m, Enc(x1, y, x2))
    requires Digit(x1) && Digit(y) && Digit(x2)
    requires (Known(ams, id) ==> Base(ams[id]) < MOST_ELEMENTS) || (y > 0 && x2 > 0)
    ensures id in live && Known(ams, id)
    ensures exists r :: r <= Base(ams[id]) && Inscribes(Base(ams[id]), Plug(x1, y, x2), r)
  {
    ListedIsLive(prime, Edges, m, ams, live, Enc(x1, y, x2), id);
    var n := Base(ams[id]);
    var p :| p in AllPlugs(prime, n) && PlugKey(p) == Enc(x1, y, x2);
    AllPlugsInscribe(prime, n, p);
    PlugOfCode(prime, n, p, x1, y, x2);
  }

  /** So the edge index lists an amorph under an edge exactly when it is unspent and the edge conceivable
      for its number of elements. */
  lemma EdgeListedIff(
    prime: int -> bool, m: Index, ams: seq<Amorph>, live: set<int>, id: int, x1: nat, y: nat, x2: nat)
    requires Exact(prime, Edges, m, ams, live) && PrimesTold(prime)
    requires Digit(x1) && Digit(y) && Digit(x2)
    requires (Known(ams, id) ==> Base(ams[id]) < MOST_ELEMENTS) || (y > 0 && x2 > 0)
    ensures id in Get(m, Enc(x1, y, x2)) <==>
      id in live && Known(ams, id) && Conceivable(Base(ams[id]), Plug(x1, y, x2))
  {
    var p := Plug(x1, y, x2);
    if id in Get(m, Enc(x1, y, x2)) {
      ListedIsLive(prime, Edges, m, ams, live, Enc(x1, y, x2), id);
      var q :| q in AllPlugs(prime, Base(ams[id])) && PlugKey(q) == Enc(x1, y, x2);
      PlugOfCode(prime, Base(ams[id]), q, x1, y, x2);
      AllPlugsIff(prime, Base(ams[id]), p);
    }
    if id in live && Known(ams, id) && Conceivable(Base(ams[id]), p) {
      AllPlugsIff(prime, Base(ams[id]), p);
      assert PlugKey(p) in Keys(prime, Edges, Base(ams[id]));
    }
  }

  /** Lengths the condensed index does not tell apart: four to nine slots, and ten and more. */
  predicate SameClass(s: int, t: int) {
    s == t || (4 <= s <= 9 && 4 <= t <= 9) || (s > 9 && t > 9)
  }

  predicate Alike(p: Plug, q: Plug) {
    SameClass(p.x1, q.x1) && SameClass(p.y, q.y) && SameClass(p.x2, q.x2)
  }

  lemma AlikeIff(p: Plug, q: Plug)
    requires p.x1 >= 0 && p.y >= 0 && p.x2 >= 0 && q.x1 >= 0 && q.y >= 0 && q.x2 >= 0
    ensures CondKey(p) == CondKey(q) <==> Alike(p, q)
  {
    if CondKey(p) == CondKey(q) {
      EncInjective(Granularize(p.x1), Granularize(p.y), Granularize(p.x2),
                   Granularize(q.x1), Granularize(q.y), Granularize(q.x2));
    }
  }

  /** The condensed index lists an amorph under an edge exactly when it is unspent and some edge like
      that one is conceivable for its number of elements. */
  lemma CondensedListedIff(prime: int -> bool, m: Index, ams: seq<Amorph>, live: set<int>, id: int, p: Plug)
    requires Exact(prime, Condensed, m, ams, live) && PrimesTold(prime) && p.x1 >= 0 && p.y >= 0 && p.x2 >= 0
    ensures id in Get(m, CondKey(p)) <==>
      id in live && Known(ams, id) && exists q :: Alike(p, q) && Conceivable(Base(ams[id]), q)
  {
    if id in Get(m, CondKey(p)) {
      ListedIsLive(prime, Condensed, m, ams, live, CondKey(p), id);
      var q :| q in AllPlugs(prime, Base(ams[id])) && CondKey(q) == CondKey(p);
      AllPlugsIff(prime, Base(ams[id]), q);
      AlikeIff(p, q);
    }
    if id in live && Known(ams, id) && exists q :: Alike(p, q) && Conceivable(Base(ams[id]), q) {
      var q :| Alike(p, q) && Conceivable(Base(ams[id]), q);
      AllPlugsIff(prime, Base(ams[id]), q);
      AlikeIff(p, q);
      assert CondKey(q) in Keys(prime, Condensed, Base(ams[id]));
    }
  }

  lemma PlugOfCode(prime: int -> bool, n: nat, p: Plug, x1: nat, y: nat, x2: nat)
    requires n <= MOST_ELEMENTS && p in AllPlugs(prime, n) && PlugKey(p) == Enc(x1, y, x2)
    requires Digit(x1) && Digit(y) && Digit(x2) && (n < MOST_ELEMENTS || (y > 0 && x2 > 0))
    ensures p == Plug(x1, y, x2)
  {
    AllPlugsInscribe(prime, n, p);
    var r :| r <= n && Inscribes(n, p, r);
    PlugDigits(n, p, r);
    CodeOfPlug(p, x1, y, x2);
  }

  /** With 102 elements, a plug with a part of a hundred is found under a triple that is no plug. */
  lemma ThreeDigits(prime: int -> bool)
    ensures Enc(1, 2, 0) in Keys(prime, Edges, MOST_ELEMENTS) && !exists r :: Inscribes(MOST_ELEMENTS, Plug(1, 2, 0), r)
  {
    var p := Plug(1, 1, 100);
    assert OtherSide(102, 101) == (2, 100);
    assert p in TwoWays(101, 2, 1, 100) && p in WidthPlugs(prime, 102, 101);
    RootAtMost(102);
    assert RootCeiling(102) <= 101 by { assert 101 * 101 >= 102; }
    assert p in AllPlugs(prime, 102) && PlugKey(p) == Enc(1, 2, 0);
  }

  lemma CodeOfPlug(p: Plug, x1: nat, y: nat, x2: nat)
    requires 0 < p.x1 < FACTOR && 0 < p.y <= FACTOR && 0 < p.x2 <= FACTOR
    requires Digit(x1) && Digit(y) && Digit(x2) && PlugKey(p) == Enc(x1, y, x2)
    requires (y > 0 && x2 > 0) || (p.y < FACTOR && p.x2 < FACTOR)
    ensures p == Plug(x1, y, x2)
  {
    LastDigit(p.x1 * FACTOR + p.y, p.x2, x1 * FACTOR + y, x2);
    LastDigit(p.x1, p.y, x1, y);
  }

  /** The last digit of a code can be told, even if it may be a hundred when the other is not zero. */
  lemma LastDigit(a: int, b: int, c: int, d: int)
    requires a * FACTOR + b == c * FACTOR + d && 0 < b <= FACTOR && Digit(d) && (d > 0 || b < FACTOR)
    ensures a == c && b == d
  {}

  /** A falling edge is looked up as its mirror image. */
  function Listed(x1: nat, y: int, x2: nat): Plug {
    if y < 0 then Plug(x2, -y, x1) else Plug(x1, y, x2)
  }

  /** Whatever is listed under an edge, rising or falling, is unspent and inscribes it. */
  lemma ListedEdge(prime: int -> bool, m: Index, ams: seq<Amorph>, live: set<int>, id: int, x1: nat, y: int, x2: nat)
    requires Exact(prime, Edges, m, ams, live) && id in Get(m, Enc(x1, y, x2))
    requires Digit(x1) && Digit(Abs(y)) && Digit(x2)
    requires (Known(ams, id) ==> Base(ams[id]) < MOST_ELEMENTS) || (x1 > 0 && y != 0 && x2 > 0)
    ensures id in live && Known(ams, id) && x1 > 0 && x2 > 0 && y != 0
    ensures exists k :: k <= Base(ams[id]) && Inscribes(Base(ams[id]), Listed(x1, y, x2), k)
  {
    var p := Listed(x1, y, x2);
    assert Enc(p.x1, p.y, p.x2) == Enc(x1, y, x2);
    IndexedPlug(prime, m, ams, live, id, p.x1, p.y, p.x2);
  }

  /** For a rising edge the search rebuilds the rectangle the plug was found in if and only if the
      amorph's padding fills whole rows of the new width. */
  lemma RisingRebuiltIff(
    prime: int -> bool, m: Index, ams: seq<Amorph>, live: set<int>, id: int, x1: nat, y: nat, x2: nat)
    requires Exact(prime, Edges, m, ams, live) && id in Get(m, Enc(x1, y, x2))
    requires Digit(x1) && Digit(y) && Digit(x2)
    requires (Known(ams, id) ==> Base(ams[id]) < MOST_ELEMENTS) || (x1 > 0 && y != 0 && x2 > 0)
    ensures id in live && Known(ams, id) && x1 + x2 > 0
    ensures Rebuilt(ams, live, Reshaped(ams[id], x1, y, x2), x1, y, x2) <==> Divides(x1 + x2, ams[id].Padded)
  {
    ListedEdge(prime, m, ams, live, id, x1, y, x2);
    var k :| k <= Base(ams[id]) && Inscribes(Base(ams[id]), Plug(x1, y, x2), k);
    RisingExactIff(ams[id], x1, y, x2, k);
  }

  /** An inscribed edge is no longer than the number of elements, and shorter than a hundred up to 101. */
  lemma PlugDigits(n: nat, p: Plug, r: nat)
    requires n <= MOST_ELEMENTS && r <= n && Inscribes(n, p, r)
    ensures p.x1 < FACTOR && p.y <= FACTOR && p.x2 <= FACTOR
    ensures n < MOST_ELEMENTS ==> p.y < FACTOR && p.x2 < FACTOR
  {
    ElementsAtLeast(p.x1, r, p.x2, p.y);
  }

  /** What is left of the kerf's columns, and of the others, is at least one row high. */
  lemma ElementsAtLeast(x1: nat, r: nat, x2: nat, y: nat)
    requires x1 >= 1 && r > y >= 1
    ensures (x1 + x2) * r - x2 * y >= 2 * x1 + x2
    ensures (x1 + x2) * r - x2 * y >= r + x2
  {
    var rest := r - y;
    assert (x1 + x2) * r - x2 * y == x1 * r + x2 * rest;
    MulMono(1, x1, r);
    MulMono(2, r, x1);
    MulMono(1, rest, x2);
  }

  function Abs(y: int): nat { if y < 0 then -y else y }

  /** The least number of rows above `high` that leaves a slack of at least `need` around n elements. */
  function RowsFor(n: nat, cols: nat, high: nat, need: nat): (rows: nat)
    requires cols > 0
    ensures rows > high && cols * rows >= n + need
    ensures rows > high + 1 ==> cols * (rows - 1) < n + need
  {
    var full := OtherSide(n + need, cols).0;
    if full > high then full
    else
      MulMono(full, high + 1, cols);
      high + 1
  }

  lemma AbsProduct(x: int, y: int)
    ensures Abs(x * y) == Abs(x) * Abs(y)
  {
    assert x * y == -x * -y && x * -y == -(x * y) && -x * y == -(x * y);
    if x >= 0 && y >= 0 { assert x * y >= 0; }
    if x >= 0 && y < 0 { assert x * -y >= 0; }
    if x < 0 && y >= 0 { assert -x * y >= 0; }
    if x < 0 && y < 0 { assert -x * -y >= 0; }
  }

  /** Lines 52-68 for one amorph; None where the original panics. Without a width it divides by zero, and
      with a negative one the slack stays negative until the counter exceeds 100. */
  method Reshape(am: Amorph, x1: int, y: int, x2: int) returns (r: Option<Amorph>)
    ensures r == Outcome(am, x1, y, x2)
  {
    var cols := x1 + x2;
    if cols <= 0 {
      return None;
    }
    AbsProduct(x2, y);
    var rows := IncreaseRows(am.NElements, cols, Abs(y), Abs(x2 * y));
    if rows == None {
      return None;
    }
    return Some(am.(Cols := cols, Rows := rows.value, Slack := cols * rows.value - am.NElements, Edge := [x1, y, x2]));
  }

  /** The loop of lines 55-65: more rows until they exceed `high` and leave the slack needed. */
  method IncreaseRows(n: nat, cols: nat, high: nat, need: nat) returns (r: Option<nat>)
    requires cols > 0
    ensures var rows := RowsFor(n, cols, high, need);
      r == if rows > OtherSide(n, cols).0 + 100 then None else Some(rows)
  {
    ghost var target := RowsFor(n, cols, high, need);
    var (rows, slack) := OtherSide(n, cols);
    ghost var start := rows;
    LeastRows(cols, rows, target, n, need);
    var cntr := 0;
    while rows <= high || slack < need
      invariant start <= rows <= target && cntr == rows - start <= 100
      invariant slack == cols * rows - n
      decreases target - rows
    {
      StillBelow(n, cols, high, need, rows);
      rows := rows + 1;
      slack := cols * rows - n;
      cntr := cntr + 1;
      if cntr > 100 {
        return None;
      }
    }
    EnoughRows(n, cols, high, need, rows);
    return Some(rows);
  }

  /** The amorph with the rows the search ends at. */
  function Reshaped(am: Amorph, x1: int, y: int, x2: int): (a: Amorph)
    requires x1 + x2 > 0
    ensures a.Cols * a.Rows - a.Slack == am.NElements && a.Rows > Abs(y)
    ensures a.IdxArticle == am.IdxArticle && a.NElements == am.NElements && a.Padded == am.Padded
  {
    var rows := RowsFor(am.NElements, x1 + x2, Abs(y), Abs(x2) * Abs(y));
    am.(Cols := x1 + x2, Rows := rows, Slack := (x1 + x2) * rows - am.NElements, Edge := [x1, y, x2])
  }

  lemma LeastRows(cols: nat, rows: nat, target: nat, n: nat, need: nat)
    requires cols > 0 && cols * rows - n < cols && cols * target >= n + need
    ensures rows <= target
  {
    if rows > target { MulMono(target + 1, rows, cols); }
  }

  lemma StillBelow(n: nat, cols: nat, high: nat, need: nat, rows: nat)
    requires cols > 0 && (rows <= high || cols * rows - n < need)
    ensures rows < RowsFor(n, cols, high, need)
  {
    var target := RowsFor(n, cols, high, need);
    if rows >= target { MulMono(target, rows, cols); }
  }

  lemma EnoughRows(n: nat, cols: nat, high: nat, need: nat, rows: nat)
    requires cols > 0 && rows > high && cols * rows - n >= need
    ensures rows >= RowsFor(n, cols, high, need)
  {
    var target := RowsFor(n, cols, high, need);
    if rows < target { MulMono(rows, target - 1, cols); }
  }

  /** The kerf does not fit into that many rows. */
  predicate TooFew(n: nat, cols: nat, high: nat, need: nat, rows: nat) {
    rows <= high || cols * rows - n < need
  }

  /** Neither the least rows for n elements nor up to a hundred rows more are enough. */
  predicate NeverEnough(n: nat, cols: nat, high: nat, need: nat)
    requires cols > 0
  {
    forall rows: nat :: OtherSide(n, cols).0 <= rows <= OtherSide(n, cols).0 + 100 ==> TooFew(n, cols, high, need, rows)
  }

  /** The original panics if and only if the edge has no width or the kerf fits neither into the least rows
      for the elements nor into up to a hundred rows more. */
  lemma OutcomeIff(am: Amorph, x1: int, y: int, x2: int)
    ensures Outcome(am, x1, y, x2) == None <==>
      x1 + x2 <= 0 || NeverEnough(am.NElements, x1 + x2, Abs(y), Abs(x2) * Abs(y))
  {
    if x1 + x2 > 0 {
      var n, cols, need := am.NElements, x1 + x2, Abs(x2) * Abs(y);
      var start, target := OtherSide(n, cols).0, RowsFor(n, cols, Abs(y), need);
      LeastRows(cols, start, target, n, need);
      if target <= start + 100 {
        assert !TooFew(n, cols, Abs(y), need, target);
      } else {
        forall rows: nat | start <= rows <= start + 100 ensures TooFew(n, cols, Abs(y), need, rows) {
          if !TooFew(n, cols, Abs(y), need, rows) { EnoughRows(n, cols, Abs(y), need, rows); }
        }
      }
    }
  }

  /** For two-digit edges the search is over after at most 100 steps. */
  lemma NeverPanics(n: nat, x1: nat, high: nat, x2: nat)
    requires x1 + x2 > 0 && high < FACTOR
    ensures RowsFor(n, x1 + x2, high, x2 * high) <= OtherSide(n, x1 + x2).0 + 100
  {
    var cols, start := x1 + x2, OtherSide(n, x1 + x2).0;
    MulMono(x2, cols, high);
    assert cols * (start + high) == cols * start + cols * high;
    MulMono(start + high, start + high + 1, cols);
    EnoughRows(n, cols, high, x2 * high, start + high + 1);
  }

  /** Adding `more` elements to a full rectangle of k rows fills whole rows exactly if the width divides it. */
  lemma WholeRows(cols: nat, k: nat, rows: nat, more: nat)
    requires cols > 0 && cols * rows == cols * k + more
    ensures rows == k + more / cols && Divides(cols, more)
  {
    if rows < k { MulMono(rows + 1, k, cols); }
    assert cols * (rows - k) == more;
    DivUnique(more, cols, rows - k);
  }

  /** An amorph listed under a rising edge gets exactly the kerf for slack if and only if its
      padding fills whole rows of the new width, as no padding does. */
  lemma RisingExactIff(am: Amorph, x1: nat, y: nat, x2: nat, k: nat)
    requires am.Padded <= am.NElements && Inscribes(Base(am), Plug(x1, y, x2), k)
    ensures Reshaped(am, x1, y, x2).Slack == x2 * y <==> Divides(x1 + x2, am.Padded)
  {
    var cols, need := x1 + x2, x2 * y;
    assert cols * k + am.Padded == am.NElements + need;
    FillsExactly(am.NElements, cols, y, need, need, k, am.Padded);
  }

  /** The same for a falling edge, listed under its mirror image. The kerf is then on the left and
      x1 wide, but the search goes by x2; so two more conditions are needed. */
  lemma FallingExactIff(am: Amorph, x1: nat, y: int, x2: nat, k: nat)
    requires y < 0 && am.Padded <= am.NElements && Inscribes(Base(am), Plug(x2, -y, x1), k)
    ensures Reshaped(am, x1, y, x2).Slack == x1 * -y <==>
      && Divides(x1 + x2, am.Padded) && x2 <= x1
      && ((x1 - x2) * -y < x1 + x2 || k + am.Padded / (x1 + x2) == -y + 1)
  {
    var cols, n, high: nat := x1 + x2, am.NElements, -y;
    var need, kerf: nat := x2 * high, x1 * high;
    assert cols * k + am.Padded == n + kerf;
    if x2 > x1 {
      MulMono(x1 + 1, x2, high);
      assert need > kerf;
    } else {
      MulMono(x2, x1, high);
      LessRows(x1, x2, high);
      FillsExactly(n, cols, high, need, kerf, k, am.Padded);
    }
  }

  /** Five elements listed under an edge that falls from 1 to 2 are left with a slack of four around a
      kerf of one. */
  lemma FallingFails(prime: int -> bool)
    ensures var a := Amorph(0, 5, 3, 2, 1, [], 0);
      && Enc(1, -1, 2) in Keys(prime, Edges, Base(a)) && Inscribes(Base(a), Plug(2, 1, 1), 2)
      && Reshaped(a, 1, -1, 2).Slack == 4
  {
    var p := Plug(2, 1, 1);
    assert OtherSide(5, 3) == (2, 1) && OtherSide(7, 3) == (3, 2);
    assert p in TwoWays(3, 2, 1, 1) && p in WidthPlugs(prime, 5, 3);
    assert RootCeiling(5) <= 3 by { assert 3 * 3 >= 5; }
    assert p in AllPlugs(prime, 5) && PlugKey(p) == Enc(1, -1, 2);
  }

  /** The search for a slack of at least `need` stops at a slack of `kerf`, found at k rows without
      the padding, if and only if the padding fills whole rows and one row less would not do. */
  lemma FillsExactly(n: nat, cols: nat, high: nat, need: nat, kerf: nat, k: nat, padded: nat)
    requires cols > 0 && k > high && need <= kerf && cols * k + padded == n + kerf
    ensures cols * RowsFor(n, cols, high, need) - n == kerf <==>
      Divides(cols, padded) && (kerf - need < cols || k + padded / cols == high + 1)
  {
    var rows := RowsFor(n, cols, high, need);
    if cols * rows - n == kerf {
      WholeRows(cols, k, rows, padded);
      OneRowLess(cols, rows);
    }
    if Divides(cols, padded) {
      var full := k + padded / cols;
      DivideOut(cols, padded);
      OneRowLess(cols, full);
      AddRows(cols, k, padded / cols);
      StopsAt(n, cols, high, need, full);
    }
  }

  lemma OneRowLess(cols: nat, rows: nat)
    requires rows > 0
    ensures cols * (rows - 1) == cols * rows - cols
  {}

  lemma LessRows(x1: nat, x2: nat, high: nat)
    ensures (x1 - x2) * high == x1 * high - x2 * high
  {}

  lemma AddRows(cols: nat, k: nat, q: nat)
    ensures cols * (k + q) == cols * k + cols * q
  {}

  lemma StopsAt(n: nat, cols: nat, high: nat, need: nat, full: nat)
    requires cols > 0 && full > high && cols * full - n >= need
    ensures RowsFor(n, cols, high, need) == full <==> full == high + 1 || cols * (full - 1) - n < need
  {
    var rows := RowsFor(n, cols, high, need);
    EnoughRows(n, cols, high, need, full);
    if rows < full { MulMono(rows, full - 1, cols); }
  }

  function Padded(was: Amorph, x1: nat): (a: Amorph)
    requires x1 > 0
    ensures a.IdxArticle == was.IdxArticle && a.Cols == x1 && a.Slack == 0 && a.Cols * a.Rows == a.NElements
    ensures Base(a) == Base(was) <==> OtherSide(was.NElements, x1).1 == 0 || was.Padded == 0
    ensures Base(a) >= Base(was)
  {
    var (rows, slack) := OtherSide(was.NElements, x1);
    var chosen := was.(Cols := x1, Rows := rows, Slack := slack);
    if chosen.Slack > 0 then
      chosen.(Padded := chosen.Slack, NElements := chosen.NElements + chosen.Slack, Slack := 0)
    else chosen
  }

  /** Padded twice, an amorph of five elements goes by six. */
  lemma PaddedTwice()
    ensures var a := Amorph(0, 5, 3, 2, 1, [], 0);
      Base(Padded(a, 3)) == Base(a) == 5 && Base(Padded(Padded(a, 3), 4)) == 6
  {
    assert OtherSide(5, 3) == (2, 1) && OtherSide(6, 4) == (2, 2);
  }
}
