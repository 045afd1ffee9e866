/** The Matrix of text/levenshtein/levenshtein.go: filled by nested loops, read back by the
    backtrace, and its scripts applied by a loop with shifting positions. */
module LevenshteinMatrix {
  import opened Wrappers
  import opened Levenshtein
  import opened LevenshteinMetric

  class Matrix<T(0, ==)> {
    const eq: (T, T) -> bool
    const rows: seq<T>
    const cols: seq<T>
    const opt: Options
    const mx: array2<int>

    ghost predicate Valid()
      reads mx
    {
      && mx.Length0 == |rows| + 1 && mx.Length1 == |cols| + 1
      && forall i, j :: 0 <= i <= |rows| && 0 <= j <= |cols| ==> mx[i, j] == Entry(eq, opt, rows, cols, i, j)
    }

    constructor New(eq: (T, T) -> bool, argRows: seq<T>, argCols: seq<T>, opt: Options)
      ensures Valid() && fresh(mx)
      ensures this.eq == eq && rows == argRows && cols == argCols && this.opt == opt
    {
      this.eq, this.rows, this.cols, this.opt := eq, argRows, argCols, opt;
      var h, w := |argRows| + 1, |argCols| + 1;
      var t := new int[h, w];
      FillBorders(eq, argRows, argCols, opt, t);
      for i := 1 to h
        invariant Filled(eq, argRows, argCols, opt, t, i, w) && ColumnZero(t)
      {
        FillRow(eq, argRows, argCols, opt, t, i);
      }
      this.mx := t;
    }

    /** The distance, and the same relative to the longer list. */
    method Distance() returns (dist: int, relDist: real)
      requires Valid()
      ensures dist == Cell(eq, opt, rows, cols)
      ensures relDist == RelDist(dist, |rows|, |cols|)
    {
      assert rows[..|rows|] == rows && cols[..|cols|] == cols;
      dist := mx[mx.Length0 - 1, mx.Length1 - 1];
      var ls1, ls2 := mx.Length0, mx.Length1;
      var divisor := ls1;
      if ls2 > ls1 {
        divisor := ls2;
      }
      divisor := divisor - 1;
      if divisor == 0 {
        divisor := 1;
      }
      relDist := Ratio(dist, divisor);
    }

    method EditScript() returns (es: Script)
      requires Valid()
      ensures es == Backtrace(eq, opt, rows, cols, |rows|, |cols|)
    {
      es := BacktraceFrom(mx.Length0 - 1, mx.Length1 - 1);
    }

    /** Steps left, up or diagonally, whichever test on the table fires first. */
    method BacktraceFrom(i: nat, j: nat) returns (es: Script)
      requires Valid() && i <= |rows| && j <= |cols|
      ensures es == Backtrace(eq, opt, rows, cols, i, j)
      decreases i + j
    {
      var op := FirstTest(i, j);
      if op == None {
        return [];
      }
      var i' := if op.value == Ins then i else i - 1;
      var j' := if op.value == Del then j else j - 1;
      es := BacktraceFrom(i', j');
      es := es + [EditOpExt(op.value, i', j')];
    }

    method FirstTest(i: nat, j: nat) returns (op: Option<EditOp>)
      requires Valid() && i <= |rows| && j <= |cols|
      ensures op == Choose(eq, opt, rows, cols, i, j)
    {
      var c := mx[i, j];
      if i > 0 && mx[i - 1, j] + opt.del == c {
        return Some(Del);
      }
      if j > 0 && mx[i, j - 1] + opt.ins == c {
        return Some(Ins);
      }
      if i > 0 && j > 0 && mx[i - 1, j - 1] + opt.sub == c {
        return Some(Sub);
      }
      if i > 0 && j > 0 && mx[i - 1, j - 1] == c {
        return Some(Match);
      }
      return None;
    }

    /** Applies any script to the first list; None where the original panics. */
    method ApplyEditScript(es: Script) returns (r: Option<seq<T>>)
      ensures r.Some? <==> Apply(rows, cols, es).Some?
      ensures r.Some? ==> r.value == Apply(rows, cols, es).value.rows
    {
      var sumIns, sumDel := 0, 0;
      var rows2 := rows;
      assert es[..|es|] == es;
      for k := 0 to |es|
        invariant Apply(rows, cols, es[..k]) == Some(Applied(rows2, sumIns, sumDel))
      {
        var v := es[k];
        PrefixChop(es, k + 1);
        assert Apply(rows, cols, es[..k + 1]) == ApplyOp(Applied(rows2, sumIns, sumDel), cols, v);
        var pos := v.src + sumIns - sumDel;
        var failed := false;
        if v.op == Ins {
          if 0 <= v.dst < |cols| && InsertAfter(rows2, pos - 1, cols[v.dst]).Some? {
            rows2 := InsertAfter(rows2, pos - 1, cols[v.dst]).value;
            sumIns := sumIns + 1;
          } else {
            failed := true;
          }
        } else if v.op == Del {
          if DeleteAt(rows2, pos).Some? {
            rows2 := DeleteAt(rows2, pos).value;
            sumDel := sumDel + 1;
          } else {
            failed := true;
          }
        } else if v.op == Sub {
          if 0 <= v.dst < |cols| && 0 <= pos < |rows2| {
            rows2 := rows2[pos := cols[v.dst]];
          } else {
            failed := true;
          }
        }
        if failed {
          ApplyFails(rows, cols, es, k + 1);
          return None;
        }
      }
      return Some(rows2);
    }

    /** The package's promise, in one call: the script turns the first list into the second. */
    method RoundTrip() returns (r: Option<seq<T>>)
      requires Valid() && Unit(opt)
      ensures r.Some? && |r.value| == |cols|
      ensures forall k :: 0 <= k < |cols| ==> r.value[k] == cols[k] || eq(r.value[k], cols[k])
    {
      ApplyYieldsSecond(eq, opt, rows, cols);
      var es := EditScript();
      r := ApplyEditScript(es);
    }

    /** CompareToCol: whether col2 starts with the second list, token by token; None where the original
        panics, because col2 ends before a difference is found. */
    method CompareToCol(col2: seq<T>) returns (equal: Option<bool>)
      ensures equal == Some(true) <==> cols <= col2
      ensures equal == None <==> col2 < cols
    {
      for idx := 0 to |cols|
        invariant idx <= |col2| && col2[..idx] == cols[..idx]
      {
        if idx >= |col2| {
          return None;
        }
        if cols[idx] != col2[idx] {
          return Some(false);
        }
      }
      return Some(true);
    }
  }

  /** Round trips as CompareToCol sees them: the tokens are compared as they are, not by Equal. */
  ghost predicate TripsCompareEqual<T(!new)>(eq: (T, T) -> bool, o: Options) {
    forall a: seq<T>, b: seq<T> ::
      var r := Apply(a, b, Backtrace(eq, o, a, b, |a|, |b|)); r.Some? && r.value.rows == b
  }

  /** Round trips compare equal for all inputs if and only if Equal tells all different tokens apart, or
      substitutions are free, so that they are made even where tokens match. */
  lemma TripsCompareEqualIff<T(!new)>(eq: (T, T) -> bool, o: Options)
    requires Unit(o)
    ensures TripsCompareEqual(eq, o) <==> o.sub == 0 || forall x, y :: eq(x, y) ==> x == y
  {
    if o.sub == 0 || forall x, y :: eq(x, y) ==> x == y {
      forall a: seq<T>, b: seq<T>
        ensures var r := Apply(a, b, Backtrace(eq, o, a, b, |a|, |b|)); r.Some? && r.value.rows == b
      {
        ApplyYieldsSecond(eq, o, a, b);
        if o.sub == 0 { FreeSubstitutions(eq, o, a, b); }
      }
    } else {
      var x, y :| eq(x, y) && x != y;
      EqualPair(eq, o, x, y);
    }
  }

  predicate NoMatches(es: Script) { forall k :: 0 <= k < |es| ==> es[k].op != Match }

  lemma {:induction false} BacktraceSubstitutes<T>(
    eq: (T, T) -> bool, o: Options, a: seq<T>, b: seq<T>, i: nat, j: nat)
    requires o.sub == 0 && i <= |a| && j <= |b|
    ensures NoMatches(Backtrace(eq, o, a, b, i, j))
    decreases i + j
  {
    var op := Choose(eq, o, a, b, i, j);
    if op.Some? {
      BacktraceSubstitutes(eq, o, a, b, if op.value == Ins then i else i - 1, if op.value == Del then j else j - 1);
    }
  }

  /** A script without matches aligns the lists even if no tokens are equal. */
  lemma {:induction false} AlignsWithoutEqual<T>(
    eq: (T, T) -> bool, never: (T, T) -> bool, a: seq<T>, b: seq<T>, i: nat, j: nat, es: Script)
    requires i <= |a| && j <= |b| && Aligns(eq, a, b, i, j, es) && NoMatches(es)
    ensures Aligns(never, a, b, i, j, es)
    decreases |es|
  {
    if es != [] {
      var e := Last(es);
      var i' := if e.op == Ins then i else i - 1;
      var j' := if e.op == Del then j else j - 1;
      assert NoMatches(Chop(es));
      AlignsWithoutEqual(eq, never, a, b, i', j', Chop(es));
    }
  }

  lemma FreeSubstitutions<T>(eq: (T, T) -> bool, o: Options, a: seq<T>, b: seq<T>)
    requires Unit(o) && o.sub == 0
    ensures var r := Apply(a, b, Backtrace(eq, o, a, b, |a|, |b|)); r.Some? && r.value.rows == b
  {
    var es := Backtrace(eq, o, a, b, |a|, |b|);
    var never := (x: T, y: T) => false;
    BacktraceIsOptimal(eq, o, a, b, |a|, |b|);
    BacktraceSubstitutes(eq, o, a, b, |a|, |b|);
    AlignsWithoutEqual(eq, never, a, b, |a|, |b|, es);
    ApplyAligned(never, a, b, |a|, |b|, es);
  }

  /** A matched token stays as it is in the first list. */
  lemma EqualPair<T>(eq: (T, T) -> bool, o: Options, x: T, y: T)
    requires Unit(o) && o.sub != 0 && eq(x, y)
    ensures Apply([x], [y], Backtrace(eq, o, [x], [y], 1, 1)) == Some(Applied([x], 0, 0))
  {
    assert [x][..1] == [x] && [y][..1] == [y] && [x][..0] == [] && [y][..0] == [];
    assert Chop<T>([x]) == [] && Chop<T>([y]) == [];
    assert Last<T>([x]) == x && Last<T>([y]) == y;
    assert Cell(eq, o, [], []) == 0 && Cell(eq, o, [x], []) == 1 && Cell(eq, o, [], [y]) == 1;
    assert Cell(eq, o, [x], [y]) == 0;
    assert Choose(eq, o, [x], [y], 1, 1) == Some(Match);
    assert Backtrace(eq, o, [x], [y], 0, 0) == [];
    var es := [EditOpExt(Match, 0, 0)];
    assert Backtrace(eq, o, [x], [y], 1, 1) == [] + es;
    assert Chop(es) == [] && Last(es) == es[0];
  }

  function RelDist(dist: int, n: nat, m: nat): real {
    var larger := if m > n then m else n;
    Ratio(dist, if larger == 0 then 1 else larger)
  }

  function Ratio(x: int, d: nat): real requires d > 0 { x as real / d as real }

  /** The rel-th part of d is x. */
  predicate IsShare(rel: real, x: int, d: nat) {
    rel * d as real == x as real
  }

  /** With all costs one the relative distance is a share: of the longer list's length, from nothing
      for lists that agree to all of it for lists without a common token. */
  lemma RelDistIsShare<T>(eq: (T, T) -> bool, o: Options, a: seq<T>, b: seq<T>)
    requires Unit(o) && o.sub == 1
    ensures var rel := RelDist(Cell(eq, o, a, b), |a|, |b|);
      && 0.0 <= rel <= 1.0
      && IsShare(rel, Cell(eq, o, a, b), Larger(|a|, |b|))
      && (rel == 0.0 <==> Pairwise(eq, a, b))
      && (Apart(eq, a, b) && |a| + |b| > 0 ==> rel == 1.0)
  {
    CellAtLeast(eq, o, a, b);
    CellAtMost(eq, o, a, b);
    ShareOf(Cell(eq, o, a, b), |a|, |b|);
  }

  lemma ShareOf(dist: nat, n: nat, m: nat)
    requires dist <= Larger(n, m)
    ensures var rel := RelDist(dist, n, m);
      && 0.0 <= rel <= 1.0 && IsShare(rel, dist, Larger(n, m))
      && (rel == 0.0 <==> dist == 0) && (rel == 1.0 <==> dist == Larger(n, m) > 0)
  {
    if Larger(n, m) > 0 { Share(dist, Larger(n, m)); }
  }

  lemma Share(x: nat, d: nat)
    requires x <= d && d > 0
    ensures 0.0 <= Ratio(x, d) <= 1.0 && IsShare(Ratio(x, d), x, d)
    ensures Ratio(x, d) == 0.0 <==> x == 0
    ensures Ratio(x, d) == 1.0 <==> x == d
  {
    Part(Ratio(x, d), x as real, d as real);
  }

  lemma Part(q: real, x: real, d: real)
    requires 0.0 <= x <= d && d > 0.0 && q == x / d
    ensures q * d == x && 0.0 <= q <= 1.0
    ensures q == 0.0 <==> x == 0.0
    ensures q == 1.0 <==> x == d
  {
    assert q * d == x;
    assert (1.0 - q) * d == d - x;
  }

  /** Once an op has panicked the whole application has. */
  lemma {:induction false} ApplyFails<T>(rows: seq<T>, cols: seq<T>, es: Script, k: nat)
    requires k <= |es| && Apply(rows, cols, es[..k]).None?
    ensures Apply(rows, cols, es).None?
    decreases |es| - k
  {
    if k == |es| {
      assert es[..k] == es;
    } else {
      PrefixChop(es, k + 1);
      ApplyFails(rows, cols, es, k + 1);
    }
  }

  // ---------- filling the table ----------

  ghost predicate ColumnZero(t: array2<int>)
    requires t.Length1 > 0
    reads t
  {
    forall i :: 0 <= i < t.Length0 ==> t[i, 0] == i
  }

  /** Rows below `rows`, and the first `cols` entries of row `rows`, are final. */
  ghost predicate Filled<T>(eq: (T, T) -> bool, a: seq<T>, b: seq<T>, o: Options, t: array2<int>, n: nat, m: nat)
    requires t.Length0 == |a| + 1 && t.Length1 == |b| + 1
    reads t
  {
    && n <= |a| + 1
    && forall i, j :: 0 <= i < n && 0 <= j < m && j <= |b| ==> t[i, j] == Entry(eq, o, a, b, i, j)
  }

  method FillBorders<T>(eq: (T, T) -> bool, a: seq<T>, b: seq<T>, o: Options, t: array2<int>)
    requires t.Length0 == |a| + 1 && t.Length1 == |b| + 1
    modifies t
    ensures ColumnZero(t) && Filled(eq, a, b, o, t, 1, |b| + 1)
  {
    for i := 0 to |a| + 1
      invariant forall k :: 0 <= k < i ==> t[k, 0] == k
    {
      t[i, 0] := i;
    }
    for j := 1 to |b| + 1
      invariant ColumnZero(t)
      invariant forall k :: 0 <= k < j ==> t[0, k] == k
    {
      t[0, j] := j;
    }
  }

  method FillCell<T>(eq: (T, T) -> bool, a: seq<T>, b: seq<T>, o: Options, t: array2<int>, i: nat, j: nat)
    requires t.Length0 == |a| + 1 && t.Length1 == |b| + 1 && 1 <= i <= |a| && 1 <= j <= |b|
    requires t[i - 1, j] == Entry(eq, o, a, b, i - 1, j)
    requires t[i - 1, j - 1] == Entry(eq, o, a, b, i - 1, j - 1)
    requires t[i, j - 1] == Entry(eq, o, a, b, i, j - 1)
    modifies t
    ensures t[i, j] == Entry(eq, o, a, b, i, j)
    ensures forall k, l :: 0 <= k <= |a| && 0 <= l <= |b| && (k, l) != (i, j) ==> t[k, l] == old(t[k, l])
  {
    var delCost := t[i - 1, j] + o.del;
    var matchSubCost := t[i - 1, j - 1];
    if !eq(a[i - 1], b[j - 1]) {
      matchSubCost := matchSubCost + o.sub;
    }
    var insCost := t[i, j - 1] + o.ins;
    CellStep(eq, o, a, b, i, j);
    t[i, j] := Min(delCost, Min(matchSubCost, insCost));
  }

  method FillRow<T>(eq: (T, T) -> bool, a: seq<T>, b: seq<T>, o: Options, t: array2<int>, i: nat)
    requires t.Length0 == |a| + 1 && t.Length1 == |b| + 1 && 1 <= i <= |a|
    requires Filled(eq, a, b, o, t, i, |b| + 1) && ColumnZero(t)
    modifies t
    ensures Filled(eq, a, b, o, t, i + 1, |b| + 1) && ColumnZero(t)
  {
    for j := 1 to |b| + 1
      invariant Filled(eq, a, b, o, t, i, |b| + 1) && ColumnZero(t)
      invariant forall k :: 0 <= k < j ==> t[i, k] == Entry(eq, o, a, b, i, k)
    {
      FillCell(eq, a, b, o, t, i, j);
    }
  }
}
