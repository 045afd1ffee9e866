/** The edit distance of text/levenshtein/levenshtein.go: the table, its edit scripts, and
    why the table's corner is the least cost of turning one token list into the other.

    Tokens are compared only by the Equal method they bring along, here `eq`. */
module Levenshtein {

  import opened Wrappers

  datatype Options = Options(ins: int, del: int, sub: int)

  /** Unit costs for insertion and deletion; any substitution cost. */
  predicate Unit(o: Options) { o.ins == 1 && o.del == 1 }

  function Min(a: int, b: int): int { if b < a then b else a }

  function Chop<T>(s: seq<T>): (r: seq<T>)
    requires |s| > 0
    ensures |r| == |s| - 1
  {
    s[..|s| - 1]
  }

  function Last<T>(s: seq<T>): T requires |s| > 0 { s[|s| - 1] }

  function SubCost<T>(eq: (T, T) -> bool, o: Options, x: T, y: T): int {
    if eq(x, y) then 0 else o.sub
  }

  /** The table entry for the prefixes `a` and `b`: the borders hold the bare index. */
  function Cell<T>(eq: (T, T) -> bool, o: Options, a: seq<T>, b: seq<T>): int
    decreases |a| + |b|
  {
    if |b| == 0 then |a|
    else if |a| == 0 then |b|
    else
      Min(Cell(eq, o, Chop(a), b) + o.del,
          Min(Cell(eq, o, Chop(a), Chop(b)) + SubCost(eq, o, Last(a), Last(b)),
              Cell(eq, o, a, Chop(b)) + o.ins))
  }

  // ---------- edit scripts ----------

  datatype EditOp = Ins | Del | Sub | Match

  datatype EditOpExt = EditOpExt(op: EditOp, src: int, dst: int)

  type Script = seq<EditOpExt>

  function OpCost(o: Options, op: EditOp): int {
    match op
    case Ins => o.ins
    case Del => o.del
    case Sub => o.sub
    case Match => 0
  }

  function Cost(o: Options, es: Script): int {
    if es == [] then 0 else Cost(o, Chop(es)) + OpCost(o, Last(es).op)
  }

  /** `es` walks through the first i tokens of `a` and the first j tokens of `b` in order,
      every Match joining equal tokens. */
  predicate Aligns<T>(eq: (T, T) -> bool, a: seq<T>, b: seq<T>, i: nat, j: nat, es: Script)
    requires i <= |a| && j <= |b|
    decreases |es|
  {
    if es == [] then i == 0 && j == 0
    else
      var e := Last(es);
      match e.op
      case Del => i > 0 && e.src == i - 1 && e.dst == j && Aligns(eq, a, b, i - 1, j, Chop(es))
      case Ins => j > 0 && e.src == i && e.dst == j - 1 && Aligns(eq, a, b, i, j - 1, Chop(es))
      case Sub => i > 0 && j > 0 && e.src == i - 1 && e.dst == j - 1 && Aligns(eq, a, b, i - 1, j - 1, Chop(es))
      case Match => i > 0 && j > 0 && e.src == i - 1 && e.dst == j - 1 && eq(a[i - 1], b[j - 1])
                    && Aligns(eq, a, b, i - 1, j - 1, Chop(es))
  }

  /** No Sub is spent on tokens that are equal anyway. */
  predicate SubsDiffer<T>(eq: (T, T) -> bool, a: seq<T>, b: seq<T>, es: Script) {
    forall e :: e in es && e.op == Sub && 0 <= e.src < |a| && 0 <= e.dst < |b| ==> !eq(a[e.src], b[e.dst])
  }

  // ---------- the table is a lower bound ----------

  lemma PrefixChop<T>(s: seq<T>, i: nat)
    requires 0 < i <= |s|
    ensures Chop(s[..i]) == s[..i - 1] && Last(s[..i]) == s[i - 1]
  {}

  /** The recurrence in terms of indexes, as the filling loop writes it. */
  lemma CellStep<T>(eq: (T, T) -> bool, o: Options, a: seq<T>, b: seq<T>, i: nat, j: nat)
    requires 0 < i <= |a| && 0 < j <= |b|
    ensures Cell(eq, o, a[..i], b[..j])
         == Min(Cell(eq, o, a[..i - 1], b[..j]) + o.del,
                Min(Cell(eq, o, a[..i - 1], b[..j - 1]) + SubCost(eq, o, a[i - 1], b[j - 1]),
                    Cell(eq, o, a[..i], b[..j - 1]) + o.ins))
  {
    PrefixChop(a, i);
    PrefixChop(b, j);
  }

  /** One more token costs at most one operation more. */
  lemma CellGrows<T>(eq: (T, T) -> bool, o: Options, a: seq<T>, b: seq<T>, i: nat, j: nat)
    requires Unit(o) && i <= |a| && j <= |b|
    ensures i > 0 ==> Cell(eq, o, a[..i], b[..j]) <= Cell(eq, o, a[..i - 1], b[..j]) + 1
    ensures j > 0 ==> Cell(eq, o, a[..i], b[..j]) <= Cell(eq, o, a[..i], b[..j - 1]) + 1
    ensures i > 0 && j > 0 ==>
      Cell(eq, o, a[..i], b[..j]) <= Cell(eq, o, a[..i - 1], b[..j - 1]) + SubCost(eq, o, a[i - 1], b[j - 1])
  {
    if i > 0 && j > 0 { CellStep(eq, o, a, b, i, j); }
  }

  /** No script over the two prefixes costs less than their table entry. */
  lemma {:induction false} CellIsLowerBound<T>(
    eq: (T, T) -> bool, o: Options, a: seq<T>, b: seq<T>, i: nat, j: nat, es: Script)
    requires Unit(o) && i <= |a| && j <= |b|
    requires Aligns(eq, a, b, i, j, es) && SubsDiffer(eq, a, b, es)
    ensures Cell(eq, o, a[..i], b[..j]) <= Cost(o, es)
    decreases |es|
  {
    if es != [] {
      var es', e := Chop(es), Last(es);
      assert e in es && forall x :: x in es' ==> x in es;
      CellGrows(eq, o, a, b, i, j);
      var i' := if e.op == Ins then i else i - 1;
      var j' := if e.op == Del then j else j - 1;
      CellIsLowerBound(eq, o, a, b, i', j', es');
    }
  }

  // ---------- the backtrace ----------

  /** The table entry of the first i tokens of `a` and the first j of `b`. */
  function Entry<T>(eq: (T, T) -> bool, o: Options, a: seq<T>, b: seq<T>, i: nat, j: nat): int
    requires i <= |a| && j <= |b|
  {
    Cell(eq, o, a[..i], b[..j])
  }

  /** The first of the backtrace's four tests to fire at (i, j); they look only at table
      entries and never at tokens. */
  function Choose<T>(eq: (T, T) -> bool, o: Options, a: seq<T>, b: seq<T>, i: nat, j: nat): (r: Option<EditOp>)
    requires i <= |a| && j <= |b|
    ensures r.Some? && r.value != Ins ==> i > 0
    ensures r.Some? && r.value != Del ==> j > 0
  {
    var c := Entry(eq, o, a, b, i, j);
    if i > 0 && Entry(eq, o, a, b, i - 1, j) + o.del == c then Some(Del)
    else if j > 0 && Entry(eq, o, a, b, i, j - 1) + o.ins == c then Some(Ins)
    else if i > 0 && j > 0 && Entry(eq, o, a, b, i - 1, j - 1) + o.sub == c then Some(Sub)
    else if i > 0 && j > 0 && Entry(eq, o, a, b, i - 1, j - 1) == c then Some(Match)
    else None
  }

  function Backtrace<T>(eq: (T, T) -> bool, o: Options, a: seq<T>, b: seq<T>, i: nat, j: nat): Script
    requires i <= |a| && j <= |b|
    decreases i + j
  {
    match Choose(eq, o, a, b, i, j)
    case None => []
    case Some(op) =>
      var i' := if op == Ins then i else i - 1;
      var j' := if op == Del then j else j - 1;
      Backtrace(eq, o, a, b, i', j') + [EditOpExt(op, i', j')]
  }

  lemma AppendOp(o: Options, es: Script, e: EditOpExt)
    ensures Chop(es + [e]) == es && Last(es + [e]) == e
    ensures Cost(o, es + [e]) == Cost(o, es) + OpCost(o, e.op)
  {
    assert Chop(es + [e]) == es;
  }

  /** A test fires everywhere but at the origin, and the step it picks pays exactly the
      difference between the two table entries. */
  lemma ChooseIsSound<T>(eq: (T, T) -> bool, o: Options, a: seq<T>, b: seq<T>, i: nat, j: nat)
    requires Unit(o) && i <= |a| && j <= |b|
    ensures match Choose(eq, o, a, b, i, j)
      case None => i == 0 && j == 0
      case Some(op) =>
        var i' := if op == Ins then i else i - 1;
        var j' := if op == Del then j else j - 1;
        && Entry(eq, o, a, b, i, j) == Entry(eq, o, a, b, i', j') + OpCost(o, op)
        && (op == Sub && o.sub != 0 ==> !eq(a[i'], b[j']))
        && (op == Match ==> eq(a[i'], b[j']))
  {
    if i > 0 && j > 0 { CellStep(eq, o, a, b, i, j); }
  }

  /** What the script for (i, j) must be. */
  predicate Traced<T>(eq: (T, T) -> bool, o: Options, a: seq<T>, b: seq<T>, i: nat, j: nat, es: Script)
    requires i <= |a| && j <= |b|
  {
    && Aligns(eq, a, b, i, j, es)
    && Cost(o, es) == Entry(eq, o, a, b, i, j)
    && (o.sub != 0 ==> SubsDiffer(eq, a, b, es))
  }

  /** The backtrace reaches (0, 0): its script aligns the whole prefixes and costs exactly
      their table entry; its Match steps join equal tokens, and with a non-zero
      substitution cost its Sub steps join unequal ones. */
  lemma {:induction false} BacktraceIsOptimal<T>(
    eq: (T, T) -> bool, o: Options, a: seq<T>, b: seq<T>, i: nat, j: nat)
    requires Unit(o) && i <= |a| && j <= |b|
    ensures Traced(eq, o, a, b, i, j, Backtrace(eq, o, a, b, i, j))
    decreases i + j
  {
    ChooseIsSound(eq, o, a, b, i, j);
    match Choose(eq, o, a, b, i, j)
    case None =>
    case Some(op) =>
      var i' := if op == Ins then i else i - 1;
      var j' := if op == Del then j else j - 1;
      BacktraceIsOptimal(eq, o, a, b, i', j');
      AppendOp(o, Backtrace(eq, o, a, b, i', j'), EditOpExt(op, i', j'));
  }

  /** The returned script is a cheapest one: it costs the distance, and no script over the
      two lists costs less. */
  lemma EditScriptIsOptimal<T>(eq: (T, T) -> bool, o: Options, a: seq<T>, b: seq<T>, es: Script)
    requires Unit(o) && Aligns(eq, a, b, |a|, |b|, es) && SubsDiffer(eq, a, b, es)
    ensures Cost(o, Backtrace(eq, o, a, b, |a|, |b|)) == Cell(eq, o, a, b) <= Cost(o, es)
  {
    assert a[..|a|] == a && b[..|b|] == b;
    BacktraceIsOptimal(eq, o, a, b, |a|, |b|);
    CellIsLowerBound(eq, o, a, b, |a|, |b|, es);
  }

  /** In which order the operations are preferred. */
  function Place(op: EditOp): nat {
    match op
    case Del => 0
    case Ins => 1
    case Sub => 2
    case Match => 3
  }

  /** Read from the end, es has the preferred operation where it first differs from fs. */
  predicate Preferred(es: Script, fs: Script) {
    if es == [] || fs == [] then es == fs
    else
      || Place(Last(es).op) < Place(Last(fs).op)
      || (Last(es) == Last(fs) && Preferred(Chop(es), Chop(fs)))
  }

  /** The last operation of a cheapest script passes its test on the table, and the rest is a cheapest
      script up to there. */
  lemma LastOfCheapest<T>(eq: (T, T) -> bool, o: Options, a: seq<T>, b: seq<T>, i: nat, j: nat, fs: Script)
    requires Unit(o) && i <= |a| && j <= |b| && fs != []
    requires Aligns(eq, a, b, i, j, fs) && SubsDiffer(eq, a, b, fs) && Cost(o, fs) == Entry(eq, o, a, b, i, j)
    ensures var op := Last(fs).op;
      var i' := if op == Ins then i else i - 1;
      var j' := if op == Del then j else j - 1;
      && i' >= 0 && j' >= 0 && Aligns(eq, a, b, i', j', Chop(fs)) && SubsDiffer(eq, a, b, Chop(fs))
      && Cost(o, Chop(fs)) == Entry(eq, o, a, b, i', j')
      && Entry(eq, o, a, b, i', j') + OpCost(o, op) == Entry(eq, o, a, b, i, j)
  {
    var e := Last(fs);
    var i' := if e.op == Ins then i else i - 1;
    var j' := if e.op == Del then j else j - 1;
    assert e in fs;
    CellIsLowerBound(eq, o, a, b, i', j', Chop(fs));
    CellGrows(eq, o, a, b, i, j);
  }

  /** Of all cheapest scripts the returned one is the first by this order: which one it is depends on
      nothing else. */
  lemma {:induction false} ScriptIsPreferred<T>(
    eq: (T, T) -> bool, o: Options, a: seq<T>, b: seq<T>, i: nat, j: nat, fs: Script)
    requires Unit(o) && i <= |a| && j <= |b|
    requires Aligns(eq, a, b, i, j, fs) && SubsDiffer(eq, a, b, fs) && Cost(o, fs) == Entry(eq, o, a, b, i, j)
    ensures Preferred(Backtrace(eq, o, a, b, i, j), fs)
    decreases |fs|
  {
    ChooseIsSound(eq, o, a, b, i, j);
    if fs != [] {
      LastOfCheapest(eq, o, a, b, i, j, fs);
      var op := Choose(eq, o, a, b, i, j).value;
      var i' := if op == Ins then i else i - 1;
      var j' := if op == Del then j else j - 1;
      AppendOp(o, Backtrace(eq, o, a, b, i', j'), EditOpExt(op, i', j'));
      if op == Last(fs).op { ScriptIsPreferred(eq, o, a, b, i', j', Chop(fs)); }
    }
  }

  // ---------- applying a script ----------

  /** insertAfter; None where the original panics. */
  function InsertAfter<T>(s: seq<T>, idx: int, v: T): Option<seq<T>> {
    if idx > |s| - 1 || idx < -1 then None
    else Some(s[..idx + 1] + [v] + s[idx + 1..])
  }

  /** deleteAt; None where the original panics. */
  function DeleteAt<T>(s: seq<T>, idx: int): Option<seq<T>> {
    if idx > |s| - 1 || idx < 0 then None
    else Some(s[..idx] + s[idx + 1..])
  }

  datatype Applied<T> = Applied(rows: seq<T>, sumIns: int, sumDel: int)

  function ApplyOp<T>(s: Applied<T>, cols: seq<T>, e: EditOpExt): Option<Applied<T>> {
    var pos := e.src + s.sumIns - s.sumDel;
    match e.op
    case Ins =>
      if !(0 <= e.dst < |cols|) then None else
      (match InsertAfter(s.rows, pos - 1, cols[e.dst])
       case None => None
       case Some(r) => Some(Applied(r, s.sumIns + 1, s.sumDel)))
    case Del =>
      (match DeleteAt(s.rows, pos)
       case None => None
       case Some(r) => Some(Applied(r, s.sumIns, s.sumDel + 1)))
    case Sub =>
      if 0 <= e.dst < |cols| && 0 <= pos < |s.rows| then Some(s.(rows := s.rows[pos := cols[e.dst]])) else None
    case Match => Some(s)
  }

  /** The state after the ops of `es`, or None once one of them panics. */
  function Apply<T>(rows: seq<T>, cols: seq<T>, es: Script): Option<Applied<T>> {
    if es == [] then Some(Applied(rows, 0, 0))
    else match Apply(rows, cols, Chop(es))
      case None => None
      case Some(s) => ApplyOp(s, cols, Last(es))
  }

  /** The list after walking to (i, j): j tokens of `b`, up to Equal, then the rest of `a`. */
  ghost predicate HalfWay<T>(eq: (T, T) -> bool, a: seq<T>, b: seq<T>, i: nat, j: nat, s: Applied<T>)
    requires i <= |a| && j <= |b|
  {
    && s.sumIns - s.sumDel == j - i
    && |s.rows| == j + |a| - i
    && s.rows[j..] == a[i..]
    && (forall k :: 0 <= k < j ==> s.rows[k] == b[k] || eq(s.rows[k], b[k]))
  }

  /** Applying any aligned script never panics and leaves the second list's tokens in front. */
  lemma {:induction false} ApplyAligned<T>(eq: (T, T) -> bool, a: seq<T>, b: seq<T>, i: nat, j: nat, es: Script)
    requires i <= |a| && j <= |b| && Aligns(eq, a, b, i, j, es)
    ensures Apply(a, b, es).Some? && HalfWay(eq, a, b, i, j, Apply(a, b, es).value)
    decreases |es|
  {
    if es != [] {
      match Last(es).op
      case Del => ApplyAligned(eq, a, b, i - 1, j, Chop(es));
      case Ins => ApplyAligned(eq, a, b, i, j - 1, Chop(es));
      case Sub => ApplyAligned(eq, a, b, i - 1, j - 1, Chop(es));
      case Match => ApplyAligned(eq, a, b, i - 1, j - 1, Chop(es));
    }
  }

  /** `r` is `b`, token by token, up to Equal. */
  ghost predicate Yields<T>(eq: (T, T) -> bool, b: seq<T>, r: Option<Applied<T>>) {
    r.Some? && |r.value.rows| == |b|
    && forall k :: 0 <= k < |b| ==> r.value.rows[k] == b[k] || eq(r.value.rows[k], b[k])
  }

  /** Applying the returned script to the first list yields the second, without panic. */
  lemma ApplyYieldsSecond<T>(eq: (T, T) -> bool, o: Options, a: seq<T>, b: seq<T>)
    requires Unit(o)
    ensures Yields(eq, b, Apply(a, b, Backtrace(eq, o, a, b, |a|, |b|)))
  {
    BacktraceIsOptimal(eq, o, a, b, |a|, |b|);
    ApplyAligned(eq, a, b, |a|, |b|, Backtrace(eq, o, a, b, |a|, |b|));
  }

  ghost predicate Sound<T(!new)>(eq: (T, T) -> bool, o: Options) {
    forall a: seq<T>, b: seq<T> :: Yields(eq, b, Apply(a, b, Backtrace(eq, o, a, b, |a|, |b|)))
  }

  /** Unit insertion and deletion costs are exactly what scripts need to work on all
      inputs: the borders are filled with indexes, not with multiples of the costs. */
  lemma SoundOptions<T(!new)>(eq: (T, T) -> bool, o: Options, x: T)
    ensures Sound(eq, o) <==> Unit(o)
  {
    if Unit(o) {
      forall a: seq<T>, b: seq<T> ensures Yields(eq, b, Apply(a, b, Backtrace(eq, o, a, b, |a|, |b|))) {
        ApplyYieldsSecond(eq, o, a, b);
      }
    } else if o.del != 1 {
      assert [x][..1] == [x] && [x][..0] == [];
      assert Backtrace(eq, o, [x], [], 1, 0) == [];
      assert !Yields(eq, [], Apply([x], [], Backtrace(eq, o, [x], [], |[x]|, 0)));
    } else {
      assert [x][..1] == [x] && [x][..0] == [];
      assert Backtrace(eq, o, [], [x], 0, 1) == [];
      assert !Yields(eq, [x], Apply([], [x], Backtrace(eq, o, [], [x], 0, |[x]|)));
    }
  }
}
