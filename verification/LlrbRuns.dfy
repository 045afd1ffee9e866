/** Whole runs of Insert and Delete, from the empty map. */
module LlrbRuns {
  import opened Wrappers
  import opened AssocList
  import opened Basics
  import opened Llrb
  import opened LlrbContents
  import opened LlrbBalance

  datatype Op<+K, +V> = InsertOp(key: K, value: V) | DeleteOp(key: K)

  /** The tree and the length field. */
  datatype State<+K, +V> = State(tree: Tree<K, V>, length: int)

  function Step<K, V>(less: (K, K) -> bool, s: State<K, V>, op: Op<K, V>): State<K, V> {
    match op
    case InsertOp(k, v) =>
      var (t, inserted) := InsertRoot(less, s.tree, k, v);
      State(t, if inserted then s.length + 1 else s.length)
    case DeleteOp(k) =>
      var (t, deleted) := RemoveRoot(less, s.tree, k);
      State(t, if deleted then s.length - 1 else s.length)
  }

  function Run<K, V>(less: (K, K) -> bool, ops: seq<Op<K, V>>): State<K, V> {
    if ops == [] then State(Leaf, 0)
    else Step(less, Run(less, ops[..|ops| - 1]), ops[|ops| - 1])
  }

  /** The same run on the reference map. */
  function Reference<K, V>(less: (K, K) -> bool, ops: seq<Op<K, V>>): seq<Entry<K, V>> {
    if ops == [] then []
    else
      var s := Reference(less, ops[..|ops| - 1]);
      match ops[|ops| - 1]
      case InsertOp(k, v) => Put(less, s, k, v)
      case DeleteOp(k) => Drop(less, s, k)
  }

  lemma {:induction false} ReferenceSorted<K(!new), V>(less: (K, K) -> bool, ops: seq<Op<K, V>>)
    requires StrictWeakOrder(less)
    ensures Sorted(less, Reference(less, ops))
  {
    if ops != [] {
      var s := Reference(less, ops[..|ops| - 1]);
      ReferenceSorted(less, ops[..|ops| - 1]);
      match ops[|ops| - 1]
      case InsertOp(k, v) => PutSorted(less, s, k, v);
      case DeleteOp(k) => DropSorted(less, s, k);
    }
  }

  predicate InsertOnly<K, V>(ops: seq<Op<K, V>>) {
    forall i :: 0 <= i < |ops| ==> ops[i].InsertOp?
  }

  lemma {:induction false} EntriesCount<K, V>(t: Tree<K, V>)
    ensures |Entries(t)| == Size(t)
  {
    if t.Node? {
      EntriesCount(t.left);
      EntriesCount(t.right);
    }
  }

  /** Every run of insertions: a balanced 2-3-4 tree with a black root holding exactly the
      reference map, the length field its number of nodes, its height logarithmic. */
  lemma {:induction false} InsertRun<K(!new), V>(less: (K, K) -> bool, ops: seq<Op<K, V>>)
    requires StrictWeakOrder(less) && InsertOnly(ops)
    ensures var s := Run(less, ops);
      && Tree234(s.tree) && !IsRed(s.tree) && Ordered(less, s.tree)
      && Entries(s.tree) == Reference(less, ops)
      && s.length == Size(s.tree) == |Reference(less, ops)|
      && Pow2(Height(s.tree)) <= (s.length + 1) * (s.length + 1)
  {
    InsertRunTree(less, ops);
    HeightBound(Run(less, ops).tree);
  }

  lemma {:induction false} InsertRunTree<K(!new), V>(less: (K, K) -> bool, ops: seq<Op<K, V>>)
    requires StrictWeakOrder(less) && InsertOnly(ops)
    ensures var s := Run(less, ops);
      && Tree234(s.tree) && !IsRed(s.tree) && Ordered(less, s.tree)
      && Entries(s.tree) == Reference(less, ops)
      && s.length == Size(s.tree) == |Reference(less, ops)|
  {
    if ops != [] {
      var s := Run(less, ops);
      var op := ops[|ops| - 1];
      var s0 := Run(less, ops[..|ops| - 1]);
      InsertRunTree(less, ops[..|ops| - 1]);
      InsertRootKeeps234(less, s0.tree, op.key, op.value);
      InsertRootIsPut(less, s0.tree, op.key, op.value);
      PutSize(less, Entries(s0.tree), op.key, op.value);
      EntriesCount(s.tree);
    }
  }

  /** Any insertions followed by one deletion: exactly the reference map. */
  lemma InsertsThenDelete<K(!new), V>(less: (K, K) -> bool, ops: seq<Op<K, V>>, k: K)
    requires StrictWeakOrder(less) && InsertOnly(ops)
    ensures var s := Run(less, ops + [DeleteOp(k)]);
      && Ordered(less, s.tree) && Entries(s.tree) == Reference(less, ops + [DeleteOp(k)])
      && s.length == Size(s.tree)
  {
    var all := ops + [DeleteOp(k)];
    assert all[..|ops|] == ops;
    InsertRun(less, ops);
    var s := Run(less, ops);
    RemoveRoot234(less, s.tree, k);
    RemoveRootContents(less, s.tree, k);
    DropSorted(less, Entries(s.tree), k);
    EntriesCount(s.tree);
    EntriesCount(Run(less, all).tree);
  }

  /** A Lookup that may have forgotten a key but never returns a wrong value. */
  ghost predicate Forgets<K(!new), V>(less: (K, K) -> bool, s: seq<Entry<K, V>>, reference: seq<Entry<K, V>>) {
    forall q :: Lookup(less, s, q) == None || Lookup(less, s, q) == Lookup(less, reference, q)
  }

  /** Every run of insertions and deletions in any order: the tree stays ordered, Find never
      returns a value the reference map would not, and the length field never falls below
      the number of entries left. */
  lemma {:induction false} AnyRun<K(!new), V>(less: (K, K) -> bool, ops: seq<Op<K, V>>)
    requires StrictWeakOrder(less)
    ensures var s := Run(less, ops);
      && Ordered(less, s.tree)
      && Size(s.tree) <= s.length
      && (forall q :: Find(less, s.tree, q) == None
                   || Find(less, s.tree, q) == Lookup(less, Reference(less, ops), q))
  {
    AnyRunForgets(less, ops);
    var s := Run(less, ops);
    EntriesCount(s.tree);
    forall q ensures Find(less, s.tree, q) == None
                  || Find(less, s.tree, q) == Lookup(less, Reference(less, ops), q)
    {
      FindIsLookup(less, s.tree, q);
    }
  }

  lemma {:induction false} AnyRunForgets<K(!new), V>(less: (K, K) -> bool, ops: seq<Op<K, V>>)
    requires StrictWeakOrder(less)
    ensures var s := Run(less, ops);
      && Ordered(less, s.tree)
      && |Entries(s.tree)| <= s.length
      && Forgets(less, Entries(s.tree), Reference(less, ops))
  {
    if ops != [] {
      var ops0 := ops[..|ops| - 1];
      var s0, ref0 := Run(less, ops0), Reference(less, ops0);
      AnyRunForgets(less, ops0);
      ReferenceSorted(less, ops0);
      match ops[|ops| - 1]
      case InsertOp(k, v) =>
        InsertRootIsPut(less, s0.tree, k, v);
        PutSize(less, Entries(s0.tree), k, v);
        PutForgets(less, Entries(s0.tree), ref0, k, v);
      case DeleteOp(k) =>
        RemoveRootContents(less, s0.tree, k);
        DeleteSize(less, s0.tree, k);
        DropForgets(less, Entries(s0.tree), Entries(RemoveRoot(less, s0.tree, k).0), ref0, k);
    }
  }

  lemma PutForgets<K(!new), V>(
    less: (K, K) -> bool, s: seq<Entry<K, V>>, reference: seq<Entry<K, V>>, k: K, v: V)
    requires StrictWeakOrder(less) && Sorted(less, s) && Sorted(less, reference) && Forgets(less, s, reference)
    ensures Forgets(less, Put(less, s, k, v), Put(less, reference, k, v))
  {
    forall q ensures Lookup(less, Put(less, s, k, v), q) == None
      || Lookup(less, Put(less, s, k, v), q) == Lookup(less, Put(less, reference, k, v), q)
    {
      PutLookup(less, s, k, v, q);
      PutLookup(less, reference, k, v, q);
    }
  }

  lemma NotEquivalent<K(!new)>(less: (K, K) -> bool, e: K, k: K, q: K)
    requires StrictWeakOrder(less) && Equiv(less, e, q) && !Equiv(less, e, k)
    ensures !Equiv(less, k, q)
  {}

  lemma DropForgets<K(!new), V>(
    less: (K, K) -> bool, s: seq<Entry<K, V>>, r: seq<Entry<K, V>>, reference: seq<Entry<K, V>>, k: K)
    requires StrictWeakOrder(less) && Sorted(less, s) && Sorted(less, reference) && Forgets(less, s, reference)
    requires !Has(less, r, k) && forall e :: e in r ==> e in s
    ensures Forgets(less, r, Drop(less, reference, k))
  {
    forall q ensures Lookup(less, r, q) == None
      || Lookup(less, r, q) == Lookup(less, Drop(less, reference, k), q)
    {
      DropLookup(less, reference, k, q);
      if Lookup(less, r, q).Some? {
        var e := LookupWitness(less, r, q);
        LookupMember(less, s, e, q);
        NotEquivalent(less, e.key, k, q);
      }
    }
  }

  /** Every Delete in the run finds its walk lossless. */
  predicate LosslessRun<K, V>(less: (K, K) -> bool, ops: seq<Op<K, V>>) {
    ops == [] ||
    (var n := |ops| - 1;
     && LosslessRun(less, ops[..n])
     && (ops[n].DeleteOp? ==> Lossless(less, Run(less, ops[..n]).tree, ops[n].key)))
  }

  /** The tree has held exactly the reference map at every point of the run. */
  predicate ExactRun<K(==), V(==)>(less: (K, K) -> bool, ops: seq<Op<K, V>>) {
    && Entries(Run(less, ops).tree) == Reference(less, ops)
    && (ops == [] || ExactRun(less, ops[..|ops| - 1]))
  }

  /** The lossless runs are exactly the runs that agree with the reference throughout, and exactly
      the runs after which the length field is the number of entries. */
  lemma {:induction false} LosslessRunIsExact<K(!new), V>(less: (K, K) -> bool, ops: seq<Op<K, V>>)
    requires StrictWeakOrder(less)
    ensures LosslessRun(less, ops) <==> ExactRun(less, ops)
    ensures LosslessRun(less, ops) <==> Run(less, ops).length == Size(Run(less, ops).tree)
  {
    if ops != [] {
      var ops0 := ops[..|ops| - 1];
      LosslessRunIsExact(less, ops0);
      AnyRunForgets(less, ops0);
      EntriesCount(Run(less, ops0).tree);
      LosslessStep(less, Run(less, ops0), ops[|ops| - 1]);
    }
  }

  lemma LosslessStep<K(!new), V>(less: (K, K) -> bool, s: State<K, V>, op: Op<K, V>)
    requires StrictWeakOrder(less) && Ordered(less, s.tree)
    ensures var r := Step(less, s, op);
      match op
      case InsertOp(k, v) =>
        Entries(r.tree) == Put(less, Entries(s.tree), k, v) && r.length - Size(r.tree) == s.length - Size(s.tree)
      case DeleteOp(k) =>
        && (Lossless(less, s.tree, k) <==> Entries(r.tree) == Drop(less, Entries(s.tree), k))
        && r.length - Size(r.tree) >= s.length - Size(s.tree)
        && (Lossless(less, s.tree, k) <==> r.length - Size(r.tree) == s.length - Size(s.tree))
  {
    EntriesCount(s.tree);
    EntriesCount(Step(less, s, op).tree);
    match op
    case InsertOp(k, v) =>
      InsertRootIsPut(less, s.tree, k, v);
      PutSize(less, Entries(s.tree), k, v);
    case DeleteOp(k) =>
      DeleteSize(less, s.tree, k);
  }

  // ---------- deletions from a strict tree ----------

  function DeleteAll<K, V>(less: (K, K) -> bool, t: Tree<K, V>, keys: seq<K>): Tree<K, V>
    decreases |keys|
  {
    if keys == [] then t else DeleteAll(less, RemoveRoot(less, t, keys[0]).0, keys[1..])
  }

  function DropAll<K, V>(less: (K, K) -> bool, s: seq<Entry<K, V>>, keys: seq<K>): seq<Entry<K, V>>
    decreases |keys|
  {
    if keys == [] then s else DropAll(less, Drop(less, s, keys[0]), keys[1..])
  }

  /** Any number of deletions from a strict 2-3 tree is exact and keeps the tree strict, and so of
      logarithmic height. */
  lemma DeleteRun<K(!new), V>(less: (K, K) -> bool, t: Tree<K, V>, keys: seq<K>)
    requires StrictWeakOrder(less) && Ordered(less, t) && Tree23(t)
    ensures var r := DeleteAll(less, t, keys);
      && Tree23(r) && (keys != [] ==> !IsRed(r)) && Ordered(less, r)
      && Entries(r) == DropAll(less, Entries(t), keys)
      && Size(r) == |DropAll(less, Entries(t), keys)|
      && (!IsRed(r) ==> Pow2(Height(r)) <= (Size(r) + 1) * (Size(r) + 1))
  {
    var r := DeleteAll(less, t, keys);
    DeleteRunTree(less, t, keys);
    EntriesCount(r);
    Tree23Is234(r);
    if !IsRed(r) { HeightBound(r); }
  }

  lemma {:induction false} DeleteRunTree<K(!new), V>(less: (K, K) -> bool, t: Tree<K, V>, keys: seq<K>)
    requires StrictWeakOrder(less) && Ordered(less, t) && Tree23(t)
    ensures var r := DeleteAll(less, t, keys);
      && Tree23(r) && (keys != [] ==> !IsRed(r)) && Ordered(less, r)
      && Entries(r) == DropAll(less, Entries(t), keys)
    decreases |keys|
  {
    if keys != [] {
      RemoveRootStrict(less, t, keys[0]);
      DeleteRunTree(less, RemoveRoot(less, t, keys[0]).0, keys[1..]);
    }
  }

  // ---------- the loss ----------

  predicate IntLess(a: int, b: int) { a < b }

  function Leaf1(k: int, red: bool): Tree<int, int> { Node(Leaf, k, k, red, Leaf) }

  function InsertUpTo(n: nat): Tree<int, int> {
    if n == 0 then Leaf else InsertRoot(IntLess, InsertUpTo(n - 1), n, n).0
  }

  lemma FiveInserted()
    ensures InsertUpTo(5) == Node(Leaf1(1, false), 2, 2, false, Node(Leaf1(3, true), 4, 4, false, Leaf1(5, true)))
  {
    assert InsertUpTo(1) == Leaf1(1, false);
    assert InsertUpTo(2) == Node(Leaf1(1, true), 2, 2, false, Leaf);
    assert InsertUpTo(3) == Node(Leaf1(1, true), 2, 2, false, Leaf1(3, true));
    assert InsertUpTo(4) == Node(Leaf1(1, false), 2, 2, false, Node(Leaf1(3, true), 4, 4, false, Leaf)) by {
      var t := Leaf1(3, false);
      assert Insert(IntLess, t, 4, 4).0 == Node(Leaf1(3, true), 4, 4, false, Leaf);
    }
    var t := Node(Leaf1(3, true), 4, 4, false, Leaf);
    assert Insert(IntLess, t, 5, 5).0 == Node(Leaf1(3, true), 4, 4, false, Leaf1(5, true));
  }

  const AFTER_ONE: Tree<int, int> :=
    Node(Leaf1(2, false), 3, 3, false, Node(Leaf, 4, 4, false, Leaf1(5, true)))

  /** Inserting 1 to 5 and deleting 1 reaches AFTER_ONE. */
  lemma OneDeleted()
    ensures RemoveRoot(IntLess, InsertUpTo(5), 1).0 == AFTER_ONE
  {
    FiveInserted();
    var t := InsertUpTo(5);
    assert LeanLeft(t) == Node(Node(Leaf1(1, true), 2, 2, false, Leaf), 3, 3, false,
                               Node(Leaf, 4, 4, false, Leaf1(5, true)));
    assert Remove(IntLess, Leaf1(1, true), 1).0 == Leaf;
    assert Remove(IntLess, Node(Leaf1(1, true), 2, 2, false, Leaf), 1).0 == Leaf1(2, false);
  }

  /** Deleting 3 from there also loses 5: the condition above is not idle. */
  lemma DeleteCanLose()
    ensures !Lossless(IntLess, AFTER_ONE, 3)
    ensures Entries(AFTER_ONE) == [Entry(2, 2), Entry(3, 3), Entry(4, 4), Entry(5, 5)]
    ensures Entries(RemoveRoot(IntLess, AFTER_ONE, 3).0) == [Entry(2, 2), Entry(4, 4)]
  {
    var m := Node(Leaf, 4, 4, true, Leaf1(5, true));
    assert LeanRight(AFTER_ONE) == AFTER_ONE;
    assert PushRight(AFTER_ONE) == Node(Leaf1(2, true), 3, 3, true, m);
    assert DeleteMinimum(m) == Leaf && !MinLossless(m) && First(m) == m;
    assert FixUp(Node(Leaf1(2, true), 4, 4, true, Leaf)) == Node(Leaf1(2, true), 4, 4, true, Leaf);
    assert RemoveRoot(IntLess, AFTER_ONE, 3).0 == Node(Leaf1(2, true), 4, 4, false, Leaf);
  }
}
