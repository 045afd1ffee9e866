/** What the tree operations do to the contents, on every search tree however coloured. */
module LlrbContents {
  import opened Wrappers
  import opened AssocList
  import opened Basics
  import opened Llrb

  /** A search tree: its in-order contents are sorted. Colours do not matter. */
  ghost predicate Ordered<K, V>(less: (K, K) -> bool, t: Tree<K, V>) {
    Sorted(less, Entries(t))
  }

  // ---------- rotations and flips keep the contents ----------

  lemma FlipEntries<K, V>(t: Tree<K, V>)
    ensures Entries(Flip(t)) == Entries(t)
  {}

  lemma ColorFlipEntries<K, V>(t: Tree<K, V>)
    requires t.Node?
    ensures Entries(ColorFlip(t)) == Entries(t)
    ensures Entries(ColorFlip(t).left) == Entries(t.left) && Entries(ColorFlip(t).right) == Entries(t.right)
  {
    FlipEntries(t.left);
    FlipEntries(t.right);
  }

  lemma Reassociate<T>(a: seq<T>, e: seq<T>, b: seq<T>, f: seq<T>, c: seq<T>)
    ensures a + e + (b + f + c) == (a + e + b) + f + c
  {}

  lemma RotateLeftEntries<K, V>(t: Tree<K, V>)
    requires t.Node? && t.right.Node?
    ensures Entries(RotateLeft(t)) == Entries(t)
  {
    var x := t.right;
    Reassociate(Entries(t.left), [Entry(t.key, t.value)], Entries(x.left), [Entry(x.key, x.value)], Entries(x.right));
  }

  lemma RotateRightEntries<K, V>(t: Tree<K, V>)
    requires t.Node? && t.left.Node?
    ensures Entries(RotateRight(t)) == Entries(t)
  {
    var x := t.left;
    Reassociate(Entries(x.left), [Entry(x.key, x.value)], Entries(x.right), [Entry(t.key, t.value)], Entries(t.right));
  }

  lemma RotateEntries<K, V>(t: Tree<K, V>)
    requires t.Node?
    ensures t.right.Node? ==> Entries(RotateLeft(t)) == Entries(t)
    ensures t.left.Node? ==> Entries(RotateRight(t)) == Entries(t)
  {
    if t.right.Node? { RotateLeftEntries(t); }
    if t.left.Node? { RotateRightEntries(t); }
  }

  lemma InsertFixEntries<K, V>(t: Tree<K, V>)
    requires t.Node?
    ensures Entries(InsertFix(t)) == Entries(t)
  {
    var t1 := if IsRed(t.right) && !IsRed(t.left) then RotateLeft(t) else t;
    RotateEntries(t);
    RotateEntries(t1);
  }

  lemma FixUpEntries<K, V>(t: Tree<K, V>)
    requires t.Node?
    ensures Entries(FixUp(t)) == Entries(t)
  {
    var t1 := if IsRed(t.right) then RotateLeft(t) else t;
    var t2 := if IsRed(t1.left) && IsRed(t1.left.left) then RotateRight(t1) else t1;
    RotateEntries(t);
    RotateEntries(t1);
    ColorFlipEntries(t2);
  }

  lemma MoveRedLeftEntries<K, V>(t: Tree<K, V>)
    requires t.Node? && t.left.Node?
    ensures Entries(MoveRedLeft(t)) == Entries(t)
  {
    var t1 := ColorFlip(t);
    ColorFlipEntries(t);
    if t1.right.Node? && IsRed(t1.right.left) {
      RotateEntries(t1.right);
      var t2 := t1.(right := RotateRight(t1.right));
      assert Entries(t2) == Entries(t1);
      RotateEntries(t2);
      ColorFlipEntries(RotateLeft(t2));
    }
  }

  lemma MoveRedRightEntries<K, V>(t: Tree<K, V>)
    requires t.Node? && t.right.Node?
    ensures Entries(MoveRedRight(t)) == Entries(t)
  {
    var t1 := ColorFlip(t);
    ColorFlipEntries(t);
    if t1.left.Node? && IsRed(t1.left.left) {
      RotateEntries(t1);
      ColorFlipEntries(RotateRight(t1));
    }
  }

  lemma LeanEntries<K, V>(t: Tree<K, V>)
    requires t.Node?
    ensures t.left.Node? ==> Entries(LeanLeft(t)) == Entries(t)
    ensures Entries(LeanRight(t)) == Entries(t)
    ensures t.right.Node? ==> Entries(PushRight(t)) == Entries(t)
  {
    RotateEntries(t);
    if t.left.Node? { MoveRedLeftEntries(t); }
    if t.right.Node? { MoveRedRightEntries(t); }
  }

  lemma OrderedSplit<K, V>(less: (K, K) -> bool, t: Tree<K, V>)
    requires t.Node? && Ordered(less, t)
    ensures Ordered(less, t.left) && Ordered(less, t.right)
    ensures forall e :: e in Entries(t.left) ==> less(e.key, t.key)
    ensures forall e :: e in Entries(t.right) ==> less(t.key, e.key)
  {
    SortedJoin(less, Entries(t.left), Entry(t.key, t.value), Entries(t.right));
  }

  // ---------- insertion is map update ----------

  lemma {:induction false} InsertIsPut<K(!new), V>(less: (K, K) -> bool, t: Tree<K, V>, k: K, v: V)
    requires StrictWeakOrder(less) && Ordered(less, t)
    ensures Entries(Insert(less, t, k, v).0) == Put(less, Entries(t), k, v)
    ensures Insert(less, t, k, v).1 <==> !Has(less, Entries(t), k)
    decreases Size(t)
  {
    if t.Leaf? {
    } else {
      var t1 := SplitFour(t);
      ColorFlipEntries(t);
      var a, e, b := Entries(t1.left), Entry(t.key, t.value), Entries(t1.right);
      assert Entries(t) == a + [e] + b;
      OrderedSplit(less, t);
      PutSplit(less, a, e, b, k, v);
      HasSplit(less, a, e, b, k);
      if less(k, t1.key) {
        InsertIsPut(less, t1.left, k, v);
        InsertFixEntries(t1.(left := Insert(less, t1.left, k, v).0));
      } else if less(t1.key, k) {
        InsertIsPut(less, t1.right, k, v);
        InsertFixEntries(t1.(right := Insert(less, t1.right, k, v).0));
      } else {
        InsertFixEntries(t1.(value := v));
      }
    }
  }

  /** Insert on any search tree: the contents become the updated map, still sorted, and the
      result says whether the key was new. */
  lemma InsertRootIsPut<K(!new), V>(less: (K, K) -> bool, t: Tree<K, V>, k: K, v: V)
    requires StrictWeakOrder(less) && Ordered(less, t)
    ensures var (r, inserted) := InsertRoot(less, t, k, v);
      && Ordered(less, r)
      && Entries(r) == Put(less, Entries(t), k, v)
      && (inserted <==> !Has(less, Entries(t), k))
  {
    InsertIsPut(less, t, k, v);
    PutSorted(less, Entries(t), k, v);
  }

  // ---------- lookup ----------

  /** Find reads the contents. */
  lemma {:induction false} FindIsLookup<K(!new), V>(less: (K, K) -> bool, t: Tree<K, V>, k: K)
    requires StrictWeakOrder(less) && Ordered(less, t)
    ensures Find(less, t, k) == Lookup(less, Entries(t), k)
  {
    if t.Node? {
      var a, e, b := Entries(t.left), Entry(t.key, t.value), Entries(t.right);
      OrderedSplit(less, t);
      HasSplit(less, a, e, b, k);
      FindIsLookup(less, t.left, k);
      FindIsLookup(less, t.right, k);
      LookupHas(less, Entries(t), k);
      LookupHas(less, a, k);
      LookupHas(less, b, k);
      if Find(less, t, k).Some? {
        var f := if less(k, t.key) then LookupWitness(less, a, k)
                 else if less(t.key, k) then LookupWitness(less, b, k)
                 else e;
        assert f in Entries(t) && Equiv(less, f.key, k);
        LookupMember(less, Entries(t), f, k);
      }
    }
  }

  ghost function LookupWitness<K, V>(less: (K, K) -> bool, s: seq<Entry<K, V>>, k: K): (e: Entry<K, V>)
    requires Lookup(less, s, k).Some?
    ensures e in s && Equiv(less, e.key, k) && Lookup(less, s, k) == Some(e.value)
  {
    if Equiv(less, s[0].key, k) then s[0] else LookupWitness(less, s[1..], k)
  }

  // ---------- deletion on arbitrary colours ----------

  lemma {:induction false} FirstIsHead<K, V>(t: Tree<K, V>)
    requires t.Node?
    ensures |Entries(t)| > 0
    ensures Entry(First(t).key, First(t).value) == Entries(t)[0]
  {
    if t.left.Node? {
      FirstIsHead(t.left);
    }
  }

  /** deleteMinimum drops exactly the first entry when no walked node has a right child
      where its left child is missing; otherwise it also drops that right child. */
  predicate MinLossless<K, V>(t: Tree<K, V>)
    requires t.Node?
    decreases Size(t)
  {
    if t.left.Leaf? then t.right.Leaf?
    else MinLossless(LeanLeft(t).left)
  }

  lemma TailOfJoin<T>(a: seq<T>, m: seq<T>, c: seq<T>)
    requires |a| > 0
    requires forall x :: x in m ==> x in a[1..]
    ensures (a + c)[1..] == a[1..] + c
    ensures forall x :: x in m + c ==> x in (a + c)[1..]
  {
    assert (a + c)[1..] == a[1..] + c;
  }

  /** `after` is `before` without its first entry, and possibly without others. */
  ghost predicate HeadDropped<K, V>(before: seq<Entry<K, V>>, after: seq<Entry<K, V>>, lossless: bool) {
    && |before| > 0
    && (forall e :: e in after ==> e in before[1..])
    && (if lossless then after == before[1..] else |after| < |before| - 1)
  }

  lemma HeadDroppedLeft<K, V>(t: Tree<K, V>, l: Tree<K, V>, lossless: bool)
    requires t.Node? && HeadDropped(Entries(t.left), Entries(l), lossless)
    ensures HeadDropped(Entries(t), Entries(FixUp(t.(left := l))), lossless)
  {
    FixUpEntries(t.(left := l));
    var a, m, c := Entries(t.left), Entries(l), [Entry(t.key, t.value)] + Entries(t.right);
    TailOfJoin(a, m, c);
    assert Entries(t) == a + c;
    assert Entries(t.(left := l)) == m + c;
  }

  lemma {:induction false} DeleteMinimumEntries<K, V>(t: Tree<K, V>)
    requires t.Node?
    ensures HeadDropped(Entries(t), Entries(DeleteMinimum(t)), MinLossless(t))
    decreases Size(t)
  {
    FirstIsHead(t);
    if t.left.Node? {
      var t1 := LeanLeft(t);
      LeanEntries(t);
      DeleteMinimumEntries(t1.left);
      HeadDroppedLeft(t1, DeleteMinimum(t1.left), MinLossless(t1.left));
    } else if t.right.Node? {
      FirstIsHead(t.right);
    }
  }

  lemma {:induction false} DeleteMinimumSorted<K(!new), V>(less: (K, K) -> bool, t: Tree<K, V>)
    requires StrictWeakOrder(less) && t.Node? && Ordered(less, t)
    ensures Ordered(less, DeleteMinimum(t))
    decreases Size(t)
  {
    if t.left.Node? {
      var t1 := LeanLeft(t);
      LeanEntries(t);
      OrderedSplit(less, t1);
      DeleteMinimumSorted(less, t1.left);
      DeleteMinimumEntries(t1.left);
      var l := DeleteMinimum(t1.left);
      FixUpEntries(t1.(left := l));
      JoinSorted(less, Entries(l), Entry(t1.key, t1.value), Entries(t1.right));
    }
  }

  /** The condition, read off the walk Delete makes: wherever it unlinks a node, that node
      has no other child. */
  predicate Lossless<K, V>(less: (K, K) -> bool, t: Tree<K, V>, k: K)
    decreases Size(t)
  {
    if t.Leaf? then true
    else if less(k, t.key) then
      t.left.Leaf? || Lossless(less, LeanLeft(t).left, k)
    else
      var t1 := LeanRight(t);
      if t1.right.Leaf? then Equiv(less, k, t1.key) ==> t1.left.Leaf?
      else
        var t2 := PushRight(t1);
        if Equiv(less, k, t2.key) then MinLossless(t2.right) else Lossless(less, t2.right, k)
  }

  /** What one removal below `t` must satisfy; `r` is the tree after it. */
  ghost predicate Removed<K(!new), V>(
    less: (K, K) -> bool, t: Tree<K, V>, k: K, r: Tree<K, V>, deleted: bool, lossless: bool)
  {
    && Ordered(less, r)
    && (deleted <==> Has(less, Entries(t), k))
    && (forall e :: e in Entries(r) ==> e in Entries(t) && !Equiv(less, e.key, k))
    && (if lossless then Entries(r) == Drop(less, Entries(t), k)
        else |Entries(r)| < |Drop(less, Entries(t), k)|)
    && (!deleted ==> Entries(r) == Entries(t))
  }

  lemma RemovedLeft<K(!new), V>(
    less: (K, K) -> bool, t: Tree<K, V>, k: K, l: Tree<K, V>, deleted: bool, lossless: bool)
    requires StrictWeakOrder(less) && t.Node? && Ordered(less, t) && less(k, t.key)
    requires Removed(less, t.left, k, l, deleted, lossless)
    ensures Removed(less, t, k, FixUp(t.(left := l)), deleted, lossless)
  {
    var a, e, b := Entries(t.left), Entry(t.key, t.value), Entries(t.right);
    OrderedSplit(less, t);
    FixUpEntries(t.(left := l));
    JoinSorted(less, Entries(l), e, b);
    HasSplit(less, a, e, b, k);
    DropSplit(less, a, e, b, k);
  }

  lemma RemovedRight<K(!new), V>(
    less: (K, K) -> bool, t: Tree<K, V>, k: K, r: Tree<K, V>, deleted: bool, lossless: bool)
    requires StrictWeakOrder(less) && t.Node? && Ordered(less, t) && less(t.key, k)
    requires Removed(less, t.right, k, r, deleted, lossless)
    ensures Removed(less, t, k, FixUp(t.(right := r)), deleted, lossless)
  {
    var a, e, b := Entries(t.left), Entry(t.key, t.value), Entries(t.right);
    OrderedSplit(less, t);
    FixUpEntries(t.(right := r));
    JoinSorted(less, a, e, Entries(r));
    HasSplit(less, a, e, b, k);
    DropSplit(less, a, e, b, k);
    assert forall x :: x in a ==> less(x.key, t.key);
  }

  lemma RemovedHere<K(!new), V>(less: (K, K) -> bool, t: Tree<K, V>, k: K)
    requires StrictWeakOrder(less) && t.Node? && t.right.Node? && Ordered(less, t) && Equiv(less, k, t.key)
    ensures var s := First(t.right);
      Removed(less, t, k, FixUp(t.(key := s.key, value := s.value, right := DeleteMinimum(t.right))),
        true, MinLossless(t.right))
  {
    var s := First(t.right);
    var m := DeleteMinimum(t.right);
    FixUpEntries(t.(key := s.key, value := s.value, right := m));
    FirstIsHead(t.right);
    DeleteMinimumEntries(t.right);
    OrderedSplit(less, t);
    DeleteMinimumSorted(less, t.right);
    var a, e, b := Entries(t.left), Entry(t.key, t.value), Entries(t.right);
    NextTaken(less, a, e, b, Entries(m), k, MinLossless(t.right));
    ReplaceByNext(less, a, e, b, Entries(m), k);
  }

  lemma NextTaken<K(!new), V>(less: (K, K) -> bool, a: seq<Entry<K, V>>, e: Entry<K, V>, b: seq<Entry<K, V>>,
                              m: seq<Entry<K, V>>, k: K, lossless: bool)
    requires StrictWeakOrder(less) && Sorted(less, a + [e] + b) && Equiv(less, e.key, k)
    requires |b| > 0 && if lossless then m == b[1..] else |m| < |b| - 1
    ensures Has(less, a + [e] + b, k)
    ensures if lossless then a + [b[0]] + m == Drop(less, a + [e] + b, k)
            else |a + [b[0]] + m| < |Drop(less, a + [e] + b, k)|
  {
    assert e in a + [e] + b;
    DropSplit(less, a, e, b, k);
    assert [b[0]] + b[1..] == b;
    Assoc(a, [b[0]], b[1..]);
  }

  /** Putting the next entry in the place of `e` keeps the order and leaves no key like `k`. */
  lemma ReplaceByNext<K(!new), V>(
    less: (K, K) -> bool, a: seq<Entry<K, V>>, e: Entry<K, V>, b: seq<Entry<K, V>>, m: seq<Entry<K, V>>, k: K)
    requires StrictWeakOrder(less) && Sorted(less, a + [e] + b) && Equiv(less, k, e.key)
    requires |b| > 0 && Sorted(less, m) && forall x :: x in m ==> x in b[1..]
    ensures Sorted(less, a + [b[0]] + m)
    ensures forall x :: x in a + [b[0]] + m ==> x in a + [e] + b && !Equiv(less, x.key, k)
  {
    SortedJoin(less, a, e, b);
    SortedTail(less, b);
    assert b[0] in b;
    JoinSorted(less, a, b[0], m);
    forall x | x in a + [b[0]] + m ensures x in a + [e] + b && !Equiv(less, x.key, k) {
      assert x in a || x in b;
    }
  }

  /** Delete on any search tree whatever its colours: order is kept, the key is gone,
      presence is reported correctly, nothing is invented or re-paired, and the result is
      the map without the key exactly when the walk is lossless. */
  lemma {:induction false} RemoveContents<K(!new), V>(less: (K, K) -> bool, t: Tree<K, V>, k: K)
    requires StrictWeakOrder(less) && t.Node? && Ordered(less, t)
    ensures var (r, deleted) := Remove(less, t, k);
      Removed(less, t, k, r, deleted, Lossless(less, t, k))
    decreases Size(t)
  {
    OrderedSplit(less, t);
    if less(k, t.key) {
      if t.left.Leaf? {
        FixUpEntries(t);
        RemovedNothing(less, t, k, FixUp(t));
      } else {
        var t1 := LeanLeft(t);
        LeanEntries(t);
        LeanLeftKey(less, t, k);
        OrderedSplit(less, t1);
        RemoveContents(less, t1.left, k);
        var (l, deleted) := Remove(less, t1.left, k);
        RemovedLeft(less, t1, k, l, deleted, Lossless(less, t1.left, k));
      }
    } else {
      var t1 := LeanRight(t);
      LeanEntries(t);
      OrderedSplit(less, t1);
      LeanRightKey(less, t, k);
      if t1.right.Leaf? {
        RemoveNoRight(less, t1, k);
      } else {
        var t2 := PushRight(t1);
        LeanEntries(t1);
        OrderedSplit(less, t2);
        PushRightKey(less, t1, k);
        if Equiv(less, k, t2.key) {
          RemovedHere(less, t2, k);
        } else {
          RemoveContents(less, t2.right, k);
          var (r, deleted) := Remove(less, t2.right, k);
          RemovedRight(less, t2, k, r, deleted, Lossless(less, t2.right, k));
        }
      }
    }
  }

  lemma RemovedNothing<K(!new), V>(less: (K, K) -> bool, t: Tree<K, V>, k: K, r: Tree<K, V>)
    requires StrictWeakOrder(less) && t.Node? && Ordered(less, t) && Entries(r) == Entries(t)
    requires if less(k, t.key) then t.left.Leaf? else less(t.key, k) && t.right.Leaf?
    ensures Removed(less, t, k, r, false, true)
  {
    OrderedSplit(less, t);
    forall e | e in Entries(t) ensures !Equiv(less, e.key, k) {
      if e in Entries(t.left) { assert less(e.key, t.key); }
      if e in Entries(t.right) { assert less(t.key, e.key); }
    }
    DropAbsent(less, Entries(t), k);
  }

  lemma RemoveNoRight<K(!new), V>(less: (K, K) -> bool, t: Tree<K, V>, k: K)
    requires StrictWeakOrder(less) && t.Node? && Ordered(less, t) && t.right.Leaf? && !less(k, t.key)
    ensures Equiv(less, k, t.key) ==> Removed<K, V>(less, t, k, Leaf, true, t.left.Leaf?)
    ensures !Equiv(less, k, t.key) ==> Removed(less, t, k, FixUp(t), false, true)
  {
    if Equiv(less, k, t.key) {
      HasSplit(less, Entries(t.left), Entry(t.key, t.value), Entries(t.right), k);
      DropSplit(less, Entries(t.left), Entry(t.key, t.value), Entries(t.right), k);
      if t.left.Node? { FirstIsHead(t.left); }
    } else {
      FixUpEntries(t);
      RemovedNothing(less, t, k, FixUp(t));
    }
  }

  // The rotations on the way down never move the key out of the subtree entered next.

  lemma LeanLeftKey<K(!new), V>(less: (K, K) -> bool, t: Tree<K, V>, k: K)
    requires StrictWeakOrder(less) && t.Node? && t.left.Node? && Ordered(less, t) && less(k, t.key)
    ensures less(k, LeanLeft(t).key)
  {
    var t1 := LeanLeft(t);
    if t1.key != t.key {
      LeanEntries(t);
      OrderedSplit(less, t);
      OrderedSplit(less, t1);
      assert Entry(t.key, t.value) in Entries(t1.left);
    }
  }

  lemma LeanRightKey<K(!new), V>(less: (K, K) -> bool, t: Tree<K, V>, k: K)
    requires StrictWeakOrder(less) && t.Node? && Ordered(less, t) && !less(k, t.key)
    ensures !less(k, LeanRight(t).key)
    ensures IsRed(t.left) ==> less(LeanRight(t).key, k)
  {
    var t1 := LeanRight(t);
    if IsRed(t.left) {
      OrderedSplit(less, t);
      assert Entry(t1.key, t1.value) in Entries(t.left);
      assert less(t1.key, t.key);
    }
  }

  lemma PushRightKey<K(!new), V>(less: (K, K) -> bool, t: Tree<K, V>, k: K)
    requires StrictWeakOrder(less) && t.Node? && t.right.Node? && Ordered(less, t) && !less(k, t.key)
    ensures !less(k, PushRight(t).key)
    ensures PushRight(t).key != t.key ==> less(PushRight(t).key, k)
  {
    var t1 := PushRight(t);
    if t1.key != t.key {
      OrderedSplit(less, t);
      assert t1.key == t.left.key;
      assert Entry(t.left.key, t.left.value) in Entries(t.left);
    }
  }

  /** The exported Delete, on any search tree. */
  lemma RemoveRootContents<K(!new), V>(less: (K, K) -> bool, t: Tree<K, V>, k: K)
    requires StrictWeakOrder(less) && Ordered(less, t)
    ensures var (r, deleted) := RemoveRoot(less, t, k);
      && Ordered(less, r)
      && (deleted <==> Has(less, Entries(t), k))
      && !Has(less, Entries(r), k)
      && (forall e :: e in Entries(r) ==> e in Entries(t))
      && (!deleted ==> Entries(r) == Entries(t))
      && (Entries(r) == Drop(less, Entries(t), k) <==> Lossless(less, t, k))
  {
    if t.Node? { RemoveContents(less, t, k); }
  }

  /** The answer of Delete counts the entries that are gone if and only if nothing else goes. */
  lemma DeleteSize<K(!new), V>(less: (K, K) -> bool, t: Tree<K, V>, k: K)
    requires StrictWeakOrder(less) && Ordered(less, t)
    ensures var (r, deleted) := RemoveRoot(less, t, k);
      && |Entries(r)| <= |Entries(t)| - (if deleted then 1 else 0)
      && (|Entries(r)| == |Entries(t)| - (if deleted then 1 else 0) <==> Lossless(less, t, k))
      && (Entries(r) == Drop(less, Entries(t), k) <==> Lossless(less, t, k))
  {
    RemoveRootContents(less, t, k);
    DropSorted(less, Entries(t), k);
    if t.Node? { RemoveContents(less, t, k); }
  }
}
