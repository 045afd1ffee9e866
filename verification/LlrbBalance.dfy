/** Balance: what insertion keeps on 2-3-4 trees and deletion keeps on strict 2-3 trees. */
module LlrbBalance {
  import opened AssocList
  import opened Basics
  import opened Llrb
  import opened LlrbContents

  /** Black nodes on the leftmost path; on every path when the tree is Balanced. */
  function Blacks<K, V>(t: Tree<K, V>): nat {
    if t.Leaf? then 0 else Blacks(t.left) + if t.red then 0 else 1
  }

  predicate Balanced<K, V>(t: Tree<K, V>) {
    t.Node? ==> Balanced(t.left) && Balanced(t.right) && Blacks(t.left) == Blacks(t.right)
  }

  /** No red node has a red child, and a red right child only beside a red left child. */
  predicate Lean234<K, V>(t: Tree<K, V>) {
    t.Node? ==>
      && Lean234(t.left) && Lean234(t.right)
      && (t.red ==> !IsRed(t.left) && !IsRed(t.right))
      && (IsRed(t.right) ==> IsRed(t.left))
  }

  /** The 2-3-4 invariant. */
  predicate Tree234<K, V>(t: Tree<K, V>) { Balanced(t) && Lean234(t) }

  /** The strict 2-3 invariant: as above, and no red right child at all. */
  predicate Tree23<K, V>(t: Tree<K, V>) {
    t.Node? ==>
      && Tree23(t.left) && Tree23(t.right) && Blacks(t.left) == Blacks(t.right)
      && !IsRed(t.right) && (t.red ==> !IsRed(t.left))
  }

  lemma {:induction false} Tree23Is234<K, V>(t: Tree<K, V>)
    requires Tree23(t)
    ensures Tree234(t)
  {
    if t.Node? {
      Tree23Is234(t.left);
      Tree23Is234(t.right);
    }
  }

  // ---------- insertion ----------

  predicate FourNode<K, V>(t: Tree<K, V>) { t.Node? && IsRed(t.left) && IsRed(t.right) }

  /** What insertion below `t` may return: only a red entry node may come back red with a
      red left child, and a black entry node stays black unless it was a leaf or a 4-node. */
  predicate Inserted<K, V>(t: Tree<K, V>, r: Tree<K, V>) {
    && r.Node? && Balanced(r) && Blacks(r) == Blacks(t)
    && (if IsRed(t) then r.red && Lean234(r.left) && Lean234(r.right) && !IsRed(r.right)
        else Lean234(r) && (IsRed(r) ==> t.Leaf? || FourNode(t)))
  }

  lemma FlipBlackens<K, V>(t: Tree<K, V>)
    requires t.Node? && Tree234(t)
    ensures t.red ==> Tree234(Flip(t)) && Blacks(Flip(t)) == Blacks(t) + 1
    ensures !t.red && !IsRed(t.left) ==> Tree234(Flip(t)) && Blacks(Flip(t)) == Blacks(t) - 1
  {}

  /** After the split no child pair is red, and the black height is what it was. */
  lemma SplitFourKeeps<K, V>(t: Tree<K, V>)
    requires t.Node? && Tree234(t)
    ensures var s := SplitFour(t);
      && Tree234(s) && Blacks(s) == Blacks(t) && !IsRed(s.right)
      && (s.red <==> t.red || FourNode(t))
      && (s.red ==> !IsRed(s.left))
      && Tree234(s.left) && Tree234(s.right) && Blacks(s.left) == Blacks(s.right)
      && (FourNode(t) ==> !FourNode(s.left) && !FourNode(s.right))
      && (FourNode(t) ==> s.left.Node? && s.right.Node?)
  {
    if FourNode(t) {
      FlipBlackens(t.left);
      FlipBlackens(t.right);
    }
  }

  lemma InsertedLeft<K, V>(t: Tree<K, V>, l: Tree<K, V>)
    requires t.Node? && Tree234(t) && Inserted(SplitFour(t).left, l)
    ensures Inserted(t, InsertFix(SplitFour(t).(left := l)))
  {
    SplitFourKeeps(t);
    var s := SplitFour(t);
    assert Inserted(s.left, l);
  }

  lemma InsertedRight<K, V>(t: Tree<K, V>, r: Tree<K, V>)
    requires t.Node? && Tree234(t) && Inserted(SplitFour(t).right, r)
    ensures Inserted(t, InsertFix(SplitFour(t).(right := r)))
  {
    SplitFourKeeps(t);
  }

  lemma {:induction false} InsertKeeps234<K, V>(less: (K, K) -> bool, t: Tree<K, V>, k: K, v: V)
    requires Tree234(t)
    ensures Inserted(t, Insert(less, t, k, v).0)
    decreases Size(t)
  {
    if t.Node? {
      var s := SplitFour(t);
      SplitFourKeeps(t);
      if less(k, s.key) {
        InsertKeeps234(less, s.left, k, v);
        InsertedLeft(t, Insert(less, s.left, k, v).0);
      } else if less(s.key, k) {
        InsertKeeps234(less, s.right, k, v);
        InsertedRight(t, Insert(less, s.right, k, v).0);
      } else {
        assert InsertFix(s.(value := v)) == s.(value := v);
      }
    }
  }

  /** Insert on any 2-3-4 tree with a black root gives such a tree. */
  lemma InsertRootKeeps234<K, V>(less: (K, K) -> bool, t: Tree<K, V>, k: K, v: V)
    requires Tree234(t) && !IsRed(t)
    ensures var r := InsertRoot(less, t, k, v).0; Tree234(r) && !IsRed(r)
    ensures Blacks(t) <= Blacks(InsertRoot(less, t, k, v).0) <= Blacks(t) + 1
  {
    InsertKeeps234(less, t, k, v);
  }

  // ---------- height ----------

  function Height<K, V>(t: Tree<K, V>): nat {
    if t.Leaf? then 0
    else 1 + if Height(t.left) < Height(t.right) then Height(t.right) else Height(t.left)
  }

  lemma {:induction false} SizeFromBlacks<K, V>(t: Tree<K, V>)
    requires Tree234(t)
    ensures Pow2(Blacks(t)) <= Size(t) + 1
    ensures Height(t) <= 2 * Blacks(t) + if IsRed(t) then 1 else 0
  {
    if t.Node? {
      SizeFromBlacks(t.left);
      SizeFromBlacks(t.right);
    }
  }

  lemma {:induction false} Pow2Monotone(a: nat, b: nat)
    requires a <= b
    ensures Pow2(a) <= Pow2(b)
  {
    if a < b { Pow2Monotone(a, b - 1); }
  }

  lemma {:induction false} Pow2Double(a: nat)
    ensures Pow2(2 * a) == Pow2(a) * Pow2(a)
  {
    if a > 0 {
      Pow2Double(a - 1);
      var p := Pow2(a - 1);
      assert 2 * a - 1 - 1 == 2 * (a - 1);
      assert Pow2(2 * a) == 2 * (2 * Pow2(2 * (a - 1)));
      assert 2 * (2 * (p * p)) == (2 * p) * (2 * p);
    }
  }

  lemma SquareMonotone(a: nat, b: nat)
    requires a <= b
    ensures a * a <= b * b
  {}

  /** Height at most 2 log2(n + 1), written without logarithms. */
  lemma HeightBound<K, V>(t: Tree<K, V>)
    requires Tree234(t) && !IsRed(t)
    ensures Pow2(Height(t)) <= (Size(t) + 1) * (Size(t) + 1)
  {
    SizeFromBlacks(t);
    Pow2Monotone(Height(t), 2 * Blacks(t));
    Pow2Double(Blacks(t));
    SquareMonotone(Pow2(Blacks(t)), Size(t) + 1);
  }

  // ---------- deletion on strict 2-3 trees ----------

  /** A node as the descent may enter it: strict subtrees of equal black height. */
  predicate Entered<K, V>(t: Tree<K, V>) {
    && t.Node? && Tree23(t.left) && Tree23(t.right) && Blacks(t.left) == Blacks(t.right)
    && (t.red ==> !IsRed(t.left) && !IsRed(t.right))
    && !(IsRed(t.left) && IsRed(t.right))
  }

  /** The descent's promise: the node or one of its children is red. */
  predicate Primed<K, V>(t: Tree<K, V>) {
    Entered(t) && (t.red || IsRed(t.left) || IsRed(t.right))
  }

  predicate PrimedLeft<K, V>(t: Tree<K, V>) { Primed(t) && !IsRed(t.right) }

  /** What comes back: a strict tree of the same black height, black if the node was black. */
  predicate Shrunk<K, V>(t: Tree<K, V>, r: Tree<K, V>)
  {
    && Tree23(r) && Blacks(r) == Blacks(t) && (!IsRed(t) ==> !IsRed(r))
  }

  /** What comes back from the root, which need not be primed. */
  predicate Returned<K, V>(t: Tree<K, V>, r: Tree<K, V>) {
    && (Primed(t) ==> Shrunk(t, r))
    && Tree23(Blacken(r))
  }

  lemma LeanLeftStep<K, V>(t: Tree<K, V>)
    requires Entered(t) && !IsRed(t.right) && t.left.Node?
    ensures PrimedLeft(LeanLeft(t).left)
  {
    assert Tree23(t.left);
    if !IsRed(t.left) && !IsRed(t.left.left) {
      assert t.right.Node?;
      assert Tree23(t.right);
      if IsRed(t.right.left) {
        assert Tree23(t.right.left);
      }
    }
  }

  lemma LeftStepMoved<K, V>(t: Tree<K, V>, l: Tree<K, V>)
    requires Entered(t) && !IsRed(t.right) && t.left.Node?
    requires !IsRed(t.left) && !IsRed(t.left.left) && IsRed(t.right.left)
    requires Shrunk(LeanLeft(t).left, l)
    ensures Returned(t, FixUp(LeanLeft(t).(left := l)))
  {
    assert Tree23(t.right);
    assert Tree23(t.right.left);
    var x := t.right.left;
    assert Blacks(x.left) == Blacks(x.right) == Blacks(x) == Blacks(t.right.right);
    var a := Node(Flip(t.left), t.key, t.value, false, x.left);
    var b := Node(x.right, t.right.key, t.right.value, false, t.right.right);
    assert LeanLeft(t) == Node(a, x.key, x.value, t.red, b);
    assert Tree23(b) && Blacks(b) == Blacks(t.right);
    assert Blacks(a) == Blacks(t.left);
    assert FixUp(LeanLeft(t).(left := l)) == Node(l, x.key, x.value, t.red, b);
  }

  lemma LeftStepFlipped<K, V>(t: Tree<K, V>, l: Tree<K, V>)
    requires Entered(t) && !IsRed(t.right) && t.left.Node?
    requires !IsRed(t.left) && !IsRed(t.left.left) && t.right.Node? && !IsRed(t.right.left)
    requires Shrunk(LeanLeft(t).left, l)
    ensures Returned(t, FixUp(LeanLeft(t).(left := l)))
  {
    assert Tree23(t.right);
    var t1 := LeanLeft(t);
    assert t1 == Node(Flip(t.left), t.key, t.value, !t.red, Flip(t.right));
  }

  lemma LeftStep<K, V>(t: Tree<K, V>, l: Tree<K, V>)
    requires Entered(t) && !IsRed(t.right) && t.left.Node?
    requires Shrunk(LeanLeft(t).left, l)
    ensures Returned(t, FixUp(LeanLeft(t).(left := l)))
  {
    if !IsRed(t.left) && !IsRed(t.left.left) {
      assert t.right.Node?;
      if IsRed(t.right.left) { LeftStepMoved(t, l); } else { LeftStepFlipped(t, l); }
    }
  }

  lemma LeanRightStep<K, V>(t: Tree<K, V>)
    requires Entered(t) && IsRed(t.left)
    ensures var s := LeanRight(t);
      Entered(s) && !s.red && IsRed(s.right) && !IsRed(s.left) && PrimedLeft(s.right)
      && Blacks(s) == Blacks(t)
  {
    assert Tree23(t.left);
  }

  /** Below a red right child that comes back as `r`. */
  lemma RightOfRed<K, V>(t: Tree<K, V>, r: Tree<K, V>)
    requires Entered(t) && IsRed(t.right) && Shrunk(t.right, r)
    ensures Shrunk(t, FixUp(t.(right := r)))
  {
    assert Tree23(t.left);
    assert !IsRed(t.left);
    if IsRed(r) { assert Tree23(r.left); }
  }

  lemma PushRightMoved<K, V>(t: Tree<K, V>, r: Tree<K, V>)
    requires Entered(t) && !IsRed(t.left) && t.right.Node? && !IsRed(t.right)
    requires !IsRed(t.right.left) && IsRed(t.left.left)
    ensures var s := PushRight(t);
      Primed(s.right) && !s.right.red && s.right.key == t.key && s.key == t.left.key
    ensures Shrunk(PushRight(t).right, r) ==> Returned(t, FixUp(PushRight(t).(right := r)))
  {
    assert Tree23(t.left);
    assert Tree23(t.left.left);
    assert Tree23(t.right);
    var x := t.left;
    var a := Flip(x.left);
    var b := Node(x.right, t.key, t.value, false, Flip(t.right));
    assert PushRight(t) == Node(a, x.key, x.value, t.red, b);
    assert Tree23(a) && Blacks(a) == Blacks(x) == Blacks(b);
    if Shrunk(b, r) {
      assert FixUp(PushRight(t).(right := r)) == Node(a, x.key, x.value, t.red, r);
    }
  }

  lemma PushRightFlipped<K, V>(t: Tree<K, V>, r: Tree<K, V>)
    requires Entered(t) && !IsRed(t.left) && t.right.Node? && !IsRed(t.right)
    requires !IsRed(t.right.left) && t.left.Node? && !IsRed(t.left.left)
    ensures var s := PushRight(t);
      PrimedLeft(s.right) && s.key == t.key
    ensures Shrunk(PushRight(t).right, r) ==> Returned(t, FixUp(PushRight(t).(right := r)))
  {
    assert Tree23(t.left);
    assert Tree23(t.right);
    assert PushRight(t) == Node(Flip(t.left), t.key, t.value, !t.red, Flip(t.right));
  }

  lemma RightOfBlack<K, V>(t: Tree<K, V>, r: Tree<K, V>)
    requires Entered(t) && !IsRed(t.left) && t.right.Node? && !IsRed(t.right) && IsRed(t.right.left)
    requires Shrunk(t.right, r)
    ensures PrimedLeft(t.right)
    ensures Returned(t, FixUp(t.(right := r)))
  {
    assert Tree23(t.right);
    assert FixUp(t.(right := r)) == t.(right := r);
  }

  // ---------- deleteMinimum ----------

  lemma {:induction false} DeleteMinimumStrict<K, V>(t: Tree<K, V>)
    requires PrimedLeft(t)
    ensures Shrunk(t, DeleteMinimum(t)) && MinLossless(t)
    decreases Size(t)
  {
    if t.left.Node? {
      LeanLeftStep(t);
      var s := LeanLeft(t);
      DeleteMinimumStrict(s.left);
      LeftStep(t, DeleteMinimum(s.left));
    }
  }

  // ---------- remove ----------

  lemma {:induction false} RemoveStrict<K(!new), V>(less: (K, K) -> bool, t: Tree<K, V>, k: K)
    requires StrictWeakOrder(less) && Ordered(less, t) && Entered(t)
    requires IsRed(t.right) ==> !less(k, t.key)
    ensures Returned(t, Remove(less, t, k).0) && Lossless(less, t, k)
    decreases Size(t)
  {
    OrderedSplit(less, t);
    LeanEntries(t);
    if less(k, t.key) {
      if t.left.Leaf? {
        assert FixUp(t) == t;
      } else {
        LeanLeftStep(t);
        var s := LeanLeft(t);
        OrderedSplit(less, s);
        RemoveStrict(less, s.left, k);
        LeftStep(t, Remove(less, s.left, k).0);
      }
    } else if IsRed(t.left) {
      RemoveStrictLeanRight(less, t, k);
    } else if t.right.Leaf? {
      assert FixUp(t) == t;
    } else {
      RemoveStrictRight(less, t, k);
    }
  }

  lemma RemoveStrictLeanRight<K(!new), V>(less: (K, K) -> bool, t: Tree<K, V>, k: K)
    requires StrictWeakOrder(less) && Ordered(less, t) && Entered(t)
    requires !less(k, t.key) && IsRed(t.left)
    ensures Returned(t, Remove(less, t, k).0) && Lossless(less, t, k)
    decreases Size(t), 0
  {
    LeanEntries(t);
    LeanRightStep(t);
    LeanRightKey(less, t, k);
    var s := LeanRight(t);
    OrderedSplit(less, s);
    RemoveStrict(less, s.right, k);
    var r := Remove(less, s.right, k).0;
    RightOfRed(s, r);
    assert PushRight(s) == s;
  }

  lemma RemoveStrictRight<K(!new), V>(less: (K, K) -> bool, t: Tree<K, V>, k: K)
    requires StrictWeakOrder(less) && Ordered(less, t) && Entered(t)
    requires !less(k, t.key) && !IsRed(t.left) && t.right.Node?
    ensures Returned(t, Remove(less, t, k).0) && Lossless(less, t, k)
    decreases Size(t), 0
  {
    var s := PushRight(t);
    assert LeanRight(t) == t;
    LeanEntries(t);
    OrderedSplit(less, s);
    PushRightKey(less, t, k);
    if t.left.Node? && MovesRight(t) { PushRightKeyMoved(less, t, k); }
    if Equiv(less, k, s.key) {
      if !IsRed(t.right) && !IsRed(t.right.left) {
        PushRightFlipped(t, DeleteMinimum(s.right));
      }
      DeleteMinimumStrict(s.right);
      var d := DeleteMinimum(s.right);
      AfterRight(t, d);
      var m := First(s.right);
      FixUpRelabel(t, s.(right := d), m.key, m.value);
    } else {
      if !IsRed(t.right) && !IsRed(t.right.left) {
        var r := Remove(less, s.right, k).0;
        if IsRed(t.left.left) { PushRightMoved(t, r); } else { PushRightFlipped(t, r); }
      }
      RemoveStrict(less, s.right, k);
      AfterRight(t, Remove(less, s.right, k).0);
    }
  }

  predicate MovesRight<K, V>(t: Tree<K, V>)
    requires t.Node? && t.right.Node? && t.left.Node?
  {
    !IsRed(t.right) && !IsRed(t.right.left) && IsRed(t.left.left)
  }

  /** After a rotation in moveRedRight the new root's key is below the one sought. */
  lemma PushRightKeyMoved<K(!new), V>(less: (K, K) -> bool, t: Tree<K, V>, k: K)
    requires StrictWeakOrder(less) && Ordered(less, t) && t.Node? && t.right.Node? && t.left.Node?
    requires !less(k, t.key) && MovesRight(t)
    ensures less(PushRight(t).key, k)
  {
    OrderedSplit(less, t);
    assert PushRight(t).key == t.left.key;
    assert Entry(t.left.key, t.left.value) in Entries(t.left);
    assert less(t.left.key, t.key);
  }

  lemma AfterRight<K, V>(t: Tree<K, V>, r: Tree<K, V>)
    requires Entered(t) && !IsRed(t.left) && t.right.Node?
    requires Shrunk(PushRight(t).right, r)
    ensures Returned(t, FixUp(PushRight(t).(right := r)))
  {
    if IsRed(t.right) {
      RightOfRed(t, r);
    } else if IsRed(t.right.left) {
      RightOfBlack(t, r);
    } else {
      assert t.left.Node?;
      if IsRed(t.left.left) { PushRightMoved(t, r); } else { PushRightFlipped(t, r); }
    }
  }

  predicate SameShape<K, V>(a: Tree<K, V>, b: Tree<K, V>) {
    match (a, b)
    case (Leaf, Leaf) => true
    case (Node(l, _, _, c, r), Node(l', _, _, c', r')) => c == c' && SameShape(l, l') && SameShape(r, r')
    case _ => false
  }

  lemma {:induction false} SameShapeReflexive<K, V>(t: Tree<K, V>)
    ensures SameShape(t, t)
  {
    if t.Node? {
      SameShapeReflexive(t.left);
      SameShapeReflexive(t.right);
    }
  }

  lemma {:induction false} SameShapeStrict<K, V>(a: Tree<K, V>, b: Tree<K, V>)
    requires SameShape(a, b)
    ensures Tree23(a) == Tree23(b) && Blacks(a) == Blacks(b) && IsRed(a) == IsRed(b)
  {
    if a.Node? {
      SameShapeStrict(a.left, b.left);
      SameShapeStrict(a.right, b.right);
    }
  }

  lemma RelabelShape<K, V>(t: Tree<K, V>, k: K, v: V)
    requires t.Node?
    ensures SameShape(FixUp(t), FixUp(t.(key := k, value := v)))
  {
    var t' := t.(key := k, value := v);
    SameShapeReflexive(t);
    SameShapeReflexive(t.left);
    SameShapeReflexive(t.right);
    var t1, t1' := if IsRed(t.right) then RotateLeft(t) else t, if IsRed(t'.right) then RotateLeft(t') else t';
    if t.right.Node? { SameShapeReflexive(t.right.left); SameShapeReflexive(t.right.right); }
    assert SameShape(t1, t1');
    var t2 := if IsRed(t1.left) && IsRed(t1.left.left) then RotateRight(t1) else t1;
    var t2' := if IsRed(t1'.left) && IsRed(t1'.left.left) then RotateRight(t1') else t1';
    assert SameShape(t2, t2');
  }

  /** Colours do not depend on the key and value stored at a node. */
  lemma FixUpRelabel<K, V>(u: Tree<K, V>, t: Tree<K, V>, k: K, v: V)
    requires t.Node? && Returned(u, FixUp(t))
    ensures Returned(u, FixUp(t.(key := k, value := v)))
  {
    RelabelShape(t, k, v);
    SameShapeStrict(FixUp(t), FixUp(t.(key := k, value := v)));
    SameShapeStrict(Blacken(FixUp(t)), Blacken(FixUp(t.(key := k, value := v))));
  }

  /** Delete on any strict 2-3 tree: the result is again such a tree, with a black root, its
      contents are exactly the old ones without the key, the walk is lossless, and the answer says
      whether the key was there. The root itself is never made red first. */
  lemma RemoveRootStrict<K(!new), V>(less: (K, K) -> bool, t: Tree<K, V>, k: K)
    requires StrictWeakOrder(less) && Ordered(less, t) && Tree23(t)
    ensures var (r, deleted) := RemoveRoot(less, t, k);
      && Ordered(less, r) && Tree23(r) && !IsRed(r)
      && Entries(r) == Drop(less, Entries(t), k)
      && (deleted <==> Has(less, Entries(t), k))
    ensures Lossless(less, t, k)
  {
    RemoveRootContents(less, t, k);
    if t.Node? { RemoveStrict(less, t, k); }
  }

  // ---------- one deletion from a 2-3-4 tree ----------

  /** A node as the descent through a 2-3-4 tree may enter it: its subtrees keep the invariant, and
      a red right child without a red left one occurs only where the key is not below the node's. */
  predicate Entered234<K, V>(less: (K, K) -> bool, t: Tree<K, V>, k: K) {
    && t.Node? && Tree234(t.left) && Tree234(t.right) && Blacks(t.left) == Blacks(t.right)
    && (IsRed(t.right) && !IsRed(t.left) ==> !less(k, t.key))
  }

  /** Without a red child a node of equal black heights has both children or none. */
  lemma BothOrNone<K, V>(t: Tree<K, V>)
    requires t.Node? && Tree234(t.left) && Tree234(t.right) && Blacks(t.left) == Blacks(t.right)
    ensures !IsRed(t.left) && t.right.Leaf? ==> t.left.Leaf?
    ensures !IsRed(t.right) && t.left.Leaf? ==> t.right.Leaf?
  {}

  lemma LeanLeft234<K, V>(t: Tree<K, V>)
    requires t.Node? && t.left.Node? && Tree234(t.left) && Tree234(t.right) && Blacks(t.left) == Blacks(t.right)
    requires IsRed(t.right) ==> IsRed(t.left)
    ensures Tree234(LeanLeft(t).left)
  {
    if !IsRed(t.left) && !IsRed(t.left.left) {
      BothOrNone(t);
      FlipBlackens(t.left);
      assert t.right.Node?;
      if IsRed(t.right.left) {
        var x := t.right.left;
        assert Tree234(x) && Blacks(x.left) == Blacks(x) == Blacks(t.right) - 1;
        assert LeanLeft(t).left == Node(Flip(t.left), t.key, t.value, false, x.left);
      } else {
        assert LeanLeft(t).left == Flip(t.left);
      }
    }
  }

  lemma {:induction false} MinLossless234<K, V>(t: Tree<K, V>)
    requires t.Node? && Tree234(t)
    ensures MinLossless(t)
    decreases Size(t)
  {
    BothOrNone(t);
    if t.left.Node? {
      LeanLeft234(t);
      MinLossless234(LeanLeft(t).left);
    }
  }

  lemma LeanRight234<K(!new), V>(less: (K, K) -> bool, t: Tree<K, V>, k: K)
    requires StrictWeakOrder(less) && Ordered(less, t) && Entered234(less, t, k) && IsRed(t.left) && !less(k, t.key)
    ensures var s := LeanRight(t);
      s.right.Node? && IsRed(s.right) && s.right.key == t.key && less(s.key, k) && Entered234(less, s.right, k)
  {
    LeanRightKey(less, t, k);
  }

  lemma PushRight234<K(!new), V>(less: (K, K) -> bool, t: Tree<K, V>, k: K)
    requires StrictWeakOrder(less) && Ordered(less, t) && Entered234(less, t, k)
    requires !IsRed(t.left) && t.right.Node? && !less(k, t.key)
    ensures var s := PushRight(t);
      Entered234(less, s.right, k) && (Equiv(less, k, s.key) ==> Tree234(s.right))
  {
    if !IsRed(t.right) && !IsRed(t.right.left) {
      BothOrNone(t);
      FlipBlackens(t.right);
      if IsRed(t.left.left) {
        PushRightKeyMoved(less, t, k);
        FlipBlackens(t.left.left);
      }
    }
  }

  lemma {:induction false} Lossless234<K(!new), V>(less: (K, K) -> bool, t: Tree<K, V>, k: K)
    requires StrictWeakOrder(less) && Ordered(less, t) && Entered234(less, t, k)
    ensures Lossless(less, t, k)
    decreases Size(t)
  {
    OrderedSplit(less, t);
    LeanEntries(t);
    if less(k, t.key) {
      if t.left.Node? {
        LeanLeft234(t);
        OrderedSplit(less, LeanLeft(t));
        Lossless234(less, LeanLeft(t).left, k);
      }
    } else if IsRed(t.left) {
      var s := LeanRight(t);
      LeanRight234(less, t, k);
      OrderedSplit(less, s);
      Lossless234(less, s.right, k);
    } else if t.right.Leaf? {
      BothOrNone(t);
    } else {
      var s := PushRight(t);
      PushRight234(less, t, k);
      OrderedSplit(less, s);
      if Equiv(less, k, s.key) { MinLossless234(s.right); } else { Lossless234(less, s.right, k); }
    }
  }

  /** Delete on any 2-3-4 tree, such as Insert builds, is exact. */
  lemma RemoveRoot234<K(!new), V>(less: (K, K) -> bool, t: Tree<K, V>, k: K)
    requires StrictWeakOrder(less) && Ordered(less, t) && Tree234(t)
    ensures Lossless(less, t, k) && Entries(RemoveRoot(less, t, k).0) == Drop(less, Entries(t), k)
  {
    if t.Node? { Lossless234(less, t, k); }
    RemoveRootContents(less, t, k);
  }
}
