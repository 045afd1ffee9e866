/** The pointer tree of omap/omap/omap.go: nodes are relinked and recoloured in place.

    Every routine is proved to compute the function of the same name in Llrb on the
    immutable tree that its node stands for, to touch only the nodes of that tree and never
    to dereference nil. */
module OrderedMap {
  import opened Wrappers
  import opened AssocList
  import opened LlrbContents
  import L = Llrb

  class Node<K, V> {
    var key: K
    var value: V
    var red: bool
    var left: Node?<K, V>
    var right: Node?<K, V>

    constructor (key: K, value: V)
      ensures this.key == key && this.value == value && red && left == null && right == null
    {
      this.key, this.value, red, left, right := key, value, true, null, null;
    }
  }

  /** Which node sits where, with the set of all of them; ghost, passed beside the pointers. */
  datatype Shape<K, V> =
    | Nil
    | At(left: Shape<K, V>, node: Node<K, V>, right: Shape<K, V>, nodes: set<Node<K, V>>)

  ghost function Nodes<K, V>(s: Shape<K, V>): set<Node<K, V>> {
    if s.Nil? then {} else s.nodes
  }

  ghost function Place<K, V>(l: Shape<K, V>, n: Node<K, V>, r: Shape<K, V>): Shape<K, V> {
    At(l, n, r, Nodes(l) + {n} + Nodes(r))
  }

  /** The node sets are as the placing says, and no node sits in two places. */
  ghost predicate Distinct<K, V>(s: Shape<K, V>) {
    s.At? ==>
      && Distinct(s.left) && Distinct(s.right) && Nodes(s.left) !! Nodes(s.right)
      && s.node !in Nodes(s.left) && s.node !in Nodes(s.right)
      && s.nodes == Nodes(s.left) + {s.node} + Nodes(s.right)
  }

  /** The pointer `n` stands for the tree `t`, with its nodes placed as in `s`. */
  ghost predicate Rep<K, V>(n: Node?<K, V>, s: Shape<K, V>, t: L.Tree<K, V>)
    requires Distinct(s)
    reads Nodes(s)
  {
    match s
    case Nil => n == null && t == L.Leaf
    case At(l, m, r, _) =>
      && n == m && t.Node? && t.key == m.key && t.value == m.value && t.red == m.red
      && Rep(m.left, l, t.left) && Rep(m.right, r, t.right)
  }

  predicate IsRed<K, V>(n: Node?<K, V>, ghost s: Shape<K, V>, ghost t: L.Tree<K, V>): (b: bool)
    requires Distinct(s) && Rep(n, s, t)
    reads Nodes(s)
    ensures b == L.IsRed(t)
  {
    n != null && n.red
  }

  method Flip<K, V>(n: Node?<K, V>, ghost s: Shape<K, V>, ghost t: L.Tree<K, V>)
    requires Distinct(s) && Rep(n, s, t)
    modifies n
    ensures Rep(n, s, L.Flip(t))
  {
    if n != null {
      n.red := !n.red;
    }
  }

  method ColorFlip<K, V>(root: Node<K, V>, ghost s: Shape<K, V>, ghost t: L.Tree<K, V>)
    requires Distinct(s) && Rep(root, s, t)
    modifies Nodes(s)
    ensures t.Node? && Rep(root, s, L.ColorFlip(t))
  {
    root.red := !root.red;
    Flip(root.left, s.left, t.left);
    Flip(root.right, s.right, t.right);
  }

  method RotateLeft<K, V>(root: Node<K, V>, ghost s: Shape<K, V>, ghost t: L.Tree<K, V>)
    returns (x: Node<K, V>, ghost s': Shape<K, V>)
    requires Distinct(s) && Rep(root, s, t) && t.Node? && t.right.Node?
    modifies Nodes(s)
    ensures Distinct(s') && Nodes(s') == Nodes(s) && Rep(x, s', L.RotateLeft(t))
  {
    x := root.right;
    root.right := x.left;
    x.left := root;
    x.red := root.red;
    root.red := true;
    s' := Place(Place(s.left, root, s.right.left), x, s.right.right);
  }

  method RotateRight<K, V>(root: Node<K, V>, ghost s: Shape<K, V>, ghost t: L.Tree<K, V>)
    returns (x: Node<K, V>, ghost s': Shape<K, V>)
    requires Distinct(s) && Rep(root, s, t) && t.Node? && t.left.Node?
    modifies Nodes(s)
    ensures Distinct(s') && Nodes(s') == Nodes(s) && Rep(x, s', L.RotateRight(t))
  {
    x := root.left;
    root.left := x.right;
    x.right := root;
    x.red := root.red;
    root.red := true;
    s' := Place(s.left.left, x, Place(s.left.right, root, s.right));
  }

  // ---------- insertion ----------

  method InsertFix<K, V>(n: Node<K, V>, ghost s: Shape<K, V>, ghost t: L.Tree<K, V>)
    returns (root: Node<K, V>, ghost s': Shape<K, V>)
    requires Distinct(s) && Rep(n, s, t)
    modifies Nodes(s)
    ensures t.Node? && Distinct(s') && Nodes(s') == Nodes(s) && Rep(root, s', L.InsertFix(t))
  {
    root, s' := n, s;
    ghost var t1 := t;
    if IsRed(root.right, s'.right, t1.right) && !IsRed(root.left, s'.left, t1.left) {
      root, s' := RotateLeft(root, s, t);
      t1 := L.RotateLeft(t);
    }
    if IsRed(root.left, s'.left, t1.left) && IsRed(root.left.left, s'.left.left, t1.left.left) {
      root, s' := RotateRight(root, s', t1);
    }
  }

  method SplitFour<K, V>(root: Node<K, V>, ghost s: Shape<K, V>, ghost t: L.Tree<K, V>)
    requires Distinct(s) && Rep(root, s, t)
    modifies Nodes(s)
    ensures t.Node? && Rep(root, s, L.SplitFour(t))
  {
    if IsRed(root.left, s.left, t.left) && IsRed(root.right, s.right, t.right) {
      ColorFlip(root, s, t);
    }
  }

  method InsertAt<K, V>(less: (K, K) -> bool, n: Node?<K, V>, key: K, value: V,
                        ghost s: Shape<K, V>, ghost t: L.Tree<K, V>)
    returns (root: Node<K, V>, inserted: bool, ghost s': Shape<K, V>)
    requires Distinct(s) && Rep(n, s, t)
    modifies Nodes(s)
    ensures Distinct(s') && fresh(Nodes(s') - Nodes(s))
    ensures inserted == L.Insert(less, t, key, value).1
    ensures Rep(root, s', L.Insert(less, t, key, value).0)
    decreases L.Size(t), 1
  {
    if n == null {
      root := new Node(key, value);
      return root, true, Place(Nil, root, Nil);
    }
    root := n;
    SplitFour(root, s, t);
    ghost var t1;
    inserted, s', t1 := InsertBelow(less, root, key, value, s, L.SplitFour(t));
    root, s' := InsertFix(root, s', t1);
  }

  /** Lines 156-162: replaces a child by the result of the recursive call, or the value. */
  method InsertBelow<K, V>(less: (K, K) -> bool, root: Node<K, V>, key: K, value: V,
                           ghost s: Shape<K, V>, ghost t: L.Tree<K, V>)
    returns (inserted: bool, ghost s': Shape<K, V>, ghost t': L.Tree<K, V>)
    requires Distinct(s) && Rep(root, s, t)
    modifies Nodes(s)
    ensures t.Node? && Distinct(s') && fresh(Nodes(s') - Nodes(s)) && Rep(root, s', t')
    ensures if less(key, t.key) then
              (t', inserted) == (t.(left := L.Insert(less, t.left, key, value).0), L.Insert(less, t.left, key, value).1)
            else if less(t.key, key) then
              (t', inserted) ==
                (t.(right := L.Insert(less, t.right, key, value).0), L.Insert(less, t.right, key, value).1)
            else (t', inserted) == (t.(value := value), false)
    decreases L.Size(t), 0
  {
    if less(key, root.key) {
      var l;
      ghost var sl;
      l, inserted, sl := InsertAt(less, root.left, key, value, s.left, t.left);
      root.left := l;
      s', t' := Place(sl, root, s.right), t.(left := L.Insert(less, t.left, key, value).0);
    } else if less(root.key, key) {
      var r;
      ghost var sr;
      r, inserted, sr := InsertAt(less, root.right, key, value, s.right, t.right);
      root.right := r;
      s', t' := Place(s.left, root, sr), t.(right := L.Insert(less, t.right, key, value).0);
    } else {
      root.value := value;
      inserted, s', t' := false, s, t.(value := value);
    }
  }

  // ---------- deletion ----------

  method MoveRedLeft<K, V>(n: Node<K, V>, ghost s: Shape<K, V>, ghost t: L.Tree<K, V>)
    returns (root: Node<K, V>, ghost s': Shape<K, V>)
    requires Distinct(s) && Rep(n, s, t) && t.Node? && t.left.Node?
    modifies Nodes(s)
    ensures Distinct(s') && Nodes(s') == Nodes(s) && Rep(root, s', L.MoveRedLeft(t))
  {
    root, s' := n, s;
    ColorFlip(root, s, t);
    ghost var t1 := L.ColorFlip(t);
    if root.right != null {
      if IsRed(root.right.left, s.right.left, t1.right.left) {
        var x;
        ghost var sr;
        x, sr := RotateRight(root.right, s.right, t1.right);
        root.right := x;
        s' := Place(s.left, root, sr);
        t1 := t1.(right := L.RotateRight(t1.right));
        root, s' := RotateLeft(root, s', t1);
        ColorFlip(root, s', L.RotateLeft(t1));
      }
    }
  }

  method MoveRedRight<K, V>(n: Node<K, V>, ghost s: Shape<K, V>, ghost t: L.Tree<K, V>)
    returns (root: Node<K, V>, ghost s': Shape<K, V>)
    requires Distinct(s) && Rep(n, s, t) && t.Node? && t.right.Node?
    modifies Nodes(s)
    ensures Distinct(s') && Nodes(s') == Nodes(s) && Rep(root, s', L.MoveRedRight(t))
  {
    root, s' := n, s;
    ColorFlip(root, s, t);
    ghost var t1 := L.ColorFlip(t);
    if root.left != null {
      if IsRed(root.left.left, s.left.left, t1.left.left) {
        root, s' := RotateRight(root, s, t1);
        ColorFlip(root, s', L.RotateRight(t1));
      }
    }
  }

  method FixUp<K, V>(n: Node<K, V>, ghost s: Shape<K, V>, ghost t: L.Tree<K, V>)
    returns (root: Node<K, V>, ghost s': Shape<K, V>)
    requires Distinct(s) && Rep(n, s, t)
    modifies Nodes(s)
    ensures t.Node? && Distinct(s') && Nodes(s') == Nodes(s) && Rep(root, s', L.FixUp(t))
  {
    root, s' := n, s;
    ghost var t1 := t;
    if IsRed(root.right, s'.right, t1.right) {
      root, s' := RotateLeft(root, s', t1);
      t1 := L.RotateLeft(t1);
    }
    if IsRed(root.left, s'.left, t1.left) && IsRed(root.left.left, s'.left.left, t1.left.left) {
      root, s' := RotateRight(root, s', t1);
      t1 := L.RotateRight(t1);
    }
    if IsRed(root.left, s'.left, t1.left) && IsRed(root.right, s'.right, t1.right) {
      ColorFlip(root, s', t1);
    }
  }

  method LeanLeft<K, V>(n: Node<K, V>, ghost s: Shape<K, V>, ghost t: L.Tree<K, V>)
    returns (root: Node<K, V>, ghost s': Shape<K, V>)
    requires Distinct(s) && Rep(n, s, t) && t.Node? && t.left.Node?
    modifies Nodes(s)
    ensures Distinct(s') && Nodes(s') == Nodes(s) && Rep(root, s', L.LeanLeft(t))
  {
    root, s' := n, s;
    if !IsRed(root.left, s.left, t.left) && !IsRed(root.left.left, s.left.left, t.left.left) {
      root, s' := MoveRedLeft(root, s, t);
    }
  }

  method PushRight<K, V>(n: Node<K, V>, ghost s: Shape<K, V>, ghost t: L.Tree<K, V>)
    returns (root: Node<K, V>, ghost s': Shape<K, V>)
    requires Distinct(s) && Rep(n, s, t) && t.Node? && t.right.Node?
    modifies Nodes(s)
    ensures Distinct(s') && Nodes(s') == Nodes(s) && Rep(root, s', L.PushRight(t))
  {
    root, s' := n, s;
    if !IsRed(root.right, s.right, t.right) && !IsRed(root.right.left, s.right.left, t.right.left) {
      root, s' := MoveRedRight(root, s, t);
    }
  }

  method First<K, V>(n: Node<K, V>, ghost s: Shape<K, V>, ghost t: L.Tree<K, V>)
    returns (root: Node<K, V>)
    requires Distinct(s) && Rep(n, s, t)
    ensures t.Node? && root.key == L.First(t).key && root.value == L.First(t).value
  {
    root := n;
    ghost var s1, t1 := s, t;
    while root.left != null
      invariant Distinct(s1) && Rep(root, s1, t1) && L.First(t1) == L.First(t)
      decreases s1
    {
      root := root.left;
      s1, t1 := s1.left, t1.left;
    }
  }

  method DeleteMinimum<K, V>(n: Node<K, V>, ghost s: Shape<K, V>, ghost t: L.Tree<K, V>)
    returns (root: Node?<K, V>, ghost s': Shape<K, V>)
    requires Distinct(s) && Rep(n, s, t)
    modifies Nodes(s)
    ensures t.Node? && Distinct(s') && Nodes(s') <= Nodes(s) && Rep(root, s', L.DeleteMinimum(t))
    decreases L.Size(t), 1
  {
    if n.left == null {
      return null, Nil;
    }
    root, s' := LeanLeft(n, s, t);
    ghost var t1 := L.LeanLeft(t);
    s' := DeleteMinimumBelow(root, s', t1);
    root, s' := FixUp(root, s', t1.(left := L.DeleteMinimum(t1.left)));
  }

  /** Line 280. */
  method DeleteMinimumBelow<K, V>(m: Node<K, V>, ghost s: Shape<K, V>, ghost t: L.Tree<K, V>)
    returns (ghost s': Shape<K, V>)
    requires Distinct(s) && Rep(m, s, t) && t.Node? && t.left.Node?
    modifies Nodes(s)
    ensures Distinct(s') && Nodes(s') <= Nodes(s)
    ensures Rep(m, s', t.(left := L.DeleteMinimum(t.left)))
    decreases L.Size(t), 0
  {
    var l;
    ghost var sl;
    l, sl := DeleteMinimum(m.left, s.left, t.left);
    m.left := l;
    s' := Place(sl, m, s.right);
  }

  method RemoveBelowLeft<K, V>(less: (K, K) -> bool, m: Node<K, V>, key: K, ghost s: Shape<K, V>, ghost t: L.Tree<K, V>)
    returns (deleted: bool, ghost s': Shape<K, V>)
    requires Distinct(s) && Rep(m, s, t) && t.Node? && t.left.Node?
    modifies Nodes(s)
    ensures Distinct(s') && Nodes(s') <= Nodes(s)
    ensures deleted == L.Remove(less, t.left, key).1
    ensures Rep(m, s', t.(left := L.Remove(less, t.left, key).0))
    decreases L.Size(t), 0
  {
    var l;
    ghost var sl;
    l, deleted, sl := RemoveAt(less, m.left, key, s.left, t.left);
    m.left := l;
    s' := Place(sl, m, s.right);
  }

  /** The branch of remove for keys below the node's. */
  method RemoveLeft<K, V>(less: (K, K) -> bool, n: Node<K, V>, key: K, ghost s: Shape<K, V>, ghost t: L.Tree<K, V>)
    returns (root: Node?<K, V>, deleted: bool, ghost s': Shape<K, V>)
    requires Distinct(s) && Rep(n, s, t) && less(key, n.key)
    modifies Nodes(s)
    ensures t.Node? && Distinct(s') && Nodes(s') <= Nodes(s)
    ensures deleted == L.Remove(less, t, key).1
    ensures Rep(root, s', L.Remove(less, t, key).0)
    decreases L.Size(t), 1
  {
    deleted := false;
    var m := n;
    ghost var sm, t1 := s, t;
    if m.left != null {
      m, sm := LeanLeft(m, s, t);
      t1 := L.LeanLeft(t);
      deleted, sm := RemoveBelowLeft(less, m, key, sm, t1);
      t1 := t1.(left := L.Remove(less, t1.left, key).0);
    }
    root, s' := FixUp(m, sm, t1);
  }

  /** Lines 241-245: the node takes over the next entry, which is deleted below it. */
  method ReplaceByNext<K, V>(m: Node<K, V>, ghost s: Shape<K, V>, ghost t: L.Tree<K, V>)
    returns (ghost s': Shape<K, V>)
    requires Distinct(s) && Rep(m, s, t) && t.Node? && t.right.Node?
    modifies Nodes(s)
    ensures Distinct(s') && Nodes(s') <= Nodes(s)
    ensures var f := L.First(t.right);
      Rep(m, s', t.(key := f.key, value := f.value, right := L.DeleteMinimum(t.right)))
  {
    var smallest := First(m.right, s.right, t.right);
    m.key := smallest.key;
    m.value := smallest.value;
    var r;
    ghost var sr;
    r, sr := DeleteMinimum(m.right, s.right, t.right);
    m.right := r;
    s' := Place(s.left, m, sr);
  }

  /** Line 247. */
  method RemoveBelowRight<K, V>(less: (K, K) -> bool, m: Node<K, V>, key: K,
                                ghost s: Shape<K, V>, ghost t: L.Tree<K, V>)
    returns (deleted: bool, ghost s': Shape<K, V>)
    requires Distinct(s) && Rep(m, s, t) && t.Node? && t.right.Node?
    modifies Nodes(s)
    ensures Distinct(s') && Nodes(s') <= Nodes(s)
    ensures deleted == L.Remove(less, t.right, key).1
    ensures Rep(m, s', t.(right := L.Remove(less, t.right, key).0))
    decreases L.Size(t), 0
  {
    var r;
    ghost var sr;
    r, deleted, sr := RemoveAt(less, m.right, key, s.right, t.right);
    m.right := r;
    s' := Place(s.left, m, sr);
  }

  /** The branch of remove for other keys, once the node has a right child. */
  method RemoveRight<K, V>(less: (K, K) -> bool, n: Node<K, V>, key: K, ghost s: Shape<K, V>, ghost t: L.Tree<K, V>)
    returns (root: Node?<K, V>, deleted: bool, ghost s': Shape<K, V>)
    requires Distinct(s) && Rep(n, s, t) && t.Node? && t.right.Node?
    modifies Nodes(s)
    ensures Distinct(s') && Nodes(s') <= Nodes(s)
    ensures deleted == L.RemoveRight(less, t, key).1
    ensures Rep(root, s', L.RemoveRight(less, t, key).0)
    decreases L.Size(t), 1
  {
    var m;
    ghost var sm;
    m, sm := PushRight(n, s, t);
    ghost var t2 := L.PushRight(t);
    if !less(key, m.key) && !less(m.key, key) {
      sm := ReplaceByNext(m, sm, t2);
      ghost var f := L.First(t2.right);
      t2 := t2.(key := f.key, value := f.value, right := L.DeleteMinimum(t2.right));
      deleted := true;
    } else {
      deleted, sm := RemoveBelowRight(less, m, key, sm, t2);
      t2 := t2.(right := L.Remove(less, t2.right, key).0);
    }
    root, s' := FixUp(m, sm, t2);
  }

  method RemoveAt<K, V>(less: (K, K) -> bool, n: Node<K, V>, key: K, ghost s: Shape<K, V>, ghost t: L.Tree<K, V>)
    returns (root: Node?<K, V>, deleted: bool, ghost s': Shape<K, V>)
    requires Distinct(s) && Rep(n, s, t)
    modifies Nodes(s)
    ensures t.Node? && Distinct(s') && Nodes(s') <= Nodes(s)
    ensures deleted == L.Remove(less, t, key).1
    ensures Rep(root, s', L.Remove(less, t, key).0)
    decreases L.Size(t), 2
  {
    if less(key, n.key) {
      root, deleted, s' := RemoveLeft(less, n, key, s, t);
      return;
    }
    var m := n;
    ghost var sm, t1 := s, L.LeanRight(t);
    if IsRed(m.left, s.left, t.left) {
      m, sm := RotateRight(m, s, t);
    }
    if !less(key, m.key) && !less(m.key, key) && m.right == null {
      return null, true, Nil;
    }
    if m.right == null {
      root, s' := FixUp(m, sm, t1);
      deleted := false;
    } else {
      root, deleted, s' := RemoveRight(less, m, key, sm, t1);
    }
  }

  // ---------- at the root ----------

  method Blacken<K, V>(root: Node?<K, V>, ghost s: Shape<K, V>, ghost t: L.Tree<K, V>)
    requires Distinct(s) && Rep(root, s, t)
    modifies root
    ensures Rep(root, s, L.Blacken(t))
  {
    if root != null {
      root.red := false;
    }
  }

  method InsertRoot<K, V>(less: (K, K) -> bool, n: Node?<K, V>, key: K, value: V,
                          ghost s: Shape<K, V>, ghost t: L.Tree<K, V>)
    returns (root: Node<K, V>, inserted: bool, ghost s': Shape<K, V>)
    requires Distinct(s) && Rep(n, s, t)
    modifies Nodes(s)
    ensures Distinct(s') && fresh(Nodes(s') - Nodes(s))
    ensures inserted == L.InsertRoot(less, t, key, value).1
    ensures Rep(root, s', L.InsertRoot(less, t, key, value).0)
  {
    root, inserted, s' := InsertAt(less, n, key, value, s, t);
    Blacken(root, s', L.Insert(less, t, key, value).0);
  }

  method RemoveRoot<K, V>(less: (K, K) -> bool, n: Node?<K, V>, key: K, ghost s: Shape<K, V>, ghost t: L.Tree<K, V>)
    returns (root: Node?<K, V>, deleted: bool, ghost s': Shape<K, V>)
    requires Distinct(s) && Rep(n, s, t)
    modifies Nodes(s)
    ensures Distinct(s') && Nodes(s') <= Nodes(s)
    ensures deleted == L.RemoveRoot(less, t, key).1
    ensures Rep(root, s', L.RemoveRoot(less, t, key).0)
  {
    root, deleted, s' := n, false, s;
    if root != null {
      root, deleted, s' := RemoveAt(less, n, key, s, t);
      Blacken(root, s', L.Remove(less, t, key).0);
    }
  }

  // ---------- the map ----------

  class Map<K(!new), V> {
    var root: Node?<K, V>
    const less: (K, K) -> bool
    var length: int
    ghost var shape: Shape<K, V>
    ghost var tree: L.Tree<K, V>   // the tree that root stands for
    ghost var lossless: bool       // whether every Delete so far has found its walk lossless

    ghost predicate Valid()
      reads this, Nodes(shape)
    {
      && Distinct(shape) && Rep(root, shape, tree)
      && StrictWeakOrder(less) && Ordered(less, tree) && Counted()
    }

    /** The length field against the number of pairs. */
    ghost predicate Counted()
      reads this
    {
      |Contents()| <= length && (lossless <==> |Contents()| == length)
    }

    /** The key-value pairs in key order. */
    ghost function Contents(): seq<Entry<K, V>>
      reads this
    {
      L.Entries(tree)
    }

    constructor (less: (K, K) -> bool)
      requires StrictWeakOrder(less)
      ensures Valid() && this.less == less && tree == L.Leaf && Contents() == [] && length == 0 && lossless
    {
      this.less := less;
      root, length := null, 0;
      shape, tree, lossless := Nil, L.Leaf, true;
    }

    method Insert(key: K, value: V) returns (inserted: bool)
      requires Valid()
      modifies this, Nodes(shape)
      ensures Valid() && fresh(Nodes(shape) - old(Nodes(shape)))
      ensures tree == L.InsertRoot(less, old(tree), key, value).0
      ensures Contents() == Put(less, old(Contents()), key, value)
      ensures inserted <==> !Has(less, old(Contents()), key)
      ensures length == old(length) + (if inserted then 1 else 0) && lossless == old(lossless)
    {
      PutSize(less, Contents(), key, value);
      InsertRootIsPut(less, tree, key, value);
      inserted := Graft(key, value);
      if inserted {
        length := length + 1;
      }
    }

    /** Insert without the counting. */
    method Graft(key: K, value: V) returns (inserted: bool)
      requires Distinct(shape) && Rep(root, shape, tree)
      modifies this`root, this`shape, this`tree, Nodes(shape)
      ensures Distinct(shape) && Rep(root, shape, tree) && fresh(Nodes(shape) - old(Nodes(shape)))
      ensures (tree, inserted) == L.InsertRoot(less, old(tree), key, value)
    {
      root, inserted, shape := InsertRoot(less, root, key, value, shape, tree);
      tree := L.InsertRoot(less, tree, key, value).0;
    }

    method Find(key: K) returns (r: Option<V>)
      requires Valid()
      ensures r == Lookup(less, Contents(), key)
    {
      FindIsLookup(less, tree, key);
      var n := root;
      ghost var s, t := shape, tree;
      while n != null
        invariant Distinct(s) && Rep(n, s, t) && L.Find(less, t, key) == L.Find(less, tree, key)
        decreases s
      {
        if less(key, n.key) {
          n := n.left;
          s, t := s.left, t.left;
        } else if less(n.key, key) {
          n := n.right;
          s, t := s.right, t.right;
        } else {
          return Some(n.value);
        }
      }
      return None;
    }

    method Delete(key: K) returns (deleted: bool)
      requires Valid()
      modifies this, Nodes(shape)
      ensures Valid() && Nodes(shape) <= old(Nodes(shape))
      ensures tree == L.RemoveRoot(less, old(tree), key).0
      ensures deleted <==> Has(less, old(Contents()), key)
      ensures !Has(less, Contents(), key)
      ensures forall e :: e in Contents() ==> e in old(Contents())
      ensures !deleted ==> Contents() == old(Contents())
      ensures Contents() == Drop(less, old(Contents()), key) <==> Lossless(less, old(tree), key)
      ensures length == old(length) - if deleted then 1 else 0
      ensures lossless == (old(lossless) && Lossless(less, old(tree), key))
    {
      RemoveRootContents(less, tree, key);
      DeleteSize(less, tree, key);
      lossless := lossless && Lossless(less, tree, key);
      deleted := Prune(key);
      if deleted {
        length := length - 1;
      }
    }

    /** Delete without the counting. */
    method Prune(key: K) returns (deleted: bool)
      requires Distinct(shape) && Rep(root, shape, tree)
      modifies this`root, this`shape, this`tree, Nodes(shape)
      ensures Distinct(shape) && Rep(root, shape, tree) && Nodes(shape) <= old(Nodes(shape))
      ensures (tree, deleted) == L.RemoveRoot(less, old(tree), key)
    {
      root, deleted, shape := RemoveRoot(less, root, key, shape, tree);
      tree := L.RemoveRoot(less, tree, key).0;
    }

    /** The number of pairs, as long as no Delete has lost one; afterwards too large a number. */
    method Len() returns (n: int)
      requires Valid()
      ensures n == length >= |Contents()| && (n == |Contents()| <==> lossless)
    {
      n := length;
    }

    /** Do, with the calls it makes to the given function recorded in order. */
    method Do() returns (calls: seq<Entry<K, V>>)
      requires Valid()
      ensures calls == Contents()
    {
      calls := Visit(root, shape, tree);
    }
  }

  method Visit<K, V>(n: Node?<K, V>, ghost s: Shape<K, V>, ghost t: L.Tree<K, V>) returns (calls: seq<Entry<K, V>>)
    requires Distinct(s) && Rep(n, s, t)
    ensures calls == L.Entries(t)
    decreases s
  {
    calls := [];
    if n != null {
      calls := Visit(n.left, s.left, t.left);
      calls := calls + [Entry(n.key, n.value)];
      var rest := Visit(n.right, s.right, t.right);
      calls := calls + rest;
    }
  }
}
