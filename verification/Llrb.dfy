/** The left-leaning red-black tree of omap/omap/omap.go on immutable trees.

    Each function here is the meaning of the pointer routine of the same name; the class
    in OrderedMap.dfy rewrites nodes in place and is proved to compute these functions. */
module Llrb {
  import opened Wrappers
  import opened AssocList

  datatype Tree<+K, +V> =
    | Leaf
    | Node(left: Tree<K, V>, key: K, value: V, red: bool, right: Tree<K, V>)

  predicate IsRed<K, V>(t: Tree<K, V>) { t.Node? && t.red }

  function Size<K, V>(t: Tree<K, V>): nat {
    if t.Leaf? then 0 else Size(t.left) + 1 + Size(t.right)
  }

  /** The in-order contents. */
  function Entries<K, V>(t: Tree<K, V>): seq<Entry<K, V>> {
    if t.Leaf? then [] else Entries(t.left) + [Entry(t.key, t.value)] + Entries(t.right)
  }

  function Flip<K, V>(t: Tree<K, V>): (r: Tree<K, V>)
    ensures Size(r) == Size(t)
  {
    if t.Leaf? then Leaf else t.(red := !t.red)
  }

  function ColorFlip<K, V>(t: Tree<K, V>): (r: Tree<K, V>)
    requires t.Node?
    ensures Size(r) == Size(t)
  {
    Node(Flip(t.left), t.key, t.value, !t.red, Flip(t.right))
  }

  function RotateLeft<K, V>(t: Tree<K, V>): (r: Tree<K, V>)
    requires t.Node? && t.right.Node?
    ensures Size(r) == Size(t)
  {
    var x := t.right;
    Node(Node(t.left, t.key, t.value, true, x.left), x.key, x.value, t.red, x.right)
  }

  function RotateRight<K, V>(t: Tree<K, V>): (r: Tree<K, V>)
    requires t.Node? && t.left.Node?
    ensures Size(r) == Size(t)
  {
    var x := t.left;
    Node(x.left, x.key, x.value, t.red, Node(x.right, t.key, t.value, true, t.right))
  }

  // ---------- insertion ----------

  /** Lines 153-155: split a 4-node before descending. */
  function SplitFour<K, V>(t: Tree<K, V>): (r: Tree<K, V>)
    requires t.Node?
    ensures r.Node? && r.key == t.key && r.value == t.value
    ensures Size(r.left) == Size(t.left) && Size(r.right) == Size(t.right)
  {
    if IsRed(t.left) && IsRed(t.right) then ColorFlip(t) else t
  }

  /** Lines 163-168: re-lean and balance on the way up. */
  function InsertFix<K, V>(t: Tree<K, V>): (r: Tree<K, V>)
    requires t.Node?
    ensures r.Node? && Size(r) == Size(t)
  {
    var t1 := if IsRed(t.right) && !IsRed(t.left) then RotateLeft(t) else t;
    if IsRed(t1.left) && IsRed(t1.left.left) then RotateRight(t1) else t1
  }

  function Insert<K, V>(less: (K, K) -> bool, t: Tree<K, V>, k: K, v: V): (r: (Tree<K, V>, bool))
    ensures r.0.Node?
    ensures Size(r.0) == Size(t) + if r.1 then 1 else 0
    decreases Size(t)
  {
    if t.Leaf? then (Node(Leaf, k, v, true, Leaf), true)
    else
      var t1 := SplitFour(t);
      if less(k, t1.key) then
        var (l, inserted) := Insert(less, t1.left, k, v);
        (InsertFix(t1.(left := l)), inserted)
      else if less(t1.key, k) then
        var (r, inserted) := Insert(less, t1.right, k, v);
        (InsertFix(t1.(right := r)), inserted)
      else
        (InsertFix(t1.(value := v)), false)
  }

  function Blacken<K, V>(t: Tree<K, V>): Tree<K, V> {
    if t.Leaf? then Leaf else t.(red := false)
  }

  /** The exported Insert: the new root is coloured black. */
  function InsertRoot<K, V>(less: (K, K) -> bool, t: Tree<K, V>, k: K, v: V): (Tree<K, V>, bool) {
    var (t', inserted) := Insert(less, t, k, v);
    (Blacken(t'), inserted)
  }

  // ---------- lookup ----------

  function Find<K, V>(less: (K, K) -> bool, t: Tree<K, V>, k: K): Option<V> {
    if t.Leaf? then None
    else if less(k, t.key) then Find(less, t.left, k)
    else if less(t.key, k) then Find(less, t.right, k)
    else Some(t.value)
  }

  // ---------- deletion ----------

  function MoveRedLeft<K, V>(t: Tree<K, V>): (r: Tree<K, V>)
    requires t.Node? && t.left.Node?
    ensures r.Node? && r.left.Node? && Size(r) == Size(t)
  {
    var t1 := ColorFlip(t);
    if t1.right.Node? && IsRed(t1.right.left) then
      ColorFlip(RotateLeft(t1.(right := RotateRight(t1.right))))
    else t1
  }

  function MoveRedRight<K, V>(t: Tree<K, V>): (r: Tree<K, V>)
    requires t.Node? && t.right.Node?
    ensures r.Node? && r.right.Node? && Size(r) == Size(t)
  {
    var t1 := ColorFlip(t);
    if t1.left.Node? && IsRed(t1.left.left) then ColorFlip(RotateRight(t1)) else t1
  }

  function FixUp<K, V>(t: Tree<K, V>): (r: Tree<K, V>)
    requires t.Node?
    ensures r.Node? && Size(r) == Size(t)
  {
    var t1 := if IsRed(t.right) then RotateLeft(t) else t;
    var t2 := if IsRed(t1.left) && IsRed(t1.left.left) then RotateRight(t1) else t1;
    if IsRed(t2.left) && IsRed(t2.right) then ColorFlip(t2) else t2
  }

  function First<K, V>(t: Tree<K, V>): (r: Tree<K, V>)
    requires t.Node?
    ensures r.Node?
  {
    if t.left.Leaf? then t else First(t.left)
  }

  /** The left descent's preparation, lines 223-225 and 277-279. */
  function LeanLeft<K, V>(t: Tree<K, V>): (r: Tree<K, V>)
    requires t.Node? && t.left.Node?
    ensures r.Node? && r.left.Node? && Size(r) == Size(t)
  {
    if !IsRed(t.left) && !IsRed(t.left.left) then MoveRedLeft(t) else t
  }

  /** Lines 229-231. */
  function LeanRight<K, V>(t: Tree<K, V>): (r: Tree<K, V>)
    requires t.Node?
    ensures r.Node? && Size(r) == Size(t)
  {
    if IsRed(t.left) then RotateRight(t) else t
  }

  /** Lines 237-239. */
  function PushRight<K, V>(t: Tree<K, V>): (r: Tree<K, V>)
    requires t.Node? && t.right.Node?
    ensures r.Node? && r.right.Node? && Size(r) == Size(t)
  {
    if !IsRed(t.right) && !IsRed(t.right.left) then MoveRedRight(t) else t
  }

  function DeleteMinimum<K, V>(t: Tree<K, V>): (r: Tree<K, V>)
    requires t.Node?
    ensures Size(r) < Size(t)
    decreases Size(t)
  {
    if t.left.Leaf? then Leaf
    else
      var t1 := LeanLeft(t);
      FixUp(t1.(left := DeleteMinimum(t1.left)))
  }

  function Remove<K, V>(less: (K, K) -> bool, t: Tree<K, V>, k: K): (r: (Tree<K, V>, bool))
    requires t.Node?
    ensures Size(r.0) <= Size(t)
    decreases Size(t), 1
  {
    if less(k, t.key) then
      if t.left.Leaf? then (FixUp(t), false)
      else
        var t1 := LeanLeft(t);
        var (l, deleted) := Remove(less, t1.left, k);
        (FixUp(t1.(left := l)), deleted)
    else
      var t1 := LeanRight(t);
      if Equiv(less, k, t1.key) && t1.right.Leaf? then (Leaf, true)
      else if t1.right.Leaf? then (FixUp(t1), false)
      else RemoveRight(less, t1, k)
  }

  /** Lines 237-248: the node has a right child and does not exceed the key. */
  function RemoveRight<K, V>(less: (K, K) -> bool, t: Tree<K, V>, k: K): (r: (Tree<K, V>, bool))
    requires t.Node? && t.right.Node?
    ensures Size(r.0) <= Size(t)
    decreases Size(t), 0
  {
    var t2 := PushRight(t);
    if Equiv(less, k, t2.key) then
      var smallest := First(t2.right);
      (FixUp(t2.(key := smallest.key, value := smallest.value, right := DeleteMinimum(t2.right))), true)
    else
      var (r, deleted) := Remove(less, t2.right, k);
      (FixUp(t2.(right := r)), deleted)
  }

  /** The exported Delete. */
  function RemoveRoot<K, V>(less: (K, K) -> bool, t: Tree<K, V>, k: K): (Tree<K, V>, bool) {
    if t.Leaf? then (Leaf, false)
    else
      var (t', deleted) := Remove(less, t, k);
      (Blacken(t'), deleted)
  }
}
