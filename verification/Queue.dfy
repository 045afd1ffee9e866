/** The growing ring buffer of util/util-fifo-queue.go, refining a first-in first-out sequence. */
module Queue {

  import opened Wrappers

  /** Stepping round a ring of n slots. */
  lemma Wrap(x: nat, n: nat)
    requires x < n
    ensures (x + 1) % n == if x + 1 == n then 0 else x + 1
  {
  }

  class Queue<T> {
    var itm: array<Option<T>>
    const size: nat
    var head: nat
    var tail: nat
    var count: nat

    ghost predicate Valid()
      reads this, itm
    {
      && 0 < itm.Length && size >= 5
      && head < itm.Length && count <= itm.Length
      && tail == (if head + count < itm.Length then head + count else head + count - itm.Length)
      && forall i :: 0 <= i < count ==> itm[Place(i)].Some?
    }

    /** Where the i-th waiting item is. */
    ghost function Place(i: nat): (p: nat)
      requires 0 < itm.Length && head < itm.Length && i < itm.Length
      reads this
      ensures p < itm.Length
    {
      if head + i < itm.Length then head + i else head + i - itm.Length
    }

    /** The waiting items, oldest first. */
    ghost function Contents(): (s: seq<T>)
      requires Valid()
      reads this, itm
      ensures |s| == count
    {
      seq(count, i requires 0 <= i < count && Valid() reads this, itm => itm[Place(i)].value)
    }

    constructor NewQueue(argSize: int)
      ensures Valid() && fresh(itm) && Contents() == []
    {
      var n: nat := if argSize < 5 then 5 else argSize;
      itm := new Option<T>[n](_ => None);
      size := n;
      head, tail, count := 0, 0, 0;
    }

    /** Doubles back the ring into a longer array when it is full. */
    method Grow()
      requires Valid() && head == tail && count > 0
      modifies this`itm, this`head, this`tail
      ensures Valid() && fresh(itm) && count < itm.Length && count == old(count)
      ensures Contents() == old(Contents())
    {
      ghost var before := Contents();
      var n := itm.Length;
      var longer := new Option<T>[n + size](_ => None);
      forall i | 0 <= i < n - head {
        longer[i] := itm[head + i];
      }
      forall i | 0 <= i < head {
        longer[n - head + i] := itm[i];
      }
      assert forall i :: 0 <= i < count ==> longer[i] == itm[Place(i)];
      head, tail, itm := 0, n, longer;
      assert forall i :: 0 <= i < count ==> Place(i) == i;
      assert Contents() == before;
    }

    method Push(val: T)
      requires Valid()
      modifies this, itm
      ensures Valid() && (itm == old(itm) || fresh(itm))
      ensures Contents() == old(Contents()) + [val]
    {
      if head == tail && count > 0 {
        Grow();
      }
      Put(val);
    }

    /** The part of Push that follows the growing: there is a free slot. */
    method Put(val: T)
      requires Valid() && count < itm.Length
      modifies this`tail, this`count, itm
      ensures Valid()
      ensures Contents() == old(Contents()) + [val]
    {
      ghost var before := Contents();
      ghost var n := count;
      assert Place(count) == tail;
      assert forall i :: 0 <= i < count ==> Place(i) != tail;
      Wrap(tail, itm.Length);
      itm[tail] := Some(val);
      tail := (tail + 1) % itm.Length;
      count := count + 1;
      assert Place(n) == old(tail);
      assert forall i :: 0 <= i < n ==> Place(i) == old(Place(i)) && itm[Place(i)] == old(itm[Place(i)]);
      assert Contents() == before + [val];
    }

    /** The oldest item, or None on an empty queue. */
    method Pop() returns (r: Option<T>)
      requires Valid()
      modifies this`head, this`count
      ensures Valid()
      ensures r == if old(Contents()) == [] then None else Some(old(Contents())[0])
      ensures Contents() == if old(Contents()) == [] then [] else old(Contents())[1..]
    {
      if count == 0 {
        return None;
      }
      ghost var before := Contents();
      var val := itm[head];
      assert val == Some(before[0]) by { assert Place(0) == head; }
      Wrap(head, itm.Length);
      head := (head + 1) % itm.Length;
      count := count - 1;
      assert forall i :: 0 <= i < count ==> Place(i) == old(Place(i + 1));
      assert Contents() == before[1..];
      return val;
    }
  }
}
