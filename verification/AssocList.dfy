/** Ordered association lists: the reference meaning of an ordered map.

    Keys are compared only through a `less` function, as the callers of the ordered map
    supply it; two keys count as the same key when neither is less than the other. */
module AssocList {

  import opened Wrappers
  import opened Basics

  datatype Entry<+K, +V> = Entry(key: K, value: V)

  /** What a caller's comparison must satisfy: a strict weak order. Keys that are
      different values may still be equivalent, as with case-folded strings. */
  ghost predicate StrictWeakOrder<K(!new)>(less: (K, K) -> bool) {
    && (forall a :: !less(a, a))
    && (forall a, b, c :: less(a, b) && less(b, c) ==> less(a, c))
    && (forall a, b, c {:trigger less(a, b), less(a, c)} {:trigger less(a, b), less(c, b)} ::
          less(a, b) ==> less(a, c) || less(c, b))
  }

  predicate Equiv<K>(less: (K, K) -> bool, a: K, b: K) {
    !less(a, b) && !less(b, a)
  }

  ghost predicate Sorted<K, V>(less: (K, K) -> bool, s: seq<Entry<K, V>>) {
    forall i, j :: 0 <= i < j < |s| ==> less(s[i].key, s[j].key)
  }

  ghost predicate Has<K, V>(less: (K, K) -> bool, s: seq<Entry<K, V>>, k: K) {
    exists e :: e in s && Equiv(less, e.key, k)
  }

  function Lookup<K, V>(less: (K, K) -> bool, s: seq<Entry<K, V>>, k: K): (r: Option<V>) {
    if s == [] then None
    else if Equiv(less, s[0].key, k) then Some(s[0].value)
    else Lookup(less, s[1..], k)
  }

  /** Map update: replaces the value of the equivalent key, or adds an entry in order. */
  function Put<K, V>(less: (K, K) -> bool, s: seq<Entry<K, V>>, k: K, v: V): (r: seq<Entry<K, V>>) {
    if s == [] then [Entry(k, v)]
    else if less(k, s[0].key) then [Entry(k, v)] + s
    else if less(s[0].key, k) then [s[0]] + Put(less, s[1..], k, v)
    else [Entry(s[0].key, v)] + s[1..]
  }

  /** Map removal. */
  function Drop<K, V>(less: (K, K) -> bool, s: seq<Entry<K, V>>, k: K): (r: seq<Entry<K, V>>) {
    if s == [] then []
    else if Equiv(less, s[0].key, k) then s[1..]
    else [s[0]] + Drop(less, s[1..], k)
  }

  // ---------- sorted sequences ----------

  lemma SortedJoin<K, V>(less: (K, K) -> bool, a: seq<Entry<K, V>>, e: Entry<K, V>, b: seq<Entry<K, V>>)
    ensures Sorted(less, a + [e] + b) ==>
      && Sorted(less, a) && Sorted(less, b)
      && (forall x :: x in a ==> less(x.key, e.key))
      && (forall y :: y in b ==> less(e.key, y.key))
  {
    var s := a + [e] + b;
    if Sorted(less, s) {
      forall i, j | 0 <= i < j < |a| ensures less(a[i].key, a[j].key) {
        assert s[i] == a[i] && s[j] == a[j];
      }
      forall i, j | 0 <= i < j < |b| ensures less(b[i].key, b[j].key) {
        assert s[|a| + 1 + i] == b[i] && s[|a| + 1 + j] == b[j];
      }
      forall x | x in a ensures less(x.key, e.key) {
        var i :| 0 <= i < |a| && a[i] == x;
        assert s[i] == x && s[|a|] == e;
      }
      forall y | y in b ensures less(e.key, y.key) {
        var j :| 0 <= j < |b| && b[j] == y;
        assert s[|a|] == e && s[|a| + 1 + j] == y;
      }
    }
  }

  lemma JoinSorted<K(!new), V>(less: (K, K) -> bool, a: seq<Entry<K, V>>, e: Entry<K, V>, b: seq<Entry<K, V>>)
    requires StrictWeakOrder(less)
    requires Sorted(less, a) && Sorted(less, b)
    requires forall x :: x in a ==> less(x.key, e.key)
    requires forall y :: y in b ==> less(e.key, y.key)
    ensures Sorted(less, a + [e] + b)
  {
    var s := a + [e] + b;
    forall i, j | 0 <= i < j < |s| ensures less(s[i].key, s[j].key) {
      if i < |a| { assert s[i] == a[i]; assert a[i] in a; }
      if j > |a| { assert s[j] == b[j - |a| - 1]; assert b[j - |a| - 1] in b; }
      if i > |a| { assert s[i] == b[i - |a| - 1]; }
      if j < |a| { assert s[j] == a[j]; }
      assert s[|a|] == e;
    }
  }

  /** The head of a sorted list against its tail. */
  lemma SortedTail<K, V>(less: (K, K) -> bool, s: seq<Entry<K, V>>)
    requires Sorted(less, s) && s != []
    ensures Sorted(less, s[1..]) && forall y :: y in s[1..] ==> less(s[0].key, y.key)
  {
    forall y | y in s[1..] ensures less(s[0].key, y.key) {
      var j :| 0 <= j < |s[1..]| && s[1..][j] == y;
      assert s[j + 1] == y;
    }
  }

  lemma SortedCons<K, V>(less: (K, K) -> bool, e: Entry<K, V>, b: seq<Entry<K, V>>)
    requires Sorted(less, b) && forall y :: y in b ==> less(e.key, y.key)
    ensures Sorted(less, [e] + b)
  {
    forall i, j | 0 <= i < j < |[e] + b| ensures less(([e] + b)[i].key, ([e] + b)[j].key) {
      assert ([e] + b)[j] == b[j - 1] && b[j - 1] in b;
      if i > 0 { assert ([e] + b)[i] == b[i - 1]; }
    }
  }

  // ---------- the map laws ----------

  lemma {:induction false} LookupHas<K(!new), V>(less: (K, K) -> bool, s: seq<Entry<K, V>>, k: K)
    ensures Lookup(less, s, k).Some? <==> Has(less, s, k)
  {
    if s != [] {
      LookupHas(less, s[1..], k);
      assert s == [s[0]] + s[1..];
      if Equiv(less, s[0].key, k) {
        assert s[0] in s;
      } else if Has(less, s, k) {
        var e :| e in s && Equiv(less, e.key, k);
        assert e in s[1..];
      }
    }
  }

  lemma {:induction false} LookupMember<K(!new), V>(less: (K, K) -> bool, s: seq<Entry<K, V>>, e: Entry<K, V>, k: K)
    requires StrictWeakOrder(less) && Sorted(less, s) && e in s && Equiv(less, e.key, k)
    ensures Lookup(less, s, k) == Some(e.value)
  {
    if Equiv(less, s[0].key, k) {
      var i :| 0 <= i < |s| && s[i] == e;
      assert i == 0;
    } else {
      assert s == [s[0]] + s[1..];
      LookupMember(less, s[1..], e, k);
    }
  }

  /** Put adds nothing but the given key, and changes no other entry. */
  lemma {:induction false} PutMembers<K, V>(less: (K, K) -> bool, s: seq<Entry<K, V>>, k: K, v: V)
    ensures forall e :: e in Put(less, s, k, v) ==>
      e in s || (Equiv(less, e.key, k) && e.value == v) || e == Entry(k, v)
  {
    if s == [] {
    } else if !less(k, s[0].key) && less(s[0].key, k) {
      PutMembers(less, s[1..], k, v);
    }
  }

  /** Put keeps the list sorted. */
  lemma {:induction false} PutSorted<K(!new), V>(less: (K, K) -> bool, s: seq<Entry<K, V>>, k: K, v: V)
    requires StrictWeakOrder(less) && Sorted(less, s)
    ensures Sorted(less, Put(less, s, k, v))
  {
    if s == [] {
    } else {
      var rest := s[1..];
      SortedTail(less, s);
      if less(k, s[0].key) {
        forall e | e in s ensures less(k, e.key) { if e != s[0] { assert e in rest; } }
        SortedCons(less, Entry(k, v), s);
      } else if less(s[0].key, k) {
        PutSorted(less, rest, k, v);
        PutMembers(less, rest, k, v);
        SortedCons(less, s[0], Put(less, rest, k, v));
      } else {
        SortedCons(less, Entry(s[0].key, v), rest);
      }
    }
  }

  /** Put grows the list exactly when the key is new. */
  lemma {:induction false} PutSize<K(!new), V>(less: (K, K) -> bool, s: seq<Entry<K, V>>, k: K, v: V)
    requires StrictWeakOrder(less) && Sorted(less, s)
    ensures |Put(less, s, k, v)| == |s| + if Has(less, s, k) then 0 else 1
  {
    if s != [] {
      SortedTail(less, s);
      HasSplit(less, [], s[0], s[1..], k);
      if less(s[0].key, k) {
        PutSize(less, s[1..], k, v);
      } else if less(k, s[0].key) {
        assert !Has<K, V>(less, [], k);
      }
    }
  }

  /** Reading after a Put: the new value at the key, every other key as before. */
  lemma {:induction false} PutLookup<K(!new), V>(less: (K, K) -> bool, s: seq<Entry<K, V>>, k: K, v: V, q: K)
    requires StrictWeakOrder(less) && Sorted(less, s)
    ensures Lookup(less, Put(less, s, k, v), q) == if Equiv(less, k, q) then Some(v) else Lookup(less, s, q)
  {
    if s == [] {
    } else if less(k, s[0].key) {
      assert ([Entry(k, v)] + s)[1..] == s;
    } else if less(s[0].key, k) {
      SortedTail(less, s);
      PutLookup(less, s[1..], k, v, q);
      assert ([s[0]] + Put(less, s[1..], k, v))[1..] == Put(less, s[1..], k, v);
    } else {
      assert ([Entry(s[0].key, v)] + s[1..])[1..] == s[1..];
    }
  }

  /** Reading after a Drop: the key is gone, every other key as before. */
  lemma {:induction false} DropLookup<K(!new), V>(less: (K, K) -> bool, s: seq<Entry<K, V>>, k: K, q: K)
    requires StrictWeakOrder(less) && Sorted(less, s)
    ensures Lookup(less, Drop(less, s, k), q) == if Equiv(less, k, q) then None else Lookup(less, s, q)
  {
    if s == [] {
    } else {
      SortedTail(less, s);
      if Equiv(less, s[0].key, k) {
        if Equiv(less, k, q) {
          LookupHas(less, s[1..], q);
          forall e | e in s[1..] ensures !Equiv(less, e.key, q) { assert less(s[0].key, e.key); }
        }
      } else {
        DropLookup(less, s[1..], k, q);
        assert ([s[0]] + Drop(less, s[1..], k))[1..] == Drop(less, s[1..], k);
      }
    }
  }

  /** Drop keeps the list sorted, invents nothing and takes one entry off exactly if the key is there. */
  lemma {:induction false} DropSorted<K(!new), V>(less: (K, K) -> bool, s: seq<Entry<K, V>>, k: K)
    requires StrictWeakOrder(less) && Sorted(less, s)
    ensures Sorted(less, Drop(less, s, k))
    ensures forall e :: e in Drop(less, s, k) ==> e in s
    ensures |Drop(less, s, k)| == |s| - if Has(less, s, k) then 1 else 0
  {
    if s != [] {
      SortedTail(less, s);
      if Equiv(less, s[0].key, k) {
        assert s[0] in s;
      } else {
        DropSorted(less, s[1..], k);
        SortedCons(less, s[0], Drop(less, s[1..], k));
        assert Has(less, s, k) <==> Has(less, s[1..], k);
      }
    }
  }

  // ---------- the operations on a list split at an entry ----------

  lemma {:induction false} PutBefore<K(!new), V>(
    less: (K, K) -> bool, a: seq<Entry<K, V>>, t: seq<Entry<K, V>>, k: K, v: V)
    requires t != [] && less(k, t[0].key)
    ensures Put(less, a + t, k, v) == Put(less, a, k, v) + t
  {
    var s := a + t;
    if a == [] {
      assert s == t;
    } else {
      assert s[0] == a[0] && s[1..] == a[1..] + t;
      if less(k, a[0].key) {
        Assoc([Entry(k, v)], a, t);
      } else if less(a[0].key, k) {
        PutBefore(less, a[1..], t, k, v);
        Assoc([a[0]], Put(less, a[1..], k, v), t);
      } else {
        Assoc([Entry(a[0].key, v)], a[1..], t);
      }
    }
  }

  lemma PutLeft<K(!new), V>(
    less: (K, K) -> bool, a: seq<Entry<K, V>>, e: Entry<K, V>, b: seq<Entry<K, V>>, k: K, v: V)
    requires less(k, e.key)
    ensures Put(less, a + [e] + b, k, v) == Put(less, a, k, v) + [e] + b
  {
    Assoc(a, [e], b);
    PutBefore(less, a, [e] + b, k, v);
    Assoc(Put(less, a, k, v), [e], b);
  }

  lemma {:induction false} PutAfter<K(!new), V>(
    less: (K, K) -> bool, a: seq<Entry<K, V>>, t: seq<Entry<K, V>>, k: K, v: V)
    requires forall x :: x in a ==> less(x.key, k) && !less(k, x.key)
    ensures Put(less, a + t, k, v) == a + Put(less, t, k, v)
  {
    if a == [] {
      assert a + t == t;
    } else {
      assert a[0] in a && (a + t)[0] == a[0] && (a + t)[1..] == a[1..] + t;
      PutAfter(less, a[1..], t, k, v);
      assert [a[0]] + a[1..] == a;
      Assoc([a[0]], a[1..], Put(less, t, k, v));
    }
  }

  lemma PutRight<K(!new), V>(
    less: (K, K) -> bool, a: seq<Entry<K, V>>, e: Entry<K, V>, b: seq<Entry<K, V>>, k: K, v: V)
    requires forall x :: x in a ==> less(x.key, k) && !less(k, x.key)
    requires !less(k, e.key)
    ensures Put(less, a + [e] + b, k, v)
         == a + (if less(e.key, k) then [e] + Put(less, b, k, v) else [Entry(e.key, v)] + b)
  {
    Assoc(a, [e], b);
    PutAfter(less, a, [e] + b, k, v);
    assert ([e] + b)[1..] == b;
  }

  lemma PutSplit<K(!new), V>(
    less: (K, K) -> bool, a: seq<Entry<K, V>>, e: Entry<K, V>, b: seq<Entry<K, V>>, k: K, v: V)
    requires StrictWeakOrder(less) && Sorted(less, a + [e] + b)
    ensures less(k, e.key) ==> Put(less, a + [e] + b, k, v) == Put(less, a, k, v) + [e] + b
    ensures less(e.key, k) ==> Put(less, a + [e] + b, k, v) == a + [e] + Put(less, b, k, v)
    ensures Equiv(less, e.key, k) ==> Put(less, a + [e] + b, k, v) == a + [Entry(e.key, v)] + b
  {
    SortedJoin(less, a, e, b);
    if less(k, e.key) {
      PutLeft(less, a, e, b, k, v);
    } else {
      forall x | x in a ensures less(x.key, k) && !less(k, x.key) {
        assert less(x.key, e.key);
      }
      PutRight(less, a, e, b, k, v);
    }
  }

  lemma {:induction false} DropAfter<K, V>(less: (K, K) -> bool, a: seq<Entry<K, V>>, b: seq<Entry<K, V>>, k: K)
    requires forall x :: x in a ==> !Equiv(less, x.key, k)
    ensures Drop(less, a + b, k) == a + Drop(less, b, k)
  {
    if a == [] {
      assert a + b == b;
    } else {
      assert a[0] in a && (a + b)[0] == a[0] && (a + b)[1..] == a[1..] + b;
      DropAfter(less, a[1..], b, k);
      assert [a[0]] + a[1..] == a;
      Assoc([a[0]], a[1..], Drop(less, b, k));
    }
  }

  lemma {:induction false} DropBefore<K, V>(less: (K, K) -> bool, a: seq<Entry<K, V>>, b: seq<Entry<K, V>>, k: K)
    requires forall x :: x in b ==> !Equiv(less, x.key, k)
    ensures Drop(less, a + b, k) == Drop(less, a, k) + b
  {
    if a == [] {
      assert a + b == b;
      DropAbsent(less, b, k);
    } else {
      assert (a + b)[0] == a[0] && (a + b)[1..] == a[1..] + b;
      DropBefore(less, a[1..], b, k);
      Assoc([a[0]], Drop(less, a[1..], k), b);
    }
  }

  lemma DropSplit<K(!new), V>(
    less: (K, K) -> bool, a: seq<Entry<K, V>>, e: Entry<K, V>, b: seq<Entry<K, V>>, k: K)
    requires StrictWeakOrder(less) && Sorted(less, a + [e] + b)
    ensures less(k, e.key) ==> Drop(less, a + [e] + b, k) == Drop(less, a, k) + [e] + b
    ensures less(e.key, k) ==> Drop(less, a + [e] + b, k) == a + [e] + Drop(less, b, k)
    ensures Equiv(less, e.key, k) ==> Drop(less, a + [e] + b, k) == a + b
  {
    SortedJoin(less, a, e, b);
    assert a + [e] + b == a + ([e] + b);
    if less(k, e.key) {
      forall x | x in [e] + b ensures !Equiv(less, x.key, k) {}
      DropBefore(less, a, [e] + b, k);
    } else {
      forall x | x in a ensures !Equiv(less, x.key, k) { assert less(x.key, e.key); }
      if less(e.key, k) {
        forall x | x in a + [e] ensures !Equiv(less, x.key, k) {}
        DropAfter(less, a + [e], b, k);
      } else {
        DropAfter(less, a, [e] + b, k);
        assert ([e] + b)[1..] == b;
      }
    }
  }

  lemma {:induction false} DropAbsent<K, V>(less: (K, K) -> bool, s: seq<Entry<K, V>>, k: K)
    requires forall e :: e in s ==> !Equiv(less, e.key, k)
    ensures Drop(less, s, k) == s
  {
    if s != [] {
      assert s[0] in s;
      DropAbsent(less, s[1..], k);
    }
  }

  lemma HasSplit<K(!new), V>(
    less: (K, K) -> bool, a: seq<Entry<K, V>>, e: Entry<K, V>, b: seq<Entry<K, V>>, k: K)
    requires StrictWeakOrder(less) && Sorted(less, a + [e] + b)
    ensures less(k, e.key) ==> (Has(less, a + [e] + b, k) <==> Has(less, a, k))
    ensures less(e.key, k) ==> (Has(less, a + [e] + b, k) <==> Has(less, b, k))
    ensures Equiv(less, e.key, k) ==> Has(less, a + [e] + b, k)
  {
    SortedJoin(less, a, e, b);
    assert e in a + [e] + b;
    forall x | x in a ensures x in a + [e] + b {}
    forall x | x in b ensures x in a + [e] + b {}
  }
}
