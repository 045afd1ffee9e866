/** Sorted lists of integers without repetition, for the factors in transposablematrix/22-edges-permutated.go. */
module Sorting {

  function Elems<T>(s: seq<T>): set<T> { set x | x in s }

  lemma ElemsMore<T>(s: seq<T>, i: nat)
    requires i < |s|
    ensures Elems(s[..i + 1]) == Elems(s[..i]) + {s[i]}
  {}

  predicate Ascending(s: seq<int>) { forall i, j :: 0 <= i < j < |s| ==> s[i] <= s[j] }

  predicate Increasing(s: seq<int>) { forall i, j :: 0 <= i < j < |s| ==> s[i] < s[j] }

  predicate Distinct(s: seq<int>) { forall i, j :: 0 <= i < j < |s| ==> s[i] != s[j] }

  function Place(s: seq<int>, x: int): (r: seq<int>) {
    if s == [] || x <= s[0] then [x] + s else [s[0]] + Place(s[1..], x)
  }

  /** sort.Ints. */
  function SortInts(s: seq<int>): (r: seq<int>) {
    if s == [] then [] else Place(SortInts(s[1..]), s[0])
  }

  lemma ElemsOfJoin(a: int, s: seq<int>)
    ensures Elems([a] + s) == {a} + Elems(s)
  {
    assert forall x :: x in [a] + s <==> x == a || x in s;
  }

  lemma ConsSorted(x: int, s: seq<int>)
    requires Ascending(s) && forall y :: y in s ==> x <= y
    ensures Ascending([x] + s)
    ensures Increasing(s) && x !in s ==> Increasing([x] + s)
  {
    var t := [x] + s;
    forall i, j | 0 <= i < j < |t| ensures t[i] <= t[j] && (Increasing(s) && x !in s ==> t[i] < t[j]) {
      assert t[j] == s[j - 1] && s[j - 1] in s;
      if i > 0 { assert t[i] == s[i - 1]; }
    }
  }

  lemma {:induction false} PlaceElems(s: seq<int>, x: int)
    ensures |Place(s, x)| == |s| + 1 && Elems(Place(s, x)) == Elems(s) + {x}
  {
    if s == [] || x <= s[0] {
      ElemsOfJoin(x, s);
    } else {
      PlaceElems(s[1..], x);
      ElemsOfJoin(s[0], Place(s[1..], x));
      ElemsOfJoin(s[0], s[1..]);
      assert [s[0]] + s[1..] == s;
    }
  }

  lemma {:induction false} PlaceSorts(s: seq<int>, x: int)
    requires Ascending(s)
    ensures Ascending(Place(s, x)) && (Increasing(s) && x !in s ==> Increasing(Place(s, x)))
  {
    if s == [] || x <= s[0] {
      ConsSorted(x, s);
    } else {
      PlaceBehind(s, x);
      PlaceSorts(s[1..], x);
      PlaceElems(s[1..], x);
      var rest := Place(s[1..], x);
      forall y | y in rest ensures s[0] <= y { assert y in Elems(rest); }
      assert Increasing(s) && x !in s ==> s[0] !in Elems(rest);
      ConsSorted(s[0], rest);
    }
  }

  lemma PlaceBehind(s: seq<int>, x: int)
    requires s != [] && Ascending(s)
    ensures Ascending(s[1..]) && Elems(s) == {s[0]} + Elems(s[1..])
    ensures forall y :: y in Elems(s[1..]) ==> s[0] <= y
    ensures Increasing(s) ==> Increasing(s[1..]) && s[0] !in Elems(s[1..])
    ensures x !in s ==> x !in s[1..]
  {
    ElemsOfJoin(s[0], s[1..]);
    assert [s[0]] + s[1..] == s;
  }

  lemma {:induction false} SortSorts(s: seq<int>)
    ensures var r := SortInts(s);
      && Ascending(r) && |r| == |s| && Elems(r) == Elems(s)
      && (Distinct(s) ==> Increasing(r))
  {
    if s != [] {
      var rest := SortInts(s[1..]);
      SortSorts(s[1..]);
      PlaceSorts(rest, s[0]);
      PlaceElems(rest, s[0]);
      ElemsOfJoin(s[0], s[1..]);
      assert [s[0]] + s[1..] == s;
      if Distinct(s) {
        assert s[0] !in s[1..];
        assert s[0] !in Elems(s[1..]) && s[0] !in Elems(rest);
      }
    }
  }

  lemma AppendNew(s: seq<int>, x: int, y: int)
    requires Distinct(s) && x !in Elems(s) && y !in Elems(s)
    ensures Distinct(s + [x]) && Elems(s + [x]) == Elems(s) + {x}
    ensures x != y ==> Distinct(s + [x, y])
    ensures Elems(s + [x, y]) == Elems(s) + {x, y}
  {
    assert forall k :: 0 <= k < |s| ==> s[k] in Elems(s);
  }
}
