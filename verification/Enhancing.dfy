/** What transposablematrix/31-outline-enhance.go adds to a traced outline when the viewport is
    restricted: margins on both sides with fictitious walls, and a pit down to the floor. */
module Enhancing {
  import opened Wrappers
  import opened Perspective
  import opened Matrix
  import opened Outline

  const FICT_SEG_LEN := 6

  /** The restricted viewport's corners, in base coordinates. */
  datatype Viewport = Viewport(x1: int, y1: int, x2: int, y2: int)

  /** The effective western, eastern and lower limits in the current perspective. */
  datatype Bounds = Bounds(west: int, east: int, floor: int)

  function Max(a: int, b: int): int { if a > b then a else b }

  function Effective(v: View, vp: Viewport): Bounds
    requires ViewOk(v)
  {
    var p, q := Base2Mapped(v, Point(vp.x1, vp.y1)), Base2Mapped(v, Point(vp.x2, vp.y2));
    if v.persp % 2 == 1 then Bounds(p.x, q.x, Max(p.y, q.y)) else Bounds(p.y, q.y, Max(p.x, q.x))
  }

  /** ViewportRestriction: the corners given as seen, kept in base coordinates. */
  function Restrict(v: View, p: Point, q: Point): (r: Viewport)
    requires ViewOk(v)
  {
    var b, c := Mapped2Base(v, p), Mapped2Base(v, q);
    Viewport(b.x, b.y, c.x, c.y)
  }

  /** The column of a corner in odd perspectives, its row in even ones. */
  function Along(v: View, p: Point): int { if v.persp % 2 == 1 then p.x else p.y }

  function Across(v: View, p: Point): int { if v.persp % 2 == 1 then p.y else p.x }

  /** Corners in the grid come back as the limits they were set as: the columns west and east and the lower
      row in odd perspectives, but rows for columns in even ones. */
  lemma RestrictedSeen(v: View, p: Point, q: Point)
    requires ViewOk(v) && Mapped2Base(v, p) != OUTSIDE && Mapped2Base(v, q) != OUTSIDE
    ensures Effective(v, Restrict(v, p, q)) == Bounds(Along(v, p), Along(v, q), Max(Across(v, p), Across(v, q)))
    ensures Effective(v, Restrict(v, p, q)) == Bounds(p.x, q.x, Max(p.y, q.y)) <==>
      v.persp % 2 == 1 || (p.x == p.y && q.x == q.y)
  {
    ViewsInverse(v, Mapped2Base(v, p), p);
    ViewsInverse(v, Mapped2Base(v, q), q);
  }

  /** Lines 52-73: the first segment is prolonged westwards, a wall and a margin come before it. */
  function Westwards(b: Bounds, line: seq<Point>, xm1: int): (r: seq<Point>)
    requires line != []
    ensures r != []
  {
    if b.west < xm1 then
      var y := line[0].y;
      [Point(b.west - FICT_SEG_LEN, y - FICT_SEG_LEN), Point(b.west, y - FICT_SEG_LEN), Point(b.west, y)] + line[1..]
    else line
  }

  /** Whether the eastward extension goes down or up to the floor first. */
  predicate Pit(b: Bounds, line: seq<Point>, xm2: int)
    requires line != []
  {
    xm2 != b.east - 1 && b.floor != line[0].y
  }

  /** Lines 76-119: the line is prolonged eastwards, directly or along the floor; then a wall and a margin. */
  function Eastwards(b: Bounds, line: seq<Point>, xm2: int): (r: seq<Point>)
    requires line != []
  {
    if b.east <= xm2 then line
    else
      var last := line[|line| - 1];
      var longer := if Pit(b, line, xm2) then line + [Point(last.x, b.floor), Point(b.east, b.floor)]
                    else line[|line| - 1 := Point(b.east, last.y)];
      var y := longer[|longer| - 1].y;
      longer + [Point(b.east, y - FICT_SEG_LEN), Point(b.east + FICT_SEG_LEN, y - FICT_SEG_LEN)]
  }

  function EnhanceLine(b: Bounds, line: seq<Point>, xm1: int, xm2: int): (r: seq<Point>)
    requires line != []
  {
    Eastwards(b, Westwards(b, line, xm1), xm2)
  }

  /** An empty outline is replaced by the floor. */
  function EnhanceBlank(b: Bounds): (r: seq<Point>) {
    EnhanceLine(b, [Point(b.west, b.floor), Point(b.east, b.floor)], b.west + 1, b.east - 1)
  }

  /** A line enhanced on both sides: it comes in from six slots beyond either limit and six slots above
      the line, through walls at the limits, and keeps all points between its ends. The pit is left out
      for a floor at the height of the western margin, not at that of the line's own start. */
  lemma EnhancedEnds(b: Bounds, line: seq<Point>, xm1: int, xm2: int)
    requires |line| >= 2 && b.west < xm1 && xm2 < b.east
    ensures var r, y, n := EnhanceLine(b, line, xm1, xm2), line[0].y, |line|;
      && |r| >= n + 4 && r[3..n + 1] == line[1..n - 1]
      && r[0] == Point(b.west - 6, y - 6) && r[1] == Point(b.west, y - 6) && r[2] == Point(b.west, y)
      && var down := if xm2 == b.east - 1 || b.floor == y - 6 then line[n - 1].y else b.floor;
      r[|r| - 3..] == [Point(b.east, down), Point(b.east, down - 6), Point(b.east + 6, down - 6)]
  {
    var w, n := Westwards(b, line, xm1), |line|;
    var r := EnhanceLine(b, line, xm1, xm2);
    assert w[|w| - 1] == line[n - 1] && |w| == n + 2 && w[..n + 1] == r[..n + 1];
    assert r[3..n + 1] == w[3..n + 1] == line[1..n - 1];
  }

  /** Westwards a line keeps its parity, and alternates exactly if it did before or its first segment, one
      slot to the left at most, is now prolonged to the west. */
  lemma WestwardsAlternatesIff(b: Bounds, line: seq<Point>, xm1: int)
    requires AlternatesFrom(line, 1) && |line| >= 2 && line[0].x == xm1 && xm1 - 1 <= line[1].x
    ensures var r := Westwards(b, line, xm1);
      && (Alternates(r) <==> b.west < xm1 || Alternates(line)) && AlternatesFrom(r, 1)
      && |r| >= |line| && |r| % 2 == |line| % 2 && r[|r| - 1] == line[|line| - 1]
  {
    var r := Westwards(b, line, xm1);
    if b.west < xm1 {
      forall k | 0 <= k < |r| - 1 ensures Segment(k, 0, r[k], r[k + 1]) {
        if k >= 2 { assert r[k + 1] == line[k - 1] && Segment(k - 2, 1, line[k - 2], line[k - 1]); }
        if k >= 3 { assert r[k] == line[k - 2]; }
      }
      AlternatesLater(r, 1);
    }
  }

  lemma AlternatesLater(line: seq<Point>, n: nat)
    requires Alternates(line)
    ensures AlternatesFrom(line, n)
  {
    forall k | 0 <= k < |line| - 1 ensures Segment(k, n, line[k], line[k + 1]) {
      assert Segment(k, 0, line[k], line[k + 1]);
    }
  }

  /** Eastwards a line goes on alternating exactly if it did before and ended with a horizontal segment,
      and not at the floor when a wall down to the floor is to follow. */
  lemma EastwardsAlternatesIff(b: Bounds, line: seq<Point>, xm2: int)
    requires AlternatesFrom(line, 1) && |line| >= 2 && (|line| == 2 ==> line[0].x <= line[1].x)
    requires line[|line| - 1].x == xm2 < b.east
    ensures Alternates(Eastwards(b, line, xm2)) <==>
      Alternates(line) && |line| % 2 == 0 && (Pit(b, line, xm2) ==> line[|line| - 1].y != b.floor)
  {
    var r, n := Eastwards(b, line, xm2), |line|;
    assert forall k :: 0 <= k < n - 1 ==> r[k] == line[k];
    if Alternates(r) {
      EastwardsFirst(b, line, xm2);
      assert Segment(n - 1, 0, r[n - 1], r[n]) && Segment(n, 0, r[n], r[n + 1]);
    }
    if Alternates(line) && n % 2 == 0 && (Pit(b, line, xm2) ==> line[n - 1].y != b.floor) {
      forall k | 0 <= k < |r| - 1 ensures Segment(k, 0, r[k], r[k + 1]) {
        if k < n - 1 { assert Segment(k, 0, line[k], line[k + 1]); }
      }
    }
  }

  /** A first segment to the left stays one. */
  lemma EastwardsFirst(b: Bounds, line: seq<Point>, xm2: int)
    requires AlternatesFrom(line, 1) && |line| >= 2 && (|line| == 2 ==> line[0].x <= line[1].x)
    requires line[|line| - 1].x == xm2 < b.east && Alternates(Eastwards(b, line, xm2))
    ensures Alternates(line)
  {
    var r := Eastwards(b, line, xm2);
    FirstSegment(line);
    assert Segment(0, 0, r[0], r[1]);
  }

  /** A traced outline from p1 to p2 alternates after the enhancing if and only if its start is filled or it
      is extended westwards, and it is not extended eastwards or ends with a horizontal segment that
      does not lie on the floor a wall is to be drawn to. */
  lemma EnhancedAlternatesIff(b: Bounds, slots: seq<Point>, p1: Point, p2: Point, line: seq<Point>)
    requires Outlines(slots, p1, p2, line) && p1.x <= p2.x
    ensures Alternates(EnhanceLine(b, line, p1.x, p2.x)) <==>
      && (p1 in slots || b.west < p1.x)
      && (p2.x < b.east ==> |line| % 2 == 0 && (Pit(b, Westwards(b, line, p1.x), p2.x) ==> p2.y != b.floor))
  {
    FirstSegment(line);
    WestwardsAlternatesIff(b, line, p1.x);
    if p2.x < b.east {
      EastwardsAlternatesIff(b, Westwards(b, line, p1.x), p2.x);
    }
  }

  /** The floor drawn for an empty outline alternates if and only if the limits are in order. */
  lemma EnhancedBlankIff(b: Bounds)
    ensures Alternates(EnhanceBlank(b)) <==> b.west <= b.east
  {
    var r := EnhanceBlank(b);
    var y := b.floor;
    assert r == [Point(b.west - FICT_SEG_LEN, y - FICT_SEG_LEN), Point(b.west, y - FICT_SEG_LEN), Point(b.west, y),
                 Point(b.east, y), Point(b.east, y - FICT_SEG_LEN), Point(b.east + FICT_SEG_LEN, y - FICT_SEG_LEN)];
    if Alternates(r) { assert r[2].x <= r[3].x; }
  }

  /** PartialOutline as a whole; None where the original returns an error. `vp` is the viewport if its
      restriction is enforced. */
  method EnhancedOutline(t: TransposableMatrix, vp: Option<Viewport>) returns (r: Option<seq<Point>>)
    requires t.Valid()
    ensures NorthWest(t) == NorthEast(t) ==>
      r == Some(if vp == None then [] else EnhanceBlank(Effective(t.Current(), vp.value)))
    ensures NorthWest(t) != NorthEast(t) && r.Some? ==>
      exists line :: Outlines(Slots(t), NorthWest(t), NorthEast(t), line) && r.value == match vp
        case None => line
        case Some(p) => EnhanceLine(Effective(t.Current(), p), line, NorthWest(t).x, NorthEast(t).x)
    ensures NorthWest(t) != NorthEast(t) && r.Some? && NorthWest(t) !in Slots(t) ==>
      (Alternates(r.value) ==> vp.Some? && Effective(t.Current(), vp.value).west < NorthWest(t).x)
  {
    var trace := PartialOutline(t);
    var ret := t.FilledMinMax();
    var xm1, xm2 := Base2Mapped(t.Current(), ret[1]).x, Base2Mapped(t.Current(), ret[6]).x;
    match trace
    case Blank =>
      r := Some(if vp == None then [] else EnhanceBlank(Effective(t.Current(), vp.value)));
    case Traced(line) =>
      r := Some(if vp == None then line else EnhanceLine(Effective(t.Current(), vp.value), line, xm1, xm2));
      StartFree(t);
      if vp.Some? {
        EnhancedAlternatesIff(Effective(t.Current(), vp.value), Slots(t), NorthWest(t), NorthEast(t), line);
      }
    case _ =>
      r := None;
  }
}
