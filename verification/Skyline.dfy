/** What the trace of transposablematrix/30-outline.go makes of columns that stand on a common floor: exactly
    the corners of their tops, if and only if its bounds on rounds and depth allow. */
module Skyline {
  import opened Perspective
  import opened Outline

  ghost predicate Column(slots: seq<Point>, x: int, top: int, floor: int) {
    top <= floor && forall y :: Point(x, y) in slots <==> top <= y <= floor
  }

  ghost predicate NoColumn(slots: seq<Point>, x: int) { forall y :: Point(x, y) !in slots }

  /** From x on there are columns with these tops, and then a free one. */
  ghost predicate Skyline(slots: seq<Point>, x: int, tops: seq<int>, floor: int)
    decreases |tops|
  {
    if tops == [] then NoColumn(slots, x)
    else Column(slots, x, tops[0], floor) && Skyline(slots, x + 1, tops[1..], floor)
  }

  /** The corners from column x on, coming in at height y; the end is the top of the last column. */
  function Corners(x: int, y: int, tops: seq<int>): (r: seq<Point>)
    decreases |tops|
  {
    if tops == [] then [Point(x - 1, y)]
    else
      var h := tops[0];
      if h < y && |tops| == 1 then [Point(x, y), Point(x, h)]
      else
        (if h < y then [Point(x, y), Point(x, h)]
         else if h > y then [Point(x - 1, y), Point(x - 1, h)]
         else [])
        + Corners(x + 1, h, tops[1..])
  }

  function Gap(a: int, b: int): nat { if a < b then b - a else a - b }

  /** The rounds that takes: one for every column and for every slot climbed or fallen, and one beyond
      the last column unless it was climbed. */
  function Rounds(y: int, tops: seq<int>): (r: nat)
    decreases |tops|
  {
    if tops == [] then 1
    else Gap(y, tops[0]) + 1 + if tops[0] < y && |tops| == 1 then 0 else Rounds(tops[0], tops[1..])
  }

  /** Whether it falls from a height of a hundred on. */
  predicate TooDeep(y: int, tops: seq<int>)
    decreases |tops|
  {
    if tops == [] then y >= 100
    else
      || (y < tops[0] && tops[0] > 100)
      || (!(tops[0] < y && |tops| == 1) && TooDeep(tops[0], tops[1..]))
  }

  /** Climbing a column. */
  lemma {:induction false} ClimbTo(slots: seq<Point>, left: nat, p2: Point, x: int, y: int, line: seq<Point>,
                                   top: int, floor: int)
    requires Column(slots, x, top, floor) && top <= y <= floor && x <= p2.x
    ensures var r := Follow(slots, left, p2, Up, x, y, line);
      if left >= y - top then r == Follow(slots, left - (y - top), p2, Up, x, top, line) else r == TooLong
    decreases y - top
  {
    if y > top && left > 0 {
      assert TurnAt(slots, x, y) == Up;
      ClimbTo(slots, left - 1, p2, x, y - 1, line, top, floor);
    }
  }

  /** Falling beside a column. */
  lemma {:induction false} FallTo(slots: seq<Point>, left: nat, p2: Point, x: int, y: int, line: seq<Point>,
                                  top: int, floor: int)
    requires Column(slots, x, top, floor) && y <= top && x <= p2.x
    ensures var r := Follow(slots, left, p2, Down, x, y, line);
      if left >= top - y && (y < top ==> top <= 100)
      then r == Follow(slots, left - (top - y), p2, Down, x, top, line) else !r.Traced?
    decreases top - y
  {
    if y < top && left > 0 {
      assert TurnAt(slots, x, y) == Down;
      if y < 100 { FallTo(slots, left - 1, p2, x, y + 1, line, top, floor); }
    }
  }

  /** Where the columns end. */
  predicate EndsAt(p2: Point, x: int, y: int, tops: seq<int>) {
    p2 == Point(x + |tops| - 1, if tops == [] then y else tops[|tops| - 1])
  }

  predicate Doubled(line: seq<Point>) { |line| > 1 && line[0] == line[1] }

  /** What is expected of the trace from column x on. */
  predicate Meets(r: Trace, left: nat, x: int, y: int, tops: seq<int>, line: seq<Point>) {
    if Rounds(y, tops) <= left && !TooDeep(y, tops) then |line| > 0 && r == Traced(line[1..] + Corners(x, y, tops))
    else !r.Traced?
  }

  /** Beyond the last column. */
  lemma TheEnd(slots: seq<Point>, left: nat, p2: Point, x: int, y: int, line: seq<Point>)
    requires NoColumn(slots, x) && p2 == Point(x - 1, y) && Doubled(line)
    ensures Meets(Follow(slots, left, p2, Right, x, y, line), left, x, y, [], line)
  {
    if left > 0 && y < 100 {
      assert TurnAt(slots, x, y) == Down;
      assert (line + [p2])[1..] == line[1..] + [p2];
    }
  }

  /** A step up to the next column's top. */
  lemma StepUp(slots: seq<Point>, left: nat, p2: Point, x: int, y: int, line: seq<Point>, top: int, floor: int)
    requires Column(slots, x, top, floor) && top < y <= floor && x <= p2.x && Doubled(line)
    requires x == p2.x ==> top == p2.y
    ensures var r, longer := Follow(slots, left, p2, Right, x, y, line), line + [Point(x, y), Point(x, top)];
      if left < y - top + 1 then r == TooLong
      else if x == p2.x then r == Traced(longer[1..])
      else r == Follow(slots, left - (y - top + 1), p2, Right, x + 1, top, longer)
  {
    if left > 0 {
      assert TurnAt(slots, x, y) == Up;
      ClimbTo(slots, left - 1, p2, x, y - 1, line + [Point(x, y)], top, floor);
      assert TurnAt(slots, x, top) == Right;
      assert line + [Point(x, y)] + [Point(x, top)] == line + [Point(x, y), Point(x, top)];
    }
  }

  /** A step down to it. */
  lemma StepDown(slots: seq<Point>, left: nat, p2: Point, x: int, y: int, line: seq<Point>, top: int, floor: int)
    requires Column(slots, x, top, floor) && y < top && x <= p2.x && Doubled(line)
    ensures var r, longer := Follow(slots, left, p2, Right, x, y, line), line + [Point(x - 1, y), Point(x - 1, top)];
      if left < top - y + 1 || top > 100 then !r.Traced?
      else r == Follow(slots, left - (top - y + 1), p2, Right, x + 1, top, longer)
  {
    if left > 0 {
      assert TurnAt(slots, x, y) == Down;
      if y < 100 {
        FallTo(slots, left - 1, p2, x, y + 1, line + [Point(x - 1, y)], top, floor);
        assert TurnAt(slots, x, top) == Right;
        assert line + [Point(x - 1, y)] + [Point(x - 1, top)] == line + [Point(x - 1, y), Point(x - 1, top)];
      }
    }
  }

  lemma Longer(line: seq<Point>, p: Point, q: Point, rest: seq<Point>)
    requires Doubled(line)
    ensures Doubled(line + [p, q]) && (line + [p, q])[1..] + rest == line[1..] + ([p, q] + rest)
  {}

  /** From column x on. */
  lemma {:induction false} TracedFrom(slots: seq<Point>, left: nat, p2: Point, x: int, y: int, line: seq<Point>,
                                      tops: seq<int>, floor: int)
    requires Skyline(slots, x, tops, floor) && y <= floor && EndsAt(p2, x, y, tops) && Doubled(line)
    ensures Meets(Follow(slots, left, p2, Right, x, y, line), left, x, y, tops, line)
    decreases |tops|
  {
    if tops == [] {
      TheEnd(slots, left, p2, x, y, line);
    } else {
      var h, later := tops[0], tops[1..];
      if h < y {
        StepUp(slots, left, p2, x, y, line, h, floor);
        Longer(line, Point(x, y), Point(x, h), Corners(x + 1, h, later));
        if left >= y - h + 1 && later != [] {
          TracedFrom(slots, left - (y - h + 1), p2, x + 1, h, line + [Point(x, y), Point(x, h)], later, floor);
        }
      } else if h > y {
        StepDown(slots, left, p2, x, y, line, h, floor);
        Longer(line, Point(x - 1, y), Point(x - 1, h), Corners(x + 1, h, later));
        if left >= h - y + 1 && h <= 100 {
          TracedFrom(slots, left - (h - y + 1), p2, x + 1, h, line + [Point(x - 1, y), Point(x - 1, h)], later, floor);
        }
      } else if left > 0 {
        assert TurnAt(slots, x, y) == Right;
        TracedFrom(slots, left - 1, p2, x + 1, h, line, later, floor);
      }
    }
  }

  /** Two columns or more on a common floor are traced, corner by corner, if and only if the rounds suffice
      and no fall starts at a hundred or below. */
  lemma SkylineTraced(slots: seq<Point>, left: nat, x: int, tops: seq<int>, floor: int)
    requires |tops| >= 2 && Skyline(slots, x, tops, floor)
    ensures var p1 := Point(x, tops[0]);
      var r := Follow(slots, left, Point(x + |tops| - 1, tops[|tops| - 1]), Up, p1.x, p1.y, [p1]);
      && (r.Traced? <==> Rounds(tops[0], tops) <= left && !TooDeep(tops[0], tops))
      && (r.Traced? ==> r.line == [p1] + Corners(x, tops[0], tops))
  {
    var p1, p2 := Point(x, tops[0]), Point(x + |tops| - 1, tops[|tops| - 1]);
    if left > 0 {
      assert TurnAt(slots, x, p1.y) == Right;
      assert [p1] + [p1] == [p1, p1] && [p1, p1][1..] == [p1];
      TracedFrom(slots, left - 1, p2, x + 1, p1.y, [p1, p1], tops[1..], floor);
    }
  }
}
