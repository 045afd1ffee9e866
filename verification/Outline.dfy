/** The boundary trace of transposablematrix/30-outline.go, from the highest slot of the
    westernmost column to the highest slot of the easternmost one. */
module Outline {
  import opened Perspective
  import opened Matrix

  datatype Direction = Up | Right | Down

  /** Before the line is enhanced: nothing to trace, a line, or one of the failures. */
  datatype Trace = Blank | Traced(line: seq<Point>) | TooLong | BottomlessPit | Exhausted

  /** Segments at even indexes run along a row, those at odd indexes along a column, up or down by
      at least one; from index n on the former run to the right. */
  predicate AlternatesFrom(line: seq<Point>, n: nat) {
    forall k :: 0 <= k < |line| - 1 ==> Segment(k, n, line[k], line[k + 1])
  }

  predicate Segment(k: nat, n: nat, p: Point, q: Point) {
    if k % 2 == 0 then p.y == q.y && (k >= n ==> p.x <= q.x) else p.x == q.x && p.y != q.y
  }

  predicate Alternates(line: seq<Point>) { AlternatesFrom(line, 0) }

  /** An unfilled start only spoils the direction of the first segment. */
  lemma FirstSegment(line: seq<Point>)
    requires |line| >= 2 && AlternatesFrom(line, 1)
    ensures Alternates(line) <==> line[0].x <= line[1].x
  {
    if Alternates(line) { assert Segment(0, 0, line[0], line[1]); }
    if line[0].x <= line[1].x {
      forall k | 0 <= k < |line| - 1 ensures Segment(k, 0, line[k], line[k + 1]) {
        assert Segment(k, 1, line[k], line[k + 1]);
      }
    }
  }

  lemma AlternatesMore(line: seq<Point>, n: nat, p: Point)
    requires AlternatesFrom(line, n) && |line| > 0 && Segment(|line| - 1, n, line[|line| - 1], p)
    ensures AlternatesFrom(line + [p], n)
  {
    var more := line + [p];
    forall k | 0 <= k < |more| - 1 ensures Segment(k, n, more[k], more[k + 1]) {
      if k < |line| - 1 { assert more[k] == line[k] && more[k + 1] == line[k + 1]; }
    }
  }

  /** Where the trace stands: heading `dir` at (x, y), `line` without its doubled start. */
  predicate Heading(dir: Direction, x: int, y: int, line: seq<Point>, n: nat) {
    && |line| > 0 && AlternatesFrom(line, n)
    && var q := line[|line| - 1];
       match dir
       case Right => |line| % 2 == 1 && q.y == y && q.x < x
       case Up => |line| % 2 == 0 && q.x == x && y < q.y
       case Down => |line| % 2 == 0 && q.x == x - 1 && q.y < y
  }

  /** The slots around (x, y) rule out turning from up to down and back. */
  predicate Around(slots: seq<Point>, dir: Direction, x: int, y: int) {
    (dir == Up ==> Point(x, y) in slots) && (dir == Down ==> Point(x, y - 1) !in slots)
  }

  /** The direction at (x, y), by the slots above and at it. */
  function TurnAt(slots: seq<Point>, x: int, y: int): Direction {
    Turn(Point(x, y - 1) in slots, Point(x, y) in slots)
  }

  /** Lines 63-81: the direction at (x, y). */
  function Turn(ne: bool, se: bool): Direction {
    if ne && se then Up
    else if !ne && se then Right
    else if !ne && !se then Down
    else Right
  }

  /** Lines 88-100: the point plotted when the direction changes. */
  function Plotted(prev: Direction, dir: Direction, x: int, y: int): Point {
    match dir
    case Up => Point(x, y)
    case Right => if prev == Up then Point(x, y) else Point(x - 1, y)
    case Down => Point(x - 1, y)
  }

  /** Lines 115-123 and the loop's own step. */
  function Advance(dir: Direction, x: int, y: int): Point {
    match dir
    case Up => Point(x, y - 1)
    case Right => Point(x + 1, y)
    case Down => Point(x, y + 1)
  }

  /** The line, with a point plotted if the direction has changed. */
  function Extended(line: seq<Point>, prev: Direction, dir: Direction, x: int, y: int): seq<Point> {
    if dir != prev then line + [Plotted(prev, dir, x, y)] else line
  }

  /** The doubled start is dropped at the end. */
  function Chop(line: seq<Point>): Trace {
    if |line| > 1 && line[0] == line[1] then Traced(line[1..]) else Traced(line)
  }

  /** The loop from (x, y) on, with `left` rounds to go. */
  function Follow(slots: seq<Point>, left: nat, p2: Point, prev: Direction, x: int, y: int, line: seq<Point>): Trace
  {
    if x > p2.x + 1 then Exhausted
    else if left == 0 then TooLong
    else
      var dir := TurnAt(slots, x, y);
      if dir == Down && y >= 100 then BottomlessPit
      else
        var longer := Extended(line, prev, dir, x, y);
        if dir != prev && longer[|longer| - 1] == p2 then Chop(longer)
        else
          var next := Advance(dir, x, y);
          Follow(slots, left - 1, p2, dir, next.x, next.y, longer)
  }

  lemma TurnAlternates(prev: Direction, dir: Direction, x: int, y: int, line: seq<Point>, n: nat)
    requires Heading(prev, x, y, line, n)
    requires !(prev == Up && dir == Down) && !(prev == Down && dir == Up)
    ensures var next := Advance(dir, x, y);
      Heading(dir, next.x, next.y, Extended(line, prev, dir, x, y), n)
  {
    if dir != prev {
      AlternatesMore(line, n, Plotted(prev, dir, x, y));
    }
  }

  /** One step keeps the line alternating: up is never followed by down, nor down by up. */
  lemma StepAlternates(slots: seq<Point>, prev: Direction, x: int, y: int, line: seq<Point>, n: nat)
    requires Heading(prev, x, y, line, n) && Around(slots, prev, x, y)
    ensures var dir := TurnAt(slots, x, y);
      var next := Advance(dir, x, y);
      && !(prev == Up && dir == Down) && !(prev == Down && dir == Up)
      && Heading(dir, next.x, next.y, Extended(line, prev, dir, x, y), n) && Around(slots, dir, next.x, next.y)
  {
    TurnAlternates(prev, TurnAt(slots, x, y), x, y, line, n);
  }

  // ---------- how the line follows the slots ----------

  /** Of the slot at (x, y) and the one above it, which are filled. */
  predicate OneOf(slots: seq<Point>, x: int, y: int) { (Point(x, y) in slots) != (Point(x, y - 1) in slots) }

  predicate Both(slots: seq<Point>, x: int, y: int) { Point(x, y) in slots && Point(x, y - 1) in slots }

  predicate Neither(slots: seq<Point>, x: int, y: int) { Point(x, y) !in slots && Point(x, y - 1) !in slots }

  predicate FreeFrom(slots: seq<Point>, x: int, from: int, to: int) {
    forall y :: from <= y < to ==> Neither(slots, x, y)
  }

  /** The first column the row at index k passes: after a fall the line starts one slot before it. */
  function FirstColumn(line: seq<Point>, k: nat): int
    requires k < |line|
  {
    if k > 0 && line[k - 1].y < line[k].y then line[k].x + 1 else line[k].x
  }

  /** Segment k runs along filled slots: a row between a filled and a free slot in every column, a climb
      inside filled slots, a fall beside free ones from the end of a row. */
  predicate Hugs(slots: seq<Point>, line: seq<Point>, k: nat)
    requires k + 1 < |line|
  {
    var p, q := line[k], line[k + 1];
    if k % 2 == 0 then forall x :: FirstColumn(line, k) <= x < q.x ==> OneOf(slots, x, p.y)
    else if q.y < p.y then forall y :: q.y < y <= p.y ==> Both(slots, p.x, y)
    else
      && FreeFrom(slots, p.x + 1, p.y, q.y)
      && (line[k - 1].x <= p.x ==> OneOf(slots, p.x, p.y))
  }

  predicate HugsAll(slots: seq<Point>, line: seq<Point>) {
    forall k :: 0 <= k < |line| - 1 ==> Hugs(slots, line, k)
  }

  /** The same for the segment under way. */
  predicate HugsSoFar(slots: seq<Point>, dir: Direction, x: int, y: int, line: seq<Point>)
    requires |line| > 0
  {
    var k := |line| - 1;
    var q := line[k];
    match dir
    case Right => FirstColumn(line, k) < x && forall c :: FirstColumn(line, k) <= c < x ==> OneOf(slots, c, y)
    case Up => forall r :: y < r <= q.y ==> Both(slots, x, r)
    case Down =>
      && FreeFrom(slots, x, q.y, y)
      && (k > 0 && line[k - 1].x <= q.x ==> OneOf(slots, q.x, q.y))
  }

  lemma HugsMore(slots: seq<Point>, line: seq<Point>, p: Point)
    requires |line| > 0 && HugsAll(slots, line) && Hugs(slots, line + [p], |line| - 1)
    ensures HugsAll(slots, line + [p])
  {
    var more := line + [p];
    forall k | 0 <= k < |more| - 1 ensures Hugs(slots, more, k) {
      if k < |line| - 1 {
        assert Hugs(slots, line, k) && more[k] == line[k] && more[k + 1] == line[k + 1];
        if k > 0 { assert more[k - 1] == line[k - 1]; }
      }
    }
  }

  /** Going on in the same direction. */
  lemma HugsOn(slots: seq<Point>, dir: Direction, x: int, y: int, line: seq<Point>, n: nat)
    requires Heading(dir, x, y, line, n) && dir == TurnAt(slots, x, y) && HugsSoFar(slots, dir, x, y, line)
    ensures var next := Advance(dir, x, y); HugsSoFar(slots, dir, next.x, next.y, line)
  {}

  /** Turning finishes the segment under way and starts the next one. */
  lemma HugsTurn(slots: seq<Point>, prev: Direction, dir: Direction, x: int, y: int, line: seq<Point>, n: nat)
    requires Heading(prev, x, y, line, n) && dir == TurnAt(slots, x, y) && dir != prev
    requires !(prev == Up && dir == Down) && !(prev == Down && dir == Up)
    requires HugsAll(slots, line) && HugsSoFar(slots, prev, x, y, line)
    ensures var longer := Extended(line, prev, dir, x, y);
      var next := Advance(dir, x, y);
      HugsAll(slots, longer) && HugsSoFar(slots, dir, next.x, next.y, longer)
  {
    var p := Plotted(prev, dir, x, y);
    var longer := line + [p];
    var k := |line| - 1;
    assert longer[k] == line[k] && longer[k + 1] == p && FirstColumn(longer, k) == FirstColumn(line, k);
    if k > 0 { assert longer[k - 1] == line[k - 1]; }
    assert Hugs(slots, longer, k);
    HugsMore(slots, line, p);
  }

  /** One step keeps the line along the slots. */
  lemma StepHugs(slots: seq<Point>, prev: Direction, x: int, y: int, line: seq<Point>, n: nat)
    requires Heading(prev, x, y, line, n) && Around(slots, prev, x, y)
    requires HugsAll(slots, line) && HugsSoFar(slots, prev, x, y, line)
    ensures var dir := TurnAt(slots, x, y);
      var longer := Extended(line, prev, dir, x, y);
      var next := Advance(dir, x, y);
      HugsAll(slots, longer) && HugsSoFar(slots, dir, next.x, next.y, longer)
  {
    var dir := TurnAt(slots, x, y);
    if dir == prev {
      HugsOn(slots, dir, x, y, line, n);
    } else {
      HugsTurn(slots, prev, dir, x, y, line, n);
    }
  }

  // ---------- from the start on ----------

  /** The slot above p is not filled. */
  predicate FreeAbove(slots: seq<Point>, p: Point) { Point(p.x, p.y - 1) !in slots }

  /** The second point of the unchopped line: the start again, or one slot west of an unfilled one. */
  function Second(slots: seq<Point>, p1: Point): Point {
    if p1 in slots then p1 else Point(p1.x - 1, p1.y)
  }

  /** What is left of the line when it is chopped, and from where on its rows run to the right. */
  function Kept(slots: seq<Point>, p1: Point, line: seq<Point>): seq<Point> {
    if p1 in slots && |line| > 1 then line[1..] else line
  }

  function FirstRight(slots: seq<Point>, p1: Point): nat { if p1 in slots then 0 else 1 }

  /** The loop's state once it has moved. */
  predicate Tracing(slots: seq<Point>, dir: Direction, x: int, y: int, line: seq<Point>, p1: Point) {
    && |line| > 1 && line[0] == p1 && line[1] == Second(slots, p1)
    && Heading(dir, x, y, Kept(slots, p1, line), FirstRight(slots, p1)) && Around(slots, dir, x, y)
    && HugsAll(slots, Kept(slots, p1, line)) && HugsSoFar(slots, dir, x, y, Kept(slots, p1, line))
  }

  /** A filled start is plotted a second time; from an unfilled one the trace goes down. */
  lemma FirstStep(slots: seq<Point>, p1: Point)
    requires FreeAbove(slots, p1)
    ensures var dir := TurnAt(slots, p1.x, p1.y);
      var next := Advance(dir, p1.x, p1.y);
      dir != Up && Tracing(slots, dir, next.x, next.y, Extended([p1], Up, dir, p1.x, p1.y), p1)
  {
    if p1 in slots {
      assert [p1, p1][1..] == [p1];
    }
  }

  lemma TraceStep(slots: seq<Point>, prev: Direction, x: int, y: int, line: seq<Point>, p1: Point)
    requires Tracing(slots, prev, x, y, line, p1)
    ensures var dir := TurnAt(slots, x, y);
      var next := Advance(dir, x, y);
      Tracing(slots, dir, next.x, next.y, Extended(line, prev, dir, x, y), p1)
  {
    StepAlternates(slots, prev, x, y, Kept(slots, p1, line), FirstRight(slots, p1));
    StepHugs(slots, prev, x, y, Kept(slots, p1, line), FirstRight(slots, p1));
    TailGrows(line, Plotted(prev, TurnAt(slots, x, y), x, y));
  }

  lemma TailGrows(line: seq<Point>, p: Point)
    requires |line| > 1
    ensures (line + [p])[1..] == line[1..] + [p] && (line + [p])[0] == line[0] && (line + [p])[1] == line[1]
  {}

  /** A traced line: from p1 to p2 along the filled slots, its segments horizontal and vertical in turn, all
      horizontal ones to the right if p1 is filled, and otherwise all but the first, which leads one slot
      west. */
  predicate Outlines(slots: seq<Point>, p1: Point, p2: Point, line: seq<Point>) {
    && |line| >= 2 && line[0] == p1 && line[|line| - 1] == p2
    && AlternatesFrom(line, 1) && HugsAll(slots, line)
    && (Alternates(line) <==> p1 in slots)
    && (p1 !in slots ==> line[1] == Point(p1.x - 1, p1.y))
  }

  lemma ChopOutlines(slots: seq<Point>, dir: Direction, x: int, y: int, line: seq<Point>, p1: Point, p2: Point)
    requires Tracing(slots, dir, x, y, line, p1) && line[|line| - 1] == p2 && p1 != p2
    ensures Chop(line).Traced? && Outlines(slots, p1, p2, Chop(line).line)
  {
    var kept := Kept(slots, p1, line);
    assert Chop(line) == Traced(kept);
    if p1 in slots {
      forall k | 0 <= k < |kept| - 1 ensures Segment(k, 1, kept[k], kept[k + 1]) {
        assert Segment(k, 0, kept[k], kept[k + 1]);
      }
    }
    FirstSegment(kept);
  }

  lemma {:induction false} FollowOutlines(slots: seq<Point>, left: nat, p2: Point, prev: Direction, x: int, y: int,
                                          line: seq<Point>, p1: Point)
    requires Tracing(slots, prev, x, y, line, p1) && p1 != p2
    ensures var r := Follow(slots, left, p2, prev, x, y, line);
      !r.Blank? && (r.Traced? ==> Outlines(slots, p1, p2, r.line))
  {
    if x <= p2.x + 1 && left > 0 {
      var dir := TurnAt(slots, x, y);
      var longer := Extended(line, prev, dir, x, y);
      var next := Advance(dir, x, y);
      TraceStep(slots, prev, x, y, line, p1);
      if dir != prev && longer[|longer| - 1] == p2 {
        ChopOutlines(slots, dir, next.x, next.y, longer, p1, p2);
      } else {
        FollowOutlines(slots, left - 1, p2, dir, next.x, next.y, longer, p1);
      }
    }
  }

  /** Every line traced from a start that is free above is an outline; it alternates strictly exactly
      if the start is filled. */
  lemma TraceOutlines(slots: seq<Point>, left: nat, p1: Point, p2: Point)
    requires FreeAbove(slots, p1) && p1 != p2
    ensures var r := Follow(slots, left, p2, Up, p1.x, p1.y, [p1]);
      !r.Blank? && (r.Traced? ==> Outlines(slots, p1, p2, r.line))
  {
    if p1.x <= p2.x + 1 && left > 0 {
      FirstStep(slots, p1);
      var dir := TurnAt(slots, p1.x, p1.y);
      var longer := Extended([p1], Up, dir, p1.x, p1.y);
      var next := Advance(dir, p1.x, p1.y);
      if longer[|longer| - 1] == p2 {
        ChopOutlines(slots, dir, next.x, next.y, longer, p1, p2);
      } else {
        FollowOutlines(slots, left - 1, p2, dir, next.x, next.y, longer, p1);
      }
    }
  }

  // ---------- on the grid ----------

  /** The filled slots as the current view shows them. */
  ghost function Slots(t: TransposableMatrix): seq<Point>
    requires t.Valid()
    reads t, t.m
  {
    MapAll(t.Current(), t.filled)
  }

  /** The north-west point as the trace starts from it, and the north-east one it ends at. */
  function NorthWest(t: TransposableMatrix): Point
    requires t.Valid()
    reads t, t.m
  {
    Base2Mapped(t.Current(), FilledMinMax(t.Current(), t.lim)[1])
  }

  function NorthEast(t: TransposableMatrix): Point
    requires t.Valid()
    reads t, t.m
  {
    Base2Mapped(t.Current(), FilledMinMax(t.Current(), t.lim)[6])
  }

  lemma NothingWest(slots: seq<Point>, q: Point)
    requires NoneBefore(1, slots, q)
    ensures FreeAbove(slots, q) && forall p :: p in slots ==> q.x <= p.x
  {
    forall p | p in slots ensures q.x <= p.x && p != Point(q.x, q.y - 1) {
      assert Before(Rank(1, q), Rank(1, p));
    }
  }

  lemma NothingEast(slots: seq<Point>, q: Point)
    requires NoneBefore(6, slots, q)
    ensures forall p :: p in slots ==> p.x <= q.x
  {
    forall p | p in slots ensures p.x <= q.x {
      assert Before(Rank(6, q), Rank(6, p));
    }
  }

  /** In every view of every grid, no filled slot lies west of the start or above it in its column,
      and none lies east of the end. */
  lemma StartFree(t: TransposableMatrix)
    requires t.Valid() && t.filled != []
    ensures FreeAbove(Slots(t), NorthWest(t))
    ensures forall p :: p in Slots(t) ==> NorthWest(t).x <= p.x <= NorthEast(t).x
    ensures NorthWest(t).x <= NorthEast(t).x
  {
    PointInView(t.Current(), t.filled, 1);
    PointInView(t.Current(), t.filled, 6);
    NothingWest(Slots(t), NorthWest(t));
    NothingEast(Slots(t), NorthEast(t));
    assert Slots(t)[0] in Slots(t);
  }

  lemma PointInView(v: View, filled: seq<Point>, i: nat)
    requires ViewOk(v) && filled != [] && AllInGrid(v, filled) && i < 8
    ensures NoneBefore(i, MapAll(v, filled), Base2Mapped(v, FilledMinMax(v, Run(v, filled))[i]))
  {
    AlwaysHeld(v, filled, Perspective.Turn(i, v.persp));
    NoneBeforeInView(v, Run(v, filled), filled, i);
  }

  /** The start itself is filled in two perspectives always, and in the others unless it has stayed
      at base slot (0, 0) without that slot being filled. */
  lemma StartFilledIff(t: TransposableMatrix)
    requires t.Valid() && t.filled != []
    ensures NorthWest(t) in Slots(t) <==>
      || ORIGIN in t.filled
      || t.persp >= 2
      || if t.persp == 0 then t.filled[0].x != 0 else exists p :: p in t.filled && p.y != 0
  {
    var v := t.Current();
    var i := Perspective.Turn(1, v.persp);
    MappedInIff(v, t.filled, FilledMinMax(v, t.lim)[1]);
    assert FilledMinMax(v, t.lim)[1] == Outmost(t.lim)[i];
    OutmostFilledIff(v, t.filled, i);
  }

  /** PartialOutline without the enhancing step: the line it returns leads from the north-west to the
      north-east point and alternates strictly if and only if the north-west point is filled. */
  method PartialOutline(t: TransposableMatrix) returns (r: Trace)
    requires t.Valid()
    ensures r == Blank <==> NorthWest(t) == NorthEast(t)
    ensures r.Traced? ==> t.filled != [] && Outlines(Slots(t), NorthWest(t), NorthEast(t), r.line)
    ensures r != Blank ==>
      var p1, p2 := NorthWest(t), NorthEast(t);
      r == Follow(Slots(t), t.nx + t.ny, p2, Up, p1.x, p1.y, [p1])
  {
    var ret := t.FilledMinMax();
    var p1 := Base2Mapped(t.Current(), ret[1]);
    var p2 := Base2Mapped(t.Current(), ret[6]);
    if p1 == p2 {
      return Blank;
    }
    if t.filled == [] { BlankLimits(t); }
    StartFree(t);
    TraceOutlines(Slots(t), t.nx + t.ny, p1, p2);
    r := TraceFrom(t, p1, p2);
  }

  /** The direction as the loop asks the grid for it. */
  method Look(t: TransposableMatrix, x: int, y: int) returns (direction: Direction)
    requires t.Valid()
    ensures direction == TurnAt(Slots(t), x, y)
  {
    t.EmptyIff(x, y - 1);
    t.EmptyIff(x, y);
    direction := Turn(!t.Empty(x, y - 1), !t.Empty(x, y));
  }

  /** The tracing loop. */
  method TraceFrom(t: TransposableMatrix, p1: Point, p2: Point) returns (r: Trace)
    requires t.Valid()
    ensures r == Follow(Slots(t), t.nx + t.ny, p2, Up, p1.x, p1.y, [p1])
  {
    ghost var slots := Slots(t);
    ghost var goal := Follow(slots, t.nx + t.ny, p2, Up, p1.x, p1.y, [p1]);
    var x, y := p1.x, p1.y;
    var direction, prevDir := Up, Up;
    var line := [p1];
    var cntr := 0;
    while x <= p2.x + 1
      invariant 0 <= cntr <= t.nx + t.ny && |line| > 0
      invariant Follow(slots, t.nx + t.ny - cntr, p2, prevDir, x, y, line) == goal
      decreases t.nx + t.ny - cntr
    {
      cntr := cntr + 1;
      if cntr > t.nx + t.ny {
        return TooLong;
      }
      direction := Look(t, x, y);
      if direction == Down && y >= 100 {
        return BottomlessPit;
      }
      if direction != prevDir {
        line := line + [Plotted(prevDir, direction, x, y)];
        if line[|line| - 1] == p2 {
          return Chop(line);
        }
      }
      prevDir := direction;
      var next := Advance(direction, x, y);
      x, y := next.x, next.y;
    }
    return Exhausted;
  }

  // ---------- an outline that first runs to the left ----------

  /** Four slots in a row of a ten by ten grid, the first of them in column 0. */
  const TEN := View(10, 10, 5, 5, 0)
  const ROW := [Point(0, 5), Point(1, 5), Point(2, 5), Point(3, 5)]

  const SEEN := [Point(-5, 0), Point(-4, 0), Point(-3, 0), Point(-2, 0)]

  lemma RowSeen()
    ensures MapAll(TEN, ROW) == SEEN
  {}

  /** The start stays at the unfilled base slot (0, 0). */
  lemma RowLimits()
    ensures Outmost(Run(TEN, ROW))[1] == ORIGIN && Outmost(Run(TEN, ROW))[6] == Point(3, 5)
  {
    assert ROW[..3][..2][..1][..0] == [] && ROW[..3][..2] == ROW[..2] && ROW[..3][..2][..1] == ROW[..1];
    var l1 := Update(NewLimits(TEN), Point(0, 5));
    assert Run(TEN, ROW[..1]) == l1;
    var l2 := Update(l1, Point(1, 5));
    assert Run(TEN, ROW[..2]) == l2;
    assert Run(TEN, ROW[..3]) == Update(l2, Point(2, 5));
  }

  const LEFTWARD := [Point(-5, -5), Point(-6, -5), Point(-6, 0), Point(-2, 0)]

  /** On the row the trace runs right to its end. */
  lemma {:induction false} AlongTheRow(p2: Point, left: nat, x: int, line: seq<Point>)
    requires p2 == Point(-2, 0) && -4 <= x <= -1 && left >= -x && line == LEFTWARD[..3]
    ensures Follow(SEEN, left, p2, Right, x, 0, line) == Traced(LEFTWARD)
  {
    if x < -1 {
      assert TurnAt(SEEN, x, 0) == Right;
      AlongTheRow(p2, left - 1, x + 1, line);
    } else {
      assert TurnAt(SEEN, x, 0) == Down;
      assert line + [p2] == LEFTWARD;
    }
  }

  /** Above the row it falls. */
  lemma {:induction false} DownToTheRow(p2: Point, left: nat, y: int, line: seq<Point>)
    requires p2 == Point(-2, 0) && -5 < y <= 0 && left >= 5 - y && line == LEFTWARD[..2]
    ensures Follow(SEEN, left, p2, Down, -5, y, line) == Traced(LEFTWARD)
  {
    if y < 0 {
      assert TurnAt(SEEN, -5, y) == Down;
      DownToTheRow(p2, left - 1, y + 1, line);
    } else {
      assert TurnAt(SEEN, -5, y) == Right;
      assert line + [Point(-6, 0)] == LEFTWARD[..3];
      AlongTheRow(p2, left - 1, -4, LEFTWARD[..3]);
    }
  }

  lemma FromTheStart(p1: Point, p2: Point, left: nat)
    requires p1 == Point(-5, -5) && p2 == Point(-2, 0) && left >= 10
    ensures Follow(SEEN, left, p2, Up, p1.x, p1.y, [p1]) == Traced(LEFTWARD)
  {
    assert TurnAt(SEEN, p1.x, p1.y) == Down;
    assert [p1] + [Point(-6, -5)] == LEFTWARD[..2];
    DownToTheRow(p2, left - 1, -4, LEFTWARD[..2]);
  }

  /** The trace goes down from the start until it meets the row: the first segment leads west. */
  lemma LineRunsLeft()
    ensures var p1 := Base2Mapped(TEN, FilledMinMax(TEN, Run(TEN, ROW))[1]);
      var p2 := Base2Mapped(TEN, FilledMinMax(TEN, Run(TEN, ROW))[6]);
      Follow(MapAll(TEN, ROW), TEN.nx + TEN.ny, p2, Up, p1.x, p1.y, [p1]) == Traced(LEFTWARD)
    ensures !Alternates(LEFTWARD)
  {
    RowSeen();
    RowLimits();
    FromTheStart(Point(-5, -5), Point(-2, 0), 20);
    assert !Segment(0, 0, LEFTWARD[0], LEFTWARD[1]);
  }

  lemma BlankLimits(t: TransposableMatrix)
    requires t.Valid() && t.filled == []
    ensures FilledMinMax(t.Current(), t.lim)[1] == FilledMinMax(t.Current(), t.lim)[6]
  {
    assert t.lim == NewLimits(t.Current());
    assert Outmost(t.lim) == seq(8, _ => Point(0, 0));
  }
}
