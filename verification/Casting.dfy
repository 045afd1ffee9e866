/** Which slots an amorph covers, from CastStitch in transposablematrix/10-matrix.go: its
    rectangle without the corner kerf its edge describes, column by column. */
module Casting {
  import opened Perspective
  import opened Reservoir
  import opened Shapes

  /** Width and height cut out at the bottom left, and at the bottom right. */
  function LeftKerf(am: Amorph): Point {
    if |am.Edge| == 3 && am.Edge[1] < 0 then Point(am.Edge[0], -am.Edge[1]) else Point(0, 0)
  }

  function RightKerf(am: Amorph): Point {
    if |am.Edge| == 3 && am.Edge[1] > 0 then Point(am.Edge[2], am.Edge[1]) else Point(0, 0)
  }

  /** How far down column i is filled (lines 648-654). */
  function LimRow(am: Amorph, i: int): int {
    if i > am.Cols - RightKerf(am).x - 1 then am.Rows - RightKerf(am).y
    else if i < LeftKerf(am).x then am.Rows - LeftKerf(am).y
    else am.Rows
  }

  function Column(am: Amorph, i: int): (r: seq<Point>)
    ensures |r| == if LimRow(am, i) > 0 then LimRow(am, i) else 0
    ensures forall j :: 0 <= j < |r| ==> r[j] == Point(i, j)
  {
    seq(if LimRow(am, i) > 0 then LimRow(am, i) else 0, j => Point(i, j))
  }

  /** The first i columns, in the order they are painted. */
  function CellsTo(am: Amorph, i: nat): seq<Point> {
    if i == 0 then [] else CellsTo(am, i - 1) + Column(am, i - 1)
  }

  function Cells(am: Amorph): seq<Point> { CellsTo(am, if am.Cols > 0 then am.Cols else 0) }

  function MaxSlots(am: Amorph): int { am.Cols * am.Rows - am.Slack }

  /** What is painted: cells in order until their number reaches maxSlots, but at least one. */
  function Painted(am: Amorph): seq<Point> {
    var n := if MaxSlots(am) > 1 then MaxSlots(am) else 1;
    if n <= |Cells(am)| then Cells(am)[..n] else Cells(am)
  }

  lemma {:induction false} CellsToMembers(am: Amorph, n: nat, p: Point)
    ensures p in CellsTo(am, n) <==> 0 <= p.x < n && 0 <= p.y < LimRow(am, p.x)
  {
    if n > 0 {
      CellsToMembers(am, n - 1, p);
      var c := Column(am, n - 1);
      if p.x == n - 1 && 0 <= p.y < LimRow(am, p.x) {
        assert c[p.y] == p;
      }
    }
  }

  predicate AllDistinct(s: seq<Point>) { forall i, j :: 0 <= i < j < |s| ==> s[i] != s[j] }

  lemma {:induction false} CellsToDistinct(am: Amorph, n: nat)
    ensures AllDistinct(CellsTo(am, n))
  {
    if n > 0 {
      CellsToDistinct(am, n - 1);
      var a, c := CellsTo(am, n - 1), Column(am, n - 1);
      forall i, j | 0 <= i < j < |a + c| ensures (a + c)[i] != (a + c)[j] {
        if i < |a| <= j {
          CellsToMembers(am, n - 1, a[i]);
          assert a[i] in a;
        }
      }
    }
  }

  // ---------- what is cast of any amorph ----------

  /** The corner an edge of three parts cuts out: at the right under a rising edge, at the left under a
      falling one. Any other amorph is a full rectangle. */
  predicate CutOut(am: Amorph, p: Point) {
    |am.Edge| == 3 &&
    ((am.Edge[1] > 0 && p.x >= am.Cols - am.Edge[2] && p.y >= am.Rows - am.Edge[1])
     || (am.Edge[1] < 0 && p.x < am.Edge[0] && p.y >= am.Rows + am.Edge[1]))
  }

  /** The cells are the rectangle without that corner. */
  lemma CellIff(am: Amorph, p: Point)
    ensures p in Cells(am) <==> 0 <= p.x < am.Cols && 0 <= p.y < am.Rows && !CutOut(am, p)
  {
    CellsToMembers(am, if am.Cols > 0 then am.Cols else 0, p);
  }

  /** The place of a cell in the casting order: after the columns before it and the cells above it. */
  function Place(am: Amorph, p: Point): nat
    requires p.x >= 0 && p.y >= 0
  {
    |CellsTo(am, p.x)| + p.y
  }

  lemma {:induction false} PlaceIsIndex(am: Amorph, n: nat, p: Point)
    requires 0 <= p.x < n && 0 <= p.y < LimRow(am, p.x)
    ensures Place(am, p) < |CellsTo(am, n)| && CellsTo(am, n)[Place(am, p)] == p
  {
    if p.x < n - 1 {
      PlaceIsIndex(am, n - 1, p);
    } else {
      assert Column(am, p.x)[p.y] == p;
    }
  }

  /** How many elements there are to be cast; one is always cast first. */
  function Limit(am: Amorph): int { if MaxSlots(am) > 1 then MaxSlots(am) else 1 }

  /** Of any amorph exactly the cells are cast that come early enough, each once. */
  lemma PaintedIff(am: Amorph, p: Point)
    ensures p in Painted(am) <==> p in Cells(am) && p.x >= 0 && p.y >= 0 && Place(am, p) < Limit(am)
    ensures AllDistinct(Painted(am)) && |Painted(am)| == if Limit(am) < |Cells(am)| then Limit(am) else |Cells(am)|
  {
    var n := if am.Cols > 0 then am.Cols else 0;
    CellsToMembers(am, n, p);
    CellsToDistinct(am, n);
    if p in Cells(am) {
      PlaceIsIndex(am, n, p);
      if p in Painted(am) {
        var i :| 0 <= i < |Painted(am)| && Painted(am)[i] == p;
        assert Cells(am)[i] == p;
      }
      if Place(am, p) < Limit(am) {
        assert Painted(am)[Place(am, p)] == p;
      }
    }
  }

  lemma {:induction false} FullColumns(am: Amorph, n: nat)
    requires am.Rows >= 0 && forall i :: 0 <= i < n ==> LimRow(am, i) == am.Rows
    ensures |CellsTo(am, n)| == n * am.Rows
  {
    if n > 0 { FullColumns(am, n - 1); }
  }

  predicate Edgeless(am: Amorph) { |am.Edge| != 3 || am.Edge[1] == 0 }

  /** Without a stair in its edge a rectangle is cast column by column until its elements are used up; a
      full one completely. */
  lemma EdgelessIsPainted(am: Amorph, p: Point)
    requires Edgeless(am) && am.Cols > 0 && am.Rows > 0
    ensures p in Painted(am) <==>
      0 <= p.x < am.Cols && 0 <= p.y < am.Rows && p.x * am.Rows + p.y < Limit(am)
    ensures am.Slack <= 0 ==> |Painted(am)| == am.Cols * am.Rows
    ensures am.Slack <= 0 ==> (p in Painted(am) <==> 0 <= p.x < am.Cols && 0 <= p.y < am.Rows)
    ensures 0 <= am.Slack < am.Cols * am.Rows ==> |Painted(am)| == am.Cols * am.Rows - am.Slack
  {
    PaintedIff(am, p);
    CellIff(am, p);
    FullColumns(am, am.Cols);
    if 0 <= p.x < am.Cols && 0 <= p.y < am.Rows {
      FullColumns(am, p.x);
      MulMono(p.x, am.Cols - 1, am.Rows);
      assert p.x * am.Rows + p.y < (am.Cols - 1) * am.Rows + am.Rows;
    }
    MulMono(1, am.Rows, am.Cols);
  }

  // ---------- what is cast of an amorph with one kerf ----------

  /** One corner kerf w wide and h high that leaves part of every column. */
  predicate Kerfed(am: Amorph, w: int, h: int) {
    && 0 <= w <= am.Cols && 0 <= h < am.Rows
    && ((LeftKerf(am) == Point(w, h) && RightKerf(am) == Point(0, 0))
        || (RightKerf(am) == Point(w, h) && LeftKerf(am) == Point(0, 0)))
  }

  function Cut(am: Amorph, w: int, n: int): int
  {
    // columns among the first n that the kerf shortens
    if LeftKerf(am).x == w && RightKerf(am).x == 0 then (if n < w then n else w)
    else if n > am.Cols - w then n - (am.Cols - w) else 0
  }

  lemma {:induction false} CellsToCount(am: Amorph, w: int, h: int, n: nat)
    requires Kerfed(am, w, h) && n <= am.Cols
    ensures |CellsTo(am, n)| == n * am.Rows - Cut(am, w, n) * h
  {
    if n > 0 {
      CellsToCount(am, w, h, n - 1);
      CutStep(am, w, h, n - 1);
      OneMoreTimes(n - 1, am.Rows);
      OneMoreTimes(Cut(am, w, n - 1), h);
    }
  }

  /** One more column is shortened by the kerf's height or not at all. */
  lemma CutStep(am: Amorph, w: int, h: int, i: nat)
    requires Kerfed(am, w, h) && i < am.Cols
    ensures || (Cut(am, w, i + 1) == Cut(am, w, i) && |Column(am, i)| == am.Rows)
            || (Cut(am, w, i + 1) == Cut(am, w, i) + 1 && |Column(am, i)| == am.Rows - h)
  {}

  lemma OneMoreTimes(a: int, b: int)
    ensures (a + 1) * b == a * b + b
  {}

  /** The kerfed rectangle has exactly the rectangle's slots less the kerf's. */
  lemma CellsCount(am: Amorph, w: int, h: int)
    requires Kerfed(am, w, h)
    ensures |Cells(am)| == am.Cols * am.Rows - w * h
  {
    CellsToCount(am, w, h, am.Cols);
    assert Cut(am, w, am.Cols) == w;
  }

  /** When the slack is exactly the kerf, painting covers the whole kerfed rectangle, each
      slot once, one slot per element. */
  lemma ExactKerfIsPainted(am: Amorph, w: int, h: int)
    requires Kerfed(am, w, h) && am.Slack == w * h && am.NElements == am.Cols * am.Rows - am.Slack && am.NElements > 0
    ensures Painted(am) == Cells(am) && |Painted(am)| == am.NElements && AllDistinct(Painted(am))
    ensures forall p :: p in Painted(am) <==> 0 <= p.x < am.Cols && 0 <= p.y < LimRow(am, p.x)
  {
    CellsCount(am, w, h);
    CellsToDistinct(am, am.Cols);
    assert Cells(am)[..|Cells(am)|] == Cells(am);
    forall p ensures p in Painted(am) <==> 0 <= p.x < am.Cols && 0 <= p.y < LimRow(am, p.x) {
      CellsToMembers(am, am.Cols, p);
    }
  }

  /** Casting covers the whole kerfed rectangle with one slot per element if and only if the slack is
      exactly the kerf. */
  lemma PaintedExactlyIff(am: Amorph, w: int, h: int)
    requires Kerfed(am, w, h) && am.NElements == am.Cols * am.Rows - am.Slack && am.NElements > 0
    ensures Painted(am) == Cells(am) && |Painted(am)| == am.NElements <==> am.Slack == w * h
  {
    CellsCount(am, w, h);
    if am.Slack == w * h {
      ExactKerfIsPainted(am, w, h);
    }
  }

  /** What the search makes of an amorph listed under an edge has its kerf at the edge's lower end. */
  lemma ReshapedKerf(am: Amorph, x1: nat, y: int, x2: nat)
    requires x1 > 0 && x2 > 0 && y != 0
    ensures Kerfed(Reshaped(am, x1, y, x2), if y < 0 then x1 else x2, Abs(y))
  {
    var left: int, drop: int, right: int := x1, y, x2;
    assert Reshaped(am, x1, y, x2).Edge == [left, drop, right];
  }

  /** A rising edge: what exactStairyEdge returns is cast completely, one slot per element, if and only
      if the amorph's padding fills whole rows of the new width. */
  lemma RisingIsPaintedIff(am: Amorph, x1: nat, y: nat, x2: nat, k: nat)
    requires 0 < Base(am) <= am.NElements && Inscribes(Base(am), Plug(x1, y, x2), k)
    ensures var a := Reshaped(am, x1, y, x2);
      Painted(a) == Cells(a) && |Painted(a)| == am.NElements <==> Divides(x1 + x2, am.Padded)
  {
    ReshapedKerf(am, x1, y, x2);
    RisingExactIff(am, x1, y, x2, k);
    PaintedExactlyIff(Reshaped(am, x1, y, x2), x2, y);
  }

  /** A falling edge, where the kerf is on the other side than the one searched for. */
  lemma FallingIsPaintedIff(am: Amorph, x1: nat, y: int, x2: nat, k: nat)
    requires y < 0 && 0 < Base(am) <= am.NElements && Inscribes(Base(am), Plug(x2, -y, x1), k)
    ensures var a := Reshaped(am, x1, y, x2);
      Painted(a) == Cells(a) && |Painted(a)| == am.NElements <==>
        && Divides(x1 + x2, am.Padded) && x2 <= x1
        && ((x1 - x2) * -y < x1 + x2 || k + am.Padded / (x1 + x2) == -y + 1)
  {
    ReshapedKerf(am, x1, y, x2);
    FallingExactIff(am, x1, y, x2, k);
    PaintedExactlyIff(Reshaped(am, x1, y, x2), x1, -y);
  }

  function ReverseEdge(am: Amorph): Amorph {
    if |am.Edge| > 2 then am.(Edge := am.Edge[0 := am.Edge[2]][2 := am.Edge[0]][1 := -am.Edge[1]]) else am
  }

  /** What exactStairyEdge returns is painted exactly, and so is its mirror image, which is
      cut at the left instead of the right. */
  lemma RebuiltIsPainted(ams: seq<Amorph>, live: set<int>, a: Amorph, x1: nat, y: nat, x2: nat)
    requires Rebuilt(ams, live, a, x1, y, x2) && x1 > 0 && y > 0
    ensures forall b :: b == a || b == ReverseEdge(a) ==>
      && |Painted(b)| == a.NElements && AllDistinct(Painted(b))
      && forall p :: p in Painted(b) <==> 0 <= p.x < a.Cols && 0 <= p.y < LimRow(b, p.x)
    ensures forall i :: 0 <= i < a.Cols ==> LimRow(a, i) == if i < x1 then a.Rows else a.Rows - y
    ensures forall i :: 0 <= i < a.Cols ==> LimRow(ReverseEdge(a), i) == if i < x2 then a.Rows - y else a.Rows
    ensures ReverseEdge(ReverseEdge(a)) == a
  {
    var b := ReverseEdge(a);
    RebuiltKerfs(a, x1, y, x2);
    ExactKerfIsPainted(a, x2, y);
    ExactKerfIsPainted(b, x2, y);
    assert ReverseEdge(b).Edge == a.Edge;
  }

  /** The kerf is at the right of the amorph and at the left of its mirror image. */
  lemma RebuiltKerfs(a: Amorph, x1: nat, y: nat, x2: nat)
    requires a.Edge == [x1, y, x2] && y > 0 && a.Cols == x1 + x2 && a.Rows > y
    ensures Kerfed(a, x2, y) && Kerfed(ReverseEdge(a), x2, y)
    ensures RightKerf(a) == Point(x2, y) && LeftKerf(a) == Point(0, 0)
    ensures RightKerf(ReverseEdge(a)) == Point(0, 0) && LeftKerf(ReverseEdge(a)) == Point(x2, y)
  {
    var left: int, drop: int, right: int := x2, y, x1;
    assert ReverseEdge(a).Edge == [left, -drop, right];
  }
}
