/** The plotting grid of transposablematrix/10-matrix.go, written slot by slot through the
    current perspective. */
module Matrix {
  import opened Basics
  import opened Wrappers
  import opened Perspective
  import opened Casting
  import R = Reservoir

  /** A slot's amorph, and the place inside it; labels are not modelled. */
  datatype Slot = Slot(AmX: Option<int>, Ax: int, Ay: int)

  const EMPTY := Slot(None, 0, 0)

  /** Amorph.transpose: coordinates inside the amorph, turned with the perspective. */
  function AmTranspose(a: R.Amorph, xm: int, ym: int, persp: nat): Point {
    if persp == 0 then Point(xm, ym)
    else if persp == 1 then Point(ym, a.Cols - xm - 1)
    else if persp == 2 then Point(a.Cols - xm - 1, a.Rows - ym - 1)
    else Point(a.Rows - ym - 1, xm)
  }

  function SlotFor(am: R.Amorph, p: Point, persp: nat): Slot {
    var t := AmTranspose(am, p.x, p.y, persp);
    Slot(Some(am.IdxArticle), t.x, t.y)
  }

  /** Where base slot b lies relative to the cast's base point. */
  function Relative(v: View, base: Point, b: Point): Point
    requires ViewOk(v)
  {
    var m := Base2Mapped(v, b);
    Point(m.x - base.x, m.y - base.y)
  }

  /** Every slot of a cast shows its amorph and where in it the slot lies: inside its rectangle, and
      as far from any other slot of the cast as in the grid itself, whatever the perspective. */
  lemma SlotsFollowGrid(v: View, base: Point, am: R.Amorph, b: Point, c: Point)
    requires ViewOk(v)
    ensures var p := Relative(v, base, b);
      var s, t := SlotFor(am, p, v.persp), SlotFor(am, Relative(v, base, c), v.persp);
      && s.AmX == Some(am.IdxArticle) && s.Ax - t.Ax == b.x - c.x && s.Ay - t.Ay == b.y - c.y
      && (0 <= p.x < am.Cols && 0 <= p.y < am.Rows ==>
           0 <= s.Ax < (if v.persp % 2 == 0 then am.Cols else am.Rows)
           && 0 <= s.Ay < if v.persp % 2 == 0 then am.Rows else am.Cols)
  {}

  /** The slots `news` are those that the cells of a cast cover, as far as they lie in the grid. */
  ghost predicate News(v: View, base: Point, cells: seq<Point>, news: seq<Point>)
    requires ViewOk(v)
  {
    forall b :: b in news <==> InGrid(v, b) && Relative(v, base, b) in cells
  }

  /** Cell q of a cast falls on base slot b, or outside the grid. */
  ghost predicate CellAt(v: View, base: Point, q: Point, b: Point)
    requires ViewOk(v)
  {
    && (b != OUTSIDE ==> InGrid(v, b))
    && forall c :: InGrid(v, c) ==> (Relative(v, base, c) == q <==> b == c)
  }

  lemma CellSlot(v: View, base: Point, q: Point, b: Point)
    requires ViewOk(v) && b == Mapped2Base(v, Point(base.x + q.x, base.y + q.y))
    ensures CellAt(v, base, q, b)
  {
    var m := Point(base.x + q.x, base.y + q.y);
    forall c | InGrid(v, c) ensures Relative(v, base, c) == q <==> b == c {
      ViewsInverse(v, c, m);
    }
    ViewsInverse(v, ORIGIN, m);
  }

  lemma NewsFirst(v: View, base: Point, q: Point, b: Point, before: seq<Point>, now: seq<Point>)
    requires ViewOk(v) && CellAt(v, base, q, b)
    requires now == if b == OUTSIDE then before else before + [b]
    ensures before <= now && News(v, base, [q], now[|before|..])
  {
    assert now[|before|..] == if b == OUTSIDE then [] else [b];
  }

  lemma NewsMore(v: View, base: Point, cells: seq<Point>, q: Point, before: seq<Point>, now: seq<Point>,
                 later: seq<Point>)
    requires ViewOk(v) && before <= now <= later
    requires News(v, base, cells, now[|before|..]) && News(v, base, [q], later[|now|..])
    ensures News(v, base, cells + [q], later[|before|..])
  {
    assert later[|before|..] == now[|before|..] + later[|now|..];
  }

  class TransposableMatrix {
    const nx: nat
    const ny: nat
    const m: array2<Slot>
    var cx: int
    var cy: int
    var persp: nat
    var lim: Limits
    ghost var filled: seq<Point>    // base coordinates given an amorph, in order

    function Current(): View
      reads this
    {
      View(nx, ny, cx, cy, persp)
    }

    /** The limits are those of everything ever filled. */
    ghost predicate Limited()
      reads this
    {
      && ViewOk(Current()) && m.Length0 == nx && m.Length1 == ny
      && AllInGrid(Current(), filled) && lim == Run(Current(), filled)
    }

    /** And all of that still holds an amorph. */
    ghost predicate Valid()
      reads this, m
    {
      && Limited()
      && forall x, y :: 0 <= x < nx && 0 <= y < ny ==> (m[x, y].AmX.Some? <==> Point(x, y) in filled)
    }

    constructor (argNx: nat, argNy: nat)
      requires argNx > 0 && argNy > 0
      ensures Valid() && fresh(m) && nx == argNx && ny == argNy && filled == [] && persp == 0
      ensures cx == nx / 2 && cy == ny / 2
      ensures lim.xmif == nx - 1 && lim.ymif == ny - 1 && lim.xmaf == 0 && lim.ymaf == 0
      ensures forall p :: p in Outmost(lim) ==> p == ORIGIN
    {
      nx, ny := argNx, argNy;
      m := new Slot[argNx, argNy]((i, j) => EMPTY);
      cx, cy, persp := argNx / 2, argNy / 2, 0;
      var o := Point(0, 0);
      lim := Limits(argNx - 1, argNy - 1, 0, 0, o, o, o, o, o, o, o, o);
      filled := [];
    }

    method SetPerspective(p: nat)
      requires Valid() && p <= 3
      modifies this`persp
      ensures Valid() && persp == p
    {
      persp := p;
      SameRun(old(Current()), Current(), filled);
    }

    method SetCenter(x: int, y: int)
      requires Valid()
      modifies this`cx, this`cy
      ensures Valid() && cx == nx / 2 + x && cy == ny / 2 + y
    {
      cx := nx / 2 + x;
      cy := ny / 2 + y;
      SameRun(old(Current()), Current(), filled);
    }

    /** updateLimits, comparison by comparison. */
    method UpdateLimits(xb: int, yb: int)
      modifies this`lim
      ensures lim == Update(old(lim), Point(xb, yb))
    {
      TotalLimits(xb, yb);
      OutmostHorizontal(xb, yb);
      OutmostVertical(xb, yb);
    }

    method TotalLimits(xb: int, yb: int)
      modifies this`lim
      ensures lim == Total(old(lim), Point(xb, yb))
    {
      if xb < lim.xmif { lim := lim.(xmif := xb); }
      if xb >= lim.xmaf { lim := lim.(xmaf := xb); }
      if yb < lim.ymif { lim := lim.(ymif := yb); }
      if yb >= lim.ymaf { lim := lim.(ymaf := yb); }
    }

    method OutmostHorizontal(xb: int, yb: int)
      modifies this`lim
      ensures var l, p := old(lim), Point(xb, yb);
        lim == l.(NWW := if xb == l.xmif && (yb < l.NWW.y || xb != l.NWW.x) then p else l.NWW,
                  NEE := if xb == l.xmaf && (yb < l.NEE.y || xb != l.NEE.x) then p else l.NEE,
                  SWW := if xb == l.xmif && (yb > l.SWW.y || xb != l.SWW.x) then p else l.SWW,
                  SEE := if xb == l.xmaf && (yb > l.SEE.y || xb != l.SEE.x) then p else l.SEE)
    {
      var p := Point(xb, yb);
      if xb == lim.xmif && (yb < lim.NWW.y || xb != lim.NWW.x) { lim := lim.(NWW := p); }
      if xb == lim.xmaf && (yb < lim.NEE.y || xb != lim.NEE.x) { lim := lim.(NEE := p); }
      if xb == lim.xmif && (yb > lim.SWW.y || xb != lim.SWW.x) { lim := lim.(SWW := p); }
      if xb == lim.xmaf && (yb > lim.SEE.y || xb != lim.SEE.x) { lim := lim.(SEE := p); }
    }

    method OutmostVertical(xb: int, yb: int)
      modifies this`lim
      ensures var l, p := old(lim), Point(xb, yb);
        lim == l.(NNW := if yb == l.ymif && (xb < l.NNW.x || yb != l.NNW.y) then p else l.NNW,
                  NNE := if yb == l.ymif && (xb > l.NNE.x || yb != l.NNE.y) then p else l.NNE,
                  SSW := if yb == l.ymaf && (xb < l.SSW.x || yb != l.SSW.y) then p else l.SSW,
                  SSE := if yb == l.ymaf && (xb > l.SSE.x || yb != l.SSE.y) then p else l.SSE)
    {
      var p := Point(xb, yb);
      if yb == lim.ymif && (xb < lim.NNW.x || yb != lim.NNW.y) { lim := lim.(NNW := p); }
      if yb == lim.ymif && (xb > lim.NNE.x || yb != lim.NNE.y) { lim := lim.(NNE := p); }
      if yb == lim.ymaf && (xb < lim.SSW.x || yb != lim.SSW.y) { lim := lim.(SSW := p); }
      if yb == lim.ymaf && (xb > lim.SSE.x || yb != lim.SSE.y) { lim := lim.(SSE := p); }
    }

    /** The slot at mapped coordinates; an empty one outside the grid. */
    function Get(x: int, y: int): Slot
      requires Valid()
      reads this, m
    {
      var b := Mapped2Base(Current(), Point(x, y));
      if b.x == -1 || b.y == -1 then EMPTY else m[b.x, b.y]
    }

    predicate Empty(x: int, y: int)
      requires Valid()
      reads this, m
    {
      Get(x, y).AmX.None?
    }

    /** A mapped point is empty exactly when it is not the image of a filled slot. */
    lemma EmptyIff(x: int, y: int)
      requires Valid()
      ensures Empty(x, y) <==> Point(x, y) !in MapAll(Current(), filled)
    {
      var v, p := Current(), Point(x, y);
      var b := Mapped2Base(v, p);
      if b != OUTSIDE {
        ViewsInverse(v, b, p);
        if b in filled { MappedIn(v, filled, b); }
      }
      if p in MapAll(v, filled) {
        var n :| 0 <= n < |filled| && MapAll(v, filled)[n] == p;
        assert filled[n] in filled;
        ViewsInverse(v, filled[n], p);
      }
    }

    /** Writes a slot at mapped coordinates, if they lie in the grid; `b` is the base slot they mean. The
        limits stay those of everything ever filled; they go on describing what the grid holds if and only
        if no amorph is overwritten by a slot without one. */
    method Set(x: int, y: int, s: Slot) returns (ghost b: Point)
      requires Valid()
      modifies m, this`lim, this`filled
      ensures Current() == old(Current()) && b == Mapped2Base(Current(), Point(x, y)) && Limited()
      ensures Valid() <==> s.AmX.Some? || old(Empty(x, y))
      ensures filled == if b == OUTSIDE || s.AmX.None? then old(filled) else old(filled) + [b]
      ensures forall i, j :: 0 <= i < nx && 0 <= j < ny ==>
        m[i, j] == if b == Point(i, j) then s else old(m[i, j])
    {
      var at := Mapped2Base(Current(), Point(x, y));
      b := at;
      if at.x == -1 || at.y == -1 {
        return;
      }
      Write(at, s);
      if s.AmX.Some? {
        Fill(at);
        assert forall p :: p in filled <==> p in old(filled) || p == at;
        assert Valid();
      } else {
        assert m[at.x, at.y].AmX.None?;
        assert Valid() <==> at !in filled;
      }
    }

    method Write(b: Point, s: Slot)
      requires Limited() && InGrid(Current(), b)
      modifies m
      ensures Limited()
      ensures forall i, j :: 0 <= i < nx && 0 <= j < ny ==> m[i, j] == if b == Point(i, j) then s else old(m[i, j])
    {
      m[b.x, b.y] := s;
    }

    /** Brings the limits up to date for one more filled slot. */
    method Fill(b: Point)
      requires Limited() && InGrid(Current(), b)
      modifies this`lim, this`filled
      ensures Limited() && filled == old(filled) + [b]
    {
      UpdateLimits(b.x, b.y);
      RunMore(Current(), filled, b);
      filled := filled + [b];
    }

    /** FilledMinMax: the outmost points, shifted round for the perspective. */
    method FilledMinMax() returns (ret: seq<Point>)
      requires Valid()
      ensures ret == Perspective.FilledMinMax(Current(), lim)
    {
      ret := Outmost(lim);
      var steps := 2 * persp;
      for i := 0 to steps
        invariant ret == Outmost(lim)[i..] + Outmost(lim)[..i]
      {
        RotateOnce(Outmost(lim), i);
        ret := ret[1..] + [ret[0]];
      }
    }

    /** The grid after painting the cells `painted` of an amorph over the grid `was`. */
    ghost predicate Showing(was: map<Point, Slot>, base: Point, am: R.Amorph, painted: seq<Point>)
      requires ViewOk(Current()) && m.Length0 == nx && m.Length1 == ny
      reads this, m
    {
      forall i, j :: 0 <= i < nx && 0 <= j < ny ==>
        var q := Relative(Current(), base, Point(i, j));
        Point(i, j) in was && m[i, j] == if q in painted then SlotFor(am, q, persp) else was[Point(i, j)]
    }

    /** The slots filled by then, where `before` had been filled. */
    ghost predicate Filling(before: seq<Point>, base: Point, painted: seq<Point>)
      requires ViewOk(Current())
      reads this
    {
      before <= filled && News(Current(), base, painted, filled[|before|..])
    }

    /** Half way through a cast. */
    ghost predicate Painting(was: map<Point, Slot>, before: seq<Point>, base: Point, am: R.Amorph,
                             painted: seq<Point>)
      reads this, m
    {
      Valid() && Showing(was, base, am, painted) && Filling(before, base, painted)
    }

    ghost function Grid(): map<Point, Slot>
      requires m.Length0 == nx && m.Length1 == ny
      reads this, m
    {
      map i, j | 0 <= i < nx && 0 <= j < ny :: Point(i, j) := m[i, j]
    }

    /** CastStitch: every painted cell that falls into the grid shows the amorph, every other slot is as
        it was. The slots filled before stay the first ones; those added are the painted ones in the grid. */
    method CastStitch(base: Point, am: R.Amorph)
      requires Valid()
      modifies m, this`lim, this`filled
      ensures Valid() && Showing(old(Grid()), base, am, Painted(am))
      ensures old(filled) <= filled && News(Current(), base, Painted(am), filled[|old(filled)|..])
    {
      ghost var was, before := Grid(), filled;
      assert Painting(was, before, base, am, []);
      PaintColumns(was, before, base, am);
    }

    method PaintColumns(ghost was: map<Point, Slot>, ghost before: seq<Point>, base: Point, am: R.Amorph)
      requires Painting(was, before, base, am, [])
      modifies m, this`lim, this`filled
      ensures Painting(was, before, base, am, Painted(am))
    {
      var cntrSlots := 0;
      ghost var painted: seq<Point> := [];
      var i3 := 0;
      var full := false;
      while i3 < am.Cols && !full
        invariant 0 <= i3 && (i3 <= am.Cols || i3 == 0)
        invariant Painting(was, before, base, am, painted)
        invariant Progress(am, i3, 0, painted, cntrSlots, full)
        decreases am.Cols - i3, !full
      {
        cntrSlots, full, painted := PaintColumn(was, before, base, am, i3, cntrSlots, painted);
        i3 := i3 + 1;
      }
      if !full { AllColumns(am, i3, painted, cntrSlots); }
    }

    /** The inner loop: down one column, until enough slots are painted. */
    method PaintColumn(ghost was: map<Point, Slot>, ghost before: seq<Point>, base: Point, am: R.Amorph,
                       i3: nat, cntr0: nat, ghost painted0: seq<Point>)
      returns (cntrSlots: nat, full: bool, ghost painted: seq<Point>)
      requires Painting(was, before, base, am, painted0) && i3 < am.Cols
      requires Progress(am, i3, 0, painted0, cntr0, false)
      modifies m, this`lim, this`filled
      ensures Painting(was, before, base, am, painted)
      ensures Progress(am, i3 + 1, 0, painted, cntrSlots, full)
    {
      cntrSlots, full, painted := cntr0, false, painted0;
      var maxSlots := am.Cols * am.Rows - am.Slack;
      var limRow := LimRow(am, i3);
      var i4 := 0;
      while i4 < limRow && !full
        invariant 0 <= i4 && (i4 <= limRow || i4 == 0)
        invariant Painting(was, before, base, am, painted)
        invariant Progress(am, i3, i4, painted, cntrSlots, full)
        decreases limRow - i4, !full
      {
        PaintCell(was, before, base, am, painted, i3, i4);
        OneMore(am, i3, i4, painted, cntrSlots);
        painted := painted + [Point(i3, i4)];
        cntrSlots := cntrSlots + 1;
        i4 := i4 + 1;
        if cntrSlots >= maxSlots {
          full := true;
        }
      }
      if !full { ColumnDone(am, i3, i4, painted, cntrSlots); }
    }

    method PaintCell(ghost was: map<Point, Slot>, ghost before: seq<Point>, base: Point, am: R.Amorph,
                     ghost painted: seq<Point>, i3: int, i4: int)
      requires Painting(was, before, base, am, painted)
      modifies m, this`lim, this`filled
      ensures Painting(was, before, base, am, painted + [Point(i3, i4)])
    {
      ghost var b := SetCell(base, am, Point(i3, i4));
      NewsFirst(Current(), base, Point(i3, i4), b, old(filled), filled);
      NewsMore(Current(), base, painted, Point(i3, i4), before, old(filled), filled);
    }

    /** Sets the slot at one cell of a cast, base slot `b`. */
    method SetCell(base: Point, am: R.Amorph, q: Point) returns (ghost b: Point)
      requires Valid()
      modifies m, this`lim, this`filled
      ensures Valid() && filled == if b == OUTSIDE then old(filled) else old(filled) + [b]
      ensures CellAt(Current(), base, q, b)
      ensures forall i, j :: 0 <= i < nx && 0 <= j < ny ==>
        m[i, j] == if b == Point(i, j) then SlotFor(am, q, persp) else old(m[i, j])
    {
      b := Set(base.x + q.x, base.y + q.y, SlotFor(am, q, persp));
      CellSlot(Current(), base, q, b);
    }
  }

  lemma RotateOnce<T>(s: seq<T>, i: nat)
    requires i < |s|
    ensures var r := s[i..] + s[..i]; r[1..] + [r[0]] == s[i + 1..] + s[..i + 1]
  {}

  lemma RunMore(v: View, filled: seq<Point>, b: Point)
    ensures Run(v, filled + [b]) == Update(Run(v, filled), b)
  {
    assert (filled + [b])[..|filled|] == filled;
  }

  /** The limits depend on the grid's size only. */
  lemma {:induction false} SameRun(v: View, w: View, filled: seq<Point>)
    requires v.nx == w.nx && v.ny == w.ny
    ensures Run(v, filled) == Run(w, filled)
  {
    if filled != [] { SameRun(v, w, filled[..|filled| - 1]); }
  }

  lemma {:induction false} ColumnsPrefix(am: R.Amorph, i: nat, n: nat)
    requires i <= n
    ensures CellsTo(am, i) <= CellsTo(am, n)
  {
    if i < n { ColumnsPrefix(am, i, n - 1); }
  }

  /** Painted so far: i3 whole columns and i4 cells of the next, or everything. */
  ghost predicate Progress(am: R.Amorph, i3: nat, i4: nat, painted: seq<Point>, cntrSlots: nat, full: bool) {
    && |painted| == cntrSlots
    && if full then painted == Painted(am)
       else i4 <= |Column(am, i3)| && painted == CellsTo(am, i3) + Column(am, i3)[..i4]
            && (cntrSlots == 0 || cntrSlots < MaxSlots(am))
  }

  lemma OneMore(am: R.Amorph, i3: nat, i4: nat, painted: seq<Point>, cntrSlots: nat)
    requires Progress(am, i3, i4, painted, cntrSlots, false) && i3 < am.Cols && i4 < LimRow(am, i3)
    ensures Progress(am, i3, i4 + 1, painted + [Point(i3, i4)], cntrSlots + 1, cntrSlots + 1 >= MaxSlots(am))
  {
    assert painted + [Point(i3, i4)] == CellsTo(am, i3) + Column(am, i3)[..i4 + 1];
    if cntrSlots + 1 >= MaxSlots(am) { PrefixOfCells(am, i3, i4 + 1); }
  }

  lemma ColumnDone(am: R.Amorph, i3: nat, i4: nat, painted: seq<Point>, cntrSlots: nat)
    requires Progress(am, i3, i4, painted, cntrSlots, false) && i4 >= LimRow(am, i3)
    ensures Progress(am, i3 + 1, 0, painted, cntrSlots, false)
  {
    assert Column(am, i3)[..i4] == Column(am, i3);
    assert CellsTo(am, i3 + 1) + Column(am, i3 + 1)[..0] == CellsTo(am, i3 + 1);
  }

  /** Running out of columns before maxSlots is reached paints every cell. */
  lemma AllColumns(am: R.Amorph, i3: nat, painted: seq<Point>, cntrSlots: nat)
    requires Progress(am, i3, 0, painted, cntrSlots, false) && (i3 == am.Cols || (i3 == 0 && am.Cols <= 0))
    ensures painted == Painted(am)
  {
    assert painted == Cells(am);
  }

  lemma PrefixOfCells(am: R.Amorph, i3: nat, i4: nat)
    requires i3 < am.Cols && 0 < i4 <= LimRow(am, i3)
    requires var k := |CellsTo(am, i3)| + i4; k >= MaxSlots(am) && (k == 1 || k - 1 < MaxSlots(am))
    ensures CellsTo(am, i3) + Column(am, i3)[..i4] == Painted(am)
  {
    CellsAre(am, i3, i4);
  }

  lemma CellsAre(am: R.Amorph, i3: nat, i4: nat)
    requires i3 < am.Cols && i4 <= |Column(am, i3)|
    ensures var k := |CellsTo(am, i3)| + i4;
      k <= |Cells(am)| && Cells(am)[..k] == CellsTo(am, i3) + Column(am, i3)[..i4]
  {
    var a, c, k := CellsTo(am, i3), Column(am, i3), |CellsTo(am, i3)| + i4;
    ColumnsPrefix(am, i3 + 1, am.Cols);
    TakeJoin(a, c, i4);
    TakePrefix(CellsTo(am, i3 + 1), Cells(am), k);
  }

  lemma TakeJoin<T>(a: seq<T>, c: seq<T>, i: nat)
    requires i <= |c|
    ensures (a + c)[..|a| + i] == a + c[..i]
  {}

  lemma TakePrefix<T>(a: seq<T>, b: seq<T>, k: nat)
    requires a <= b && k <= |a|
    ensures b[..k] == a[..k]
  {}
}
