/** The four rotated views of the grid and the outmost points kept with it, from
    transposablematrix/10-matrix.go. */
module Perspective {

  datatype Point = Point(x: int, y: int)

  /** The grid's size, its centre, and the perspective: 0 North, 1 West, 2 South, 3 East. */
  datatype View = View(nx: nat, ny: nat, cx: int, cy: int, persp: nat)

  predicate ViewOk(v: View) { v.nx > 0 && v.ny > 0 && v.persp < 4 }

  predicate InGrid(v: View, p: Point) { 0 <= p.x < v.nx && 0 <= p.y < v.ny }

  const OUTSIDE := Point(-1, -1)

  const ORIGIN := Point(0, 0)

  function Mapped2Base(v: View, p: Point): Point
    requires ViewOk(v)
  {
    var lx, ly := v.nx - 1, v.ny - 1;
    if v.persp == 0 then
      var xm, ym := p.x + v.cx, p.y + v.cy;
      if ym > ly || xm > lx || ym < 0 || xm < 0 then OUTSIDE else Point(xm, ym)
    else if v.persp == 1 then
      var xm, ym := p.x - v.cy, p.y + v.cx;
      if ym > lx || -xm > ly || ym < 0 || -xm < 0 then OUTSIDE else Point(ym, -xm)
    else if v.persp == 2 then
      var xm, ym := p.x - v.cx, p.y - v.cy;
      if -xm > lx || -ym > ly || -xm < 0 || -ym < 0 then OUTSIDE else Point(-xm, -ym)
    else
      var xm, ym := p.x + v.cy, p.y - v.cx;
      if -ym > lx || xm > ly || -ym < 0 || xm < 0 then OUTSIDE else Point(-ym, xm)
  }

  function Base2Mapped(v: View, p: Point): Point
    requires ViewOk(v)
  {
    if v.persp == 0 then Point(p.x - v.cx, p.y - v.cy)
    else if v.persp == 1 then Point(-p.y + v.cy, p.x - v.cx)
    else if v.persp == 2 then Point(-p.x + v.cx, -p.y + v.cy)
    else Point(p.y - v.cy, -p.x + v.cx)
  }

  /** The two translations are inverse: a mapped point names a slot exactly when it is that
      slot's mapped point. */
  lemma ViewsInverse(v: View, b: Point, m: Point)
    requires ViewOk(v) && InGrid(v, b)
    ensures Mapped2Base(v, m) == b <==> m == Base2Mapped(v, b)
    ensures Mapped2Base(v, m) == OUTSIDE || InGrid(v, Mapped2Base(v, m))
  {}

  /** A quarter turn about the origin. */
  function Turned(p: Point): Point { Point(-p.y, p.x) }

  /** The centre is seen at the origin in every perspective; to the north slots are seen by their
      distance from it, and every further perspective turns what is seen by a quarter. */
  lemma ViewsTurn(v: View, b: Point)
    requires ViewOk(v)
    ensures Base2Mapped(v, Point(v.cx, v.cy)) == ORIGIN
    ensures v.persp == 0 ==> Base2Mapped(v, b) == Point(b.x - v.cx, b.y - v.cy)
    ensures Base2Mapped(v.(persp := (v.persp + 1) % 4), b) == Turned(Base2Mapped(v, b))
  {}

  // ---------- outmost points ----------

  /** The running limits; the eight outmost points counter-clockwise from north by west. */
  datatype Limits = Limits(
    xmif: int, ymif: int, xmaf: int, ymaf: int,
    NNW: Point, NWW: Point, SWW: Point, SSW: Point, SSE: Point, SEE: Point, NEE: Point, NNE: Point)

  function Outmost(l: Limits): (r: seq<Point>)
    ensures |r| == 8
  {
    [l.NNW, l.NWW, l.SWW, l.SSW, l.SSE, l.SEE, l.NEE, l.NNE]
  }

  function NewLimits(v: View): Limits {
    var o := ORIGIN;
    Limits(v.nx - 1, v.ny - 1, 0, 0, o, o, o, o, o, o, o, o)
  }

  function Total(l: Limits, p: Point): Limits {
    l.(xmif := if p.x < l.xmif then p.x else l.xmif,
       xmaf := if p.x >= l.xmaf then p.x else l.xmaf,
       ymif := if p.y < l.ymif then p.y else l.ymif,
       ymaf := if p.y >= l.ymaf then p.y else l.ymaf)
  }

  function Update(l0: Limits, p: Point): Limits {
    var l := Total(l0, p);
    l.(NWW := if p.x == l.xmif && (p.y < l.NWW.y || p.x != l.NWW.x) then p else l.NWW,
       NEE := if p.x == l.xmaf && (p.y < l.NEE.y || p.x != l.NEE.x) then p else l.NEE,
       SWW := if p.x == l.xmif && (p.y > l.SWW.y || p.x != l.SWW.x) then p else l.SWW,
       SEE := if p.x == l.xmaf && (p.y > l.SEE.y || p.x != l.SEE.x) then p else l.SEE,
       NNW := if p.y == l.ymif && (p.x < l.NNW.x || p.y != l.NNW.y) then p else l.NNW,
       NNE := if p.y == l.ymif && (p.x > l.NNE.x || p.y != l.NNE.y) then p else l.NNE,
       SSW := if p.y == l.ymaf && (p.x < l.SSW.x || p.y != l.SSW.y) then p else l.SSW,
       SSE := if p.y == l.ymaf && (p.x > l.SSE.x || p.y != l.SSE.y) then p else l.SSE)
  }

  /** What the i-th outmost point must come first by: the line it lies on, then the end of
      that line. */
  function Rank(i: nat, p: Point): (int, int)
    requires i < 8
  {
    if i == 0 then (p.y, p.x) else if i == 1 then (p.x, p.y)
    else if i == 2 then (p.x, -p.y) else if i == 3 then (-p.y, p.x)
    else if i == 4 then (-p.y, -p.x) else if i == 5 then (-p.x, -p.y)
    else if i == 6 then (-p.x, p.y) else (p.y, -p.x)
  }

  predicate Before(a: (int, int), b: (int, int)) { a.0 < b.0 || (a.0 == b.0 && a.1 <= b.1) }

  /** No filled slot lies further out than `q` does. */
  predicate NoneBefore(i: nat, filled: seq<Point>, q: Point)
    requires i < 8
  {
    forall p :: p in filled ==> Before(Rank(i, q), Rank(i, p))
  }

  /** `q` is the i-th outmost point of the filled slots. */
  predicate Extreme(i: nat, filled: seq<Point>, q: Point)
    requires i < 8
  {
    q in filled && NoneBefore(i, filled, q)
  }

  predicate AllExtreme(l: Limits, filled: seq<Point>) {
    forall i :: 0 <= i < 8 ==> Extreme(i, filled, Outmost(l)[i])
  }

  /** The total limits are the least and greatest coordinates. */
  predicate TotalsExact(l: Limits, filled: seq<Point>) {
    && (exists p :: p in filled && p.x == l.xmif) && (exists p :: p in filled && p.y == l.ymif)
    && (exists p :: p in filled && p.x == l.xmaf) && (exists p :: p in filled && p.y == l.ymaf)
    && forall p :: p in filled ==> l.xmif <= p.x <= l.xmaf && l.ymif <= p.y <= l.ymaf
  }

  function Run(v: View, filled: seq<Point>): Limits {
    if filled == [] then NewLimits(v) else Update(Run(v, filled[..|filled| - 1]), filled[|filled| - 1])
  }

  predicate AllInGrid(v: View, filled: seq<Point>) { forall p :: p in filled ==> InGrid(v, p) }

  lemma TotalsKept(l: Limits, filled: seq<Point>, p: Point)
    requires TotalsExact(l, filled)
    ensures TotalsExact(Update(l, p), filled + [p])
  {
    var all := filled + [p];
    assert p in all && forall q :: q in filled ==> q in all;
    assert exists q :: q in all && q.x == l.xmif;
    assert exists q :: q in all && q.y == l.ymif;
    assert exists q :: q in all && q.x == l.xmaf;
    assert exists q :: q in all && q.y == l.ymaf;
  }

  lemma FirstTotals(v: View, p: Point)
    requires ViewOk(v) && InGrid(v, p)
    ensures TotalsExact(Update(NewLimits(v), p), [p])
  {
    assert p in [p];
  }

  lemma RunStep(v: View, filled: seq<Point>)
    requires filled != []
    ensures var n := |filled| - 1;
      && Run(v, filled) == Update(Run(v, filled[..n]), filled[n])
      && filled == filled[..n] + [filled[n]]
      && (n == 0 ==> Run(v, filled[..n]) == NewLimits(v) && filled == [filled[0]])
  {}

  /** The total limits are exact after every non-empty run of fills. */
  lemma {:induction false} TotalsAlwaysExact(v: View, filled: seq<Point>)
    requires ViewOk(v) && filled != [] && AllInGrid(v, filled)
    ensures TotalsExact(Run(v, filled), filled)
  {
    var n := |filled| - 1;
    RunStep(v, filled);
    assert forall k :: 0 <= k < |filled| ==> filled[k] in filled;
    if n == 0 {
      FirstTotals(v, filled[0]);
    } else {
      TotalsAlwaysExact(v, filled[..n]);
      TotalsKept(Run(v, filled[..n]), filled[..n], filled[n]);
    }
  }

  // ---------- when the outmost points are exact ----------

  /** Exact limits stay exact whatever slot is filled next. */
  lemma ExtremesKept(l: Limits, filled: seq<Point>, p: Point)
    requires TotalsExact(l, filled) && AllExtreme(l, filled)
    ensures AllExtreme(Update(l, p), filled + [p])
  {
    var all, l' := filled + [p], Update(l, p);
    assert p in all && forall q :: q in all <==> q in filled || q == p;
    forall i | 0 <= i < 8 ensures Extreme(i, all, Outmost(l')[i]) {
      ExtremeKept(l, filled, p, i);
    }
  }

  lemma ExtremeKept(l: Limits, filled: seq<Point>, p: Point, i: nat)
    requires TotalsExact(l, filled) && i < 8 && Extreme(i, filled, Outmost(l)[i])
    ensures Extreme(i, filled + [p], Outmost(Update(l, p))[i])
  {
    var all := filled + [p];
    assert p in all && forall q :: q in all <==> q in filled || q == p;
    OnTheLine(l, filled, i);
    UpdatePicks(l, p, i);
  }

  /** The i-th outmost point lies on the limiting line. */
  lemma OnTheLine(l: Limits, filled: seq<Point>, i: nat)
    requires TotalsExact(l, filled) && i < 8 && Extreme(i, filled, Outmost(l)[i])
    ensures Rank(i, Outmost(l)[i]).0 == Line(l, i)
  {
    var q :| q in filled && Rank(i, q).0 == Line(l, i);
  }

  function Line(l: Limits, i: nat): int
    requires i < 8
  {
    if i == 0 || i == 7 then l.ymif else if i == 1 || i == 2 then l.xmif
    else if i == 3 || i == 4 then -l.ymaf else -l.xmaf
  }

  /** One update keeps the point that ranks first. */
  lemma UpdatePicks(l: Limits, p: Point, i: nat)
    requires i < 8 && Rank(i, Outmost(l)[i]).0 == Line(l, i)
    ensures Outmost(Update(l, p))[i] == if Before(Rank(i, Outmost(l)[i]), Rank(i, p)) then Outmost(l)[i] else p
  {}

  /** The slot is not in the row, or column, of the origin. */
  predicate Off(i: nat, p: Point) { if i == 0 || i == 3 then p.y != 0 else p.x != 0 }

  predicate SomeOff(i: nat, filled: seq<Point>) { exists p :: p in filled && Off(i, p) }

  /** Some slot makes the i-th outmost point leave the origin. The first slot must for the two that
      look for the least row or column from the north-west, any slot can for two others, and the
      remaining four leave it at once. */
  predicate LeavesOrigin(i: nat, filled: seq<Point>)
    requires filled != []
  {
    if i == 0 || i == 1 then Off(i, filled[0])
    else if i == 3 || i == 6 then SomeOff(i, filled)
    else true
  }

  /** What is true of the i-th outmost point whether it is exact or not: it lies on the limiting line,
      no filled slot lies further out, and it is a filled slot or the origin it started at. */
  predicate Held(l: Limits, filled: seq<Point>, i: nat)
    requires i < 8
  {
    var q := Outmost(l)[i];
    Rank(i, q).0 == Line(l, i) && NoneBefore(i, filled, q) && (q in filled || q == ORIGIN)
  }

  lemma HeldStep(l: Limits, filled: seq<Point>, p: Point, i: nat)
    requires i < 8 && Held(l, filled, i)
    ensures Held(Update(l, p), filled + [p], i)
  {
    UpdatePicks(l, p, i);
    LineMoves(l, p, i);
    NoneBeforeMore(filled, p, Outmost(l)[i], i);
  }

  lemma LineMoves(l: Limits, p: Point, i: nat)
    requires i < 8
    ensures Line(Update(l, p), i) == if Rank(i, p).0 < Line(l, i) then Rank(i, p).0 else Line(l, i)
  {}

  lemma NoneBeforeMore(filled: seq<Point>, p: Point, q: Point, i: nat)
    requires i < 8 && NoneBefore(i, filled, q)
    ensures NoneBefore(i, filled + [p], if Before(Rank(i, q), Rank(i, p)) then q else p)
    ensures p in filled + [p] && (q in filled ==> q in filled + [p])
  {
    forall m | m in filled + [p]
      ensures Before(Rank(i, if Before(Rank(i, q), Rank(i, p)) then q else p), Rank(i, m))
    {
      if m in filled { assert Before(Rank(i, q), Rank(i, m)); }
    }
  }

  lemma HeldFirst(v: View, p: Point, i: nat)
    requires ViewOk(v) && InGrid(v, p) && i < 8
    ensures Held(Update(NewLimits(v), p), [p], i)
  {
    FirstPick(v, p, i);
    assert p in [p];
  }

  lemma FirstPick(v: View, p: Point, i: nat)
    requires ViewOk(v) && InGrid(v, p) && i < 8
    ensures var l := Update(NewLimits(v), p);
      && Line(l, i) == Rank(i, p).0 == Rank(i, Outmost(l)[i]).0
      && Before(Rank(i, Outmost(l)[i]), Rank(i, p))
      && Outmost(l)[i] == if LeavesOrigin(i, [p]) then p else ORIGIN
  {
    assert p in [p] && forall q :: q in [p] ==> q == p;
  }

  /** No filled slot ever lies further out than the point kept for it. */
  lemma {:induction false} AlwaysHeld(v: View, filled: seq<Point>, i: nat)
    requires ViewOk(v) && filled != [] && AllInGrid(v, filled) && i < 8
    ensures Held(Run(v, filled), filled, i)
  {
    var n := |filled| - 1;
    RunStep(v, filled);
    assert filled[n] in filled;
    if n == 0 {
      HeldFirst(v, filled[0], i);
    } else {
      AlwaysHeld(v, filled[..n], i);
      HeldStep(Run(v, filled[..n]), filled[..n], filled[n], i);
    }
  }

  /** An outmost point is a filled slot exactly if the origin is filled or was left. */
  lemma OutmostFilledIff(v: View, filled: seq<Point>, i: nat)
    requires ViewOk(v) && filled != [] && AllInGrid(v, filled) && i < 8
    ensures Outmost(Run(v, filled))[i] in filled <==> ORIGIN in filled || LeavesOrigin(i, filled)
  {
    AlwaysHeld(v, filled, i);
    if ORIGIN !in filled {
      OriginLeftIff(v, filled, i);
    }
  }

  lemma {:induction false} OriginLeftIff(v: View, filled: seq<Point>, i: nat)
    requires ViewOk(v) && filled != [] && AllInGrid(v, filled) && i < 8 && ORIGIN !in filled
    ensures Outmost(Run(v, filled))[i] != ORIGIN <==> LeavesOrigin(i, filled)
  {
    var n := |filled| - 1;
    RunStep(v, filled);
    assert filled[0] in filled && filled[n] in filled;
    if n == 0 {
      assert filled == [filled[0]];
      FirstPick(v, filled[0], i);
    } else {
      var before := filled[..n];
      OriginLeftIff(v, before, i);
      AlwaysHeld(v, before, i);
      UpdatePicks(Run(v, before), filled[n], i);
      LeavesMore(before, filled[n], i);
    }
  }

  /** The origin is left exactly by a slot that lies further out than it. */
  lemma LeavesMore(before: seq<Point>, p: Point, i: nat)
    requires before != [] && i < 8 && p.x >= 0 && p.y >= 0
    ensures LeavesOrigin(i, before + [p]) <==>
      LeavesOrigin(i, before) || !Before(Rank(i, ORIGIN), Rank(i, p))
  {
    assert (before + [p])[0] == before[0];
    SomeOffMore(before, p, i);
  }

  lemma SomeOffMore(before: seq<Point>, p: Point, i: nat)
    ensures SomeOff(i, before + [p]) <==> SomeOff(i, before) || Off(i, p)
  {
    var all := before + [p];
    assert all[|before|] == p;
    if SomeOff(i, before) {
      var q :| q in before && Off(i, q);
      assert q in all;
    }
    if SomeOff(i, all) {
      var q :| q in all && Off(i, q);
      assert q in before || q == p;
    }
  }

  /** The points start out at the origin, which looks like a filled corner: with the first
      slot in row 0 or column 0, but not both, some points are wrong. */
  predicate FirstOk(p: Point) { p.x == 0 <==> p.y == 0 }

  /** The eight outmost points are exact exactly when the first filled slot lies in neither row 0 nor
      column 0, or the slot in both of them is filled. */
  lemma OutmostExactNowIff(v: View, filled: seq<Point>)
    requires ViewOk(v) && filled != [] && AllInGrid(v, filled)
    ensures AllExtreme(Run(v, filled), filled) <==> FirstOk(filled[0]) || ORIGIN in filled
  {
    var l := Run(v, filled);
    assert filled[0] in filled;
    forall i | 0 <= i < 8
      ensures Extreme(i, filled, Outmost(l)[i]) <==> ORIGIN in filled || LeavesOrigin(i, filled)
    {
      AlwaysHeld(v, filled, i);
      OutmostFilledIff(v, filled, i);
    }
    assert LeavesOrigin(0, filled) && LeavesOrigin(1, filled) <==> filled[0].x != 0 && filled[0].y != 0;
    if AllExtreme(l, filled) {
      assert Extreme(0, filled, Outmost(l)[0]) && Extreme(1, filled, Outmost(l)[1]);
    }
  }

  /** The eight outmost points have been exact from the first fill on. */
  ghost predicate ExactThroughout(v: View, filled: seq<Point>) {
    forall n :: 0 < n <= |filled| ==> AllExtreme(Run(v, filled[..n]), filled[..n])
  }

  /** That is so exactly when the first filled slot lies in neither row 0 nor column 0, or
      in both. */
  lemma OutmostExactIff(v: View, filled: seq<Point>)
    requires ViewOk(v) && filled != [] && AllInGrid(v, filled)
    ensures ExactThroughout(v, filled) <==> FirstOk(filled[0])
  {
    forall n | 0 < n <= |filled|
      ensures AllExtreme(Run(v, filled[..n]), filled[..n]) <==> FirstOk(filled[0]) || ORIGIN in filled[..n]
    {
      OutmostExactNowIff(v, filled[..n]);
    }
    assert filled[..1] == [filled[0]];
    if ExactThroughout(v, filled) {
      assert AllExtreme(Run(v, filled[..1]), filled[..1]);
    }
  }

  // ---------- the rotated view ----------

  /** FilledMinMax: the list of outmost points, turned by two for each quarter. */
  function FilledMinMax(v: View, l: Limits): (r: seq<Point>)
    requires ViewOk(v)
    ensures |r| == 8
  {
    Outmost(l)[2 * v.persp..] + Outmost(l)[..2 * v.persp]
  }

  function MapAll(v: View, filled: seq<Point>): (r: seq<Point>)
    requires ViewOk(v)
    ensures |r| == |filled| && forall k :: 0 <= k < |r| ==> r[k] == Base2Mapped(v, filled[k])
  {
    seq(|filled|, k requires 0 <= k < |filled| => Base2Mapped(v, filled[k]))
  }

  /** The base point that stands at place i of a view. */
  function Turn(i: nat, persp: nat): (j: nat)
    requires i < 8 && persp < 4
    ensures j < 8
  {
    if i + 2 * persp < 8 then i + 2 * persp else i + 2 * persp - 8
  }

  /** Turning the view shifts every rank by a constant and renumbers the outmost points. */
  lemma RankTurned(v: View, i: nat, p: Point, q: Point)
    requires ViewOk(v) && i < 8
    ensures Before(Rank(i, Base2Mapped(v, p)), Rank(i, Base2Mapped(v, q)))
       <==> Before(Rank(Turn(i, v.persp), p), Rank(Turn(i, v.persp), q))
  {
    RankShift(v, i, p, q);
  }

  lemma RankShift(v: View, i: nat, p: Point, q: Point)
    requires ViewOk(v) && i < 8
    ensures var a, b := Rank(i, Base2Mapped(v, p)), Rank(Turn(i, v.persp), p);
      var c, d := Rank(i, Base2Mapped(v, q)), Rank(Turn(i, v.persp), q);
      a.0 - c.0 == b.0 - d.0 && a.1 - c.1 == b.1 - d.1
  {
    if v.persp == 0 {
    } else if v.persp == 1 {
    } else if v.persp == 2 {
    } else {
    }
  }

  /** In each of the four perspectives, FilledMinMax seen through the translation gives the
      same eight outmost points of the turned slots. */
  lemma OutmostInEveryView(v: View, l: Limits, filled: seq<Point>, i: nat)
    requires ViewOk(v) && i < 8 && AllExtreme(l, filled)
    ensures Extreme(i, MapAll(v, filled), Base2Mapped(v, FilledMinMax(v, l)[i]))
  {
    assert Extreme(Turn(i, v.persp), filled, Outmost(l)[Turn(i, v.persp)]);
    NoneBeforeInView(v, l, filled, i);
    MappedInIff(v, filled, FilledMinMax(v, l)[i]);
  }

  /** So no turned slot lies further out than the point reported for it, exact or not. */
  lemma NoneBeforeInView(v: View, l: Limits, filled: seq<Point>, i: nat)
    requires ViewOk(v) && i < 8
    requires NoneBefore(Turn(i, v.persp), filled, Outmost(l)[Turn(i, v.persp)])
    ensures FilledMinMax(v, l)[i] == Outmost(l)[Turn(i, v.persp)]
    ensures NoneBefore(i, MapAll(v, filled), Base2Mapped(v, FilledMinMax(v, l)[i]))
  {
    var q := Outmost(l)[Turn(i, v.persp)];
    assert FilledMinMax(v, l)[i] == q;
    forall m | m in MapAll(v, filled) ensures Before(Rank(i, Base2Mapped(v, q)), Rank(i, m)) {
      var n :| 0 <= n < |filled| && MapAll(v, filled)[n] == m;
      assert filled[n] in filled;
      RankTurned(v, i, q, filled[n]);
    }
  }

  /** TotalMinMax: the two corners, each coordinate from the right one. */
  function TotalMinMax(v: View, l: Limits): (int, int, int, int)
    requires ViewOk(v)
  {
    var a, b := Base2Mapped(v, Point(l.xmif, l.ymif)), Base2Mapped(v, Point(l.xmaf, l.ymaf));
    if v.persp == 0 then (a.x, a.y, b.x, b.y)
    else if v.persp == 1 then (b.x, a.y, a.x, b.y)
    else if v.persp == 2 then (b.x, b.y, a.x, a.y)
    else (a.x, b.y, b.x, a.y)
  }

  function InView(v: View, l: Limits): Limits
    requires ViewOk(v)
  {
    var (x0, y0, x1, y1) := TotalMinMax(v, l);
    l.(xmif := x0, ymif := y0, xmaf := x1, ymaf := y1)
  }

  lemma TotalsInEveryView(v: View, l: Limits, filled: seq<Point>)
    requires ViewOk(v) && TotalsExact(l, filled)
    ensures TotalsExact(InView(v, l), MapAll(v, filled))
  {
    var a :| a in filled && a.x == l.xmif;
    var b :| b in filled && b.y == l.ymif;
    var c :| c in filled && c.x == l.xmaf;
    var d :| d in filled && d.y == l.ymaf;
    MappedIn(v, filled, a);
    MappedIn(v, filled, b);
    MappedIn(v, filled, c);
    MappedIn(v, filled, d);
    TurnedSides(v, l, MapAll(v, filled),
                Base2Mapped(v, a), Base2Mapped(v, b), Base2Mapped(v, c), Base2Mapped(v, d), a, b, c, d);
    TurnedBetween(v, l, filled);
  }

  lemma TurnedBetween(v: View, l: Limits, filled: seq<Point>)
    requires ViewOk(v) && TotalsExact(l, filled)
    ensures forall m :: m in MapAll(v, filled) ==>
      InView(v, l).xmif <= m.x <= InView(v, l).xmaf && InView(v, l).ymif <= m.y <= InView(v, l).ymaf
  {
    forall m | m in MapAll(v, filled)
      ensures InView(v, l).xmif <= m.x <= InView(v, l).xmaf && InView(v, l).ymif <= m.y <= InView(v, l).ymaf
    {
      var n :| 0 <= n < |filled| && MapAll(v, filled)[n] == m;
      assert filled[n] in filled;
      BetweenInView(v, l, filled[n]);
    }
  }

  lemma BetweenInView(v: View, l: Limits, p: Point)
    requires ViewOk(v) && l.xmif <= p.x <= l.xmaf && l.ymif <= p.y <= l.ymaf
    ensures var m, t := Base2Mapped(v, p), InView(v, l);
      t.xmif <= m.x <= t.xmaf && t.ymif <= m.y <= t.ymaf
  {}

  lemma TurnedSides(v: View, l: Limits, mapped: seq<Point>, ma: Point, mb: Point, mc: Point, md: Point,
                    a: Point, b: Point, c: Point, d: Point)
    requires ViewOk(v) && ma in mapped && mb in mapped && mc in mapped && md in mapped
    requires ma == Base2Mapped(v, a) && mb == Base2Mapped(v, b) && mc == Base2Mapped(v, c) && md == Base2Mapped(v, d)
    requires a.x == l.xmif && b.y == l.ymif && c.x == l.xmaf && d.y == l.ymaf
    ensures var t := InView(v, l);
      && (exists p :: p in mapped && p.x == t.xmif) && (exists p :: p in mapped && p.y == t.ymif)
      && (exists p :: p in mapped && p.x == t.xmaf) && (exists p :: p in mapped && p.y == t.ymaf)
  {}

  lemma MappedIn(v: View, filled: seq<Point>, p: Point)
    requires ViewOk(v) && p in filled
    ensures Base2Mapped(v, p) in MapAll(v, filled)
  {
    var n :| 0 <= n < |filled| && filled[n] == p;
    assert MapAll(v, filled)[n] == Base2Mapped(v, p);
  }

  /** A slot is filled exactly if its mapped point is among the mapped ones. */
  lemma MappedInIff(v: View, filled: seq<Point>, p: Point)
    requires ViewOk(v)
    ensures Base2Mapped(v, p) in MapAll(v, filled) <==> p in filled
  {
    if p in filled { MappedIn(v, filled, p); }
    if Base2Mapped(v, p) in MapAll(v, filled) {
      var n :| 0 <= n < |filled| && MapAll(v, filled)[n] == Base2Mapped(v, p);
      assert filled[n] == p;
    }
  }
}
