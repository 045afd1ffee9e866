/** When the pipeline of distrib/main.go can still return: the exact condition on every reachable state, and
    the configurations in which a run can get stuck for good. */
module DistribReturns {

  import opened Wrappers
  import opened Distrib
  import opened DistribRuns
  import opened DistribEnds
  import opened DistribBounds

  // ---------- the condition ----------

  /** There are as many results as Want demands at the moment. */
  predicate Wanted(s: State) { |s.results| >= s.want }

  /** Every packet has been handed over, and stage 1 is on its way to store 0 into Want. */
  predicate Exhausting(c: Config, s: State) {
    && |s.handed| == c.packets
    && (s.s1 == Exhausted || (s.lcnt >= 0 && (s.s1 == HandedOver || s.s1 == LcntAdded || s.s1 == Loading)))
  }

  predicate Busy(w: Worker) { w.Waiting? || w.Sending? }

  predicate SomeBusy(s: State) { exists w :: 0 <= w < |s.ws| && Busy(s.ws[w]) }

  predicate SomeIdle(s: State) { exists w :: 0 <= w < |s.ws| && s.ws[w] == Idle }

  /** Collecting, stage 3 needs enough results, or the packets to run out, or a worker to bring results.
      Otherwise it only looks after a result, so that one must be at hand or still to come. */
  predicate Hope(c: Config, s: State) {
    if c.collect then Wanted(s) || Exhausting(c, s) || SomeBusy(s) || SomeIdle(s)
    else
      || s.s3 == Stopping || s.s3 == Flushing || s.s3 == Returned
      || (s.s3 == Received && (Wanted(s) || Exhausting(c, s)))
      || SomeBusy(s)
      || (SomeIdle(s) && |s.handed| < c.packets)
  }

  /** Some further steps let stage 3 return. */
  ghost predicate CanReturn(c: Config, s: State) {
    exists more :: ExecFrom(c, s, more).Some? && ExecFrom(c, s, more).value.s3 == Returned
  }

  lemma ReturnsAfter(c: Config, s: State, a: Action)
    requires Step(c, s, a).Some? && CanReturn(c, Step(c, s, a).value)
    ensures CanReturn(c, s)
  {
    var t := Step(c, s, a).value;
    var more :| ExecFrom(c, t, more).Some? && ExecFrom(c, t, more).value.s3 == Returned;
    assert ([a] + more)[1..] == more;
    assert ExecFrom(c, s, [a] + more) == ExecFrom(c, t, more);
  }

  lemma HasReturned(c: Config, s: State)
    requires s.s3 == Returned
    ensures CanReturn(c, s)
  {
    assert ExecFrom(c, s, []) == Some(s);
  }

  // ---------- what every run keeps ----------

  /** The stop signal and stage 1's end have their reasons. */
  predicate Signals(c: Config, s: State) {
    (s.lcnt < 0 ==> Enough(c, s)) && (s.s1 == Stopped ==> s.fin || s.lcnt < 0 || s.want == 0)
  }

  ghost predicate Sound(c: Config, s: State) {
    Inv(c, s) && Signals(c, s) && JobsStay(s)
  }

  lemma SignalsKept(c: Config, s: State, a: Action)
    requires c.want >= 1 && Stage1Ok(c, s) && CountersOk(c, s) && Stage3Ok(c, s) && Signals(c, s)
    requires Step(c, s, a).Some?
    ensures Signals(c, Step(c, s, a).value)
  {}

  lemma SoundStep(c: Config, s: State, a: Action)
    requires c.want >= 1 && Sound(c, s) && Step(c, s, a).Some?
    ensures Sound(c, Step(c, s, a).value)
  {
    StepKeepsInv(c, s, a);
    SignalsKept(c, s, a);
    JobsStayKept(c, s, a);
  }

  /** After every run, stage 1 has stopped only for a reason: fin, the stop signal, or no packets left. */
  lemma {:induction false} RunIsSound(c: Config, acts: seq<Action>)
    requires c.want >= 1 && Exec(c, acts).Some?
    ensures Sound(c, Exec(c, acts).value)
  {
    if acts == [] {
      InitOk(c);
    } else {
      var n := |acts| - 1;
      RunIsSound(c, acts[..n]);
      SoundStep(c, Exec(c, acts[..n]).value, acts[n]);
    }
  }

  lemma {:induction false} HeldTwice(ws: seq<Worker>, v: nat, w: nat, p: nat)
    requires v < w < |ws| && Holds(ws[v], p) && Holds(ws[w], p)
    ensures HeldCount(ws, p) >= 2
  {
    if v == 0 {
      HeldCounts(ws[1..], w - 1, p);
    } else {
      HeldTwice(ws[1..], v - 1, w - 1, p);
    }
  }

  /** A packet a worker waits for has its goroutine still. */
  lemma WaitingHasJob(c: Config, s: State, w: nat)
    requires Sound(c, s) && !s.fin && w < |s.ws| && s.ws[w].Waiting?
    ensures s.ws[w].p in s.jobs && !s.jobs[s.ws[w].p].Gone?
  {
    var p := s.ws[w].p;
    if s.jobs[p].Gone? {
      CountNaturals(s.handed, p);
      HeldCounts(s.ws, w, p);
      assert Count(s.handed, p) == Places(s, p);
      if p in s.results {
        InCounts(s.results, p);
      } else {
        var v :| 0 <= v < |s.ws| && s.ws[v] == Sending(p);
        if v < w { HeldTwice(s.ws, v, w, p); } else { HeldTwice(s.ws, w, v, p); }
      }
      assert false;
    }
  }

  // ---------- with enough results ----------

  /** Stage 3's next step outside its select. */
  function Stage3Next(s3: Stage3): Action {
    match s3
    case Selecting => Tick
    case TickWant => LoadWantOnTick
    case TickSent => LoadSentOnTick
    case Received => LoadWant
    case Stopping => StoreStop
    case _ => CloseFin
  }

  function Stage3Left(s3: Stage3): nat {
    match s3
    case Received => 5
    case Stopping => 4
    case TickWant => 3
    case TickSent => 2
    case Flushing => 1
    case Closing => 1
    case Selecting => 0
    case Returned => 0
  }

  /** Without collecting, stage 3 returns on enough results at once. */
  lemma {:induction false} Abandons(c: Config, s: State)
    requires !c.collect
    requires s.s3 == Stopping || s.s3 == Flushing || s.s3 == Returned || (s.s3 == Received && Wanted(s))
    ensures CanReturn(c, s)
    decreases Stage3Left(s.s3)
  {
    if s.s3 == Returned {
      HasReturned(c, s);
    } else {
      var a := Stage3Next(s.s3);
      Abandons(c, Step(c, s, a).value);
      ReturnsAfter(c, s, a);
    }
  }

  function TickLeft(s3: Stage3): nat {
    if s3 == Selecting then 4 else if s3 == Received || s3 == Stopping then Stage3Left(s3) + 1 else Stage3Left(s3)
  }

  /** Collecting, with enough results and no worker holding a packet, the next tick is the last. */
  lemma {:induction false} LastTick(c: Config, s: State)
    requires c.want >= 1 && Sound(c, s) && c.collect && Wanted(s) && InFlight(s.ws) == 0
    ensures CanReturn(c, s)
    decreases TickLeft(s.s3)
  {
    if s.s3 == Returned {
      HasReturned(c, s);
    } else {
      var a := Stage3Next(s.s3);
      SoundStep(c, s, a);
      LastTick(c, Step(c, s, a).value);
      ReturnsAfter(c, s, a);
    }
  }

  lemma {:induction false} AHolder(ws: seq<Worker>) returns (w: nat)
    requires InFlight(ws) > 0
    ensures w < |ws| && Holding(ws[w])
  {
    if Holding(ws[0]) {
      w := 0;
    } else {
      w := AHolder(ws[1..]);
      w := w + 1;
    }
  }

  function HolderLeft(w: Worker): nat { if w.Waiting? then 2 else 1 }

  /** Until then the workers are relieved of their packets one by one. */
  lemma {:induction false} Drains(c: Config, s: State)
    requires c.want >= 1 && Sound(c, s) && c.collect && Wanted(s)
    ensures CanReturn(c, s)
    decreases InFlight(s.ws), 9, 9
  {
    if InFlight(s.ws) == 0 {
      LastTick(c, s);
    } else {
      var w := AHolder(s.ws);
      DrainsWorker(c, s, w);
    }
  }

  /** The next step to relieve worker w of its packet. */
  function Relieve(s: State, w: nat): Action
    requires w < |s.ws|
  {
    match s.ws[w]
    case Waiting(_) => Timeout(w)
    case TimedOut(_) => Decrement(w)
    case _ => if s.s3 == Selecting then Receive(w) else Stage3Next(s.s3)
  }

  lemma RelieveStep(c: Config, s: State, w: nat)
    requires c.want >= 1 && Stage3Ok(c, s) && CountersOk(c, s) && c.collect && Wanted(s)
    requires w < |s.ws| && Holding(s.ws[w]) && s.s3 != Returned
    ensures Step(c, s, Relieve(s, w)).Some?
    ensures var t := Step(c, s, Relieve(s, w)).value;
      && Wanted(t) && |t.ws| == |s.ws|
      && (Holding(t.ws[w]) ==>
            (HolderLeft(t.ws[w]) < HolderLeft(s.ws[w]) || (t.ws == s.ws && Stage3Left(t.s3) < Stage3Left(s.s3))))
      && (!Holding(t.ws[w]) ==> Actor(Relieve(s, w)) == Some(w))
  {}

  lemma {:induction false} DrainsWorker(c: Config, s: State, w: nat)
    requires c.want >= 1 && Sound(c, s) && c.collect && Wanted(s) && w < |s.ws| && Holding(s.ws[w])
    ensures CanReturn(c, s)
    decreases InFlight(s.ws), HolderLeft(s.ws[w]), Stage3Left(s.s3)
  {
    if s.s3 == Returned {
      HasReturned(c, s);
    } else {
      var a := Relieve(s, w);
      RelieveStep(c, s, w);
      SoundStep(c, s, a);
      InFlightStep(c, s, a);
      var t := Step(c, s, a).value;
      if Holding(t.ws[w]) { DrainsWorker(c, t, w); } else { Drains(c, t); }
      ReturnsAfter(c, s, a);
    }
  }

  // ---------- on the way to enough results ----------

  /** Nothing but workers and packets can help. */
  predicate Lacking(c: Config, s: State) {
    && !Exhausting(c, s) && s.s3 != Returned
    && (if c.collect then !Wanted(s)
        else s.s3 != Stopping && s.s3 != Flushing && !(s.s3 == Received && Wanted(s)))
  }

  function BusyLeft(s: State, w: nat): nat
    requires w < |s.ws|
  {
    if s.ws[w].Waiting? then (if s.ws[w].p in s.jobs && s.jobs[s.ws[w].p].Working? then 3 else 2) else 1
  }

  function ToHand(c: Config, s: State): nat {
    if |s.handed| < c.packets then c.packets - |s.handed| else 0
  }

  /** Stage 1's next step once all packets are handed over. */
  lemma ExhaustStep(c: Config, s: State)
    requires c.want >= 1 && Sound(c, s) && Hope(c, s) && Exhausting(c, s)
    ensures Step(c, s, Stage1Next(s)).Some?
    ensures var t := Step(c, s, Stage1Next(s)).value;
      Hope(c, t) && t.handed == s.handed && t.ws == s.ws && Stage1Left(t.s1) < Stage1Left(s.s1)
  {
    var t := Step(c, s, Stage1Next(s)).value;
    assert t.s3 == s.s3 && t.results == s.results && (Exhausting(c, t) || t.want == 0);
    assert SomeBusy(s) <==> SomeBusy(t);
  }

  function Feed(s: State, w: nat): Action {
    if s.s1.Offering? then HandOver(w) else Stage1Next(s)
  }

  /** With an idle worker and nothing else to hope for, stage 1 goes on to hand it a packet. */
  lemma FeedStep(c: Config, s: State, w: nat)
    requires c.want >= 1 && Sound(c, s) && Hope(c, s) && Lacking(c, s) && !SomeBusy(s)
    requires w < |s.ws| && s.ws[w] == Idle
    ensures Step(c, s, Feed(s, w)).Some?
    ensures var t := Step(c, s, Feed(s, w)).value;
      && Hope(c, t)
      && (ToHand(c, t) < ToHand(c, s)
          || (t.handed == s.handed && t.ws == s.ws && Stage1Left(t.s1) < Stage1Left(s.s1)))
  {
    LackingMeans(c, s);
    var t := Step(c, s, Feed(s, w)).value;
    if s.s1.Offering? {
      assert Busy(t.ws[w]);
    } else {
      assert t.ws[w] == Idle;
    }
  }

  lemma LackingMeans(c: Config, s: State)
    requires c.want >= 1 && Sound(c, s) && Hope(c, s) && Lacking(c, s) && !SomeBusy(s)
    ensures SomeIdle(s) && |s.handed| < c.packets && s.lcnt >= 0 && s.s1 != Stopped && s.s1 != Exhausted
  {}

  /** Where there is hope there is a run to the end. */
  lemma {:induction false} HopeReturns(c: Config, s: State)
    requires c.want >= 1 && Sound(c, s) && Hope(c, s)
    ensures CanReturn(c, s)
    decreases ToHand(c, s), InFlight(s.ws), Stage1Left(s.s1), 9, 9
  {
    if s.s3 == Returned {
      HasReturned(c, s);
    } else if Exhausting(c, s) {
      ExhaustStep(c, s);
      SoundStep(c, s, Stage1Next(s));
      HopeReturns(c, Step(c, s, Stage1Next(s)).value);
      ReturnsAfter(c, s, Stage1Next(s));
    } else if !Lacking(c, s) {
      if c.collect { Drains(c, s); } else { Abandons(c, s); }
    } else if SomeBusy(s) {
      var w :| 0 <= w < |s.ws| && Busy(s.ws[w]);
      BusyReturns(c, s, w);
    } else {
      LackingMeans(c, s);
      var w :| 0 <= w < |s.ws| && s.ws[w] == Idle;
      FeedStep(c, s, w);
      SoundStep(c, s, Feed(s, w));
      HopeReturns(c, Step(c, s, Feed(s, w)).value);
      ReturnsAfter(c, s, Feed(s, w));
    }
  }

  /** The next step of a busy worker, or of stage 3 to become ready for it. */
  function Bring(s: State, w: nat): Action
    requires w < |s.ws|
  {
    if s.ws[w].Waiting? then
      if s.ws[w].p in s.jobs && s.jobs[s.ws[w].p].Working? then Work(s.ws[w].p) else Deliver(w)
    else if s.s3 == Selecting then Receive(w)
    else Stage3Next(s.s3)
  }

  lemma BringStep(c: Config, s: State, w: nat)
    requires c.want >= 1 && Sound(c, s) && Lacking(c, s) && w < |s.ws| && Busy(s.ws[w])
    ensures Step(c, s, Bring(s, w)).Some?
    ensures var t := Step(c, s, Bring(s, w)).value;
      && t.handed == s.handed && t.s1 == s.s1 && |t.ws| == |s.ws|
      && if Busy(t.ws[w]) then
           Lacking(c, t) && (BusyLeft(t, w) < BusyLeft(s, w)
             || (t.ws == s.ws && t.jobs == s.jobs && Stage3Left(t.s3) < Stage3Left(s.s3)))
         else Bring(s, w) == Receive(w)
  {
    if s.ws[w].Waiting? {
      WaitingHasJob(c, s, w);
      var t := Step(c, s, Bring(s, w)).value;
      assert t.s3 == s.s3 && t.results == s.results && t.want == s.want && t.lcnt == s.lcnt;
    }
  }

  /** The result that was awaited has come: there is hope again. */
  lemma ReceivedHope(c: Config, s: State, w: nat)
    requires c.want >= 1 && Sound(c, s) && Lacking(c, s) && Step(c, s, Receive(w)).Some?
    ensures Hope(c, Step(c, s, Receive(w)).value)
  {
    var t := Step(c, s, Receive(w)).value;
    assert t.ws[w] == Idle;
  }

  /** A busy worker brings its result. */
  lemma {:induction false} BusyReturns(c: Config, s: State, w: nat)
    requires c.want >= 1 && Sound(c, s) && Lacking(c, s) && w < |s.ws| && Busy(s.ws[w])
    ensures CanReturn(c, s)
    decreases ToHand(c, s), InFlight(s.ws), Stage1Left(s.s1), BusyLeft(s, w), Stage3Left(s.s3)
  {
    var a := Bring(s, w);
    BringStep(c, s, w);
    SoundStep(c, s, a);
    InFlightStep(c, s, a);
    var t := Step(c, s, a).value;
    if Busy(t.ws[w]) {
      BusyReturns(c, t, w);
    } else {
      ReceivedHope(c, s, w);
      HopeReturns(c, t);
    }
    ReturnsAfter(c, s, a);
  }

  // ---------- without hope ----------

  /** No step brings hope back. */
  lemma HopelessKept(c: Config, s: State, a: Action)
    requires c.want >= 1 && Sound(c, s) && !Hope(c, s) && Step(c, s, a).Some?
    ensures !Hope(c, Step(c, s, a).value)
  {
    var t := Step(c, s, a).value;
    ActorStep(c, s, a);
    forall w | 0 <= w < |s.ws| ensures !Busy(s.ws[w]) && (t.ws[w] == Idle ==> s.ws[w] == Idle) {
    }
  }

  lemma {:induction false} NeverReturns(c: Config, s: State, more: seq<Action>)
    requires c.want >= 1 && Sound(c, s) && !Hope(c, s) && ExecFrom(c, s, more).Some?
    ensures ExecFrom(c, s, more).value.s3 != Returned
    decreases |more|
  {
    if more != [] {
      SoundStep(c, s, more[0]);
      HopelessKept(c, s, more[0]);
      NeverReturns(c, Step(c, s, more[0]).value, more[1..]);
    }
  }

  /** After any run, stage 3 can still return if and only if there is hope; without hope it never will. */
  lemma CanReturnIff(c: Config, acts: seq<Action>)
    requires c.want >= 1 && Exec(c, acts).Some?
    ensures CanReturn(c, Exec(c, acts).value) <==> Hope(c, Exec(c, acts).value)
  {
    var s := Exec(c, acts).value;
    RunIsSound(c, acts);
    if Hope(c, s) {
      HopeReturns(c, s);
    } else if CanReturn(c, s) {
      var more :| ExecFrom(c, s, more).Some? && ExecFrom(c, s, more).value.s3 == Returned;
      NeverReturns(c, s, more);
    }
  }

  // ---------- which configurations can get stuck ----------

  /** The first i workers have timed out on the first i packets, and nothing else has happened. */
  predicate TimedOutTo(c: Config, s: State, i: nat) {
    && s.s1 == Loading && s.lcnt == i == |s.handed| && s.s3 == Selecting && s.results == [] && s.want == c.want
    && |s.ws| == c.workers && i <= c.workers
    && forall w :: 0 <= w < |s.ws| ==> s.ws[w] == if w < i then Ended else Idle
  }

  lemma {:induction false} TimeAllOut(c: Config, i: nat) returns (s: State)
    requires i <= c.workers && i <= c.packets
    ensures Reached(c, s) && TimedOutTo(c, s, i)
  {
    if i == 0 {
      s := Init(c);
      Start(c);
    } else {
      var r := TimeAllOut(c, i - 1);
      Hand(c, r, i - 1);
      var h := Handed(r, i - 1);
      Then(c, h, Timeout(i - 1));
      var o := Step(c, h, Timeout(i - 1)).value;
      Then(c, o, Decrement(i - 1));
      s := Step(c, o, Decrement(i - 1)).value;
    }
  }

  /** Some run gets stuck, so that stage 3 never returns whatever happens next, if and only if results are
      not collected or there are fewer workers than packets: timeouts can use up all workers. */
  lemma CanHangIff(c: Config)
    requires c.want >= 1 && c.packets >= 1 && c.workers >= 1
    ensures (exists acts :: Exec(c, acts).Some? && !CanReturn(c, Exec(c, acts).value))
       <==> !c.collect || c.workers < c.packets
  {
    if !c.collect || c.workers < c.packets {
      var s := TimeAllOut(c, if c.workers < c.packets then c.workers else c.packets);
      var acts :| Exec(c, acts) == Some(s);
      CanReturnIff(c, acts);
    }
    if acts :| Exec(c, acts).Some? && !CanReturn(c, Exec(c, acts).value) {
      CanReturnIff(c, acts);
      RunIsSound(c, acts);
      TimeoutsEndWorkers(c, acts);
      if c.collect && c.workers >= c.packets {
        AllUsedUp(c, Exec(c, acts).value);
      }
    }
  }

  lemma {:induction false} NoneIdle(ws: seq<Worker>)
    requires forall w :: 0 <= w < |ws| ==> Holding(ws[w]) || ws[w] == Ended
    ensures InFlight(ws) + EndedCount(ws) == |ws|
  {
    if ws != [] { NoneIdle(ws[1..]); }
  }

  /** With a worker for every packet, all packets are handed over before all workers have timed out. */
  lemma AllUsedUp(c: Config, s: State)
    requires c.want >= 1 && Sound(c, s) && EndsCounted(s) && c.collect && c.workers >= c.packets
    ensures Hope(c, s)
  {
    if !Hope(c, s) {
      forall w | 0 <= w < |s.ws| ensures Holding(s.ws[w]) || s.ws[w] == Ended {
        assert !Busy(s.ws[w]) && s.ws[w] != Idle;
      }
      NoneIdle(s.ws);
      assert false;
    }
  }
}
