/** How the goroutines of distrib/main.go end: a timeout costs a worker and leaves its packet's goroutine
    waiting, and once the channel fin is closed all of them can end. */
module DistribEnds {

  import opened Wrappers
  import opened Distrib
  import opened DistribRuns

  // ---------- what a timeout costs ----------

  /** The workers that have left their loop: one for each timeout and for each dropped packet, and before
      fin is closed no others. */
  predicate EndsCounted(s: State) {
    && |s.timedOut| + |s.flushed| <= EndedCount(s.ws)
    && (!s.fin ==> |s.timedOut| == EndedCount(s.ws))
  }

  lemma EndsKept(c: Config, s: State, a: Action)
    requires EndsCounted(s) && (!s.fin ==> s.flushed == []) && Step(c, s, a).Some?
    ensures EndsCounted(Step(c, s, a).value)
  {
    var t := Step(c, s, a).value;
    ActorStep(c, s, a);
    match Actor(a)
    case None => SameLists(c, s, a);
    case Some(w) =>
      EndedUpdate(s.ws, w, t.ws[w]);
      ListLengths(c, s, a, w);
  }

  /** A worker ends with the packet it is counted for, or idle because fin is closed. */
  lemma ListLengths(c: Config, s: State, a: Action, w: nat)
    requires Step(c, s, a).Some? && Actor(a) == Some(w)
    ensures var t := Step(c, s, a).value;
      && w < |s.ws| == |t.ws| && t.fin == s.fin && s.ws[w] != Ended
      && (t.ws[w] == Ended ==> a.Decrement? || s.fin)
      && |t.timedOut| == |s.timedOut| + One(a.Decrement?)
      && |t.flushed| <= |s.flushed| + One(a.WorkerFin?)
      && (a.Decrement? || a.WorkerFin? ==> t.ws[w] == Ended)
  {}

  /** In every interleaving each timeout and each packet dropped at the end has ended a worker for good:
      there are never more of them than workers. */
  lemma {:induction false} TimeoutsEndWorkers(c: Config, acts: seq<Action>)
    requires c.want >= 1 && Exec(c, acts).Some?
    ensures var s := Exec(c, acts).value;
      && |s.timedOut| + |s.flushed| <= EndedCount(s.ws) <= c.workers
      && (!s.fin ==> |s.timedOut| == EndedCount(s.ws))
  {
    RunKeepsInv(c, acts);
    if acts == [] {
      NoneEnded(Init(c).ws);
    } else {
      var n := |acts| - 1;
      TimeoutsEndWorkers(c, acts[..n]);
      RunKeepsInv(c, acts[..n]);
      EndsKept(c, Exec(c, acts[..n]).value, acts[n]);
    }
  }

  /** A worker that has ended never moves again. */
  lemma EndedForGood(c: Config, s: State, a: Action, w: nat)
    requires w < |s.ws| && s.ws[w] == Ended && Step(c, s, a).Some?
    ensures |Step(c, s, a).value.ws| == |s.ws| && Step(c, s, a).value.ws[w] == Ended
  {
    ActorStep(c, s, a);
  }

  // ---------- what a timeout leaves behind ----------

  predicate OnItsWay(s: State, p: nat) {
    p in s.results || exists w :: 0 <= w < |s.ws| && s.ws[w] == Sending(p)
  }

  /** Until fin is closed, only a packet that was delivered has no goroutine any more. */
  predicate JobsStay(s: State) {
    !s.fin ==> forall p :: p in s.jobs && s.jobs[p].Gone? ==> OnItsWay(s, p)
  }

  lemma JobsStayKept(c: Config, s: State, a: Action)
    requires JobsStay(s) && Step(c, s, a).Some?
    ensures JobsStay(Step(c, s, a).value)
  {
    var t := Step(c, s, a).value;
    if !t.fin {
      forall p | p in t.jobs && t.jobs[p].Gone? ensures OnItsWay(t, p) {
        GoneStep(c, s, a, p);
      }
    }
  }

  lemma GoneStep(c: Config, s: State, a: Action, p: nat)
    requires JobsStay(s) && Step(c, s, a).Some? && !Step(c, s, a).value.fin
    requires p in Step(c, s, a).value.jobs && Step(c, s, a).value.jobs[p].Gone?
    ensures OnItsWay(Step(c, s, a).value, p)
  {
    var t := Step(c, s, a).value;
    if a.Deliver? && s.ws[a.w].p == p {
      assert t.ws[a.w] == Sending(p);
    } else {
      assert p in s.jobs && s.jobs[p].Gone?;
      if p !in s.results {
        var w :| 0 <= w < |s.ws| && s.ws[w] == Sending(p);
        ActorStep(c, s, a);
        if a == Receive(w) {
          assert t.results[|s.results|] == p;
        } else {
          assert t.ws[w] == Sending(p);
        }
      } else {
        var i :| 0 <= i < |s.results| && s.results[i] == p;
        assert t.results[i] == p;
      }
    }
  }

  /** A timed-out packet's goroutine is never relieved before fin is closed. */
  lemma {:induction false} TimedOutJobStays(c: Config, acts: seq<Action>, p: nat)
    requires c.want >= 1 && Exec(c, acts).Some?
    ensures JobsStay(Exec(c, acts).value)
    ensures var s := Exec(c, acts).value;
      !s.fin && Count(s.timedOut, p) > 0 ==> p in s.jobs && !s.jobs[p].Gone?
  {
    if acts != [] {
      var n := |acts| - 1;
      TimedOutJobStays(c, acts[..n], p);
      JobsStayKept(c, Exec(c, acts[..n]).value, acts[n]);
    }
    RunKeepsInv(c, acts);
    OnePlace(c, acts, p);
    var s := Exec(c, acts).value;
    if OnItsWay(s, p) {
      OnItsWayCounts(s, p);
    }
  }

  lemma OnItsWayCounts(s: State, p: nat)
    requires OnItsWay(s, p)
    ensures HeldCount(s.ws, p) + Count(s.results, p) > 0
  {
    if p in s.results {
      InCounts(s.results, p);
    } else {
      var w :| 0 <= w < |s.ws| && s.ws[w] == Sending(p);
      HeldCounts(s.ws, w, p);
    }
  }

  lemma {:induction false} InCounts(q: seq<nat>, p: nat)
    requires p in q
    ensures Count(q, p) > 0
  {
    if q[|q| - 1] != p { InCounts(q[..|q| - 1], p); }
  }

  lemma {:induction false} HeldCounts(ws: seq<Worker>, w: nat, p: nat)
    requires w < |ws| && Holds(ws[w], p)
    ensures HeldCount(ws, p) > 0
  {
    if w > 0 { HeldCounts(ws[1..], w - 1, p); }
  }

  // ---------- after fin is closed ----------

  /** Every goroutine has ended. */
  predicate AllEnded(s: State) {
    && s.s1 == Stopped && (forall w :: 0 <= w < |s.ws| ==> s.ws[w] == Ended)
    && forall p :: p in s.jobs ==> s.jobs[p].Gone?
  }

  /** The state after these further steps. */
  function ExecFrom(c: Config, s: State, acts: seq<Action>): Option<State>
    decreases |acts|
  {
    if acts == [] then Some(s)
    else match Step(c, s, acts[0])
      case None => None
      case Some(t) => ExecFrom(c, t, acts[1..])
  }

  /** Some further steps end every goroutine. */
  ghost predicate CanEnd(c: Config, s: State) {
    exists acts :: ExecFrom(c, s, acts).Some? && AllEnded(ExecFrom(c, s, acts).value)
  }

  lemma EndsAfter(c: Config, s: State, a: Action)
    requires Step(c, s, a).Some? && CanEnd(c, Step(c, s, a).value)
    ensures CanEnd(c, s)
  {
    var acts :| ExecFrom(c, Step(c, s, a).value, acts).Some? && AllEnded(ExecFrom(c, Step(c, s, a).value, acts).value);
    assert ([a] + acts)[1..] == acts;
    assert ExecFrom(c, s, [a] + acts) == ExecFrom(c, Step(c, s, a).value, acts);
  }

  /** The worker's next step once fin is closed. */
  function WorkerNext(w: Worker, i: nat): Action
    requires w != Ended
  {
    match w
    case Waiting(_) => Timeout(i)
    case TimedOut(_) => Decrement(i)
    case _ => WorkerFin(i)
  }

  function WorkerLeft(w: Worker): nat { if w.Waiting? then 2 else if w == Ended then 0 else 1 }

  function JobLeft(s: State, p: nat): nat {
    if p !in s.jobs || s.jobs[p].Gone? then 0 else if s.jobs[p].Working? then 2 else 1
  }

  /** The jobs are those of the first n packets; those below j have ended. */
  predicate JobsTo(s: State, j: nat, n: nat) {
    && (forall p: nat :: p in s.jobs ==> p < n)
    && (forall p: nat :: p < j && p in s.jobs ==> s.jobs[p].Gone?)
  }

  predicate WorkersTo(s: State, i: nat) {
    i <= |s.ws| && forall w :: 0 <= w < i ==> s.ws[w] == Ended
  }

  /** First stage 1 comes to its end, ... */
  lemma {:induction false} Stage1Ends(c: Config, s: State, left: nat)
    requires s.fin && left == Stage1Left(s.s1)
    requires forall p: nat :: p in s.jobs ==> p < c.packets
    ensures CanEnd(c, s)
    decreases left
  {
    if s.s1 == Stopped {
      WorkersEnd(c, s, 0);
    } else {
      var a := Stage1Next(s);
      var t := Step(c, s, a).value;
      Stage1Ends(c, t, Stage1Left(t.s1));
      EndsAfter(c, s, a);
    }
  }

  /** Stage 1's next step, with fin closed. */
  function Stage1Next(s: State): Action {
    match s.s1
    case Loading => LoadLcnt
    case Offering(_) => Stage1Fin
    case HandedOver => AddLcnt
    case LcntAdded => AddSent
    case Exhausted => StoreWant
    case Stopped => LoadLcnt
  }

  function Stage1Left(s1: Stage1): nat {
    match s1
    case HandedOver => 5
    case LcntAdded => 4
    case Loading => 3
    case Offering(_) => 1
    case Exhausted => 1
    case Stopped => 0
  }

  /** ... then the workers one by one, ... */
  lemma {:induction false} WorkersEnd(c: Config, s: State, i: nat)
    requires s.fin && s.s1 == Stopped && WorkersTo(s, i)
    requires forall p: nat :: p in s.jobs ==> p < c.packets
    ensures CanEnd(c, s)
    decreases |s.ws| - i, if i < |s.ws| then WorkerLeft(s.ws[i]) else 0
  {
    if i == |s.ws| {
      JobsEnd(c, s, 0);
    } else if s.ws[i] == Ended {
      WorkersEnd(c, s, i + 1);
    } else {
      var a := WorkerNext(s.ws[i], i);
      var t := Step(c, s, a).value;
      WorkersEnd(c, t, i);
      EndsAfter(c, s, a);
    }
  }

  /** ... and then the goroutines around the packets. */
  lemma {:induction false} JobsEnd(c: Config, s: State, j: nat)
    requires s.fin && s.s1 == Stopped && WorkersTo(s, |s.ws|) && JobsTo(s, j, c.packets) && j <= c.packets
    ensures CanEnd(c, s)
    decreases c.packets - j, JobLeft(s, j)
  {
    if j == c.packets {
      assert ExecFrom(c, s, []) == Some(s);
    } else if JobLeft(s, j) == 0 {
      JobsEnd(c, s, j + 1);
    } else {
      var a := if s.jobs[j].Working? then Work(j) else JobFin(j);
      var t := Step(c, s, a).value;
      JobsEnd(c, t, j);
      EndsAfter(c, s, a);
    }
  }

  /** Once stage 3 has returned, every goroutine left can end, whatever the run has been. */
  lemma EverythingCanEnd(c: Config, acts: seq<Action>)
    requires c.want >= 1 && Exec(c, acts).Some? && Exec(c, acts).value.s3 == Returned
    ensures CanEnd(c, Exec(c, acts).value)
  {
    RunKeepsInv(c, acts);
    Stage1Ends(c, Exec(c, acts).value, Stage1Left(Exec(c, acts).value.s1));
  }
}
