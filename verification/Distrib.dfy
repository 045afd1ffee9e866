/** The three-stage pipeline of distrib/main.go as a state machine: one step is one channel
    rendezvous or one atomic load, add or store; which goroutine moves next is left open. */
module Distrib {

  import opened Wrappers

  /** The run's fixed data: number of packets, of workers after curtailing, Options.Want,
      CollectRemainder. */
  datatype Config = Config(packets: nat, workers: nat, want: int, collect: bool)

  datatype Stage1 =
    | Loading              // about to load lcnt
    | Offering(idx: nat)   // in the select: hand packets[idx] over, or see fin
    | HandedOver           // about to add 1 to lcnt
    | LcntAdded            // about to add 1 to sent
    | Exhausted            // about to store 0 into Want
    | Stopped

  datatype Worker =
    | Idle                 // in the select on inn
    | Waiting(p: nat)      // its work goroutine competes with the timeout
    | Sending(p: nat)      // in the select on out
    | TimedOut(p: nat)     // about to subtract 1 from sent
    | Ended

  /** The goroutine wrapped around one packet's Work. */
  datatype Job = Working(w: nat) | Finished(w: nat) | Gone

  datatype Stage3 =
    | Selecting
    | TickWant             // ticked: about to load Want
    | TickSent             // recv >= Want seen: about to load sent
    | Received             // a packet was appended: about to load Want
    | Stopping             // about to store -10 into lcnt
    | Flushing             // about to close fin, abandoning the rest
    | Closing              // left the loop on a tick: about to close fin
    | Returned

  datatype State = State(
    lcnt: int, sent: int, want: int, fin: bool,
    s1: Stage1, ws: seq<Worker>, s3: Stage3,
    jobs: map<nat, Job>,
    worked: map<nat, nat>,      // which worker's goroutine has completed Work on a packet
    handed: seq<nat>,           // packets received by workers from inn, in order
    results: seq<nat>,          // packets appended by stage 3; recv is its length
    timedOut: seq<nat>,         // packets whose timeout was subtracted from sent
    flushed: seq<nat>)          // packets a worker dropped because fin was closed

  datatype Action =
    | LoadLcnt | StoreWant | HandOver(w: nat) | AddLcnt | AddSent | Stage1Fin
    | WorkerFin(w: nat) | Work(p: nat) | Deliver(w: nat) | Timeout(w: nat) | Decrement(w: nat) | JobFin(p: nat)
    | Receive(w: nat) | Tick | LoadWantOnTick | LoadSentOnTick | LoadWant | StoreStop | CloseFin

  function Init(c: Config): State {
    State(0, 0, c.want, false, Loading, seq(c.workers, _ => Idle), Selecting, map[], map[], [], [], [], [])
  }

  function Step(c: Config, s: State, a: Action): Option<State> {
    match a
    // ----- stage 1 -----
    case LoadLcnt =>
      if s.s1 != Loading then None
      else if s.lcnt > c.packets - 1 then Some(s.(s1 := Exhausted))
      else if s.lcnt < 0 then Some(s.(s1 := Stopped))
      else Some(s.(s1 := Offering(s.lcnt)))
    case StoreWant =>
      if s.s1 != Exhausted then None else Some(s.(want := 0, s1 := Stopped))
    case HandOver(w) =>
      if !(s.s1.Offering? && w < |s.ws| && s.ws[w] == Idle) then None
      else
        var p := s.s1.idx;
        Some(s.(s1 := HandedOver, ws := s.ws[w := Waiting(p)], jobs := s.jobs[p := Working(w)],
                handed := s.handed + [p]))
    case AddLcnt =>
      if s.s1 != HandedOver then None else Some(s.(lcnt := s.lcnt + 1, s1 := LcntAdded))
    case AddSent =>
      if s.s1 != LcntAdded then None else Some(s.(sent := s.sent + 1, s1 := Loading))
    case Stage1Fin =>
      if !(s.s1.Offering? && s.fin) then None else Some(s.(s1 := Stopped))
    // ----- stage 2 -----
    case WorkerFin(w) =>
      if !(w < |s.ws| && s.fin) then None
      else if s.ws[w] == Idle then Some(s.(ws := s.ws[w := Ended]))
      else if s.ws[w].Sending? then Some(s.(ws := s.ws[w := Ended], flushed := s.flushed + [s.ws[w].p]))
      else None
    case Work(p) =>
      if !(p in s.jobs && s.jobs[p].Working?) then None
      else Some(s.(jobs := s.jobs[p := Finished(s.jobs[p].w)], worked := s.worked[p := s.jobs[p].w]))
    case Deliver(w) =>
      if !(w < |s.ws| && s.ws[w].Waiting?) then None
      else
        var p := s.ws[w].p;
        if !(p in s.jobs && s.jobs[p].Finished?) then None
        else Some(s.(ws := s.ws[w := Sending(p)], jobs := s.jobs[p := Gone]))
    case Timeout(w) =>
      if !(w < |s.ws| && s.ws[w].Waiting?) then None
      else Some(s.(ws := s.ws[w := TimedOut(s.ws[w].p)]))
    case Decrement(w) =>
      if !(w < |s.ws| && s.ws[w].TimedOut?) then None
      else Some(s.(sent := s.sent - 1, ws := s.ws[w := Ended], timedOut := s.timedOut + [s.ws[w].p]))
    case JobFin(p) =>
      if !(p in s.jobs && s.jobs[p].Finished? && s.fin) then None
      else Some(s.(jobs := s.jobs[p := Gone]))
    // ----- stage 3 -----
    case Receive(w) =>
      if !(s.s3 == Selecting && w < |s.ws| && s.ws[w].Sending?) then None
      else Some(s.(s3 := Received, ws := s.ws[w := Idle], results := s.results + [s.ws[w].p]))
    case Tick =>
      if s.s3 != Selecting then None else Some(if c.collect then s.(s3 := TickWant) else s)
    case LoadWantOnTick =>
      if s.s3 != TickWant then None
      else Some(s.(s3 := if |s.results| >= s.want then TickSent else Selecting))
    case LoadSentOnTick =>
      if s.s3 != TickSent then None
      else Some(s.(s3 := if |s.results| >= s.sent then Closing else Selecting))
    case LoadWant =>
      if s.s3 != Received then None
      else Some(s.(s3 := if |s.results| >= s.want then Stopping else Selecting))
    case StoreStop =>
      if s.s3 != Stopping then None
      else Some(s.(lcnt := -10, s3 := if c.collect then Selecting else Flushing))
    case CloseFin =>
      if !(s.s3 == Flushing || s.s3 == Closing) then None
      else Some(s.(fin := true, s3 := Returned))
  }

  /** The state after these steps in this order; None when one of them is not possible. */
  function Exec(c: Config, acts: seq<Action>): Option<State> {
    if acts == [] then Some(Init(c))
    else match Exec(c, acts[..|acts| - 1])
      case None => None
      case Some(s) => Step(c, s, acts[|acts| - 1])
  }

  // ---------- where packets are ----------

  predicate Holds(w: Worker, p: nat) {
    (w.Waiting? || w.Sending? || w.TimedOut?) && w.p == p
  }

  predicate Holding(w: Worker) { w.Waiting? || w.Sending? || w.TimedOut? }

  function One(b: bool): nat { if b then 1 else 0 }

  /** How many workers hold packet p. */
  function HeldCount(ws: seq<Worker>, p: nat): nat {
    if ws == [] then 0 else One(Holds(ws[0], p)) + HeldCount(ws[1..], p)
  }

  /** How many workers hold a packet. */
  function InFlight(ws: seq<Worker>): (n: nat)
    ensures n <= |ws|
  {
    if ws == [] then 0 else One(Holding(ws[0])) + InFlight(ws[1..])
  }

  function Count(q: seq<nat>, p: nat): nat {
    if q == [] then 0 else Count(q[..|q| - 1], p) + One(q[|q| - 1] == p)
  }

  lemma {:induction false} HeldUpdate(ws: seq<Worker>, i: nat, w: Worker, p: nat)
    requires i < |ws|
    ensures HeldCount(ws[i := w], p) == HeldCount(ws, p) - One(Holds(ws[i], p)) + One(Holds(w, p))
  {
    if i == 0 {
      assert ws[i := w][1..] == ws[1..];
    } else {
      HeldUpdate(ws[1..], i - 1, w, p);
      assert ws[i := w][1..] == ws[1..][i - 1 := w];
    }
  }

  lemma {:induction false} InFlightUpdate(ws: seq<Worker>, i: nat, w: Worker)
    requires i < |ws|
    ensures InFlight(ws[i := w]) == InFlight(ws) - One(Holding(ws[i])) + One(Holding(w))
  {
    if i == 0 {
      assert ws[i := w][1..] == ws[1..];
    } else {
      InFlightUpdate(ws[1..], i - 1, w);
      assert ws[i := w][1..] == ws[1..][i - 1 := w];
    }
  }

  lemma {:induction false} NoneHeld(ws: seq<Worker>, p: nat)
    requires forall i :: 0 <= i < |ws| ==> ws[i] == Idle
    ensures HeldCount(ws, p) == 0 && InFlight(ws) == 0
  {
    if ws != [] { NoneHeld(ws[1..], p); }
  }

  /** How many workers have left their loop. */
  function EndedCount(ws: seq<Worker>): (n: nat)
    ensures n <= |ws|
  {
    if ws == [] then 0 else One(ws[0] == Ended) + EndedCount(ws[1..])
  }

  lemma {:induction false} EndedUpdate(ws: seq<Worker>, i: nat, w: Worker)
    requires i < |ws|
    ensures EndedCount(ws[i := w]) == EndedCount(ws) - One(ws[i] == Ended) + One(w == Ended)
  {
    if i == 0 {
      assert ws[i := w][1..] == ws[1..];
    } else {
      EndedUpdate(ws[1..], i - 1, w);
      assert ws[i := w][1..] == ws[1..][i - 1 := w];
    }
  }

  lemma {:induction false} NoneEnded(ws: seq<Worker>)
    requires forall i :: 0 <= i < |ws| ==> ws[i] == Idle
    ensures EndedCount(ws) == 0
  {
    if ws != [] { NoneEnded(ws[1..]); }
  }

  /** In how many places packet p is. */
  function Places(s: State, p: nat): nat {
    HeldCount(s.ws, p) + Count(s.results, p) + Count(s.timedOut, p) + Count(s.flushed, p)
  }

  /** Every packet is in as many places as it was handed over. */
  ghost predicate Conserved(s: State) {
    && (forall p: nat :: Count(s.handed, p) == Places(s, p))
    && |s.handed| == InFlight(s.ws) + |s.results| + |s.timedOut| + |s.flushed|
  }

  predicate FirstNaturals(q: seq<nat>) { forall i :: 0 <= i < |q| ==> q[i] == i }

  /** Between handing over and counting. */
  function Uncounted(s1: Stage1): nat { if s1 == HandedOver || s1 == LcntAdded then 1 else 0 }

  function CanStillHand(s1: Stage1): nat { if s1.Offering? then 1 else 0 }

  /** Handed over, but neither returned nor timed out. */
  function Unaccounted(s: State): int { |s.handed| - |s.results| - |s.timedOut| }

  predicate Stop(l: int) { l == -10 || l == -9 }

  /** Stage 1's program counter, its packets in order, and the load counter it races for. */
  predicate Stage1Ok(c: Config, s: State) {
    && FirstNaturals(s.handed) && |s.handed| <= c.packets
    && (s.lcnt < 0 ==> Stop(s.lcnt))
    && match s.s1
       case Loading => s.lcnt == |s.handed| || Stop(s.lcnt)
       case Offering(idx) => idx == |s.handed| && idx < c.packets && (s.lcnt == idx || s.lcnt == -10)
       case HandedOver => s.lcnt == |s.handed| - 1 >= 0 || s.lcnt == -10
       case LcntAdded => s.lcnt == |s.handed| || Stop(s.lcnt)
       case Exhausted => |s.handed| == c.packets
       case Stopped => true
  }

  /** The counters. */
  predicate CountersOk(c: Config, s: State) {
    && s.sent == |s.handed| - |s.timedOut| - Uncounted(s.s1)
    && (s.want == c.want || s.want == 0)
    && (s.want == 0 ==> s.s1 == Stopped && |s.handed| == c.packets)
    && (s.fin <==> s.s3 == Returned)
    && (!s.fin ==> s.flushed == [])
  }

  /** Stage 1 will not load a usable index again. */
  predicate Halted(s: State) { s.lcnt < 0 || s.s1 == Stopped || s.s1 == Exhausted }

  predicate Enough(c: Config, s: State) { |s.results| >= c.want || s.want == 0 }

  /** What stage 3 has seen. */
  predicate Stage3Ok(c: Config, s: State) {
    && (|s.results| >= c.want && s.s3 != Received && s.s3 != Stopping ==> s.lcnt < 0)
    && (s.s3 == Stopping || s.s3 == TickSent || s.s3 == Flushing || s.s3 == Closing || s.s3 == Returned
        ==> Enough(c, s))
    && (s.s3 == TickWant || s.s3 == TickSent || s.s3 == Closing ==> c.collect)
    && (s.s3 == Flushing ==> !c.collect)
    && (!c.collect ==> (|s.results| < c.want
          || (|s.results| == c.want && s.s3 != Selecting && s.s3 != TickWant && s.s3 != TickSent)))
    && (c.collect && (s.s3 == Closing || s.s3 == Returned) ==>
          && Halted(s)
          && Unaccounted(s) + CanStillHand(s.s1) <= 1
          && (|s.results| >= c.want || Unaccounted(s) <= 0))
  }

  /** The number of results to come is bounded once the stop signal is out. */
  predicate Bounded(c: Config, s: State) {
    || |s.results| < c.want
    || (|s.results| == c.want && (s.s3 == Received || s.s3 == Stopping))
    || (Halted(s) && |s.results| + InFlight(s.ws) + CanStillHand(s.s1) <= c.want + c.workers + 1)
  }

  /** Work is done exactly once, by the goroutine of the worker that holds the packet. */
  ghost predicate JobsOk(c: Config, s: State) {
    && |s.ws| == c.workers
    && (forall p: nat :: p in s.jobs <==> p < |s.handed|)
    && (forall p :: p in s.worked ==> p in s.jobs && !s.jobs[p].Working?)
    && (forall p :: p in s.jobs && s.jobs[p].Finished? ==> p in s.worked && s.worked[p] == s.jobs[p].w)
    && (forall w :: 0 <= w < |s.ws| && s.ws[w].Waiting? ==>
          s.ws[w].p in s.jobs && (s.jobs[s.ws[w].p].Gone? || s.jobs[s.ws[w].p].w == w))
    && (forall w :: 0 <= w < |s.ws| && s.ws[w].Sending? ==>
          s.ws[w].p in s.worked && s.worked[s.ws[w].p] == w)
    && (forall k :: 0 <= k < |s.results| ==> s.results[k] in s.worked)
  }

  ghost predicate Inv(c: Config, s: State) {
    && Conserved(s) && JobsOk(c, s)
    && Stage1Ok(c, s) && CountersOk(c, s) && Stage3Ok(c, s) && Bounded(c, s)
  }
}
