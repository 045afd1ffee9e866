/** What holds in every state of every run of the pipeline, whatever the interleaving. */
module DistribRuns {
  import opened Wrappers
  import opened Distrib

  lemma InitOk(c: Config)
    requires c.want >= 1
    ensures Inv(c, Init(c))
  {
    var s := Init(c);
    forall p: nat ensures Count(s.handed, p) == Places(s, p) { NoneHeld(s.ws, p); }
    NoneHeld(s.ws, 0);
  }

  /** The worker whose state an action changes, if any. */
  function Actor(a: Action): Option<nat> {
    match a
    case HandOver(w) => Some(w)
    case WorkerFin(w) => Some(w)
    case Deliver(w) => Some(w)
    case Timeout(w) => Some(w)
    case Decrement(w) => Some(w)
    case Receive(w) => Some(w)
    case _ => None
  }

  lemma ActorStep(c: Config, s: State, a: Action)
    requires Step(c, s, a).Some?
    ensures match Actor(a)
      case None => Step(c, s, a).value.ws == s.ws
      case Some(w) =>
        && w < |s.ws|
        && |Step(c, s, a).value.ws| == |s.ws|
        && Step(c, s, a).value.ws == s.ws[w := Step(c, s, a).value.ws[w]]
  {}

  lemma InFlightStep(c: Config, s: State, a: Action)
    requires Step(c, s, a).Some?
    ensures var t := Step(c, s, a).value;
      InFlight(t.ws) == match Actor(a)
        case None => InFlight(s.ws)
        case Some(w) => InFlight(s.ws) - One(Holding(s.ws[w])) + One(Holding(t.ws[w]))
  {
    ActorStep(c, s, a);
    match Actor(a)
    case None =>
    case Some(w) => InFlightUpdate(s.ws, w, Step(c, s, a).value.ws[w]);
  }

  lemma CountAppend(q: seq<nat>, x: nat, p: nat)
    ensures Count(q + [x], p) == Count(q, p) + One(x == p)
  {
    assert (q + [x])[..|q|] == q;
  }

  /** The count of p in each list moves with the worker that moves it. */
  lemma PlacesKept(c: Config, s: State, a: Action, p: nat)
    requires Step(c, s, a).Some? && Count(s.handed, p) == Places(s, p)
    ensures var t := Step(c, s, a).value; Count(t.handed, p) == Places(t, p)
  {
    ActorStep(c, s, a);
    match Actor(a)
    case None => SameLists(c, s, a);
    case Some(w) =>
      HeldUpdate(s.ws, w, Step(c, s, a).value.ws[w], p);
      ListsMove(c, s, a, w, p);
  }

  lemma SameLists(c: Config, s: State, a: Action)
    requires Step(c, s, a).Some? && Actor(a).None?
    ensures var t := Step(c, s, a).value;
      && t.ws == s.ws && t.handed == s.handed && t.results == s.results
      && t.timedOut == s.timedOut && t.flushed == s.flushed
  {}

  function Listed(s: State, p: nat): int {
    Count(s.results, p) + Count(s.timedOut, p) + Count(s.flushed, p) - Count(s.handed, p)
  }

  predicate Moved(s: State, t: State, w: nat, p: nat)
    requires w < |s.ws| && w < |t.ws|
  {
    Listed(t, p) - Listed(s, p) == One(Holds(s.ws[w], p)) - One(Holds(t.ws[w], p))
  }

  lemma HandOverMoves(c: Config, s: State, w: nat, p: nat)
    requires Step(c, s, HandOver(w)).Some?
    ensures var t := Step(c, s, HandOver(w)).value; w < |s.ws| == |t.ws| && Moved(s, t, w, p)
  {
    var t := Step(c, s, HandOver(w)).value;
    CountAppend(s.handed, s.s1.idx, p);
    assert t.handed == s.handed + [s.s1.idx] && t.ws[w] == Waiting(s.s1.idx);
    assert t.results == s.results && t.timedOut == s.timedOut && t.flushed == s.flushed;
  }

  lemma WorkerFinMoves(c: Config, s: State, w: nat, p: nat)
    requires Step(c, s, WorkerFin(w)).Some?
    ensures var t := Step(c, s, WorkerFin(w)).value; w < |s.ws| == |t.ws| && Moved(s, t, w, p)
  {
    if s.ws[w].Sending? { CountAppend(s.flushed, s.ws[w].p, p); }
  }

  lemma DecrementMoves(c: Config, s: State, w: nat, p: nat)
    requires Step(c, s, Decrement(w)).Some?
    ensures var t := Step(c, s, Decrement(w)).value; w < |s.ws| == |t.ws| && Moved(s, t, w, p)
  {
    CountAppend(s.timedOut, s.ws[w].p, p);
  }

  lemma ReceiveMoves(c: Config, s: State, w: nat, p: nat)
    requires Step(c, s, Receive(w)).Some?
    ensures var t := Step(c, s, Receive(w)).value; w < |s.ws| == |t.ws| && Moved(s, t, w, p)
  {
    CountAppend(s.results, s.ws[w].p, p);
  }

  lemma ListsMove(c: Config, s: State, a: Action, w: nat, p: nat)
    requires Step(c, s, a).Some? && Actor(a) == Some(w)
    ensures var t := Step(c, s, a).value; w < |s.ws| == |t.ws| && Moved(s, t, w, p)
  {
    match a
    case HandOver(_) => HandOverMoves(c, s, w, p);
    case WorkerFin(_) => WorkerFinMoves(c, s, w, p);
    case Decrement(_) => DecrementMoves(c, s, w, p);
    case Receive(_) => ReceiveMoves(c, s, w, p);
    case Deliver(_) =>
    case Timeout(_) =>
  }

  lemma ConservedKept(c: Config, s: State, a: Action)
    requires Conserved(s) && Step(c, s, a).Some?
    ensures Conserved(Step(c, s, a).value)
  {
    var t := Step(c, s, a).value;
    forall p: nat ensures Count(t.handed, p) == Places(t, p) { PlacesKept(c, s, a, p); }
    InFlightStep(c, s, a);
  }

  lemma JobsKeptHandOver(c: Config, s: State, w: nat)
    requires JobsOk(c, s) && Stage1Ok(c, s) && Step(c, s, HandOver(w)).Some?
    ensures JobsOk(c, Step(c, s, HandOver(w)).value)
  {}

  lemma JobsKeptWork(c: Config, s: State, p: nat)
    requires JobsOk(c, s) && Step(c, s, Work(p)).Some?
    ensures JobsOk(c, Step(c, s, Work(p)).value)
  {}

  lemma JobsKeptDeliver(c: Config, s: State, w: nat)
    requires JobsOk(c, s) && Step(c, s, Deliver(w)).Some?
    ensures JobsOk(c, Step(c, s, Deliver(w)).value)
  {}

  lemma JobsKeptReceive(c: Config, s: State, w: nat)
    requires JobsOk(c, s) && Step(c, s, Receive(w)).Some?
    ensures JobsOk(c, Step(c, s, Receive(w)).value)
  {}

  lemma JobsKeptWorker(c: Config, s: State, a: Action)
    requires JobsOk(c, s) && Step(c, s, a).Some?
    requires a.WorkerFin? || a.Timeout? || a.Decrement? || a.JobFin?
    ensures JobsOk(c, Step(c, s, a).value)
  {}

  lemma JobsUntouched(c: Config, s: State, a: Action)
    requires JobsOk(c, s) && Step(c, s, a).Some?
    requires Actor(a).None? && !a.Work? && !a.JobFin?
    ensures JobsOk(c, Step(c, s, a).value)
  {
    var t := Step(c, s, a).value;
    assert t.ws == s.ws && t.jobs == s.jobs && t.worked == s.worked && t.handed == s.handed && t.results == s.results;
  }

  lemma JobsKept(c: Config, s: State, a: Action)
    requires JobsOk(c, s) && Stage1Ok(c, s) && Step(c, s, a).Some?
    ensures JobsOk(c, Step(c, s, a).value)
  {
    match a
    case HandOver(w) => JobsKeptHandOver(c, s, w);
    case Work(p) => JobsKeptWork(c, s, p);
    case Deliver(w) => JobsKeptDeliver(c, s, w);
    case Receive(w) => JobsKeptReceive(c, s, w);
    case WorkerFin(_) => JobsKeptWorker(c, s, a);
    case Timeout(_) => JobsKeptWorker(c, s, a);
    case Decrement(_) => JobsKeptWorker(c, s, a);
    case JobFin(_) => JobsKeptWorker(c, s, a);
    case _ => JobsUntouched(c, s, a);
  }

  predicate Stage1Step(a: Action) {
    a.LoadLcnt? || a.StoreWant? || a.HandOver? || a.AddLcnt? || a.AddSent? || a.Stage1Fin?
  }

  lemma Stage1KeptOthers(c: Config, s: State, a: Action)
    requires Stage1Ok(c, s) && Step(c, s, a).Some? && !Stage1Step(a)
    ensures Stage1Ok(c, Step(c, s, a).value)
  {
    var t := Step(c, s, a).value;
    assert t.s1 == s.s1 && t.handed == s.handed && (t.lcnt == s.lcnt || t.lcnt == -10);
  }

  lemma Stage1Kept(c: Config, s: State, a: Action)
    requires Stage1Ok(c, s) && Step(c, s, a).Some?
    ensures Stage1Ok(c, Step(c, s, a).value)
  {
    if !Stage1Step(a) { Stage1KeptOthers(c, s, a); }
  }

  predicate Stage3Step(a: Action) {
    a.Receive? || a.Tick? || a.LoadWantOnTick? || a.LoadSentOnTick? || a.LoadWant? || a.StoreStop? || a.CloseFin?
  }

  lemma CountersKeptStage3(c: Config, s: State, a: Action)
    requires c.want >= 1 && Stage1Ok(c, s) && CountersOk(c, s) && Stage3Ok(c, s) && Step(c, s, a).Some?
    requires Stage3Step(a)
    ensures CountersOk(c, Step(c, s, a).value)
  {
    var t := Step(c, s, a).value;
    assert t.sent == s.sent && t.want == s.want && t.s1 == s.s1 && t.handed == s.handed;
  }

  lemma CountersKept(c: Config, s: State, a: Action)
    requires c.want >= 1 && Stage1Ok(c, s) && CountersOk(c, s) && Stage3Ok(c, s) && Step(c, s, a).Some?
    ensures CountersOk(c, Step(c, s, a).value)
  {
    if Stage3Step(a) { CountersKeptStage3(c, s, a); }
  }

  lemma Stage3KeptOwn(c: Config, s: State, a: Action)
    requires c.want >= 1 && Stage1Ok(c, s) && CountersOk(c, s) && Stage3Ok(c, s) && Step(c, s, a).Some?
    requires Stage3Step(a)
    ensures Stage3Ok(c, Step(c, s, a).value)
  {}

  lemma Stage3KeptOthers(c: Config, s: State, a: Action)
    requires c.want >= 1 && Stage1Ok(c, s) && CountersOk(c, s) && Stage3Ok(c, s) && Step(c, s, a).Some?
    requires !Stage3Step(a)
    ensures Stage3Ok(c, Step(c, s, a).value)
  {
    var t := Step(c, s, a).value;
    assert t.s3 == s.s3 && t.results == s.results;
    assert s.lcnt < 0 ==> t.lcnt < 0;
  }

  lemma Stage3Kept(c: Config, s: State, a: Action)
    requires c.want >= 1 && Stage1Ok(c, s) && CountersOk(c, s) && Stage3Ok(c, s) && Step(c, s, a).Some?
    ensures Stage3Ok(c, Step(c, s, a).value)
  {
    if Stage3Step(a) { Stage3KeptOwn(c, s, a); } else { Stage3KeptOthers(c, s, a); }
  }

  predicate Accounted(c: Config, s: State) {
    JobsSize(c, s) && Stage1Ok(c, s) && CountersOk(c, s) && Stage3Ok(c, s) && Bounded(c, s)
  }

  predicate JobsSize(c: Config, s: State) { |s.ws| == c.workers }

  lemma BoundedKeptHandOver(c: Config, s: State, w: nat)
    requires c.want >= 1 && Accounted(c, s) && Step(c, s, HandOver(w)).Some?
    ensures Bounded(c, Step(c, s, HandOver(w)).value)
  {
    InFlightStep(c, s, HandOver(w));
  }

  lemma BoundedKeptStage3(c: Config, s: State, a: Action)
    requires c.want >= 1 && Accounted(c, s) && Step(c, s, a).Some? && Stage3Step(a)
    ensures Bounded(c, Step(c, s, a).value)
  {
    InFlightStep(c, s, a);
  }

  lemma BoundedKeptOthers(c: Config, s: State, a: Action)
    requires c.want >= 1 && Accounted(c, s) && Step(c, s, a).Some? && !Stage3Step(a) && !a.HandOver?
    ensures Bounded(c, Step(c, s, a).value)
  {
    InFlightStep(c, s, a);
    var t := Step(c, s, a).value;
    assert t.results == s.results && t.s3 == s.s3 && InFlight(t.ws) <= InFlight(s.ws);
  }

  lemma BoundedKept(c: Config, s: State, a: Action)
    requires c.want >= 1 && Accounted(c, s) && Step(c, s, a).Some?
    ensures Bounded(c, Step(c, s, a).value)
  {
    match a
    case HandOver(w) => BoundedKeptHandOver(c, s, w);
    case _ => if Stage3Step(a) { BoundedKeptStage3(c, s, a); } else { BoundedKeptOthers(c, s, a); }
  }

  lemma StepKeepsInv(c: Config, s: State, a: Action)
    requires c.want >= 1 && Inv(c, s) && Step(c, s, a).Some?
    ensures Inv(c, Step(c, s, a).value)
  {
    ConservedKept(c, s, a);
    JobsKept(c, s, a);
    Stage1Kept(c, s, a);
    CountersKept(c, s, a);
    Stage3Kept(c, s, a);
    BoundedKept(c, s, a);
  }

  /** The invariant holds after every run. */
  lemma {:induction false} RunKeepsInv(c: Config, acts: seq<Action>)
    requires c.want >= 1 && Exec(c, acts).Some?
    ensures Inv(c, Exec(c, acts).value)
  {
    if acts == [] {
      InitOk(c);
    } else {
      var n := |acts| - 1;
      RunKeepsInv(c, acts[..n]);
      StepKeepsInv(c, Exec(c, acts[..n]).value, acts[n]);
    }
  }

  // ---------- the theorems ----------

  lemma {:induction false} CountNaturals(q: seq<nat>, p: nat)
    requires FirstNaturals(q)
    ensures Count(q, p) == One(p < |q|)
  {
    if q != [] { CountNaturals(q[..|q| - 1], p); }
  }

  /** In every interleaving, packets are handed over once and in order, and each one handed
      over is in exactly one place: with one worker, returned, timed out or flushed. */
  lemma OnePlace(c: Config, acts: seq<Action>, p: nat)
    requires c.want >= 1 && Exec(c, acts).Some?
    ensures var s := Exec(c, acts).value;
      && Count(s.handed, p) == Places(s, p) == One(p < |s.handed|)
      && Count(s.results, p) <= 1
      && FirstNaturals(s.handed) && |s.handed| <= c.packets
  {
    RunKeepsInv(c, acts);
    CountNaturals(Exec(c, acts).value.handed, p);
  }

  /** The sent counter lags behind by the timeouts taken off it and by at most one packet
      that stage 1 has handed over and not yet counted. */
  lemma SentCount(c: Config, acts: seq<Action>)
    requires c.want >= 1 && Exec(c, acts).Some?
    ensures var s := Exec(c, acts).value;
      && s.sent == |s.handed| - |s.timedOut| - Uncounted(s.s1)
      && |s.handed| == InFlight(s.ws) + |s.results| + |s.timedOut| + |s.flushed|
  {
    RunKeepsInv(c, acts);
  }

  /** Leaving by collection: at most one packet handed over is neither returned nor timed
      out, and either the wanted results are there or every job was returned or timed out. */
  lemma CollectingExit(c: Config, acts: seq<Action>)
    requires c.want >= 1 && c.collect && Exec(c, acts).Some?
    requires var s := Exec(c, acts).value; s.s3 == Closing || s.s3 == Returned
    ensures var s := Exec(c, acts).value;
      && 0 <= Unaccounted(s) <= 1
      && (|s.results| >= c.want || |s.results| + |s.timedOut| == c.packets)
  {
    RunKeepsInv(c, acts);
  }

  /** Leaving at once instead of collecting: never more results than wanted, and fewer only
      when stage 1 had handed out every job. */
  lemma AbandoningExit(c: Config, acts: seq<Action>)
    requires c.want >= 1 && !c.collect && Exec(c, acts).Some?
    ensures var s := Exec(c, acts).value;
      && |s.results| <= c.want
      && (s.s3 == Returned ==> |s.results| == c.want || |s.handed| == c.packets)
  {
    RunKeepsInv(c, acts);
  }

  /** The racy stop signal overshoots by at most one packet per worker and one more. */
  lemma ResultBound(c: Config, acts: seq<Action>)
    requires c.want >= 1 && Exec(c, acts).Some?
    ensures |Exec(c, acts).value.results| <= c.want + c.workers + 1
  {
    RunKeepsInv(c, acts);
  }

  function WorkCount(acts: seq<Action>, p: nat): nat {
    if acts == [] then 0 else WorkCount(acts[..|acts| - 1], p) + One(acts[|acts| - 1] == Work(p))
  }

  /** No run executes a packet's Work twice, and every packet returned has been worked. */
  lemma {:induction false} WorkedOnce(c: Config, acts: seq<Action>, p: nat)
    requires c.want >= 1 && Exec(c, acts).Some?
    ensures var s := Exec(c, acts).value;
      && WorkCount(acts, p) == One(p in s.worked)
      && (p in s.results ==> WorkCount(acts, p) == 1)
  {
    RunKeepsInv(c, acts);
    if acts != [] {
      var n := |acts| - 1;
      WorkedOnce(c, acts[..n], p);
      RunKeepsInv(c, acts[..n]);
      WorkedStep(c, Exec(c, acts[..n]).value, acts[n], p);
    }
  }

  lemma WorkedStep(c: Config, s: State, a: Action, p: nat)
    requires JobsOk(c, s) && Step(c, s, a).Some?
    ensures One(p in Step(c, s, a).value.worked) == One(p in s.worked) + One(a == Work(p))
  {}
}
