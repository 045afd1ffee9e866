/** How many results the pipeline of distrib/main.go can return: the exact maximum over all
    interleavings, for every configuration, and when it exceeds what was wanted. */
module DistribBounds {

  import opened Wrappers
  import opened Distrib
  import opened DistribRuns

  function Least(a: int, b: int): int { if a < b then a else b }

  /** The largest number of results of any run. */
  function MaxResults(c: Config): int {
    if c.workers == 0 then 0
    else Least(c.packets, if c.collect then c.want + c.workers + 1 else c.want)
  }

  /** Some run leads to s. */
  ghost predicate Reached(c: Config, s: State) {
    exists acts :: Exec(c, acts) == Some(s)
  }

  lemma Start(c: Config)
    ensures Reached(c, Init(c))
  {
    assert Exec(c, []) == Some(Init(c));
  }

  lemma Then(c: Config, s: State, a: Action)
    requires Reached(c, s) && Step(c, s, a).Some?
    ensures Reached(c, Step(c, s, a).value)
  {
    var acts :| Exec(c, acts) == Some(s);
    assert (acts + [a])[..|acts|] == acts;
    assert Exec(c, acts + [a]) == Step(c, s, a);
  }

  // ---------- moves made of several steps ----------

  /** Stage 1 hands the next packet to worker w and counts it. */
  function Handed(s: State, w: nat): State
    requires s.lcnt >= 0 && w < |s.ws|
  {
    var p := s.lcnt;
    s.(ws := s.ws[w := Waiting(p)], jobs := s.jobs[p := Working(w)], handed := s.handed + [p],
       lcnt := p + 1, sent := s.sent + 1)
  }

  lemma Hand(c: Config, s: State, w: nat)
    requires Reached(c, s) && s.s1 == Loading && 0 <= s.lcnt < c.packets && w < |s.ws| && s.ws[w] == Idle
    ensures Reached(c, Handed(s, w))
  {
    Then(c, s, LoadLcnt);
    var s1 := Step(c, s, LoadLcnt).value;
    Then(c, s1, HandOver(w));
    var s2 := Step(c, s1, HandOver(w)).value;
    Then(c, s2, AddLcnt);
    var s3 := Step(c, s2, AddLcnt).value;
    Then(c, s3, AddSent);
    assert Step(c, s3, AddSent).value == Handed(s, w);
  }

  /** Worker w's packet is worked on, delivered and received. */
  function Taken(s: State, w: nat): State
    requires w < |s.ws| && s.ws[w].Waiting?
  {
    var p := s.ws[w].p;
    s.(s3 := Received, ws := s.ws[w := Idle], jobs := s.jobs[p := Gone], worked := s.worked[p := w],
       results := s.results + [p])
  }

  predicate AtWork(s: State, w: nat) {
    w < |s.ws| && s.ws[w].Waiting? && s.ws[w].p in s.jobs && s.jobs[s.ws[w].p] == Working(w)
  }

  lemma Take(c: Config, s: State, w: nat)
    requires Reached(c, s) && AtWork(s, w) && s.s3 == Selecting
    ensures Reached(c, Taken(s, w))
  {
    var p := s.ws[w].p;
    Then(c, s, Work(p));
    var s1 := Step(c, s, Work(p)).value;
    Then(c, s1, Deliver(w));
    var s2 := Step(c, s1, Deliver(w)).value;
    Then(c, s2, Receive(w));
    var s3 := Step(c, s2, Receive(w)).value;
    assert s3.jobs == s.jobs[p := Gone] && s3.ws == s.ws[w := Idle];
    assert s3 == Taken(s, w);
  }

  /** Enough results: stage 3 stores the stop signal and goes on collecting. */
  lemma Signal(c: Config, s: State)
    requires Reached(c, s) && c.collect && s.s3 == Received && |s.results| >= s.want
    ensures Reached(c, s.(lcnt := -10, s3 := Selecting))
  {
    Then(c, s, LoadWant);
    var s1 := Step(c, s, LoadWant).value;
    Then(c, s1, StoreStop);
  }

  // ---------- how stage 3 returns ----------

  /** Everything handed over has come back or timed out. */
  lemma AllBack(c: Config, s: State)
    requires c.want >= 1 && Reached(c, s) && s.s3 != Returned
    requires forall w :: 0 <= w < |s.ws| ==> s.ws[w] == Idle
    ensures s.sent <= |s.results|
  {
    var acts :| Exec(c, acts) == Some(s);
    RunKeepsInv(c, acts);
    NoneHeld(s.ws, 0);
  }

  lemma PassTick(c: Config, s: State)
    requires Reached(c, s) && c.collect && s.s3 == Selecting && |s.results| >= s.want && |s.results| >= s.sent
    ensures Reached(c, s.(s3 := Closing))
  {
    Then(c, s, Tick);
    var s1 := s.(s3 := TickWant);
    Then(c, s1, LoadWantOnTick);
    Then(c, s1.(s3 := TickSent), LoadSentOnTick);
  }

  /** On a tick, with enough results and nothing counted as sent missing. */
  lemma Leave(c: Config, s: State)
    requires Reached(c, s) && c.collect && s.s3 == Selecting && |s.results| >= s.want && |s.results| >= s.sent
    ensures Reached(c, s.(fin := true, s3 := Returned))
  {
    PassTick(c, s);
    Then(c, s.(s3 := Closing), CloseFin);
  }

  /** On a result, without collecting. */
  lemma Abandon(c: Config, s: State)
    requires Reached(c, s) && !c.collect && s.s3 == Received && |s.results| >= s.want
    ensures Reached(c, s.(lcnt := -10, fin := true, s3 := Returned))
  {
    Then(c, s, LoadWant);
    var s1 := s.(s3 := Stopping);
    Then(c, s1, StoreStop);
    var s2 := s.(lcnt := -10, s3 := Flushing);
    Then(c, s2, CloseFin);
  }

  /** Out of packets, stage 1 no longer wants any result. */
  lemma Exhaust(c: Config, s: State)
    requires Reached(c, s) && s.s1 == Loading && s.lcnt >= c.packets
    ensures Reached(c, s.(want := 0, s1 := Stopped))
  {
    Then(c, s, LoadLcnt);
    Then(c, s.(s1 := Exhausted), StoreWant);
  }

  // ---------- up to the last result but one ----------

  /** k packets have come back and nothing is under way. */
  predicate Quiet(c: Config, s: State, k: nat) {
    && s.s1 == Loading && s.s3 == Selecting && s.lcnt == k == |s.results| && s.want == c.want
    && |s.ws| == c.workers && forall w :: 0 <= w < |s.ws| ==> s.ws[w] == Idle
  }

  lemma {:induction false} ReturnSome(c: Config, k: nat) returns (s: State)
    requires c.workers >= 1 && k < c.want && k <= c.packets
    ensures Reached(c, s) && Quiet(c, s, k)
    decreases k, 0
  {
    if k == 0 {
      s := Init(c);
      Start(c);
    } else {
      s := ReturnOneMore(c, k - 1);
      Then(c, s, LoadWant);
      s := Step(c, s, LoadWant).value;
    }
  }

  /** The next packet comes back through worker 0; stage 3 has not yet looked at Want. */
  lemma {:induction false} ReturnOneMore(c: Config, k: nat) returns (s: State)
    requires c.workers >= 1 && k < c.want && k < c.packets
    ensures Reached(c, s) && s.s3 == Received && Quiet(c, s.(s3 := Selecting), k + 1)
    decreases k, 1
  {
    var s0 := ReturnSome(c, k);
    Hand(c, s0, 0);
    Take(c, Handed(s0, 0), 0);
    s := Taken(Handed(s0, 0), 0);
  }

  // ---------- the overshoot ----------

  /** The wanted results are there, stage 3 is about to load Want, and meanwhile stage 1 has handed
      j more packets to the first j workers. */
  predicate Racing(c: Config, s: State, j: nat) {
    && s.s1 == Loading && s.lcnt == c.want + j && |s.results| == c.want == s.want
    && |s.ws| == c.workers && j <= c.workers
    && (forall w :: 0 <= w < j ==> AtWork(s, w) && s.ws[w].p == c.want + w)
    && (forall w :: j <= w < |s.ws| ==> s.ws[w] == Idle)
  }

  lemma {:induction false} Race(c: Config, j: nat) returns (s: State)
    requires c.want >= 1 && 1 <= c.workers && j <= c.workers && c.want + j <= c.packets
    ensures Reached(c, s) && s.s3 == Received && Racing(c, s, j)
  {
    if j == 0 {
      s := ReturnOneMore(c, c.want - 1);
    } else {
      var s0 := Race(c, j - 1);
      Hand(c, s0, j - 1);
      s := Handed(s0, j - 1);
    }
  }

  /** The stop signal is out; the first i workers have returned their packets, those up to j have not. */
  predicate Draining(c: Config, s: State, i: nat, j: nat, s1: Stage1) {
    && s.s1 == s1 && s.s3 == Selecting && |s.results| == c.want + i && s.want == c.want
    && |s.ws| == c.workers && i <= j <= c.workers
    && (forall w :: i <= w < j ==> AtWork(s, w) && s.ws[w].p == c.want + w)
    && (forall w :: 0 <= w < i ==> s.ws[w] == Idle) && (forall w :: j <= w < |s.ws| ==> s.ws[w] == Idle)
  }

  lemma {:induction false} Drain(c: Config, s: State, i: nat, j: nat, s1: Stage1) returns (t: State)
    requires c.collect && Reached(c, s) && Draining(c, s, i, j, s1)
    ensures Reached(c, t) && Draining(c, t, j, j, s1)
    decreases j - i
  {
    if i == j {
      t := s;
    } else {
      Take(c, s, i);
      Signal(c, Taken(s, i));
      t := Drain(c, Taken(s, i).(lcnt := -10, s3 := Selecting), i + 1, j, s1);
    }
  }

  /** Every packet in flight at the stop signal can still come back before stage 3 returns. */
  lemma InFlightReturn(c: Config, j: nat) returns (s: State)
    requires c.collect && c.want >= 1 && 1 <= c.workers && j <= c.workers && c.want + j <= c.packets
    ensures Reached(c, s) && s.s3 == Returned && |s.results| == c.want + j
  {
    var s0 := Race(c, j);
    Signal(c, s0);
    var s1 := Drain(c, s0.(lcnt := -10, s3 := Selecting), 0, j, Loading);
    AllBack(c, s1);
    Leave(c, s1);
    s := s1.(fin := true, s3 := Returned);
  }

  /** And so can the one whose index stage 1 had loaded before. */
  lemma OfferedReturns(c: Config) returns (s: State)
    requires c.collect && c.want >= 1 && 1 <= c.workers && c.want + c.workers < c.packets
    ensures Reached(c, s) && s.s3 == Returned && |s.results| == c.want + c.workers + 1
  {
    var s0 := Race(c, c.workers);
    Then(c, s0, LoadLcnt);
    var s1 := Step(c, s0, LoadLcnt).value;
    Signal(c, s1);
    var s2 := Drain(c, s1.(lcnt := -10, s3 := Selecting), 0, c.workers, s1.s1);
    Then(c, s2, HandOver(0));
    var s3 := Step(c, s2, HandOver(0)).value;
    Take(c, s3, 0);
    Signal(c, Taken(s3, 0));
    var s4 := Taken(s3, 0).(lcnt := -10, s3 := Selecting);
    AllBack(c, s4);
    Leave(c, s4);
    s := s4.(fin := true, s3 := Returned);
  }

  /** Fewer packets than wanted: all of them come back. */
  lemma FewReturn(c: Config) returns (s: State)
    requires c.want > c.packets >= 1 && c.workers >= 1
    ensures Reached(c, s) && s.s3 == Returned && |s.results| == c.packets
  {
    if c.collect {
      s := ReturnSome(c, c.packets);
      AllBack(c, s);
      Exhaust(c, s);
      Leave(c, s.(want := 0, s1 := Stopped));
      s := s.(want := 0, s1 := Stopped, fin := true, s3 := Returned);
    } else {
      var s0 := ReturnSome(c, c.packets - 1);
      Hand(c, s0, 0);
      Exhaust(c, Handed(s0, 0));
      var s1 := Handed(s0, 0).(want := 0, s1 := Stopped);
      Take(c, s1, 0);
      Abandon(c, Taken(s1, 0));
      s := Taken(s1, 0).(lcnt := -10, fin := true, s3 := Returned);
    }
  }

  // ---------- the exact maximum ----------

  lemma {:induction false} NoWorkersNoResults(c: Config, acts: seq<Action>)
    requires c.workers == 0 && Exec(c, acts).Some?
    ensures var s := Exec(c, acts).value; s.ws == [] && s.results == [] && s.handed == []
  {
    if acts != [] {
      var n := |acts| - 1;
      NoWorkersNoResults(c, acts[..n]);
      ActorStep(c, Exec(c, acts[..n]).value, acts[n]);
      SameLists(c, Exec(c, acts[..n]).value, acts[n]);
    }
  }

  /** No interleaving returns more than this. */
  lemma NeverMore(c: Config, acts: seq<Action>)
    requires c.want >= 1 && Exec(c, acts).Some?
    ensures |Exec(c, acts).value.results| <= MaxResults(c)
  {
    RunKeepsInv(c, acts);
    if c.workers == 0 {
      NoWorkersNoResults(c, acts);
    }
  }

  /** And in some interleaving stage 3 returns with as many. (An empty job list is returned before the
      pipeline starts.) */
  lemma MaxIsReached(c: Config) returns (acts: seq<Action>)
    requires c.want >= 1 && c.packets >= 1 && c.workers >= 1
    ensures Exec(c, acts).Some?
    ensures Exec(c, acts).value.s3 == Returned && |Exec(c, acts).value.results| == MaxResults(c)
  {
    var s: State;
    if c.packets < c.want {
      s := FewReturn(c);
    } else if !c.collect {
      var s0 := ReturnOneMore(c, c.want - 1);
      Abandon(c, s0);
      s := s0.(lcnt := -10, fin := true, s3 := Returned);
    } else if c.packets <= c.want + c.workers {
      s := InFlightReturn(c, c.packets - c.want);
    } else {
      s := OfferedReturns(c);
    }
    acts :| Exec(c, acts) == Some(s);
  }

  /** Some interleaving lets stage 3 return exactly if there is a worker. */
  lemma ReturnsIff(c: Config)
    requires c.want >= 1 && c.packets >= 1
    ensures (exists acts :: Exec(c, acts).Some? && Exec(c, acts).value.s3 == Returned) <==> c.workers >= 1
  {
    if c.workers >= 1 {
      var acts := MaxIsReached(c);
    }
    forall acts | Exec(c, acts).Some? && Exec(c, acts).value.s3 == Returned ensures c.workers >= 1 {
      RunKeepsInv(c, acts);
      if c.workers == 0 { NoWorkersNoResults(c, acts); }
    }
  }

  /** Stage 3 returns with more results than wanted in some interleaving exactly if the remainder is
      collected and there is a worker and a packet more. */
  lemma OvershootIff(c: Config)
    requires c.want >= 1
    ensures (exists acts :: Exec(c, acts).Some? && Exec(c, acts).value.s3 == Returned
                            && |Exec(c, acts).value.results| > c.want)
       <==> c.collect && c.workers >= 1 && c.packets > c.want
  {
    if c.collect && c.workers >= 1 && c.packets > c.want {
      var most := MaxIsReached(c);
    }
    forall acts | Exec(c, acts).Some? ensures |Exec(c, acts).value.results| <= MaxResults(c) {
      NeverMore(c, acts);
    }
  }
}
