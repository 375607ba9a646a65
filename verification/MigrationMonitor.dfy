/**
 The worker pool and the monitor thread of run_migrations_parallel in
 backend/alembic/run_multitenant_migrations.py: batches enter and leave a locked map while
 a monitor wakes up at arbitrary moments and reports those it has seen twice in a row.
 */
module MigrationMonitor {
  import opened Sequences

  /**
   Where a batch is: waiting in the pool, taken by a worker, entered in the map, out of it
   again, or decided. A worker that raises leaves its batch in the map.
   */
  datatype Phase = Queued | Taken | Running | Left(success: bool) | Finished(success: bool) | Raised

  datatype Fleet = Fleet(phases: seq<Phase>, inFlight: set<nat>, prev: set<nat>)

  /** Steps of the workers, each on one batch, and ticks of the monitor. */
  datatype Event =
    | Take(batch: nat)
    | Enter(batch: nat)
    | Leave(batch: nat, success: bool)
    | Finish(batch: nat)
    | Raise(batch: nat)
    | Tick

  function Idle(batches: nat): Fleet {
    Fleet(seq(batches, _ => Queued), {}, {})
  }

  /** A worker holds the batch. */
  predicate IsBusy(p: Phase) {
    p.Taken? || p.Running? || p.Left?
  }

  predicate IsDecided(p: Phase) {
    p.Finished? || p.Raised?
  }

  predicate InMap(p: Phase) {
    p.Running? || p.Raised?
  }

  predicate OutAgain(p: Phase) {
    p.Left? || p.Finished?
  }

  ghost function Busy(s: Fleet): set<nat> {
    set i: nat | i < |s.phases| && IsBusy(s.phases[i])
  }

  /** What the monitor does at a tick to the set it compares with at the next one. */
  function Remembered(s: Fleet): set<nat> {
    if s.inFlight == {} then {} else s.inFlight
  }

  /** The batches that the monitor reports at a tick. */
  function Reported(s: Fleet): set<nat> {
    if s.inFlight == {} then {} else s.inFlight * s.prev
  }

  predicate IsAt(s: Fleet, i: nat, p: Phase) {
    i < |s.phases| && s.phases[i] == p
  }

  /** One atomic step. Taking a batch and entering it are two, so any worker may be first. */
  ghost predicate Step(maxWorkers: nat, s: Fleet, e: Event, t: Fleet) {
    match e
    case Take(i) =>
      IsAt(s, i, Queued) && |Busy(s)| < maxWorkers && t == s.(phases := s.phases[i := Taken])
    case Enter(i) =>
      IsAt(s, i, Taken) && t == s.(phases := s.phases[i := Running], inFlight := s.inFlight + {i})
    case Leave(i, success) =>
      IsAt(s, i, Running) && t == s.(phases := s.phases[i := Left(success)], inFlight := s.inFlight - {i})
    case Finish(i) =>
      i < |s.phases| && s.phases[i].Left? && t == s.(phases := s.phases[i := Finished(s.phases[i].success)])
    case Raise(i) =>
      IsAt(s, i, Running) && t == s.(phases := s.phases[i := Raised])
    case Tick =>
      t == s.(prev := Remembered(s))
  }

  /** A run: the states it passes through, one more than the events between them. */
  ghost predicate Trace(batches: nat, maxWorkers: nat, states: seq<Fleet>, events: seq<Event>) {
    && |states| == |events| + 1
    && states[0] == Idle(batches)
    && forall k :: 0 <= k < |events| ==> Step(maxWorkers, states[k], events[k], states[k + 1])
  }

  ghost predicate Inv(batches: nat, maxWorkers: nat, s: Fleet) {
    && |s.phases| == batches
    && (forall i: nat :: i in s.inFlight <==> i < batches && InMap(s.phases[i]))
    && |Busy(s)| <= maxWorkers
  }

  lemma BusyAfter(s: Fleet, i: nat, p: Phase)
    requires i < |s.phases|
    ensures Busy(s.(phases := s.phases[i := p])) == if IsBusy(p) then Busy(s) + {i} else Busy(s) - {i}
  {
  }

  lemma StepKeepsInv(batches: nat, maxWorkers: nat, s: Fleet, e: Event, t: Fleet)
    requires Inv(batches, maxWorkers, s) && Step(maxWorkers, s, e, t)
    ensures Inv(batches, maxWorkers, t)
  {
    if e.Tick? {
      assert Busy(t) == Busy(s);
    } else {
      var i := e.batch;
      BusyAfter(s, i, t.phases[i]);
      assert Busy(t) == Busy(s.(phases := t.phases));
      if !e.Take? {
        assert i in Busy(s);
        assert Busy(s) + {i} == Busy(s);
      }
    }
  }

  lemma {:induction false} TraceInv(batches: nat, maxWorkers: nat, states: seq<Fleet>, events: seq<Event>, k: nat)
    requires Trace(batches, maxWorkers, states, events) && k < |states|
    ensures Inv(batches, maxWorkers, states[k])
  {
    if k == 0 {
      assert Busy(states[0]) == {};
    } else {
      TraceInv(batches, maxWorkers, states, events, k - 1);
      StepKeepsInv(batches, maxWorkers, states[k - 1], events[k - 1], states[k]);
    }
  }

  /** A batch that has left the map never comes back to it. */
  lemma {:induction false} NeverReturns(
    batches: nat, maxWorkers: nat, states: seq<Fleet>, events: seq<Event>, k: nat, l: nat, i: nat)
    requires Trace(batches, maxWorkers, states, events) && k <= l < |states|
    requires i < |states[k].phases| && OutAgain(states[k].phases[i])
    ensures i < |states[l].phases| && OutAgain(states[l].phases[i])
    decreases l
  {
    if k < l {
      NeverReturns(batches, maxWorkers, states, events, k, l - 1, i);
      assert Step(maxWorkers, states[l - 1], events[l - 1], states[l]);
    }
  }

  /** A batch that has entered the map is in it or out again ever after. */
  lemma {:induction false} EnteredOnce(
    batches: nat, maxWorkers: nat, states: seq<Fleet>, events: seq<Event>, k: nat, l: nat, i: nat)
    requires Trace(batches, maxWorkers, states, events) && k <= l < |states|
    requires i < |states[k].phases| && InMap(states[k].phases[i])
    ensures i < |states[l].phases| && (InMap(states[l].phases[i]) || OutAgain(states[l].phases[i]))
    decreases l
  {
    if k < l {
      EnteredOnce(batches, maxWorkers, states, events, k, l - 1, i);
      assert Step(maxWorkers, states[l - 1], events[l - 1], states[l]);
    }
  }

  /** Between two ticks the monitor's memory stays what the first of them left. */
  lemma {:induction false} MemoryBetweenTicks(
    batches: nat, maxWorkers: nat, states: seq<Fleet>, events: seq<Event>, first: nat, last: nat)
    requires Trace(batches, maxWorkers, states, events) && first <= last < |states|
    requires forall k :: first <= k < last ==> !events[k].Tick?
    ensures states[last].prev == states[first].prev
    decreases last
  {
    if first < last {
      MemoryBetweenTicks(batches, maxWorkers, states, events, first, last - 1);
      assert Step(maxWorkers, states[last - 1], events[last - 1], states[last]);
    }
  }

  /**
   Soundness and completeness of the report: at a tick the monitor names exactly the
   batches that were in the map the whole time since the tick before.
   */
  lemma ReportIsExact(
    batches: nat, maxWorkers: nat, states: seq<Fleet>, events: seq<Event>, before: nat, now: nat, i: nat)
    requires Trace(batches, maxWorkers, states, events)
    requires before < now < |events| && events[before].Tick? && events[now].Tick?
    requires forall k :: before < k < now ==> !events[k].Tick?
    ensures i in Reported(states[now]) <==> forall k :: before <= k <= now ==> i in states[k].inFlight
  {
    assert Step(maxWorkers, states[before], events[before], states[before + 1]);
    MemoryBetweenTicks(batches, maxWorkers, states, events, before + 1, now);
    assert states[now].prev == states[before].inFlight;
    if i in Reported(states[now]) {
      TraceInv(batches, maxWorkers, states, events, before);
      TraceInv(batches, maxWorkers, states, events, now);
      forall k | before <= k <= now ensures i in states[k].inFlight {
        TraceInv(batches, maxWorkers, states, events, k);
        EnteredOnce(batches, maxWorkers, states, events, before, k, i);
        if OutAgain(states[k].phases[i]) {
          NeverReturns(batches, maxWorkers, states, events, k, now, i);
        }
      }
    }
  }

  /** The first tick reports nothing. */
  lemma FirstTickSilent(batches: nat, maxWorkers: nat, states: seq<Fleet>, events: seq<Event>, now: nat)
    requires Trace(batches, maxWorkers, states, events)
    requires now < |events| && events[now].Tick? && forall k :: 0 <= k < now ==> !events[k].Tick?
    ensures Reported(states[now]) == {}
  {
    MemoryBetweenTicks(batches, maxWorkers, states, events, 0, now);
  }

  /** Being in the map means being worked on, except for batches whose worker raised. */
  lemma InMapMeansRunning(batches: nat, maxWorkers: nat, states: seq<Fleet>, events: seq<Event>, k: nat, i: nat)
    requires Trace(batches, maxWorkers, states, events) && k < |states|
    ensures i in states[k].inFlight <==> IsAt(states[k], i, Running) || IsAt(states[k], i, Raised)
    ensures |Busy(states[k])| <= maxWorkers
  {
    TraceInv(batches, maxWorkers, states, events, k);
  }

  // ----- The result -----------------------------------------------------

  ghost predicate AllDecided(s: Fleet) {
    forall i :: 0 <= i < |s.phases| ==> IsDecided(s.phases[i])
  }

  /** The worker's next step on a batch that is not decided. */
  function NextEvent(p: Phase, i: nat): Event
    requires !IsDecided(p)
  {
    match p
    case Queued => Take(i)
    case Taken => Enter(i)
    case Running => Raise(i)
    case Left(_) => Finish(i)
  }

  /** The state after that step. */
  function Moved(s: Fleet, i: nat): Fleet
    requires i < |s.phases| && !IsDecided(s.phases[i])
  {
    match s.phases[i]
    case Queued => s.(phases := s.phases[i := Taken])
    case Taken => s.(phases := s.phases[i := Running], inFlight := s.inFlight + {i})
    case Running => s.(phases := s.phases[i := Raised])
    case Left(success) => s.(phases := s.phases[i := Finished(success)])
  }

  /** Until every batch is decided, some worker can move. */
  lemma PoolNeverStalls(batches: nat, maxWorkers: nat, states: seq<Fleet>, events: seq<Event>, k: nat)
    requires Trace(batches, maxWorkers, states, events) && k < |states| && maxWorkers >= 1
    requires !AllDecided(states[k])
    ensures exists e: Event, t: Fleet :: !e.Tick? && Step(maxWorkers, states[k], e, t)
  {
    var s := states[k];
    TraceInv(batches, maxWorkers, states, events, k);
    var i: nat :| i < |s.phases| && if Busy(s) == {} then !IsDecided(s.phases[i]) else i in Busy(s);
    if Busy(s) == {} {
      assert i !in Busy(s);
    }
    assert Step(maxWorkers, s, NextEvent(s.phases[i], i), Moved(s, i));
  }

  /** Steps that a batch can still take. */
  function StepsLeft(p: Phase): nat {
    match p
    case Queued => 4
    case Taken => 3
    case Running => 2
    case Left(_) => 1
    case _ => 0
  }

  function TotalStepsLeft(phases: seq<Phase>): nat {
    if phases == [] then 0 else TotalStepsLeft(phases[..|phases| - 1]) + StepsLeft(phases[|phases| - 1])
  }

  lemma {:induction false} TotalStepsLeftUpdate(phases: seq<Phase>, i: nat, p: Phase)
    requires i < |phases|
    ensures TotalStepsLeft(phases[i := p]) + StepsLeft(phases[i]) == TotalStepsLeft(phases) + StepsLeft(p)
  {
    var n := |phases| - 1;
    if i == n {
      assert phases[i := p][..n] == phases[..n];
    } else {
      assert phases[i := p][..n] == phases[..n][i := p];
      TotalStepsLeftUpdate(phases[..n], i, p);
    }
  }

  /** The worker steps of a run, as opposed to its ticks. */
  function WorkerSteps(events: seq<Event>): nat {
    if events == [] then 0
    else WorkerSteps(events[..|events| - 1]) + if events[|events| - 1].Tick? then 0 else 1
  }

  lemma {:induction false} IdleStepsLeft(batches: nat)
    ensures TotalStepsLeft(Idle(batches).phases) == 4 * batches
  {
    if batches == 0 {
    } else {
      IdleStepsLeft(batches - 1);
      assert Idle(batches).phases[..batches - 1] == Idle(batches - 1).phases;
    }
  }

  lemma {:induction false} StepsSpent(batches: nat, maxWorkers: nat, states: seq<Fleet>, events: seq<Event>, k: nat)
    requires Trace(batches, maxWorkers, states, events) && k <= |events|
    ensures WorkerSteps(events[..k]) + TotalStepsLeft(states[k].phases) <= 4 * batches
  {
    if k == 0 {
      IdleStepsLeft(batches);
    } else {
      StepsSpent(batches, maxWorkers, states, events, k - 1);
      assert events[..k][..k - 1] == events[..k - 1];
      var s, e, t := states[k - 1], events[k - 1], states[k];
      assert Step(maxWorkers, s, e, t);
      if !e.Tick? {
        TotalStepsLeftUpdate(s.phases, e.batch, t.phases[e.batch]);
      }
    }
  }

  /**
   However ticks and workers interleave, the workers take at most four steps a batch, and
   the pool comes to rest only when every batch is decided.
   */
  lemma PoolDrains(batches: nat, maxWorkers: nat, states: seq<Fleet>, events: seq<Event>)
    requires Trace(batches, maxWorkers, states, events) && maxWorkers >= 1
    ensures WorkerSteps(events) <= 4 * batches
    ensures var last := states[|events|];
            AllDecided(last) <==> !exists e: Event, t: Fleet :: !e.Tick? && Step(maxWorkers, last, e, t)
  {
    assert events[..|events|] == events;
    StepsSpent(batches, maxWorkers, states, events, |events|);
    if !AllDecided(states[|events|]) {
      PoolNeverStalls(batches, maxWorkers, states, events, |events|);
    }
  }

  /** order lists every batch once, as the futures complete. */
  ghost predicate CompletionOrder(batches: nat, order: seq<nat>) {
    Distinct(order) && Elements(order) == Upto(batches)
  }

  lemma EveryBatchListed(batches: nat, order: seq<nat>)
    requires CompletionOrder(batches, order)
    ensures forall j :: 0 <= j < |order| ==> order[j] < batches
    ensures forall i: nat :: i in Upto(batches) ==> i in order
  {
    forall j | 0 <= j < |order| ensures order[j] < batches {
      assert order[j] in Elements(order);
    }
    forall i: nat | i in Upto(batches) ensures i in order {
      assert i in Elements(order);
    }
  }

  /**
   The run returns True exactly when no batch raised and each one's first pass succeeded,
   whatever order the batches finished in.
   */
  method CollectResults(last: Fleet, order: seq<nat>) returns (allSuccess: bool)
    requires AllDecided(last) && CompletionOrder(|last.phases|, order)
    ensures allSuccess <==> forall i: nat :: i < |last.phases| ==> IsAt(last, i, Finished(true))
  {
    EveryBatchListed(|last.phases|, order);
    allSuccess := true;
    for k := 0 to |order|
      invariant allSuccess <==> forall j :: 0 <= j < k ==> IsAt(last, order[j], Finished(true))
    {
      match last.phases[order[k]]
      case Finished(success) =>
        if !success {
          allSuccess := false;
        }
      case Raised =>
        allSuccess := false;
    }
    if allSuccess {
      forall i: nat | i < |last.phases| ensures IsAt(last, i, Finished(true)) {
        assert i in Upto(|last.phases|);
        var j :| 0 <= j < |order| && order[j] == i;
      }
    }
  }
}
