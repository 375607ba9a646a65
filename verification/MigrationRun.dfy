/**
 A whole run of run_migrations_parallel in backend/alembic/run_multitenant_migrations.py:
 the batches of all shards, taken by workers in any interleaving with the monitor, each
 worker returning what running its batch comes to.
 */
module MigrationRun {
  import opened MigrationBatches
  import opened MigrationMonitor

  /** Whether the migration of a shard's schema fails, in a first pass and in a retry. */
  datatype World = World(fails: (string, string) -> bool, failsAgain: (string, string) -> bool)

  function FailsOn(w: World, shard: string): string -> bool {
    s => w.fails(shard, s)
  }

  function FailsAgainOn(w: World, shard: string): string -> bool {
    s => w.failsAgain(shard, s)
  }

  /** runs[k] is what running the k-th batch comes to. */
  ghost predicate AreRunsOf(runs: seq<BatchRun>, batches: seq<Batch>, w: World) {
    && |runs| == |batches|
    && forall k :: 0 <= k < |runs| ==>
                     IsRunOf(runs[k], batches[k].schemas,
                             FailsOn(w, batches[k].shard), FailsAgainOn(w, batches[k].shard))
  }

  /** Such runs are what the workers' call gives, batch by batch. */
  method RunBatches(batches: seq<Batch>, w: World) returns (results: seq<BatchResult>, ghost runs: seq<BatchRun>)
    ensures AreRunsOf(runs, batches, w)
    ensures |results| == |batches|
    ensures forall k :: 0 <= k < |batches| ==> results[k] == BatchResult(batches[k].schemas, runs[k].success)
  {
    hide IsRunOf, FailsOn, FailsAgainOn;
    results, runs := [], [];
    for k := 0 to |batches|
      invariant |results| == |runs| == k
      invariant AreRunsOf(runs, batches[..k], w)
      invariant forall j :: 0 <= j < k ==> results[j] == BatchResult(batches[j].schemas, runs[j].success)
    {
      var batch := batches[k];
      var result, run := RunAlembicForBatch(batch, FailsOn(w, batch.shard), FailsAgainOn(w, batch.shard));
      results, runs := results + [result], runs + [run];
    }
    assert batches[..|batches|] == batches;
  }

  /** Workers return the outcome of their batch: the flag of a Leave is not free. */
  ghost predicate Follow(runs: seq<BatchRun>, events: seq<Event>) {
    forall k :: 0 <= k < |events| && events[k].Leave? && events[k].batch < |runs| ==>
                  events[k].success == runs[events[k].batch].success
  }

  /** The flag a batch carries, once its worker is done with it. */
  predicate Carries(p: Phase, success: bool) {
    p != Left(!success) && p != Finished(!success)
  }

  lemma {:induction false} FlagsFollow(
    runs: seq<BatchRun>, maxWorkers: nat, states: seq<Fleet>, events: seq<Event>, k: nat)
    requires Trace(|runs|, maxWorkers, states, events) && Follow(runs, events) && k < |states|
    ensures |states[k].phases| == |runs|
    ensures forall i :: 0 <= i < |runs| ==> Carries(states[k].phases[i], runs[i].success)
  {
    if k == 0 {
    } else {
      FlagsFollow(runs, maxWorkers, states, events, k - 1);
      assert Step(maxWorkers, states[k - 1], events[k - 1], states[k]);
    }
  }

  // ----- From batches back to shards ------------------------------------

  ghost predicate Holds(batch: Batch, shard: string, s: string) {
    batch.shard == shard && s in batch.schemas
  }

  lemma {:induction false} HeldBySome(batches: seq<Batch>, shard: string, s: string)
    ensures s in SchemasOn(batches, shard) <==> exists k :: 0 <= k < |batches| && Holds(batches[k], shard, s)
  {
    if batches == [] {
    } else {
      var n := |batches| - 1;
      HeldBySome(batches[..n], shard, s);
      if k :| 0 <= k < n && Holds(batches[..n][k], shard, s) {
        assert Holds(batches[k], shard, s);
      }
      if k :| 0 <= k < |batches| && Holds(batches[k], shard, s) {
        assert k < n ==> Holds(batches[..n][k], shard, s);
      }
    }
  }

  /** A schema of a shard of the input. */
  ghost predicate IsSchema(byShard: seq<ShardSchemas>, shard: string, s: string) {
    exists i :: 0 <= i < |byShard| && byShard[i].shard == shard && s in byShard[i].schemas
  }

  /** Some batch holds a schema exactly when it is one of the input's. */
  lemma HeldIffSchema(byShard: seq<ShardSchemas>, size: nat, shard: string, s: string)
    requires size > 0 && DistinctShards(byShard)
    ensures IsSchema(byShard, shard, s) <==>
            exists k :: 0 <= k < |Batches(byShard, size)| && Holds(Batches(byShard, size)[k], shard, s)
  {
    var batches := Batches(byShard, size);
    HeldBySome(batches, shard, s);
    if shard in Names(byShard) {
      var i :| 0 <= i < |byShard| && Names(byShard)[i] == shard;
      BatchesPartition(byShard, size, i);
      forall j | 0 <= j < |byShard| && byShard[j].shard == shard ensures j == i {
        assert Names(byShard)[j] == Names(byShard)[i];
      }
    } else {
      BatchesOnKnownShards(byShard, size, shard);
      forall i | 0 <= i < |byShard| ensures byShard[i].shard != shard {
        assert Names(byShard)[i] in Names(byShard);
      }
    }
  }

  // ----- The run --------------------------------------------------------

  /** The workers' run over the batches of byShard, brought to its end. */
  ghost predicate Completed(
    byShard: seq<ShardSchemas>, size: nat, maxWorkers: nat, w: World,
    runs: seq<BatchRun>, states: seq<Fleet>, events: seq<Event>)
  {
    && size > 0 && DistinctShards(byShard)
    && AreRunsOf(runs, Batches(byShard, size), w)
    && Trace(|runs|, maxWorkers, states, events)
    && Follow(runs, events)
    && AllDecided(states[|events|])
  }

  ghost predicate NoneRaised(last: Fleet) {
    forall i: nat :: !IsAt(last, i, Raised)
  }

  ghost predicate NoneFails(byShard: seq<ShardSchemas>, w: World) {
    forall shard, s :: IsSchema(byShard, shard, s) ==> !w.fails(shard, s)
  }

  /** The batch of s was run to its end, and s was attempted in it. */
  ghost predicate AttemptedIn(runs: seq<BatchRun>, last: Fleet, k: nat, s: string) {
    k < |runs| && k < |last.phases| && last.phases[k].Finished? && s in runs[k].attempted
  }

  /** Some batch of the shard ended with s migrated. */
  ghost predicate Migrated(batches: seq<Batch>, runs: seq<BatchRun>, shard: string, s: string) {
    exists k :: 0 <= k < |batches| && k < |runs| && Holds(batches[k], shard, s) && s in runs[k].migrated
  }

  /** A batch that is finished carries the flag of its run. */
  lemma FinishedAs(runs: seq<BatchRun>, maxWorkers: nat, states: seq<Fleet>, events: seq<Event>, i: nat)
    requires Trace(|runs|, maxWorkers, states, events) && Follow(runs, events)
    requires AllDecided(states[|events|]) && i < |runs|
    ensures var last := states[|events|];
            && i < |last.phases|
            && (IsAt(last, i, Raised) || IsAt(last, i, Finished(runs[i].success)))
  {
    FlagsFollow(runs, maxWorkers, states, events, |events|);
    var last := states[|events|];
    assert IsDecided(last.phases[i]);
    assert Carries(last.phases[i], runs[i].success);
  }

  /** All first passes succeed exactly when no schema of any shard fails its own. */
  lemma SuccessIffNoneFails(byShard: seq<ShardSchemas>, size: nat, w: World, runs: seq<BatchRun>)
    requires size > 0 && DistinctShards(byShard) && AreRunsOf(runs, Batches(byShard, size), w)
    ensures (forall k :: 0 <= k < |runs| ==> runs[k].success) <==> NoneFails(byShard, w)
  {
    var batches := Batches(byShard, size);
    if forall k :: 0 <= k < |runs| ==> runs[k].success {
      forall shard, s | IsSchema(byShard, shard, s) ensures !w.fails(shard, s) {
        HeldIffSchema(byShard, size, shard, s);
        var k :| 0 <= k < |batches| && Holds(batches[k], shard, s);
        assert !FailsOn(w, shard)(s);
      }
    }
    if NoneFails(byShard, w) {
      forall k | 0 <= k < |runs| ensures runs[k].success {
        forall s | s in batches[k].schemas ensures !FailsOn(w, batches[k].shard)(s) {
          assert Holds(batches[k], batches[k].shard, s);
          HeldIffSchema(byShard, size, batches[k].shard, s);
        }
      }
    }
  }

  /**
   However workers and monitor interleave: every batch ended as success exactly when no
   worker raised and no schema of any shard fails its first pass.
   */
  lemma AllSucceedIff(
    byShard: seq<ShardSchemas>, size: nat, maxWorkers: nat, w: World,
    runs: seq<BatchRun>, states: seq<Fleet>, events: seq<Event>)
    requires Completed(byShard, size, maxWorkers, w, runs, states, events)
    ensures var last := states[|events|];
            && |last.phases| == |Batches(byShard, size)|
            && ((forall i: nat :: i < |last.phases| ==> IsAt(last, i, Finished(true))) <==>
                NoneRaised(last) && NoneFails(byShard, w))
  {
    hide Batches, NoneFails;
    var last := states[|events|];
    FlagsFollow(runs, maxWorkers, states, events, |events|);
    SuccessIffNoneFails(byShard, size, w, runs);
    forall i: nat | i < |last.phases|
      ensures IsAt(last, i, Raised) || IsAt(last, i, Finished(runs[i].success))
    {
      FinishedAs(runs, maxWorkers, states, events, i);
    }
    if forall i: nat :: i < |last.phases| ==> IsAt(last, i, Finished(true)) {
      forall k | 0 <= k < |runs| ensures runs[k].success {
        assert IsAt(last, k, Finished(true));
      }
      forall i: nat ensures !IsAt(last, i, Raised) {
        assert i < |last.phases| ==> IsAt(last, i, Finished(true));
      }
    }
  }

  /**
   Each schema of each shard is in some batch, and unless the worker of a batch raised,
   every schema in it was attempted, and migrated if the batch succeeded or the retry did
   not fail on it.
   */
  lemma EverySchemaAttempted(
    byShard: seq<ShardSchemas>, size: nat, maxWorkers: nat, w: World,
    runs: seq<BatchRun>, states: seq<Fleet>, events: seq<Event>, shard: string, s: string)
    requires Completed(byShard, size, maxWorkers, w, runs, states, events)
    requires IsSchema(byShard, shard, s)
    ensures var batches, last := Batches(byShard, size), states[|events|];
            && (exists k :: 0 <= k < |batches| && Holds(batches[k], shard, s))
            && forall k: nat :: k < |batches| && Holds(batches[k], shard, s) && !IsAt(last, k, Raised) ==>
                                  && AttemptedIn(runs, last, k, s)
                                  && (runs[k].success || !w.failsAgain(shard, s) ==> s in runs[k].migrated)
  {
    hide Batches;
    var batches, last := Batches(byShard, size), states[|events|];
    HeldIffSchema(byShard, size, shard, s);
    forall k: nat | k < |batches| && Holds(batches[k], shard, s) && !IsAt(last, k, Raised)
      ensures AttemptedIn(runs, last, k, s)
      ensures runs[k].success || !w.failsAgain(shard, s) ==> s in runs[k].migrated
    {
      FinishedAs(runs, maxWorkers, states, events, k);
      AllAttempted(runs[k], batches[k].schemas, FailsOn(w, shard), FailsAgainOn(w, shard), s);
    }
  }

  lemma SuccessMigrates(
    byShard: seq<ShardSchemas>, size: nat, w: World, runs: seq<BatchRun>, shard: string, s: string)
    requires size > 0 && DistinctShards(byShard) && AreRunsOf(runs, Batches(byShard, size), w)
    requires IsSchema(byShard, shard, s) && forall k :: 0 <= k < |runs| ==> runs[k].success
    ensures Migrated(Batches(byShard, size), runs, shard, s)
  {
    hide Batches;
    HeldIffSchema(byShard, size, shard, s);
    var k :| 0 <= k < |Batches(byShard, size)| && Holds(Batches(byShard, size)[k], shard, s);
    assert runs[k].success && s in runs[k].migrated;
  }

  /**
   The run returns True exactly when no worker raised and no schema of any shard fails its
   first pass, and then every schema of every shard was migrated.
   */
  method RunMigrationsParallel(
    byShard: seq<ShardSchemas>, size: nat, last: Fleet, order: seq<nat>, ghost maxWorkers: nat, ghost w: World,
    ghost runs: seq<BatchRun>, ghost states: seq<Fleet>, ghost events: seq<Event>)
    returns (allSuccess: bool)
    requires Completed(byShard, size, maxWorkers, w, runs, states, events) && last == states[|events|]
    requires CompletionOrder(|Batches(byShard, size)|, order)
    ensures allSuccess <==> NoneRaised(last) && NoneFails(byShard, w)
    ensures allSuccess ==>
              forall shard, s :: IsSchema(byShard, shard, s) ==> Migrated(Batches(byShard, size), runs, shard, s)
  {
    hide Batches, NoneFails, IsSchema;
    AllSucceedIff(byShard, size, maxWorkers, w, runs, states, events);
    allSuccess := CollectResults(last, order);
    if allSuccess {
      SuccessIffNoneFails(byShard, size, w, runs);
      forall shard, s | IsSchema(byShard, shard, s) ensures Migrated(Batches(byShard, size), runs, shard, s) {
        SuccessMigrates(byShard, size, w, runs, shard, s);
      }
    }
  }
}
