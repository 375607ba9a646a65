/**
 Batching and retrying tenant migrations: run_migrations_parallel and run_alembic_for_batch
 of backend/alembic/run_multitenant_migrations.py, with the schema loop that each
 subprocess runs (_migrate_schemas of backend/alembic/env.py).
 */
module MigrationBatches {
  import opened Sequences
  import opened Text

  datatype Batch = Batch(shard: string, schemas: seq<string>)

  /** schemas_by_shard, a dict: shard names are distinct. */
  datatype ShardSchemas = ShardSchemas(shard: string, schemas: seq<string>)

  // ----- Batches --------------------------------------------------------

  /** `[schemas[i : i + size] for i in range(0, len(schemas), size)]` */
  function Chunks(schemas: seq<string>, size: nat): seq<seq<string>>
    requires size > 0
  {
    if schemas == [] then []
    else if |schemas| <= size then [schemas]
    else [schemas[..size]] + Chunks(schemas[size..], size)
  }

  function BatchEach(shard: string, chunks: seq<seq<string>>): seq<Batch> {
    seq(|chunks|, i requires 0 <= i < |chunks| => Batch(shard, chunks[i]))
  }

  function Names(byShard: seq<ShardSchemas>): seq<string> {
    seq(|byShard|, i requires 0 <= i < |byShard| => byShard[i].shard)
  }

  function Lookup(byShard: seq<ShardSchemas>, shard: string): seq<string> {
    if byShard == [] then []
    else if byShard[|byShard| - 1].shard == shard then byShard[|byShard| - 1].schemas
    else Lookup(byShard[..|byShard| - 1], shard)
  }

  function BatchesOf(byShard: seq<ShardSchemas>, shards: seq<string>, size: nat): seq<Batch>
    requires size > 0
  {
    if shards == [] then []
    else
      var n := |shards| - 1;
      BatchesOf(byShard, shards[..n], size) + BatchEach(shards[n], Chunks(Lookup(byShard, shards[n]), size))
  }

  /** The batch list: shards in name order, each shard's schemas in their own order. */
  function Batches(byShard: seq<ShardSchemas>, size: nat): seq<Batch>
    requires size > 0
  {
    BatchesOf(byShard, Sorted(Names(byShard)), size)
  }

  /** The schemas that the batches of one shard hold, in batch order. */
  function SchemasOn(batches: seq<Batch>, shard: string): seq<string> {
    if batches == [] then []
    else
      var n := |batches| - 1;
      SchemasOn(batches[..n], shard) + (if batches[n].shard == shard then batches[n].schemas else [])
  }

  function Concat(chunks: seq<seq<string>>): seq<string> {
    if chunks == [] then [] else Concat(chunks[..|chunks| - 1]) + chunks[|chunks| - 1]
  }

  lemma {:induction false} ConcatCons(first: seq<string>, rest: seq<seq<string>>)
    ensures Concat([first] + rest) == first + Concat(rest)
  {
    var all := [first] + rest;
    if rest == [] {
      assert all[..0] == [] && all == [first];
    } else {
      var n := |rest| - 1;
      assert all[..|all| - 1] == [first] + rest[..n];
      ConcatCons(first, rest[..n]);
    }
  }

  /** Chunks give the list back in order. */
  lemma {:induction false} ChunksConcat(schemas: seq<string>, size: nat)
    requires size > 0
    ensures Concat(Chunks(schemas, size)) == schemas
  {
    if schemas == [] {
    } else if |schemas| <= size {
      ConcatCons(schemas, []);
      assert [schemas] + [] == [schemas];
    } else {
      ChunksConcat(schemas[size..], size);
      ConcatCons(schemas[..size], Chunks(schemas[size..], size));
    }
  }

  /** Every chunk has 1 to size schemas, and all but the last have exactly size. */
  lemma {:induction false} ChunkSizes(schemas: seq<string>, size: nat)
    requires size > 0
    ensures forall i :: 0 <= i < |Chunks(schemas, size)| ==> 1 <= |Chunks(schemas, size)[i]| <= size
    ensures forall i :: 0 <= i < |Chunks(schemas, size)| - 1 ==> |Chunks(schemas, size)[i]| == size
  {
    if |schemas| > size {
      ChunkSizes(schemas[size..], size);
    }
  }

  lemma {:induction false} SchemasOnConcat(a: seq<Batch>, b: seq<Batch>, shard: string)
    ensures SchemasOn(a + b, shard) == SchemasOn(a, shard) + SchemasOn(b, shard)
  {
    if b == [] {
      assert a + b == a;
    } else {
      var n := |b| - 1;
      assert (a + b)[..|a + b| - 1] == a + b[..n];
      SchemasOnConcat(a, b[..n], shard);
    }
  }

  lemma {:induction false} SchemasOnChunks(owner: string, chunks: seq<seq<string>>, shard: string)
    ensures SchemasOn(BatchEach(owner, chunks), shard) == if owner == shard then Concat(chunks) else []
  {
    if chunks == [] {
    } else {
      var n := |chunks| - 1;
      SchemasOnChunks(owner, chunks[..n], shard);
      assert BatchEach(owner, chunks)[..n] == BatchEach(owner, chunks[..n]);
    }
  }

  /** Batching one more shard adds its list to that shard and nothing to any other. */
  lemma OneMoreShard(before: seq<Batch>, owner: string, schemas: seq<string>, size: nat, shard: string)
    requires size > 0
    ensures SchemasOn(before + BatchEach(owner, Chunks(schemas, size)), shard) ==
            SchemasOn(before, shard) + (if owner == shard then schemas else [])
  {
    hide Chunks, BatchEach;
    ChunksConcat(schemas, size);
    SchemasOnChunks(owner, Chunks(schemas, size), shard);
    SchemasOnConcat(before, BatchEach(owner, Chunks(schemas, size)), shard);
  }

  lemma NoBatches(shard: string)
    ensures SchemasOn([], shard) == []
  {
  }

  lemma InLast(shards: seq<string>, shard: string)
    requires shards != [] && Distinct(shards)
    ensures var n := |shards| - 1;
            && (shard in shards <==> shard in shards[..n] || shard == shards[n])
            && !(shard in shards[..n] && shard == shards[n])
  {
    assert shards == shards[..|shards| - 1] + [shards[|shards| - 1]];
  }

  lemma {:induction false} BatchesOfShard(byShard: seq<ShardSchemas>, shards: seq<string>, size: nat, shard: string)
    requires size > 0 && Distinct(shards)
    ensures SchemasOn(BatchesOf(byShard, shards, size), shard) == if shard in shards then Lookup(byShard, shard) else []
  {
    hide Chunks, BatchEach, SchemasOn, Lookup;
    if shards == [] {
      NoBatches(shard);
    } else {
      var n := |shards| - 1;
      BatchesOfShard(byShard, shards[..n], size, shard);
      OneMoreShard(BatchesOf(byShard, shards[..n], size), shards[n], Lookup(byShard, shards[n]), size, shard);
      InLast(shards, shard);
    }
  }

  lemma {:induction false} BatchSizes(byShard: seq<ShardSchemas>, shards: seq<string>, size: nat, k: nat)
    requires size > 0 && k < |BatchesOf(byShard, shards, size)|
    ensures 1 <= |BatchesOf(byShard, shards, size)[k].schemas| <= size
  {
    var n := |shards| - 1;
    if k < |BatchesOf(byShard, shards[..n], size)| {
      BatchSizes(byShard, shards[..n], size, k);
    } else {
      ChunkSizes(Lookup(byShard, shards[n]), size);
    }
  }

  ghost predicate DistinctShards(byShard: seq<ShardSchemas>) {
    Distinct(Names(byShard))
  }

  lemma {:induction false} LookupIs(byShard: seq<ShardSchemas>, i: nat)
    requires DistinctShards(byShard) && i < |byShard|
    ensures Lookup(byShard, byShard[i].shard) == byShard[i].schemas
  {
    var n := |byShard| - 1;
    if i < n {
      assert Names(byShard)[i] != Names(byShard)[n];
      assert Names(byShard[..n]) == Names(byShard)[..n];
      LookupIs(byShard[..n], i);
    }
  }

  /**
   No batch is empty, over the size or across shards; and the batches of a shard, in
   order, are that shard's list cut up, with nothing lost or repeated.
   */
  lemma BatchesPartition(byShard: seq<ShardSchemas>, size: nat, i: nat)
    requires size > 0 && DistinctShards(byShard) && i < |byShard|
    ensures SchemasOn(Batches(byShard, size), byShard[i].shard) == byShard[i].schemas
    ensures forall k :: 0 <= k < |Batches(byShard, size)| ==> 1 <= |Batches(byShard, size)[k].schemas| <= size
  {
    var names := Names(byShard);
    SortedDistinct(names);
    assert names[i] in names;
    BatchesOfShard(byShard, Sorted(names), size, byShard[i].shard);
    LookupIs(byShard, i);
    forall k | 0 <= k < |Batches(byShard, size)|
      ensures 1 <= |Batches(byShard, size)[k].schemas| <= size
    {
      BatchSizes(byShard, Sorted(names), size, k);
    }
  }

  lemma {:induction false} BatchesFollow(
    byShard: seq<ShardSchemas>, shards: seq<string>, size: nat, k: nat, l: nat)
    requires size > 0 && k <= l < |BatchesOf(byShard, shards, size)|
    ensures exists i, j :: 0 <= i <= j < |shards| && BatchesOf(byShard, shards, size)[k].shard == shards[i] &&
                           BatchesOf(byShard, shards, size)[l].shard == shards[j]
  {
    hide Chunks, Lookup;
    var n := |shards| - 1;
    var before := BatchesOf(byShard, shards[..n], size);
    if l < |before| {
      BatchesFollow(byShard, shards[..n], size, k, l);
      var i, j :| 0 <= i <= j < n && before[k].shard == shards[..n][i] && before[l].shard == shards[..n][j];
      assert shards[i] == shards[..n][i] && shards[j] == shards[..n][j];
    } else if k < |before| {
      BatchesFollow(byShard, shards[..n], size, k, k);
      var i :| 0 <= i < n && before[k].shard == shards[..n][i];
      assert shards[i] == shards[..n][i];
    }
  }

  /** The batches come in the order of their shards' names. */
  lemma BatchesInNameOrder(byShard: seq<ShardSchemas>, size: nat, k: nat, l: nat)
    requires size > 0 && k <= l < |Batches(byShard, size)|
    ensures AtMost(Batches(byShard, size)[k].shard, Batches(byShard, size)[l].shard)
  {
    var names := Sorted(Names(byShard));
    SortedIsAscending(Names(byShard));
    BatchesFollow(byShard, names, size, k, l);
    var i, j :| 0 <= i <= j < |names| && Batches(byShard, size)[k].shard == names[i] &&
                Batches(byShard, size)[l].shard == names[j];
    AtMostTotal(names[i], names[j]);
  }

  /** A batch belongs to a shard of the input. */
  lemma BatchesOnKnownShards(byShard: seq<ShardSchemas>, size: nat, shard: string)
    requires size > 0 && DistinctShards(byShard)
    requires shard !in Names(byShard)
    ensures SchemasOn(Batches(byShard, size), shard) == []
  {
    SortedDistinct(Names(byShard));
    BatchesOfShard(byShard, Sorted(Names(byShard)), size, shard);
  }

  // ----- One pass over the schemas of a batch ---------------------------

  /** The pass over schemas: which were attempted, which migrated, and whether it raised. */
  datatype Pass = Pass(attempted: seq<string>, migrated: set<string>, raised: bool)

  method MigrateSchemas(schemas: seq<string>, continueOnError: bool, fails: string -> bool) returns (p: Pass)
    ensures p.attempted <= schemas
    ensures p.migrated == set s | s in p.attempted && !fails(s)
    ensures p.raised <==> !continueOnError && exists s :: s in schemas && fails(s)
    ensures !p.raised ==> p.attempted == schemas
    ensures p.raised ==> p.attempted != [] && fails(p.attempted[|p.attempted| - 1]) &&
                         forall s :: s in p.attempted[..|p.attempted| - 1] ==> !fails(s)
  {
    var attempted: seq<string> := [];
    var migrated: set<string> := {};
    for i := 0 to |schemas|
      invariant attempted == schemas[..i]
      invariant migrated == set s | s in attempted && !fails(s)
      invariant !continueOnError ==> forall s :: s in attempted ==> !fails(s)
    {
      var schema := schemas[i];
      attempted := attempted + [schema];
      assert attempted == schemas[..i + 1];
      if fails(schema) {
        if !continueOnError {
          assert attempted[..|attempted| - 1] == schemas[..i];
          return Pass(attempted, migrated, true);
        }
      } else {
        migrated := migrated + {schema};
      }
    }
    return Pass(attempted, migrated, false);
  }

  /** What a worker returns for a batch. */
  datatype BatchResult = BatchResult(schemas: seq<string>, success: bool)

  /** What running a batch came to: its outcome, every attempt made, and what got migrated. */
  datatype BatchRun = BatchRun(success: bool, attempted: seq<string>, migrated: set<string>)

  /**
   A batch succeeds when no schema fails its first pass. Otherwise the whole batch is tried
   again without stopping at errors, so a failing schema never keeps another one of its
   batch from being attempted.
   */
  ghost predicate IsRunOf(run: BatchRun, schemas: seq<string>, fails: string -> bool, failsAgain: string -> bool) {
    && (run.success <==> forall s :: s in schemas ==> !fails(s))
    && (run.success ==> run.attempted == schemas && run.migrated == set s | s in schemas)
    && (!run.success ==>
          && |run.attempted| > |schemas|
          && run.attempted[|run.attempted| - |schemas|..] == schemas
          && run.attempted[..|run.attempted| - |schemas|] <= schemas)
    && (!run.success ==> forall s :: s in schemas && !failsAgain(s) ==> s in run.migrated)
    && (forall s :: s in run.migrated ==> s in schemas && (!fails(s) || !failsAgain(s)))
  }

  /** Every schema of a batch is attempted, whichever others fail. */
  lemma AllAttempted(run: BatchRun, schemas: seq<string>, fails: string -> bool, failsAgain: string -> bool, s: string)
    requires IsRunOf(run, schemas, fails, failsAgain) && s in schemas
    ensures s in run.attempted
    ensures run.success || !failsAgain(s) ==> s in run.migrated
  {
    if !run.success {
      var start := |run.attempted| - |schemas|;
      var i :| 0 <= i < |schemas| && schemas[i] == s;
      assert run.attempted[start..][i] == run.attempted[start + i];
    }
  }

  lemma Halves(a: seq<string>, b: seq<string>)
    ensures (a + b)[|a + b| - |b|..] == b && (a + b)[..|a + b| - |b|] == a
  {
  }

  /** A pass that stopped at a failure and one that did not make up a failed batch. */
  lemma BothPasses(
    schemas: seq<string>, fails: string -> bool, failsAgain: string -> bool, first: Pass, retry: Pass)
    requires first.attempted <= schemas && first.attempted != []
    requires first.migrated == set s | s in first.attempted && !fails(s)
    requires exists s :: s in schemas && fails(s)
    requires retry.attempted == schemas && retry.migrated == set s | s in schemas && !failsAgain(s)
    ensures IsRunOf(BatchRun(false, first.attempted + retry.attempted, first.migrated + retry.migrated),
                    schemas, fails, failsAgain)
  {
    var attempted := first.attempted + retry.attempted;
    Halves(first.attempted, retry.attempted);
    forall s | s in first.attempted ensures s in schemas {
      var i :| 0 <= i < |first.attempted| && first.attempted[i] == s;
      assert schemas[i] == s;
    }
  }

  method RunAlembicForBatch(batch: Batch, fails: string -> bool, failsAgain: string -> bool)
    returns (result: BatchResult, ghost run: BatchRun)
    ensures result.schemas == batch.schemas
    ensures result.success <==> forall s :: s in batch.schemas ==> !fails(s)
    ensures run.success == result.success && IsRunOf(run, batch.schemas, fails, failsAgain)
  {
    var first := MigrateSchemas(batch.schemas, false, fails);
    if !first.raised {
      run := BatchRun(true, first.attempted, first.migrated);
      return BatchResult(batch.schemas, true), run;
    }
    var retry := MigrateSchemas(batch.schemas, true, failsAgain);
    run := BatchRun(false, first.attempted + retry.attempted, first.migrated + retry.migrated);
    BothPasses(batch.schemas, fails, failsAgain, first, retry);
    return BatchResult(batch.schemas, false), run;
  }
}
