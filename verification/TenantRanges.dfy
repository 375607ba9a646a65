/**
 Which tenants a migration run covers: the positional range of backend/alembic/env.py,
 applied to all tenants before they are split by shard.
 */
module TenantRanges {
  import opened Wrappers
  import opened Sequences
  import opened Text

  const TENANT_ID_PREFIX := "tenant_"

  predicate IsTenant(id: string) {
    TENANT_ID_PREFIX <= id
  }

  function Tenants(ids: seq<string>): seq<string> {
    if ids == [] then []
    else
      var n := |ids| - 1;
      Tenants(ids[..n]) + (if IsTenant(ids[n]) then [ids[n]] else [])
  }

  function Max(a: int, b: int): int {
    if a < b then b else a
  }

  function Min(a: int, b: int): int {
    if a < b then a else b
  }

  /** Python's `s[a:b]` with non-negative a: empty when b does not exceed a. */
  function Slice(s: seq<string>, a: nat, b: int): seq<string> {
    if a >= |s| || b <= a then [] else s[a..Min(b, |s|)]
  }

  /** Python's `s[a:b]` with b possibly negative, counted from the end. */
  function PythonSlice(s: seq<string>, a: nat, b: int): seq<string> {
    Slice(s, a, if b < 0 then Max(0, |s| + b) else b)
  }

  /** The elements in positions [start, end), ends clamped. */
  function Positions(s: seq<string>, start: Option<int>, end: Option<int>): seq<string> {
    var startIndex := Max(0, if start.Some? then start.value else 0);
    var endIndex := Min(|s|, if end.Some? then end.value else |s|);
    PythonSlice(s, startIndex, endIndex)
  }

  function SelectedTenants(ids: seq<string>, start: Option<int>, end: Option<int>): seq<string> {
    Positions(Sorted(Tenants(ids)), start, end)
  }

  function Keep(ids: seq<string>, selected: seq<string>): seq<string> {
    if ids == [] then []
    else
      var n := |ids| - 1;
      Keep(ids[..n], selected) + (if ids[n] in selected || !IsTenant(ids[n]) then [ids[n]] else [])
  }

  function FilterTenantsByRange(ids: seq<string>, start: Option<int>, end: Option<int>): seq<string> {
    if start.None? && end.None? then ids else Keep(ids, SelectedTenants(ids, start, end))
  }

  // ----- What a range selects -------------------------------------------

  /** How many tenants come strictly before t in code-point order. */
  ghost function Rank(ids: seq<string>, t: string): nat {
    |set u | u in ids && IsTenant(u) && AtMost(u, t) && u != t|
  }

  lemma {:induction false} TenantsAre(ids: seq<string>)
    ensures forall x :: x in Tenants(ids) <==> x in ids && IsTenant(x)
    ensures Distinct(ids) ==> Distinct(Tenants(ids))
  {
    if ids == [] {
    } else {
      var n := |ids| - 1;
      TenantsAre(ids[..n]);
      assert ids == ids[..n] + [ids[n]];
      if Distinct(ids) {
        assert ids[n] !in ids[..n];
      }
    }
  }

  /** A tenant's id starts with the prefix; the tenants of a list are those of its ids. */
  lemma {:induction false} TenantsMeaning(ids: seq<string>)
    ensures Tenants(ids) == Filter(ids, (id: string) => |id| >= 7 && id[..7] == "tenant_")
  {
    if ids == [] {
    } else {
      TenantsMeaning(ids[..|ids| - 1]);
    }
  }

  lemma {:induction false} KeepIs(ids: seq<string>, selected: seq<string>)
    ensures forall x :: x in Keep(ids, selected) <==> x in ids && (x in selected || !IsTenant(x))
  {
    if ids == [] {
    } else {
      KeepIs(ids[..|ids| - 1], selected);
      assert ids == ids[..|ids| - 1] + [ids[|ids| - 1]];
    }
  }

  /** A tenant's position in the sorted list is its rank. */
  lemma PositionIsRank(ids: seq<string>, i: nat)
    requires Distinct(ids) && i < |Sorted(Tenants(ids))|
    ensures Rank(ids, Sorted(Tenants(ids))[i]) == i
  {
    hide Sorted, Tenants, IsTenant, AtMost;
    var sorted := Sorted(Tenants(ids));
    TenantsAre(ids);
    SortedIsAscending(Tenants(ids));
    SortedDistinct(Tenants(ids));
    var t := sorted[i];
    var before := set u | u in ids && IsTenant(u) && AtMost(u, t) && u != t;
    forall u ensures u in before <==> u in sorted[..i] {
      if u in sorted {
        var j :| 0 <= j < |sorted| && sorted[j] == u;
        if j > i && AtMost(u, t) {
          AtMostAntisymmetric(u, t);
        }
      }
      assert u in Elements(sorted) <==> u in Elements(Tenants(ids));
    }
    assert before == Elements(sorted[..i]);
    DistinctCount(sorted[..i]);
  }

  /** A negative end counts from the end of the count tenants. */
  ghost predicate InRange(rank: nat, count: nat, start: Option<int>, end: Option<int>) {
    && (start.Some? ==> start.value <= rank)
    && (end.Some? ==> rank < if end.value < 0 then count + end.value else end.value)
  }

  lemma PositionsAre(s: seq<string>, start: Option<int>, end: Option<int>, i: nat)
    requires Distinct(s) && i < |s|
    ensures s[i] in Positions(s, start, end) <==> InRange(i, |s|, start, end)
  {
    var a := Max(0, if start.Some? then start.value else 0);
    var last := Min(|s|, if end.Some? then end.value else |s|);
    var b := if last < 0 then Max(0, |s| + last) else last;
    if a < b {
      assert Positions(s, start, end) == s[a..b];
      if a <= i < b { assert s[a..b][i - a] == s[i]; }
    }
  }

  lemma SelectedIffRanked(ids: seq<string>, start: Option<int>, end: Option<int>, t: string)
    requires Distinct(ids) && t in ids && IsTenant(t)
    ensures t in SelectedTenants(ids, start, end) <==> InRange(Rank(ids, t), |Tenants(ids)|, start, end)
  {
    hide Positions, InRange, Rank;
    var sorted := Sorted(Tenants(ids));
    TenantsAre(ids);
    SortedIsAscending(Tenants(ids));
    SortedDistinct(Tenants(ids));
    assert t in sorted;
    var i :| 0 <= i < |sorted| && sorted[i] == t;
    PositionIsRank(ids, i);
    PositionsAre(sorted, start, end, i);
  }

  /**
   A range keeps a tenant exactly when its 0-based rank is at least the start and below the
   end, and it keeps every other schema.
   */
  lemma RangeMeaning(ids: seq<string>, start: Option<int>, end: Option<int>, t: string)
    requires Distinct(ids) && t in ids
    ensures t in FilterTenantsByRange(ids, start, end) <==>
            (IsTenant(t) ==> InRange(Rank(ids, t), |Tenants(ids)|, start, end))
  {
    if start.Some? || end.Some? {
      var selected := SelectedTenants(ids, start, end);
      KeepIs(ids, selected);
      if IsTenant(t) {
        SelectedIffRanked(ids, start, end, t);
      }
    }
  }

  /** The kept schemas stay in their original order. */
  lemma {:induction false} KeepOrder(ids: seq<string>, selected: seq<string>, i: nat, j: nat)
    requires i < j < |Keep(ids, selected)|
    ensures exists p, q :: 0 <= p < q < |ids| && ids[p] == Keep(ids, selected)[i] && ids[q] == Keep(ids, selected)[j]
  {
    var n := |ids| - 1;
    var before := Keep(ids[..n], selected);
    if j < |before| {
      KeepOrder(ids[..n], selected, i, j);
      var p, q :| 0 <= p < q < n && ids[..n][p] == before[i] && ids[..n][q] == before[j];
      assert ids[p] == ids[..n][p] && ids[q] == ids[..n][q];
    } else {
      KeepIs(ids[..n], selected);
      assert before[i] in ids[..n];
      var p :| 0 <= p < n && ids[..n][p] == before[i];
      assert ids[p] == ids[..n][p];
    }
  }

  lemma {:induction false} KeepIsFilter(ids: seq<string>, selected: seq<string>)
    ensures Keep(ids, selected) == Filter(ids, (id: string) => id in selected || !("tenant_" <= id))
  {
    if ids == [] {
    } else {
      KeepIsFilter(ids[..|ids| - 1], selected);
    }
  }

  /** Adjacent ranges split a range: no tenant is covered twice, none is missed. */
  lemma AdjacentRangesSplit(ids: seq<string>, a: nat, b: nat, c: nat, t: string)
    requires Distinct(ids) && a <= b <= c && t in ids && IsTenant(t)
    ensures t in FilterTenantsByRange(ids, Some(a), Some(c)) <==>
            t in FilterTenantsByRange(ids, Some(a), Some(b)) || t in FilterTenantsByRange(ids, Some(b), Some(c))
    ensures !(t in FilterTenantsByRange(ids, Some(a), Some(b)) && t in FilterTenantsByRange(ids, Some(b), Some(c)))
  {
    RangeMeaning(ids, Some(a), Some(c), t);
    RangeMeaning(ids, Some(a), Some(b), t);
    RangeMeaning(ids, Some(b), Some(c), t);
  }

  // ----- The documented range -------------------------------------------

  /** What the docstring promises: positions from start to end, 1-based and inclusive. */
  ghost predicate InDocumentedRange(rank: nat, start: Option<int>, end: Option<int>) {
    && (start.Some? ==> start.value <= rank + 1)
    && (end.Some? ==> rank + 1 <= end.value)
  }

  /** Of ids, those that the documented range over all keeps, in their order. */
  ghost function KeepDocumented(all: seq<string>, ids: seq<string>, start: Option<int>, end: Option<int>): seq<string> {
    if ids == [] then []
    else
      var n := |ids| - 1;
      KeepDocumented(all, ids[..n], start, end) +
      (if IsTenant(ids[n]) ==> InDocumentedRange(Rank(all, ids[n]), start, end) then [ids[n]] else [])
  }

  ghost function DocumentedRange(ids: seq<string>, start: Option<int>, end: Option<int>): seq<string> {
    KeepDocumented(ids, ids, start, end)
  }

  lemma {:induction false} KeepDocumentedIs(all: seq<string>, ids: seq<string>, start: Option<int>, end: Option<int>)
    ensures forall x :: x in KeepDocumented(all, ids, start, end) <==>
                        x in ids && (IsTenant(x) ==> InDocumentedRange(Rank(all, x), start, end))
  {
    hide Rank, InDocumentedRange, IsTenant;
    if ids == [] {
    } else {
      var n := |ids| - 1;
      KeepDocumentedIs(all, ids[..n], start, end);
      assert ids == ids[..n] + [ids[n]];
    }
  }

  /** For one tenant: code and documentation differ on the one before the first documented. */
  lemma DocumentedDiffersAt(ids: seq<string>, start: Option<int>, end: Option<int>, t: string)
    requires Distinct(ids) && t in ids && IsTenant(t)
    requires end.Some? ==> end.value >= 0
    ensures (t in FilterTenantsByRange(ids, start, end) <==> t in DocumentedRange(ids, start, end)) <==>
            !(start.Some? && Rank(ids, t) == start.value - 1 && (end.Some? ==> start.value <= end.value))
  {
    RangeMeaning(ids, start, end, t);
    KeepDocumentedIs(ids, ids, start, end);
  }

  /** No rank below count is in one of the two ranges only: a check of the arguments. */
  predicate RangesAgree(count: nat, start: Option<int>, end: Option<int>) {
    if end.Some? && end.value < 0 then
      count + end.value <= if start.Some? then Max(0, start.value) else 0
    else
      start.None? || start.value < 1 || start.value > count || (end.Some? && start.value > end.value)
  }

  lemma RanksAgree(count: nat, start: Option<int>, end: Option<int>)
    ensures RangesAgree(count, start, end) <==>
            forall k: nat :: k < count ==> (InRange(k, count, start, end) <==> InDocumentedRange(k, start, end))
  {
    if end.Some? && end.value < 0 {
      var k := if start.Some? then Max(0, start.value) else 0;
      if k < count + end.value {
        assert InRange(k, count, start, end) && !InDocumentedRange(k, start, end);
      }
    } else if !RangesAgree(count, start, end) {
      var k := start.value - 1;
      assert !InRange(k, count, start, end) && InDocumentedRange(k, start, end);
    }
  }

  lemma RankInCount(ids: seq<string>, t: string)
    requires Distinct(ids) && t in ids && IsTenant(t)
    ensures Rank(ids, t) < |Tenants(ids)|
  {
    hide Rank, Sorted;
    TenantsAre(ids);
    SortedIsAscending(Tenants(ids));
    SortedDistinct(Tenants(ids));
    assert t in Sorted(Tenants(ids));
    var i :| 0 <= i < |Sorted(Tenants(ids))| && Sorted(Tenants(ids))[i] == t;
    PositionIsRank(ids, i);
  }

  lemma {:induction false} KeepsAgree(all: seq<string>, ids: seq<string>, start: Option<int>, end: Option<int>)
    requires start.Some? || end.Some?
    requires Distinct(all) && forall x :: x in ids ==> x in all
    requires RangesAgree(|Tenants(all)|, start, end)
    ensures Keep(ids, SelectedTenants(all, start, end)) == KeepDocumented(all, ids, start, end)
  {
    hide SelectedTenants, Rank, RangesAgree, InRange, InDocumentedRange;
    if ids == [] {
    } else {
      var n := |ids| - 1;
      KeepsAgree(all, ids[..n], start, end);
      if IsTenant(ids[n]) {
        SelectedIffRanked(all, start, end, ids[n]);
        RankInCount(all, ids[n]);
        RanksAgree(|Tenants(all)|, start, end);
      }
    }
  }

  lemma RanksAgreeWithoutRange(count: nat)
    ensures RangesAgree(count, None, None)
  {
  }

  lemma {:induction false} NoRangeKeepsAll(all: seq<string>, ids: seq<string>)
    ensures KeepDocumented(all, ids, None, None) == ids
  {
    if ids == [] {
    } else {
      var n := |ids| - 1;
      NoRangeKeepsAll(all, ids[..n]);
      assert ids == ids[..n] + [ids[n]];
    }
  }

  /** The code keeps what the documentation says exactly for arguments that agree. */
  lemma DocumentedIffAgree(ids: seq<string>, start: Option<int>, end: Option<int>)
    requires Distinct(ids)
    ensures FilterTenantsByRange(ids, start, end) == DocumentedRange(ids, start, end) <==>
            RangesAgree(|Tenants(ids)|, start, end)
  {
    hide SelectedTenants, Rank, RangesAgree, InRange, InDocumentedRange, Keep, KeepDocumented;
    var count := |Tenants(ids)|;
    if start.None? && end.None? {
      NoRangeKeepsAll(ids, ids);
      RanksAgreeWithoutRange(count);
    } else if RangesAgree(count, start, end) {
      KeepsAgree(ids, ids, start, end);
    } else {
      RanksAgree(count, start, end);
      var k: nat :| k < count && !(InRange(k, count, start, end) <==> InDocumentedRange(k, start, end));
      SortedIsAscending(Tenants(ids));
      TenantsAre(ids);
      SortedDistinct(Tenants(ids));
      var t := Sorted(Tenants(ids))[k];
      assert t in Tenants(ids);
      PositionIsRank(ids, k);
      RangeMeaning(ids, start, end, t);
      KeepDocumentedIs(ids, ids, start, end);
    }
  }

  lemma OnlyRank(t: string)
    requires IsTenant(t)
    ensures Rank([t], t) == 0
    ensures t !in SelectedTenants([t], Some(1), Some(1))
  {
    assert (set u | u in [t] && IsTenant(u) && AtMost(u, t) && u != t) == {};
    SelectedIffRanked([t], Some(1), Some(1), t);
  }

  lemma KeepsOne(t: string, selected: seq<string>)
    ensures Keep([t], selected) == if t in selected || !IsTenant(t) then [t] else []
  {
    assert [t][..0] == [];
  }

  lemma KeepsOneDocumented(all: seq<string>, t: string, start: Option<int>, end: Option<int>)
    ensures KeepDocumented(all, [t], start, end) ==
            if IsTenant(t) ==> InDocumentedRange(Rank(all, t), start, end) then [t] else []
  {
    var ids := [t];
    assert ids[..0] == [] && ids[0] == t;
    assert KeepDocumented(all, ids[..0], start, end) == [];
  }

  lemma OneTenantDiffers(t: string)
    requires IsTenant(t)
    ensures FilterTenantsByRange([t], Some(1), Some(1)) == []
    ensures DocumentedRange([t], Some(1), Some(1)) == [t]
  {
    OnlyRank(t);
    KeepsOne(t, SelectedTenants([t], Some(1), Some(1)));
    KeepsOneDocumented([t], t, Some(1), Some(1));
  }

  /** One tenant and the range from 1 to 1: the documentation keeps it, the code does not. */
  lemma DocumentedRangeIsNotTheCodes()
    ensures FilterTenantsByRange(["tenant_a"], Some(1), Some(1)) == []
    ensures DocumentedRange(["tenant_a"], Some(1), Some(1)) == ["tenant_a"]
  {
    assert TENANT_ID_PREFIX == "tenant_a"[..7];
    OneTenantDiffers("tenant_a");
  }

  // ----- By shard -------------------------------------------------------

  datatype Shard = Shard(name: string, tenants: seq<string>)

  function Deduplicated(s: seq<string>): seq<string> {
    if s == [] then []
    else
      var n := |s| - 1;
      var before := Deduplicated(s[..n]);
      if s[n] in before then before else before + [s[n]]
  }

  function Chained(shards: seq<Shard>): seq<string> {
    if shards == [] then [] else Chained(shards[..|shards| - 1]) + shards[|shards| - 1].tenants
  }

  /** `sorted(set(chain.from_iterable(...)))`. */
  function AllTenants(shards: seq<Shard>): seq<string> {
    Sorted(Deduplicated(Chained(shards)))
  }

  function Intersect(tenants: seq<string>, selected: seq<string>): seq<string> {
    if tenants == [] then []
    else
      var n := |tenants| - 1;
      Intersect(tenants[..n], selected) + (if tenants[n] in selected then [tenants[n]] else [])
  }

  function FindTenants(shards: seq<Shard>, name: string): seq<string> {
    if shards == [] then []
    else if shards[|shards| - 1].name == name then shards[|shards| - 1].tenants
    else FindTenants(shards[..|shards| - 1], name)
  }

  function TenantsToMigrate(
    byShard: seq<Shard>, shard: Option<string>, start: Option<int>, end: Option<int>): seq<Shard> {
    var shards := if shard.Some? then [Shard(shard.value, FindTenants(byShard, shard.value))] else byShard;
    if start.None? && end.None? then shards
    else
      var selected := FilterTenantsByRange(AllTenants(shards), start, end);
      seq(|shards|, i requires 0 <= i < |shards| => Shard(shards[i].name, Intersect(shards[i].tenants, selected)))
  }

  lemma {:induction false} DeduplicatedIs(s: seq<string>)
    ensures Distinct(Deduplicated(s)) && Elements(Deduplicated(s)) == Elements(s)
  {
    if s == [] {
    } else {
      var n := |s| - 1;
      DeduplicatedIs(s[..n]);
      assert s == s[..n] + [s[n]];
      assert s[n] in Deduplicated(s[..n]) <==> s[n] in Elements(Deduplicated(s[..n]));
      assert Elements(s) == Elements(s[..n]) + {s[n]};
    }
  }

  lemma {:induction false} ChainedIs(shards: seq<Shard>, t: string)
    ensures t in Chained(shards) <==> exists i :: 0 <= i < |shards| && t in shards[i].tenants
  {
    if shards == [] {
    } else {
      var n := |shards| - 1;
      ChainedIs(shards[..n], t);
      if i :| 0 <= i < |shards| && t in shards[i].tenants {
        assert i < n ==> t in shards[..n][i].tenants;
      }
      if t in Chained(shards[..n]) {
        var i :| 0 <= i < n && t in shards[..n][i].tenants;
        assert t in shards[i].tenants;
      }
    }
  }

  lemma AllTenantsAre(shards: seq<Shard>, t: string)
    ensures Distinct(AllTenants(shards))
    ensures t in AllTenants(shards) <==> exists i :: 0 <= i < |shards| && t in shards[i].tenants
  {
    DeduplicatedIs(Chained(shards));
    SortedDistinct(Deduplicated(Chained(shards)));
    ChainedIs(shards, t);
    assert t in Chained(shards) <==> t in Elements(Chained(shards));
    assert t in AllTenants(shards) <==> t in Elements(AllTenants(shards));
  }

  lemma {:induction false} IntersectIs(tenants: seq<string>, selected: seq<string>)
    ensures forall x :: x in Intersect(tenants, selected) <==> x in tenants && x in selected
    ensures Distinct(tenants) ==> Distinct(Intersect(tenants, selected))
  {
    if tenants == [] {
    } else {
      var n := |tenants| - 1;
      IntersectIs(tenants[..n], selected);
      assert tenants == tenants[..n] + [tenants[n]];
      if Distinct(tenants) {
        assert tenants[n] !in tenants[..n];
      }
    }
  }

  /**
   With a range and no pinned shard, a shard's list keeps exactly its own tenants whose
   rank among all tenants of all shards is in the range.
   */
  lemma ShardRangeMeaning(byShard: seq<Shard>, start: Option<int>, end: Option<int>, i: nat, t: string)
    requires i < |byShard| && (start.Some? || end.Some?)
    ensures var result := TenantsToMigrate(byShard, None, start, end);
            && |result| == |byShard| && result[i].name == byShard[i].name
            && (t in result[i].tenants <==>
                t in byShard[i].tenants &&
                (IsTenant(t) ==> InRange(Rank(AllTenants(byShard), t), |Tenants(AllTenants(byShard))|, start, end)))
            && (Distinct(byShard[i].tenants) ==> Distinct(result[i].tenants))
  {
    var all := AllTenants(byShard);
    AllTenantsAre(byShard, t);
    IntersectIs(byShard[i].tenants, FilterTenantsByRange(all, start, end));
    if t in byShard[i].tenants {
      RangeMeaning(all, start, end, t);
    }
  }

  lemma {:induction false} IntersectIsFilter(tenants: seq<string>, selected: seq<string>)
    ensures Intersect(tenants, selected) == Filter(tenants, (t: string) => t in selected)
  {
    if tenants == [] {
    } else {
      IntersectIsFilter(tenants[..|tenants| - 1], selected);
    }
  }

  /** A shard's list is filtered by the range over all tenants, in its own order. */
  lemma ShardListMeaning(byShard: seq<Shard>, start: Option<int>, end: Option<int>, i: nat)
    requires i < |byShard|
    ensures TenantsToMigrate(byShard, None, None, None) == byShard
    ensures start.Some? || end.Some? ==>
              var selected := FilterTenantsByRange(AllTenants(byShard), start, end);
              TenantsToMigrate(byShard, None, start, end)[i] ==
              Shard(byShard[i].name, Filter(byShard[i].tenants, (t: string) => t in selected))
  {
    IntersectIsFilter(byShard[i].tenants, FilterTenantsByRange(AllTenants(byShard), start, end));
  }

  ghost predicate DistinctNames(byShard: seq<Shard>) {
    forall i, j :: 0 <= i < j < |byShard| ==> byShard[i].name != byShard[j].name
  }

  lemma {:induction false} FindTenantsIs(byShard: seq<Shard>, name: string)
    ensures (forall i :: 0 <= i < |byShard| ==> byShard[i].name != name) ==> FindTenants(byShard, name) == []
    ensures DistinctNames(byShard) ==>
              forall i :: 0 <= i < |byShard| && byShard[i].name == name ==>
                            FindTenants(byShard, name) == byShard[i].tenants
  {
    if byShard != [] {
      FindTenantsIs(byShard[..|byShard| - 1], name);
      assert forall i :: 0 <= i < |byShard| - 1 ==> byShard[..|byShard| - 1][i] == byShard[i];
    }
  }

  /**
   Pinning a shard is migrating as if it were the only one, so that a range counts its
   tenants alone; a shard that is not listed has no tenants.
   */
  lemma PinnedShardAlone(byShard: seq<Shard>, name: string, start: Option<int>, end: Option<int>)
    requires DistinctNames(byShard)
    ensures forall i :: 0 <= i < |byShard| && byShard[i].name == name ==>
                          TenantsToMigrate(byShard, Some(name), start, end) ==
                          TenantsToMigrate([byShard[i]], None, start, end)
    ensures (forall i :: 0 <= i < |byShard| ==> byShard[i].name != name) ==>
              TenantsToMigrate(byShard, Some(name), start, end) == [Shard(name, [])]
  {
    hide FilterTenantsByRange, AllTenants;
    FindTenantsIs(byShard, name);
    forall i | 0 <= i < |byShard| && byShard[i].name == name
      ensures TenantsToMigrate(byShard, Some(name), start, end) == TenantsToMigrate([byShard[i]], None, start, end)
    {
      assert byShard[i] == Shard(name, FindTenants(byShard, name));
    }
    var selected := FilterTenantsByRange(AllTenants([Shard(name, [])]), start, end);
    assert Intersect([], selected) == [];
  }

  /**
   When every id is a tenant and no tenant is on two shards, each selected tenant is on
   exactly one shard's list, and the lists hold nothing else.
   */
  lemma ShardsCoverRangeOnce(byShard: seq<Shard>, start: Option<int>, end: Option<int>, t: string)
    requires start.Some? || end.Some?
    requires forall i, x :: 0 <= i < |byShard| && x in byShard[i].tenants ==> IsTenant(x)
    requires forall i, j, x :: 0 <= i < j < |byShard| && x in byShard[i].tenants ==> x !in byShard[j].tenants
    ensures var result := TenantsToMigrate(byShard, None, start, end);
            && (t in FilterTenantsByRange(AllTenants(byShard), start, end) <==>
                exists i :: 0 <= i < |result| && t in result[i].tenants)
            && (forall i, j :: 0 <= i < j < |result| && t in result[i].tenants ==> t !in result[j].tenants)
  {
    var result := TenantsToMigrate(byShard, None, start, end);
    var all := AllTenants(byShard);
    AllTenantsAre(byShard, t);
    KeepIs(all, SelectedTenants(all, start, end));
    forall i | 0 <= i < |byShard|
      ensures t in result[i].tenants <==> t in byShard[i].tenants && t in FilterTenantsByRange(all, start, end)
    {
      IntersectIs(byShard[i].tenants, FilterTenantsByRange(all, start, end));
    }
  }
}
