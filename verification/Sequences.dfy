/** Sequences without repetitions. */
module Sequences {

  ghost predicate Distinct<T>(s: seq<T>) {
    forall i, j :: 0 <= i < j < |s| ==> s[i] != s[j]
  }

  ghost function Elements<T>(s: seq<T>): set<T> {
    set x | x in s
  }

  lemma {:induction false} DistinctCount<T>(s: seq<T>)
    requires Distinct(s)
    ensures |Elements(s)| == |s|
  {
    if s == [] {
    } else {
      var n := |s| - 1;
      DistinctCount(s[..n]);
      assert Elements(s) == Elements(s[..n]) + {s[n]};
      assert s[n] !in s[..n];
    }
  }

  /** A sequence has at most as many elements as places, and as many only when distinct. */
  lemma {:induction false} CountBound<T>(s: seq<T>)
    ensures |Elements(s)| <= |s|
    ensures |Elements(s)| == |s| ==> Distinct(s)
  {
    if s == [] {
    } else {
      var n := |s| - 1;
      CountBound(s[..n]);
      assert Elements(s) == Elements(s[..n]) + {s[n]};
    }
  }

  lemma SubsetCount<T>(a: set<T>, b: set<T>)
    requires a <= b
    ensures |a| <= |b|
  {
    assert |b| == |a| + |b - a| by {
      assert b == a + (b - a);
    }
  }

  /** The first n numbers. */
  ghost function Upto(n: nat): (r: set<nat>)
    ensures |r| == n && forall i: nat :: i in r <==> i < n
  {
    if n == 0 then {} else Upto(n - 1) + {n - 1}
  }

  // ----- Filtering ------------------------------------------------------

  /** The elements that satisfy p, in order. */
  function Filter<T>(s: seq<T>, p: T -> bool): seq<T> {
    if s == [] then []
    else
      var n := |s| - 1;
      Filter(s[..n], p) + if p(s[n]) then [s[n]] else []
  }

  lemma {:induction false} FilterFirst<T>(s: seq<T>, p: T -> bool)
    requires s != []
    ensures Filter(s, p) == (if p(s[0]) then [s[0]] else []) + Filter(s[1..], p)
  {
    var n := |s| - 1;
    if n == 0 {
      assert s[..0] == [] && s[1..] == [];
    } else {
      FilterFirst(s[..n], p);
      assert s[..n][1..] == s[1..n] && s[1..][..n - 1] == s[1..n];
      assert s[1..][n - 1] == s[n];
    }
  }

  /** Filtering keeps each occurrence of an element that satisfies p, and nothing else. */
  lemma {:induction false} FilterKeeps<T>(s: seq<T>, p: T -> bool, x: T)
    ensures multiset(Filter(s, p))[x] == if p(x) then multiset(s)[x] else 0
    ensures x in Filter(s, p) <==> x in s && p(x)
  {
    if s == [] {
    } else {
      var n := |s| - 1;
      FilterKeeps(s[..n], p, x);
      assert s == s[..n] + [s[n]];
    }
  }

  /** And what is kept stays in order. */
  lemma {:induction false} FilterInOrder<T>(s: seq<T>, p: T -> bool, i: nat, j: nat)
    requires i < j < |Filter(s, p)|
    ensures exists k, l :: 0 <= k < l < |s| && s[k] == Filter(s, p)[i] && s[l] == Filter(s, p)[j]
  {
    var n := |s| - 1;
    var before := Filter(s[..n], p);
    if j < |before| {
      FilterInOrder(s[..n], p, i, j);
      var k, l :| 0 <= k < l < n && s[..n][k] == before[i] && s[..n][l] == before[j];
      assert s[k] == s[..n][k] && s[l] == s[..n][l];
    } else {
      FilterKeeps(s[..n], p, before[i]);
      assert before[i] in before;
      var k :| 0 <= k < n && s[..n][k] == before[i];
      assert s[k] == s[..n][k];
    }
  }
}
