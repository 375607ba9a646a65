/**
 The two sequential helpers of backend/scripts/run_enterpriserag_bench_questions.py: the
 request loop with its retries, and the reading of document ids out of citations.
 */
module QuestionRequests {
  import opened Wrappers
  import opened Arithmetic
  import opened Sequences

  // ----- Requests ---------------------------------------------------------

  const MAX_REQUEST_ATTEMPTS := 5

  /** How one attempt ends: with a status and a text, or with a client error or timeout. */
  datatype Reply = Response(status: nat, text: string) | Broken

  datatype RequestError = AttemptsExhausted | Refused(status: nat, text: string) | NotJson(text: string) | Unexpected

  predicate IsRetriable(status: nat) {
    status == 429 || status == 500 || status == 502 || status == 503 || status == 504
  }

  /** Worth another attempt, if there is one left. */
  predicate Inconclusive(r: Reply) {
    r.Broken? || IsRetriable(r.status)
  }

  function ReadJsonResponse<T>(r: Reply, parse: string -> Option<T>): Result<T, RequestError>
    requires r.Response?
  {
    if r.status >= 400 then Failure(Refused(r.status, r.text))
    else
      match parse(r.text)
      case None => Failure(NotJson(r.text))
      case Some(payload) => Success(payload)
  }

  /** What a caller gets out of the last reply. */
  function Conclusion<T>(r: Reply, parse: string -> Option<T>): Result<T, RequestError> {
    if r.Broken? then Failure(AttemptsExhausted) else ReadJsonResponse(r, parse)
  }

  /** No reply, or one of the statuses that ask for patience. */
  predicate IsWorthRetrying(r: Reply) {
    r.Broken? || r.status in {429, 500, 502, 503, 504}
  }

  /** An error below 400 is none: the text is then read, and must be JSON. */
  predicate IsConclusion<T(==)>(r: Reply, parse: string -> Option<T>, result: Result<T, RequestError>) {
    match r
    case Broken => result == Failure(AttemptsExhausted)
    case Response(status, text) =>
      if status < 400 then
        match parse(text)
        case Some(payload) => result == Success(payload)
        case None => result == Failure(NotJson(text))
      else result == Failure(Refused(status, text))
  }

  /**
   The replies are those that would come, attempt by attempt. The result is that of the
   first conclusive one, or of the fifth; `Unexpected` is never raised. The pauses double,
   so that k of them make up 2^k - 1 seconds.
   */
  method RequestJsonWithRetries<T(==)>(replies: seq<Reply>, parse: string -> Option<T>)
    returns (result: Result<T, RequestError>, sent: nat, paused: nat)
    requires |replies| == MAX_REQUEST_ATTEMPTS
    ensures 1 <= sent <= 5
    ensures forall k :: 0 <= k < sent - 1 ==> IsWorthRetrying(replies[k])
    ensures sent < 5 ==> !IsWorthRetrying(replies[sent - 1])
    ensures IsConclusion(replies[sent - 1], parse, result)
    ensures paused + 1 == Power2(sent - 1)
  {
    result, sent, paused := Failure(Unexpected), MAX_REQUEST_ATTEMPTS, 0;
    var backoff := 1;
    for attempt := 1 to MAX_REQUEST_ATTEMPTS + 1
      invariant forall k :: 0 <= k < attempt - 1 ==> Inconclusive(replies[k])
      invariant attempt == MAX_REQUEST_ATTEMPTS + 1 ==> !Inconclusive(replies[attempt - 2])
      invariant backoff == Power2(attempt - 1) && paused + 1 == backoff
    {
      var reply := replies[attempt - 1];
      match reply
      case Response(status, _) =>
        if IsRetriable(status) && attempt < MAX_REQUEST_ATTEMPTS {
          paused := paused + backoff;
          backoff := backoff * 2;
          continue;
        }
        return ReadJsonResponse(reply, parse), attempt, paused;
      case Broken =>
        if attempt == MAX_REQUEST_ATTEMPTS {
          return Failure(AttemptsExhausted), attempt, paused;
        }
        paused := paused + backoff;
        backoff := backoff * 2;
    }
  }

  // ----- Citations --------------------------------------------------------

  const MAX_SIZE := 0x7fff_ffff_ffff_ffff

  /** An element of the citation list; None where a value is missing or of another type. */
  datatype Citation = NotADict | Dict(documentId: Option<string>, citationNumber: Option<int>)

  predicate IsValidCitation(c: Citation) {
    c.Dict? && c.documentId.Some? && c.documentId.value != ""
  }

  function CitationSortKey(c: Citation): int
    requires IsValidCitation(c)
  {
    match c.citationNumber
    case Some(number) => number
    case None => MAX_SIZE
  }

  ghost predicate AllValid(cs: seq<Citation>) {
    forall c :: c in cs ==> IsValidCitation(c)
  }

  /** The place of p before q in a stable sort by key. */
  predicate Precedes(cs: seq<Citation>, p: nat, q: nat)
    requires AllValid(cs) && p < |cs| && q < |cs|
  {
    || CitationSortKey(cs[p]) < CitationSortKey(cs[q])
    || (CitationSortKey(cs[p]) == CitationSortKey(cs[q]) && p < q)
  }

  /** Citations with a smaller number come first, those without a number last; ties keep their order. */
  lemma PrecedesMeaning(cs: seq<Citation>, p: nat, q: nat)
    requires AllValid(cs) && p < |cs| && q < |cs|
    requires cs[p].Dict? && cs[q].Dict?
    ensures match (cs[p].citationNumber, cs[q].citationNumber)
            case (Some(m), Some(n)) => Precedes(cs, p, q) <==> m < n || (m == n && p < q)
            case (Some(m), None) => m < 0x7fff_ffff_ffff_ffff ==> Precedes(cs, p, q)
            case (None, Some(n)) => n < 0x7fff_ffff_ffff_ffff ==> !Precedes(cs, p, q)
            case (None, None) => Precedes(cs, p, q) <==> p < q
  {
  }

  function IdOf(c: Citation): string
    requires IsValidCitation(c)
  {
    c.documentId.value
  }

  function Valid(citations: seq<Citation>): (valid: seq<Citation>)
    ensures forall c :: c in valid <==> c in citations && IsValidCitation(c)
  {
    if citations == [] then []
    else (if IsValidCitation(citations[0]) then [citations[0]] else []) + Valid(citations[1..])
  }

  /** A dict with a non-empty text under document_id, kept in order. */
  lemma {:induction false} ValidMeaning(citations: seq<Citation>)
    ensures Valid(citations) ==
            Filter(citations, (c: Citation) => c.Dict? && c.documentId.Some? && c.documentId.value != "")
  {
    var isValid := (c: Citation) => c.Dict? && c.documentId.Some? && c.documentId.value != "";
    if citations == [] {
    } else {
      ValidMeaning(citations[1..]);
      FilterFirst(citations, isValid);
    }
  }

  ghost predicate InOrder(cs: seq<Citation>, order: seq<nat>)
    requires AllValid(cs)
  {
    && (forall i :: 0 <= i < |order| ==> order[i] < |cs|)
    && (forall i, j :: 0 <= i < j < |order| ==> Precedes(cs, order[i], order[j]))
  }

  /** All positions from start on, each before those it precedes. */
  ghost predicate IsOrder(cs: seq<Citation>, start: nat, order: seq<nat>)
    requires AllValid(cs)
  {
    && (forall i :: 0 <= i < |order| ==> start <= order[i] < |cs|)
    && (forall p: nat :: start <= p < |cs| ==> p in order)
    && InOrder(cs, order)
  }

  /** Insertion of an earlier position, so in front of its equals. */
  function Inserted(cs: seq<Citation>, p: nat, order: seq<nat>): (r: seq<nat>)
    requires AllValid(cs) && p < |cs| && forall i :: 0 <= i < |order| ==> order[i] < |cs|
    ensures forall i :: 0 <= i < |r| ==> r[i] < |cs|
    ensures forall q :: q in r <==> q == p || q in order
  {
    if order == [] then [p]
    else if Precedes(cs, p, order[0]) then [p] + order
    else
      assert order == [order[0]] + order[1..];
      [order[0]] + Inserted(cs, p, order[1..])
  }

  lemma {:induction false} InsertedKeepsOrder(cs: seq<Citation>, p: nat, order: seq<nat>)
    requires AllValid(cs) && p < |cs| && InOrder(cs, order) && p !in order
    ensures InOrder(cs, Inserted(cs, p, order))
  {
    if order == [] {
    } else if Precedes(cs, p, order[0]) {
      forall j | 0 <= j < |order| ensures Precedes(cs, p, order[j]) {
        assert j > 0 ==> Precedes(cs, order[0], order[j]);
      }
    } else {
      InsertedKeepsOrder(cs, p, order[1..]);
      var rest := Inserted(cs, p, order[1..]);
      forall j | 0 <= j < |rest| ensures Precedes(cs, order[0], rest[j]) {
        assert rest[j] in rest;
        if rest[j] != p {
          var k :| 0 <= k < |order[1..]| && order[1..][k] == rest[j];
          assert rest[j] == order[k + 1];
        }
      }
    }
  }

  lemma InsertedIsOrder(cs: seq<Citation>, p: nat, order: seq<nat>)
    requires AllValid(cs) && p < |cs| && IsOrder(cs, p + 1, order)
    ensures IsOrder(cs, p, Inserted(cs, p, order))
  {
    hide Precedes, Inserted;
    InsertedKeepsOrder(cs, p, order);
    var r := Inserted(cs, p, order);
    forall i | 0 <= i < |r| ensures p <= r[i] < |cs| {
      assert r[i] in r;
    }
  }

  /** The positions from start on as Python's stable `sorted` puts them. */
  function Ordered(cs: seq<Citation>, start: nat): (order: seq<nat>)
    requires AllValid(cs) && start <= |cs|
    ensures forall i :: 0 <= i < |order| ==> order[i] < |cs|
    ensures IsOrder(cs, start, order)
    decreases |cs| - start
  {
    if start == |cs| then []
    else
      InsertedIsOrder(cs, start, Ordered(cs, start + 1));
      Inserted(cs, start, Ordered(cs, start + 1))
  }

  /** Some citation of d comes before every citation of e. */
  ghost predicate CitedBefore(cs: seq<Citation>, d: string, e: string)
    requires AllValid(cs)
  {
    exists p: nat :: p < |cs| && IdOf(cs[p]) == d &&
                     forall q: nat :: q < |cs| && IdOf(cs[q]) == e ==> Precedes(cs, p, q)
  }

  /** Each document of a valid citation once, in the order of the first citation of each. */
  ghost predicate IsDocumentList(citations: seq<Citation>, ids: seq<string>) {
    && Distinct(ids)
    && (forall d :: d in ids <==> d != "" && exists c :: c in citations && c.Dict? && c.documentId == Some(d))
    && (forall i, j :: 0 <= i < j < |ids| ==> CitedBefore(Valid(citations), ids[i], ids[j]))
  }

  lemma IsTheDocumentList(citations: seq<Citation>, ids: seq<string>)
    requires var cs := Valid(citations);
             && Distinct(ids)
             && (forall d :: d in ids <==> exists c :: c in cs && IdOf(c) == d)
             && (forall i, j :: 0 <= i < j < |ids| ==> CitedBefore(cs, ids[i], ids[j]))
    ensures IsDocumentList(citations, ids)
  {
    forall d ensures d in ids <==> exists c :: c in citations && IsValidCitation(c) && IdOf(c) == d {
      if c :| c in citations && IsValidCitation(c) && IdOf(c) == d {
        assert c in Valid(citations);
      }
    }
  }

  /** Place firsts[i] of the order is the first of ids[i], and the first k places are covered. */
  ghost predicate IsFirsts(cs: seq<Citation>, order: seq<nat>, k: nat, ids: seq<string>, firsts: seq<nat>)
    requires AllValid(cs)
  {
    && IsOrder(cs, 0, order) && k <= |order| && |firsts| == |ids|
    && (forall i, j :: 0 <= i < j < |firsts| ==> firsts[i] < firsts[j])
    && (forall i :: 0 <= i < |firsts| ==> firsts[i] < k && IdOf(cs[order[firsts[i]]]) == ids[i])
    && (forall i, m :: 0 <= i < |firsts| && 0 <= m < firsts[i] ==> IdOf(cs[order[m]]) != ids[i])
    && (forall m :: 0 <= m < k ==> IdOf(cs[order[m]]) in ids)
  }

  lemma FirstsAtStart(cs: seq<Citation>, order: seq<nat>)
    requires AllValid(cs) && IsOrder(cs, 0, order)
    ensures IsFirsts(cs, order, 0, [], []) && Elements<string>([]) == {}
  {
  }

  lemma FirstsKept(cs: seq<Citation>, order: seq<nat>, k: nat, ids: seq<string>, firsts: seq<nat>)
    requires AllValid(cs) && IsFirsts(cs, order, k, ids, firsts) && k < |order|
    ensures var id := IdOf(cs[order[k]]);
            if id in ids then IsFirsts(cs, order, k + 1, ids, firsts)
            else IsFirsts(cs, order, k + 1, ids + [id], firsts + [k])
    ensures var id := IdOf(cs[order[k]]);
            && (id in ids <==> id in Elements(ids))
            && Elements(ids + [id]) == Elements(ids) + {id}
  {
    var id := IdOf(cs[order[k]]);
    forall m | 0 <= m < k ensures IdOf(cs[order[m]]) in ids + [id] {
      assert IdOf(cs[order[m]]) in ids;
    }
  }

  lemma IdsAreCited(cs: seq<Citation>, order: seq<nat>, ids: seq<string>, firsts: seq<nat>)
    requires AllValid(cs) && IsFirsts(cs, order, |order|, ids, firsts)
    ensures Distinct(ids)
    ensures forall d :: d in ids <==> exists c :: c in cs && IdOf(c) == d
  {
    forall i, j | 0 <= i < j < |ids| ensures ids[i] != ids[j] {
      assert IdOf(cs[order[firsts[i]]]) != ids[j];
    }
    forall d ensures d in ids <==> exists c :: c in cs && IdOf(c) == d {
      if d in ids {
        var i :| 0 <= i < |ids| && ids[i] == d;
        assert order[firsts[i]] in order;
        assert cs[order[firsts[i]]] in cs;
      }
      if c :| c in cs && IdOf(c) == d {
        var p: nat :| p < |cs| && cs[p] == c;
        assert p in order;
      }
    }
  }

  lemma FirstsAreInOrder(cs: seq<Citation>, order: seq<nat>, ids: seq<string>, firsts: seq<nat>)
    requires AllValid(cs) && IsFirsts(cs, order, |order|, ids, firsts)
    ensures forall i, j :: 0 <= i < j < |ids| ==> CitedBefore(cs, ids[i], ids[j])
  {
    forall i, j | 0 <= i < j < |ids| ensures CitedBefore(cs, ids[i], ids[j]) {
      var p := order[firsts[i]];
      assert p in order;
      forall q: nat | q < |cs| && IdOf(cs[q]) == ids[j] ensures Precedes(cs, p, q) {
        assert q in order;
        var m :| 0 <= m < |order| && order[m] == q;
        assert firsts[j] <= m;
      }
    }
  }

  /** None stands for anything that is not a list. */
  method ExtractDocumentIds(citationInfo: Option<seq<Citation>>) returns (ids: seq<string>)
    ensures match citationInfo
            case None => ids == []
            case Some(citations) => IsDocumentList(citations, ids)
  {
    if citationInfo.None? {
      return [];
    }
    var cs := Valid(citationInfo.value);
    var order := Ordered(cs, 0);
    hide IsFirsts, IsOrder, Precedes, IsDocumentList, Ordered, Elements;
    ids := [];
    var seen: set<string> := {};
    ghost var firsts: seq<nat> := [];
    FirstsAtStart(cs, order);
    for k := 0 to |order|
      invariant seen == Elements(ids)
      invariant IsFirsts(cs, order, k, ids, firsts)
    {
      var id := IdOf(cs[order[k]]);
      FirstsKept(cs, order, k, ids, firsts);
      if id !in seen {
        seen := seen + {id};
        ids := ids + [id];
        firsts := firsts + [k];
      }
    }
    IdsAreCited(cs, order, ids, firsts);
    FirstsAreInOrder(cs, order, ids, firsts);
    IsTheDocumentList(citationInfo.value, ids);
  }

  /** Two documents cannot each be cited before the other. */
  lemma CitedBeforeAsymmetric(cs: seq<Citation>, d: string, e: string)
    requires AllValid(cs) && CitedBefore(cs, d, e)
    ensures !CitedBefore(cs, e, d)
  {
    var p: nat :| p < |cs| && IdOf(cs[p]) == d &&
                  forall q: nat :: q < |cs| && IdOf(cs[q]) == e ==> Precedes(cs, p, q);
    forall q: nat | q < |cs| && IdOf(cs[q]) == e ensures !Precedes(cs, q, p) {
      assert Precedes(cs, p, q);
    }
  }

  ghost predicate InCitedOrder(cs: seq<Citation>, ids: seq<string>)
    requires AllValid(cs)
  {
    Distinct(ids) && forall i, j :: 0 <= i < j < |ids| ==> CitedBefore(cs, ids[i], ids[j])
  }

  lemma SameFirst(cs: seq<Citation>, a: seq<string>, b: seq<string>)
    requires AllValid(cs) && InCitedOrder(cs, a) && InCitedOrder(cs, b)
    requires a != [] && b != [] && a[0] in b && b[0] in a
    ensures a[0] == b[0]
  {
    var i :| 0 <= i < |a| && a[i] == b[0];
    var j :| 0 <= j < |b| && b[j] == a[0];
    if i > 0 {
      CitedBeforeAsymmetric(cs, a[0], a[i]);
    }
  }

  lemma {:induction false} SameOrder(cs: seq<Citation>, a: seq<string>, b: seq<string>)
    requires AllValid(cs) && InCitedOrder(cs, a) && InCitedOrder(cs, b)
    requires forall d :: d in a <==> d in b
    ensures a == b
  {
    assert Elements(a) == Elements(b);
    DistinctCount(a);
    DistinctCount(b);
    if a == [] {
    } else {
      assert a[0] in b;
      assert b[0] in a;
      SameFirst(cs, a, b);
      assert a == [a[0]] + a[1..] && b == [b[0]] + b[1..];
      forall d ensures d in a[1..] <==> d in b[1..] {
        assert d in a[1..] <==> d in a && d != a[0];
        assert d in b[1..] <==> d in b && d != b[0];
      }
      SameOrder(cs, a[1..], b[1..]);
    }
  }

  /** The list is determined by the citations. */
  lemma DocumentListUnique(citations: seq<Citation>, a: seq<string>, b: seq<string>)
    requires IsDocumentList(citations, a) && IsDocumentList(citations, b)
    ensures a == b
  {
    SameOrder(Valid(citations), a, b);
  }
}
