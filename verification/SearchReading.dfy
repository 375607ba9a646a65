/**
 What the saved file is worth: the text of a payload determines the payload, every
 result, content and error in it included.
 */
module SearchReading {
  import opened Wrappers
  import opened JsonText
  import opened JsonReading
  import opened SearchShapes

  lemma NullableDetermined(a: Option<string>, b: Option<string>)
    requires NullableJson(a) == NullableJson(b)
    ensures a == b
  {
  }

  lemma ResultDetermined(a: SearchResult, b: SearchResult)
    requires ResultJson(a) == ResultJson(b)
    ensures a == b
  {
    var f, g := ResultJson(a).fields, ResultJson(b).fields;
    assert f[0] == g[0] && f[1] == g[1] && f[2] == g[2] && f[3] == g[3] && f[4] == g[4];
    NullableDetermined(a.url, b.url);
    NullableDetermined(a.updatedAt, b.updatedAt);
  }

  /** The nil slice and the empty one are told apart, too. */
  lemma ResultsDetermined(a: Results, b: Results)
    requires ResultsJson(a) == ResultsJson(b)
    ensures a == b
  {
    if a.Slice? {
      assert |ResultsJson(a).items| == |a.items| && |ResultsJson(b).items| == |b.items|;
      forall i | 0 <= i < |a.items| ensures a.items[i] == b.items[i] {
        assert ResultsJson(a).items[i] == ResultsJson(b).items[i];
        ResultDetermined(a.items[i], b.items[i]);
      }
    }
  }

  lemma TruncationDetermined(a: Option<Truncation>, b: Option<Truncation>)
    requires TruncationMember(a) == TruncationMember(b)
    ensures a == b
  {
    if a.Some? {
      assert TruncationMember(a)[0] == TruncationMember(b)[0];
      var f, g := TruncationJson(a.value).fields, TruncationJson(b.value).fields;
      assert f[0] == g[0] && f[1] == g[1] && f[2] == g[2] && f[3] == g[3];
      assert f[4] == g[4] && f[5] == g[5] && f[6] == g[6];
    }
  }

  lemma OutputDetermined(a: SearchOutput, b: SearchOutput)
    requires SearchJson(a) == SearchJson(b)
    ensures a == b
  {
    var f, g := SearchJson(a).fields, SearchJson(b).fields;
    assert f[0] == g[0];
    ResultsDetermined(a.results, b.results);
    assert TruncationMember(a.truncation) == f[1..] && TruncationMember(b.truncation) == g[1..];
    TruncationDetermined(a.truncation, b.truncation);
  }

  /** The two optional members of an entry cannot stand in for each other. */
  lemma EntryDetermined(a: MultiEntry, b: MultiEntry)
    requires EntryJson(a) == EntryJson(b)
    ensures a == b
  {
    hide ResultsJson, TruncationJson;
    var f, g := EntryJson(a).fields, EntryJson(b).fields;
    assert f[0] == g[0] && f[1] == g[1];
    assert a.error == "" <==> f[1].key == "results";
    assert b.error == "" <==> g[1].key == "results";
    assert a.error == b.error;
    var k := if a.error == "" then 1 else 2;
    assert f[k] == Field("results", ResultsJson(a.results)) && g[k] == Field("results", ResultsJson(b.results));
    ResultsDetermined(a.results, b.results);
    assert TruncationMember(a.truncation) == f[k + 1..] && TruncationMember(b.truncation) == g[k + 1..];
    TruncationDetermined(a.truncation, b.truncation);
  }

  lemma EntriesDetermined(a: seq<MultiEntry>, b: seq<MultiEntry>)
    requires EntriesJson(a) == EntriesJson(b)
    ensures a == b
  {
    assert |EntriesJson(a).items| == |a| && |EntriesJson(b).items| == |b|;
    forall i | 0 <= i < |a| ensures a[i] == b[i] {
      assert EntriesJson(a).items[i] == EntriesJson(b).items[i];
      EntryDetermined(a[i], b[i]);
    }
  }

  function PayloadJson(p: Payload): Json {
    match p
    case Single(output) => SearchJson(output)
    case Multi(outputs) => MultiJson(outputs)
  }

  lemma PayloadDetermined(p: Payload, q: Payload)
    requires PayloadJson(p) == PayloadJson(q)
    ensures p == q
  {
    assert PayloadJson(p).fields[0] == PayloadJson(q).fields[0];
    match p
    case Single(a) => OutputDetermined(a, q.output);
    case Multi(a) => EntriesDetermined(a.searches, q.outputs.searches);
  }

  /** No two payloads print the same text. */
  lemma PayloadTextDetermines(p: Payload, q: Payload)
    requires PayloadText(p) == PayloadText(q)
    ensures p == q
  {
    hide Render;
    assert PayloadText(p) == Render(PayloadJson(p), 0);
    assert PayloadText(q) == Render(PayloadJson(q), 0);
    TextDeterminesValue(PayloadJson(p), PayloadJson(q));
    PayloadDetermined(p, q);
  }

  // ----- Reading by key ---------------------------------------------------

  /** What a reader of the document finds under a key: a text, null, or neither. */
  function TextAt(fields: seq<Field>, key: string): Option<Option<string>> {
    match Get(fields, key)
    case Some(Str(s)) => Some(Some(s))
    case Some(Null) => Some(None)
    case _ => None
  }

  function ReadResult(j: Json): Option<SearchResult> {
    if !j.Obj? then None
    else
      match (TextAt(j.fields, "title"), TextAt(j.fields, "source_type"), TextAt(j.fields, "content"),
             TextAt(j.fields, "url"), TextAt(j.fields, "updated_at"))
      case (Some(Some(title)), Some(Some(source)), Some(Some(content)), Some(url), Some(updated)) =>
        Some(SearchResult(title, url, source, content, updated))
      case _ => None
  }

  function ReadResultList(items: seq<Json>): Option<seq<SearchResult>> {
    if items == [] then Some([])
    else
      var n := |items| - 1;
      match (ReadResultList(items[..n]), ReadResult(items[n]))
      case (Some(before), Some(last)) => Some(before + [last])
      case _ => None
  }

  function ReadResults(j: Json): Option<Results> {
    match j
    case Null => Some(NilSlice)
    case Arr(items) =>
      (match ReadResultList(items)
       case None => None
       case Some(list) => Some(Slice(list)))
    case _ => None
  }

  function ReadTruncation(j: Json): Option<Truncation> {
    if !j.Obj? then None
    else
      match (Get(j.fields, "truncated"), Get(j.fields, "total_results"), Get(j.fields, "shown_results"),
             Get(j.fields, "total_bytes"), Get(j.fields, "content_truncated"),
             TextAt(j.fields, "full_response_path"), TextAt(j.fields, "hint"))
      case (Some(Bool(truncated)), Some(Num(total)), Some(Num(shown)), Some(Num(bytes)), Some(Bool(content)),
            Some(Some(path)), Some(Some(hint))) =>
        Some(Truncation(truncated, total, shown, bytes, content, path, hint))
      case _ => None
  }

  /** The truncation under its key; none when the key is not there. */
  function ReadTruncationAt(fields: seq<Field>): Option<Option<Truncation>> {
    match Get(fields, "truncation")
    case None => Some(None)
    case Some(j) =>
      match ReadTruncation(j)
      case None => None
      case Some(t) => Some(Some(t))
  }

  function ReadOutput(j: Json): Option<SearchOutput> {
    if !j.Obj? || Get(j.fields, "results").None? then None
    else
      match (ReadResults(Get(j.fields, "results").value), ReadTruncationAt(j.fields))
      case (Some(results), Some(truncation)) => Some(SearchOutput(results, truncation))
      case _ => None
  }

  /** A query that did not fail has no error. */
  function ErrorAt(fields: seq<Field>): Option<string> {
    match Get(fields, "error")
    case None => Some("")
    case Some(Str(error)) => Some(error)
    case _ => None
  }

  function ReadEntry(j: Json): Option<MultiEntry> {
    if !j.Obj? || Get(j.fields, "results").None? then None
    else
      match (TextAt(j.fields, "query"), ErrorAt(j.fields), ReadResults(Get(j.fields, "results").value),
             ReadTruncationAt(j.fields))
      case (Some(Some(query)), Some(error), Some(results), Some(truncation)) =>
        Some(MultiEntry(query, error, results, truncation))
      case _ => None
  }

  lemma GetAt(fields: seq<Field>, i: nat)
    requires i < |fields| && forall j :: i < j < |fields| ==> fields[j].key != fields[i].key
    ensures Get(fields, fields[i].key) == Some(fields[i].value)
  {
    GetMeaning(fields, fields[i].key, fields[i].value);
    assert IsLastOf(fields, i, fields[i].key);
  }

  lemma ResultReadsBack(r: SearchResult)
    ensures ReadResult(ResultJson(r)) == Some(r)
  {
    hide Get;
    var f := ResultJson(r).fields;
    GetAt(f, 0);
    GetAt(f, 1);
    GetAt(f, 2);
    GetAt(f, 3);
    GetAt(f, 4);
  }

  lemma {:induction false} ResultListReadsBack(results: seq<SearchResult>)
    ensures ReadResultList(ResultsJson(Slice(results)).items) == Some(results)
  {
    hide ReadResult, ResultJson;
    if results == [] {
    } else {
      var n := |results| - 1;
      ResultListReadsBack(results[..n]);
      var items := ResultsJson(Slice(results)).items;
      assert items[..n] == ResultsJson(Slice(results[..n])).items;
      ResultReadsBack(results[n]);
      assert results == results[..n] + [results[n]];
    }
  }

  lemma ResultsReadBack(results: Results)
    ensures ReadResults(ResultsJson(results)) == Some(results)
  {
    if results.Slice? { ResultListReadsBack(results.items); }
  }

  lemma TruncationReadsBack(t: Truncation)
    ensures ReadTruncation(TruncationJson(t)) == Some(t)
  {
    hide Get;
    var f := TruncationJson(t).fields;
    GetAt(f, 0);
    GetAt(f, 1);
    GetAt(f, 2);
    GetAt(f, 3);
    GetAt(f, 4);
    GetAt(f, 5);
    GetAt(f, 6);
  }

  lemma TruncationMemberReadsBack(before: seq<Field>, t: Option<Truncation>)
    requires forall i :: 0 <= i < |before| ==> before[i].key != "truncation"
    ensures ReadTruncationAt(before + TruncationMember(t)) == Some(t)
  {
    hide TruncationJson, ReadTruncation;
    match t
    case None =>
      assert before + [] == before;
      GetNone(before, "truncation");
    case Some(value) =>
      GetLast(before, Field("truncation", TruncationJson(value)), "truncation");
      TruncationReadsBack(value);
  }

  /** A reader that goes by the keys gets every response back, counts and contents in place. */
  lemma OutputReadsBack(out: SearchOutput)
    ensures ReadOutput(SearchJson(out)) == Some(out)
  {
    hide Get, ResultsJson, TruncationJson, ReadTruncationAt;
    var first := Field("results", ResultsJson(out.results));
    TruncationMemberReadsBack([first], out.truncation);
    var f := SearchJson(out).fields;
    assert f[0] == first && forall j :: 0 < j < |f| ==> f[j].key != "results";
    GetAt(f, 0);
    ResultsReadBack(out.results);
  }

  /** The same for an entry of several queries, with or without an error. */
  lemma EntryReadsBack(e: MultiEntry)
    ensures ReadEntry(EntryJson(e)) == Some(e)
  {
    hide Get, ResultsJson, TruncationJson, ReadTruncationAt;
    var before := [Field("query", Str(e.query))] + ErrorMember(e.error) + [Field("results", ResultsJson(e.results))];
    var f := EntryJson(e).fields;
    assert f == before + TruncationMember(e.truncation);
    TruncationMemberReadsBack(before, e.truncation);
    GetAt(f, 0);
    if e.error == "" {
      GetAt(f, 1);
      GetNone(f, "error");
    } else {
      GetAt(f, 1);
      GetAt(f, 2);
    }
    ResultsReadBack(e.results);
  }

  /** What a reader finds under "searches": the entries, in their order. */
  lemma SearchesReadBack(out: MultiOutput, i: nat)
    requires i < |out.searches|
    ensures var searches := Get(MultiJson(out).fields, "searches");
            && searches.Some? && searches.value.Arr? && |searches.value.items| == |out.searches|
            && ReadEntry(searches.value.items[i]) == Some(out.searches[i])
  {
    hide ReadEntry, EntryJson;
    GetOfOne(Field("searches", EntriesJson(out.searches)), "searches");
    EntryReadsBack(out.searches[i]);
  }
}
