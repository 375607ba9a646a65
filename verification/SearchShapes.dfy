/**
 What `onyx-cli search` prints: the result, truncation and envelope shapes of
 cli/cmd/search.go, each with the JSON value the encoder makes of it.
 */
module SearchShapes {
  import opened Wrappers
  import opened Text
  import opened JsonText

  datatype SearchResult = SearchResult(
    title: string,
    url: Option<string>,
    sourceType: string,
    content: string,
    updatedAt: Option<string>)

  /** A Go slice of results; the nil slice prints as null, the empty one as []. */
  datatype Results = NilSlice | Slice(items: seq<SearchResult>) {
    function Items(): seq<SearchResult> {
      match this
      case NilSlice => []
      case Slice(items) => items
    }

    function Len(): nat {
      |Items()|
    }

    /** `results[:n]`, which keeps a nil slice nil. */
    function First(n: nat): Results
      requires n <= Len()
    {
      match this
      case NilSlice => NilSlice
      case Slice(items) => Slice(items[..n])
    }
  }

  datatype Truncation = Truncation(
    truncated: bool,
    totalResults: nat,
    shownResults: nat,
    totalBytes: nat,
    contentTruncated: bool,
    fullResponsePath: string,
    hint: string)

  datatype SearchOutput = SearchOutput(results: Results, truncation: Option<Truncation>)

  datatype MultiEntry = MultiEntry(
    query: string,
    error: string,
    results: Results,
    truncation: Option<Truncation>)

  datatype MultiOutput = MultiOutput(searches: seq<MultiEntry>)

  /** The two payloads that the shared writer is used with. */
  datatype Payload = Single(output: SearchOutput) | Multi(outputs: MultiOutput)

  const TRUNCATION_HINT :=
    "output was reduced to fit the output limit; the complete response is at full_response_path"

  // ----- Encoding -------------------------------------------------------

  function NullableJson(s: Option<string>): Json {
    match s
    case None => Null
    case Some(value) => Str(value)
  }

  function ResultJson(r: SearchResult): Json {
    Obj([Field("title", Str(r.title)),
         Field("url", NullableJson(r.url)),
         Field("source_type", Str(r.sourceType)),
         Field("content", Str(r.content)),
         Field("updated_at", NullableJson(r.updatedAt))])
  }

  function ResultsJson(results: Results): Json {
    match results
    case NilSlice => Null
    case Slice(items) => Arr(seq(|items|, i requires 0 <= i < |items| => ResultJson(items[i])))
  }

  function TruncationJson(t: Truncation): Json {
    Obj([Field("truncated", Bool(t.truncated)),
         Field("total_results", Num(t.totalResults)),
         Field("shown_results", Num(t.shownResults)),
         Field("total_bytes", Num(t.totalBytes)),
         Field("content_truncated", Bool(t.contentTruncated)),
         Field("full_response_path", Str(t.fullResponsePath)),
         Field("hint", Str(t.hint))])
  }

  /** A pointer marked omitempty: no member at all when nil. */
  function TruncationMember(t: Option<Truncation>): seq<Field> {
    match t
    case None => []
    case Some(value) => [Field("truncation", TruncationJson(value))]
  }

  function SearchJson(out: SearchOutput): Json {
    Obj([Field("results", ResultsJson(out.results))] + TruncationMember(out.truncation))
  }

  function ErrorMember(error: string): seq<Field> {
    if error == "" then [] else [Field("error", Str(error))]
  }

  function EntryJson(e: MultiEntry): Json {
    Obj([Field("query", Str(e.query))] + ErrorMember(e.error) +
        [Field("results", ResultsJson(e.results))] + TruncationMember(e.truncation))
  }

  function EntriesJson(searches: seq<MultiEntry>): Json {
    Arr(seq(|searches|, i requires 0 <= i < |searches| => EntryJson(searches[i])))
  }

  function MultiJson(out: MultiOutput): Json {
    Obj([Field("searches", EntriesJson(out.searches))])
  }

  function SearchText(out: SearchOutput): string {
    Render(SearchJson(out), 0)
  }

  function MultiText(out: MultiOutput): string {
    Render(MultiJson(out), 0)
  }

  function PayloadText(p: Payload): string {
    match p
    case Single(output) => SearchText(output)
    case Multi(outputs) => MultiText(outputs)
  }

  // ----- Sizes ----------------------------------------------------------

  function SearchBytes(out: SearchOutput): nat {
    Size(SearchJson(out), 0)
  }

  function MultiBytes(out: MultiOutput): nat {
    Size(MultiJson(out), 0)
  }

  /** `len(data)` of a rendered payload is the arithmetic size of its JSON value. */
  lemma TextBytes(out: SearchOutput, multi: MultiOutput)
    ensures ByteLen(SearchText(out)) == SearchBytes(out)
    ensures ByteLen(MultiText(multi)) == MultiBytes(multi)
  {
    SizeIsByteLength(SearchJson(out), 0);
    SizeIsByteLength(MultiJson(multi), 0);
  }

  lemma ResultsPrefixNoLarger(results: Results, m: nat, n: nat, depth: nat)
    requires m <= n <= results.Len()
    ensures Size(ResultsJson(results.First(m)), depth) <= Size(ResultsJson(results.First(n)), depth)
  {
    if results.Slice? {
      var all := ResultsJson(results).items;
      assert ResultsJson(results.First(m)).items == all[..m];
      assert ResultsJson(results.First(n)).items == all[..n];
      ArrayPrefixNoLarger(all, m, n, depth);
    }
  }

  /** Cutting a result's content never makes the result longer. */
  lemma TrimmedResultNoLarger(r: SearchResult, m: nat, n: nat, depth: nat)
    requires m <= n <= |r.content|
    ensures Size(ResultJson(r.(content := r.content[..m])), depth) <=
            Size(ResultJson(r.(content := r.content[..n])), depth)
  {
    EscapedBytesPrefix(r.content, m, n);
    ObjectPointwiseNoLarger(
      ResultJson(r.(content := r.content[..m])).fields,
      ResultJson(r.(content := r.content[..n])).fields, depth);
  }

  lemma SingletonNoLarger(a: SearchResult, b: SearchResult, depth: nat)
    requires Size(ResultJson(a), depth + 1) <= Size(ResultJson(b), depth + 1)
    ensures Size(ResultsJson(Slice([a])), depth) <= Size(ResultsJson(Slice([b])), depth)
  {
    ArrayPointwiseNoLarger(ResultsJson(Slice([a])).items, ResultsJson(Slice([b])).items, depth);
  }

  /** The truncation object grows with the shown counter only. */
  lemma TruncationNoLarger(t: Truncation, shown: nat, depth: nat)
    requires t.shownResults <= shown
    ensures Size(TruncationJson(t), depth) <= Size(TruncationJson(t.(shownResults := shown)), depth)
  {
    DecimalLengthMonotone(t.shownResults, shown);
    ObjectPointwiseNoLarger(TruncationJson(t).fields, TruncationJson(t.(shownResults := shown)).fields, depth);
  }

  /** An envelope whose two members are no larger is no larger. */
  lemma EnvelopeNoLarger(a: SearchOutput, b: SearchOutput)
    requires a.truncation.Some? && b.truncation.Some?
    requires Size(ResultsJson(a.results), 1) <= Size(ResultsJson(b.results), 1)
    requires Size(TruncationJson(a.truncation.value), 1) <= Size(TruncationJson(b.truncation.value), 1)
    ensures SearchBytes(a) <= SearchBytes(b)
  {
    ObjectPointwiseNoLarger(SearchJson(a).fields, SearchJson(b).fields, 0);
  }

  /** The truncation object only ever adds bytes to what it is attached to. */
  lemma TruncationAddsBytes(full: SearchOutput, reduced: SearchOutput, depth: nat)
    requires full.truncation.None? && reduced.truncation.Some?
    requires Size(ResultsJson(full.results), depth + 1) <= Size(ResultsJson(reduced.results), depth + 1)
    ensures Size(SearchJson(full), depth) < Size(SearchJson(reduced), depth)
  {
    ExtendedMemberLarger("results", ResultsJson(full.results), ResultsJson(reduced.results),
                         TruncationMember(reduced.truncation)[0], depth);
    assert SearchJson(full).fields == [Field("results", ResultsJson(full.results))];
  }

  /** The same for one entry of a multi-query payload. */
  lemma EntryTruncationAddsBytes(full: MultiEntry, reduced: MultiEntry, depth: nat)
    requires full.truncation.None? && reduced.truncation.Some?
    requires full.query == reduced.query && full.error == reduced.error == ""
    requires Size(ResultsJson(full.results), depth + 1) <= Size(ResultsJson(reduced.results), depth + 1)
    ensures Size(EntryJson(full), depth) < Size(EntryJson(reduced), depth)
  {
    var bare := reduced.(truncation := None);
    ObjectPointwiseNoLarger(EntryJson(full).fields, EntryJson(bare).fields, depth);
    ObjectExtensionLarger(EntryJson(bare).fields, TruncationMember(reduced.truncation)[0], depth);
    assert EntryJson(reduced).fields == EntryJson(bare).fields + TruncationMember(reduced.truncation);
  }

  lemma MultiNoLarger(a: MultiOutput, b: MultiOutput, depth: nat)
    requires |a.searches| == |b.searches|
    requires forall i :: 0 <= i < |a.searches| ==>
                           Size(EntryJson(a.searches[i]), depth + 2) <= Size(EntryJson(b.searches[i]), depth + 2)
    ensures Size(MultiJson(a), depth) <= Size(MultiJson(b), depth)
  {
    ArrayPointwiseNoLarger(EntriesJson(a.searches).items, EntriesJson(b.searches).items, depth + 1);
    OneMemberNoLarger("searches", EntriesJson(a.searches), EntriesJson(b.searches), depth);
  }
}
