/**
 Two corners of the reducers of cli/cmd/search.go, each with its exact condition and with
 payloads that reach it: a smaller cap that renders longer, and a flag for truncated
 content on a content that is whole.
 */
module SearchCorners {
  import opened Wrappers
  import opened Text
  import opened JsonText
  import opened SearchShapes
  import opened SearchTruncation
  import opened SearchWriter

  // ----- Sizes of entries -----------------------------------------------

  lemma EntryMembers(e: MultiEntry)
    requires e.error == ""
    ensures EntryJson(e).fields ==
            [Field("query", Str(e.query)), Field("results", ResultsJson(e.results))] + TruncationMember(e.truncation)
  {
  }

  lemma ThirdMember(a: Field, b: Field, c: Field, d: Field, depth: nat)
    requires b.key == c.key
    ensures MembersSize([a, c, d], depth) + Size(b.value, depth) ==
            MembersSize([a, b], depth) + Size(c.value, depth) +
            2 * depth + 6 + EscapedBytes(d.key) + Size(d.value, depth)
  {
    assert [a, b] == [a] + [b] && [a, c] == [a] + [c] && [a, c, d] == [a, c] + [d];
    MembersSizeAppend([a], b, depth);
    MembersSizeAppend([a], c, depth);
    MembersSizeAppend([a, c], d, depth);
  }

  lemma TruncationKey()
    ensures EscapedBytes("truncation") == 10
  {
    EscapedPlain("truncation");
  }

  /** What an entry gains and loses when its results are replaced and described. */
  lemma DescribedEntrySize(e: MultiEntry, kept: Results, t: Truncation)
    requires e.error == "" && e.truncation.None?
    ensures Size(EntryJson(MultiEntry(e.query, "", kept, Some(t))), 2) + Size(ResultsJson(e.results), 3) ==
            Size(EntryJson(e), 2) + Size(ResultsJson(kept), 3) + 22 + Size(TruncationJson(t), 3)
  {
    hide EscapedBytes, ResultsJson, TruncationJson;
    var shown := MultiEntry(e.query, "", kept, Some(t));
    EntryMembers(e);
    EntryMembers(shown);
    var query := Field("query", Str(e.query));
    var a, b := Field("results", ResultsJson(e.results)), Field("results", ResultsJson(kept));
    var c := Field("truncation", TruncationJson(t));
    assert EntryJson(e).fields == [query, a] && EntryJson(shown).fields == [query, b, c];
    ThirdMember(query, a, b, c, 3);
    TruncationKey();
  }

  /** Payloads that differ in one entry differ in size as that entry does. */
  lemma OneEntrySize(a: MultiOutput, b: MultiOutput, i: nat)
    requires i < |a.searches| == |b.searches|
    requires b.searches == a.searches[i := b.searches[i]]
    ensures MultiBytes(b) + Size(EntryJson(a.searches[i]), 2) == MultiBytes(a) + Size(EntryJson(b.searches[i]), 2)
  {
    hide EntryJson;
    var x, y := EntriesJson(a.searches), EntriesJson(b.searches);
    assert y.items == x.items[i := EntryJson(b.searches[i])];
    ElementsSizeReplace(x.items, i, EntryJson(b.searches[i]), 2);
    assert Size(y, 1) + Size(EntryJson(a.searches[i]), 2) == Size(x, 1) + Size(EntryJson(b.searches[i]), 2);
    MembersSizeReplace([Field("searches", x)], 0, y, 1);
    assert [Field("searches", x)][0 := Field("searches", y)] == [Field("searches", y)];
  }

  // ----- The cap --------------------------------------------------------

  /** All entries but the i-th are the same at the caps k and k - 1. */
  ghost predicate OnlyAffects(full: MultiOutput, i: nat, k: nat) {
    && i < |full.searches|
    && k > 0
    && forall j :: 0 <= j < |full.searches| && j != i ==>
                     full.searches[j].error != "" || full.searches[j].results.Len() < k
  }

  /**
   Why the caps are scanned and not bisected. Taking the last result from the only entry
   that has so many makes the render longer if and only if the result takes less room
   than the truncation object that then describes the entry.
   */
  lemma CapSizeNotMonotone(full: MultiOutput, i: nat, saved: Saved)
    requires i < |full.searches|
    requires var e := full.searches[i];
             e.error == "" && e.truncation.None? && OnlyAffects(full, i, e.results.Len())
    ensures var e := full.searches[i];
            var n := e.results.Len();
            MultiBytes(CapAt(full, n, saved)) < MultiBytes(CapAt(full, n - 1, saved)) <==>
            Size(ResultsJson(e.results), 3) <
            Size(ResultsJson(e.results.First(n - 1)), 3) + 22 +
            Size(TruncationJson(saved.Describe(n, n - 1, false)), 3)
  {
    var e := full.searches[i];
    var n := e.results.Len();
    var a, b := CapAt(full, n, saved), CapAt(full, n - 1, saved);
    assert a.searches[i] == e;
    assert b.searches[i] == MultiEntry(e.query, "", e.results.First(n - 1), Some(saved.Describe(n, n - 1, false)));
    assert b.searches == a.searches[i := b.searches[i]];
    OneEntrySize(a, b, i);
    DescribedEntrySize(e, e.results.First(n - 1), saved.Describe(n, n - 1, false));
  }

  function MemberSize(f: Field, depth: nat): nat {
    2 * depth + 5 + EscapedBytes(f.key) + Size(f.value, depth)
  }

  lemma FiveMembers(a: Field, b: Field, c: Field, d: Field, e: Field, depth: nat)
    ensures MembersSize([a, b, c, d, e], depth) ==
            MemberSize(a, depth) + MemberSize(b, depth) + MemberSize(c, depth) + MemberSize(d, depth) +
            MemberSize(e, depth) + 4
  {
    assert [a] == [] + [a] && [a, b] == [a] + [b] && [a, b, c] == [a, b] + [c];
    assert [a, b, c, d] == [a, b, c] + [d] && [a, b, c, d, e] == [a, b, c, d] + [e];
    MembersSizeAppend([], a, depth);
    MembersSizeAppend([a], b, depth);
    MembersSizeAppend([a, b], c, depth);
    MembersSizeAppend([a, b, c], d, depth);
    MembersSizeAppend([a, b, c, d], e, depth);
  }

  lemma SevenMembers(a: Field, b: Field, c: Field, d: Field, e: Field, f: Field, g: Field, depth: nat)
    ensures MembersSize([a, b, c, d, e, f, g], depth) ==
            MemberSize(a, depth) + MemberSize(b, depth) + MemberSize(c, depth) + MemberSize(d, depth) +
            MemberSize(e, depth) + MemberSize(f, depth) + MemberSize(g, depth) + 6
  {
    FiveMembers(a, b, c, d, e, depth);
    assert [a, b, c, d, e, f] == [a, b, c, d, e] + [f];
    assert [a, b, c, d, e, f, g] == [a, b, c, d, e, f] + [g];
    MembersSizeAppend([a, b, c, d, e], f, depth);
    MembersSizeAppend([a, b, c, d, e, f], g, depth);
  }

  predicate IsPlain(key: string) {
    forall i :: 0 <= i < |key| ==> 'a' <= key[i] <= 'z' || key[i] == '_'
  }

  lemma PlainMember(key: string, value: Json, depth: nat)
    requires IsPlain(key)
    ensures MemberSize(Field(key, value), depth) == 2 * depth + 5 + |key| + Size(value, depth)
  {
    EscapedPlain(key);
  }

  /** Members never take less room than their keys, quotes and shortest values. */
  lemma MemberAtLeast(key: string, value: Json, depth: nat)
    ensures 2 * depth + 5 + |key| + Size(value, depth) <= MemberSize(Field(key, value), depth)
    ensures value.Bool? ==> 4 <= Size(value, depth)
    ensures value.Num? ==> 1 <= Size(value, depth)
    ensures value.Str? ==> |value.s| + 2 <= Size(value, depth)
  {
    EscapedBytesAtLeast(key);
    if value.Str? { EscapedBytesAtLeast(value.s); }
  }

  lemma HintLength()
    ensures |TRUNCATION_HINT| >= 90
  {
  }

  /** The truncation object is long by itself, whatever the path. */
  lemma TruncationAtLeast(t: Truncation)
    requires t.hint == TRUNCATION_HINT
    ensures Size(TruncationJson(t), 3) >= 296
  {
    hide EscapedBytes, Decimal, MemberSize;
    var a, b, c := Bool(t.truncated), Num(t.totalResults), Num(t.shownResults);
    var d, e, f, g := Num(t.totalBytes), Bool(t.contentTruncated), Str(t.fullResponsePath), Str(t.hint);
    SevenMembers(Field("truncated", a), Field("total_results", b), Field("shown_results", c), Field("total_bytes", d),
                 Field("content_truncated", e), Field("full_response_path", f), Field("hint", g), 4);
    MemberAtLeast("truncated", a, 4);
    MemberAtLeast("total_results", b, 4);
    MemberAtLeast("shown_results", c, 4);
    MemberAtLeast("total_bytes", d, 4);
    MemberAtLeast("content_truncated", e, 4);
    MemberAtLeast("full_response_path", f, 4);
    MemberAtLeast("hint", g, 4);
    HintLength();
  }

  /** The text of a result without address and date. */
  function TextOf(r: SearchResult): nat {
    EscapedBytes(r.title) + EscapedBytes(r.sourceType) + EscapedBytes(r.content)
  }

  lemma OneResultMembers(r: SearchResult)
    requires r.url.None? && r.updatedAt.None?
    ensures Size(ResultJson(r), 4) == 140 + TextOf(r)
  {
    hide EscapedBytes, MemberSize;
    var a, b, c, d := Str(r.title), Null, Str(r.sourceType), Str(r.content);
    FiveMembers(Field("title", a), Field("url", b), Field("source_type", c), Field("content", d),
                Field("updated_at", b), 5);
    PlainMember("title", a, 5);
    PlainMember("url", b, 5);
    PlainMember("source_type", c, 5);
    PlainMember("content", d, 5);
    PlainMember("updated_at", b, 5);
  }

  lemma OneElementSize(v: Json, depth: nat)
    ensures Size(Arr([v]), depth) == 4 * depth + 6 + Size(v, depth + 1)
  {
    var items := [v];
    assert items[..0] == [] && ElementsSize(items[..0], depth + 1) == 0;
    assert ElementsSize(items, depth + 1) == 2 * (depth + 1) + 1 + Size(v, depth + 1);
  }

  lemma OneResultSize(r: SearchResult)
    requires r.url.None? && r.updatedAt.None?
    ensures Size(ResultsJson(Slice([r])), 3) == 158 + TextOf(r)
  {
    hide ResultJson, TextOf;
    OneResultMembers(r);
    OneElementSize(ResultJson(r), 3);
    assert ResultsJson(Slice([r])).items == [ResultJson(r)];
  }

  /**
   An everyday case: for any place of the saved file, capping a single result of up to 160
   bytes of text at none renders longer than showing it.
   */
  lemma ShortResultRendersShorter(query: string, r: SearchResult, saved: Saved)
    requires r.url.None? && r.updatedAt.None? && TextOf(r) <= 160
    ensures var full := MultiOutput([MultiEntry(query, "", Slice([r]), None)]);
            MultiBytes(CapAt(full, 1, saved)) < MultiBytes(CapAt(full, 0, saved))
  {
    var full := MultiOutput([MultiEntry(query, "", Slice([r]), None)]);
    CapSizeNotMonotone(full, 0, saved);
    OneResultSize(r);
    TruncationAtLeast(saved.Describe(1, 0, false));
  }

  // ----- The flag -------------------------------------------------------

  /** The truncation flag is set although the first result is shown whole. */
  ghost predicate FlagsWhole(full: SearchOutput, shown: SearchOutput) {
    && full.results.Len() > 0
    && shown.truncation.Some? && shown.truncation.value.contentTruncated
    && shown.results == full.results.First(1)
  }

  /** With one result, an over-limit response is never flagged on a whole content. */
  lemma OneResultNeverFlaggedWhole(full: SearchOutput, limit: nat, saved: Saved)
    requires full.truncation.None? && full.results.Len() == 1 && limit < SearchBytes(full)
    ensures !FlagsWhole(full, ReducedSearch(full, limit, saved))
  {
    FlagOnWholeContent(full, limit, saved);
    assert full.results.First(1) == full.results;
    TruncationAddsBytes(full, Envelope(full, 1, saved), 0);
  }

  lemma {:induction false} DecimalShort(n: nat)
    ensures |Decimal(n)| <= n / 2 + 1
  {
    if n < 10 {
    } else {
      DecimalShort(n / 10);
    }
  }

  lemma TotalBytesMember(t: Truncation, total: nat)
    requires t.totalBytes == 0
    ensures Size(TruncationJson(t.(totalBytes := total)), 1) + 1 == Size(TruncationJson(t), 1) + |Decimal(total)|
  {
    hide EscapedBytes;
    var fields := TruncationJson(t).fields;
    MembersSizeReplace(fields, 3, Num(total), 2);
    assert TruncationJson(t.(totalBytes := total)).fields == fields[3 := fields[3].(value := Num(total))];
  }

  /** An envelope grows with the digits of the total it names. */
  lemma TotalBytesDigits(full: SearchOutput, n: nat, total: nat, path: string)
    requires n <= full.results.Len()
    ensures SearchBytes(Envelope(full, n, Saved(total, path))) + 1 ==
            SearchBytes(Envelope(full, n, Saved(0, path))) + |Decimal(total)|
  {
    hide EscapedBytes, TruncationJson, ResultsJson, Decimal;
    var t := Saved(0, path).Describe(full.results.Len(), n, false);
    TotalBytesMember(t, total);
    var x, y := TruncationJson(t), TruncationJson(t.(totalBytes := total));
    var fields := [Field("results", ResultsJson(full.results.First(n))), Field("truncation", x)];
    MembersSizeReplace(fields, 1, y, 1);
    assert SearchJson(Envelope(full, n, Saved(0, path))).fields == fields;
    assert SearchJson(Envelope(full, n, Saved(total, path))).fields == fields[1 := Field("truncation", y)];
  }

  lemma ContentWithinResult(r: SearchResult, depth: nat)
    ensures |r.content| < Size(ResultJson(r), depth)
  {
    EscapedBytesAtLeast(r.content);
    MemberWithinObject(ResultJson(r).fields, 3, depth + 1);
  }

  /** A response is longer than any content in it. */
  lemma ContentWithinResponse(full: SearchOutput, i: nat)
    requires i < full.results.Len()
    ensures |full.results.Items()[i].content| < SearchBytes(full)
  {
    hide ResultJson;
    var r := full.results.Items()[i];
    ContentWithinResult(r, 2);
    var results := ResultsJson(full.results);
    assert results.items[i] == ResultJson(r);
    ElementWithinArray(results.items, i, 2);
    MemberWithinObject(SearchJson(full).fields, 0, 1);
    assert SearchJson(full).fields[0].value == results;
  }

  /** Behind a long second result, the first one alone with its description is shorter than both. */
  lemma LongSecondResult(first: SearchResult, path: string) returns (full: SearchOutput)
    ensures full.truncation.None? && full.results.Len() == 2 && full.results.Items()[0] == first
    ensures SearchBytes(Envelope(full, 1, Saved(SearchBytes(full), path))) <= SearchBytes(full)
  {
    var alone := SearchOutput(Slice([first]), Some(Saved(0, path).Describe(2, 1, false)));
    var bytes := SearchBytes(alone);
    var second := SearchResult("", None, "", seq(2 * bytes + 2, _ => 'a'), None);
    full := SearchOutput(Slice([first, second]), None);
    assert full.results.First(1) == Slice([first]);
    assert Envelope(full, 1, Saved(0, path)) == alone;
    TotalBytesDigits(full, 1, SearchBytes(full), path);
    ContentWithinResponse(full, 1);
    DecimalShort(SearchBytes(full));
  }

  /**
   The writer does print such a document: for every first result and every place of the
   saved file there are a response and a limit for which the flag is set on a whole content.
   */
  lemma FlaggedWholePrinted(first: SearchResult, path: string) returns (full: SearchOutput, limit: nat)
    ensures full.truncation.None? && full.results.Len() == 2 && full.results.Items()[0] == first
    ensures 0 < limit < PayloadBytes(Single(full))
    ensures var printed := Outcome(Single(full), limit, Some(path));
            printed.savedAt == Some(path) && printed.shown.Single? && FlagsWhole(full, printed.shown.output)
  {
    full := LongSecondResult(first, path);
    TextBytes(full, MultiOutput([]));
    var saved := Saved(PayloadBytes(Single(full)), path);
    var bytes := SearchBytes(Envelope(full, 1, saved));
    MemberWithinObject(SearchJson(Envelope(full, 1, saved)).fields, 0, 1);
    limit := bytes - 1;
    FlagOnWholeContent(full, limit, saved);
  }
}
