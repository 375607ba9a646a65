/**
 Bounded output of `onyx-cli search`: the binary search over renderings, the reducers
 for one and for several queries, and the clamp on in-band error strings.

 Each method follows cli/cmd/search.go. What it computes is given by a function that
 scans candidates from the top; the lemmas state what that result means.
 */
module SearchTruncation {
  import opened Wrappers
  import opened Arithmetic
  import opened Text
  import opened JsonText
  import opened SearchShapes

  const MAX_INLINE_ERROR_BYTES := 2000
  const CLAMP_SUFFIX := " … (truncated)"

  // ----- largestFit -----------------------------------------------------

  ghost predicate Renders(maxN: nat, render: nat --> string) {
    forall n: nat :: n <= maxN ==> render.requires(n)
  }

  ghost predicate NonDecreasing(maxN: nat, render: nat --> string)
    requires Renders(maxN, render)
  {
    forall m: nat, n: nat :: m <= n <= maxN ==> ByteLen(render(m)) <= ByteLen(render(n))
  }

  ghost predicate NoneFitsAbove(n: nat, maxN: nat, limit: nat, render: nat --> string)
    requires Renders(maxN, render)
  {
    forall m: nat :: n < m <= maxN ==> limit < ByteLen(render(m))
  }

  /** n is the largest candidate in [0, maxN] that fits, or 0 when none does. */
  ghost predicate IsLargestFit(n: nat, maxN: nat, limit: nat, render: nat --> string)
    requires Renders(maxN, render)
  {
    && n <= maxN
    && (n == 0 || ByteLen(render(n)) <= limit)
    && NoneFitsAbove(n, maxN, limit, render)
  }

  /** floor(log2(n)) + 1, and 0 for 0: the number of halvings that empty a range of n. */
  ghost function Halvings(n: nat): nat {
    if n == 0 then 0 else 1 + Halvings(n / 2)
  }

  lemma {:induction false} HalvingsMonotone(m: nat, n: nat)
    requires m <= n
    ensures Halvings(m) <= Halvings(n)
  {
    if m == 0 {
    } else {
      HalvingsMonotone(m / 2, n / 2);
    }
  }

  /** Halvings(n) - 1 is the integer base-2 logarithm of a positive n. */
  lemma {:induction false} HalvingsIsLogarithm(n: nat)
    requires n > 0
    ensures Halvings(n) > 0
    ensures Power2(Halvings(n) - 1) <= n < Power2(Halvings(n))
  {
    if n > 1 {
      HalvingsIsLogarithm(n / 2);
    }
  }

  /** Either half that a bisection leaves takes one halving less. */
  lemma HalvingStep(lo: nat, mid: nat, hi: nat)
    requires lo <= hi && mid == (lo + hi) / 2
    ensures Halvings(hi - mid) < Halvings(hi + 1 - lo)
    ensures Halvings(mid - lo) < Halvings(hi + 1 - lo)
  {
    HalvingsMonotone(hi - mid, (hi + 1 - lo) / 2);
    HalvingsMonotone(mid - lo, (hi + 1 - lo) / 2);
  }

  lemma OverflowSpreads(mid: nat, maxN: nat, limit: nat, render: nat --> string)
    requires Renders(maxN, render) && NonDecreasing(maxN, render)
    requires 1 <= mid <= maxN && limit < ByteLen(render(mid))
    ensures NoneFitsAbove(mid - 1, maxN, limit, render)
  {
  }

  /** The binary search renders at most floor(log2(maxN)) + 2 candidates. */
  method LargestFit(maxN: nat, limit: nat, render: nat --> string)
    returns (best: nat, bestData: string, ghost renders: nat)
    requires Renders(maxN, render) && NonDecreasing(maxN, render)
    ensures IsLargestFit(best, maxN, limit, render)
    ensures bestData == render(best)
    ensures renders <= Halvings(maxN) + 1
  {
    hide Halvings, ByteLen;
    best := 0;
    bestData := render(0);
    renders := 1;
    var lo: int, hi: int := 1, maxN;
    while lo <= hi
      invariant 1 <= lo <= maxN + 1 && 0 <= hi <= maxN && lo <= hi + 1
      invariant best == lo - 1 && bestData == render(best)
      invariant best == 0 || ByteLen(render(best)) <= limit
      invariant NoneFitsAbove(hi, maxN, limit, render)
      invariant renders + Halvings(hi + 1 - lo) <= Halvings(maxN) + 1
    {
      var mid := (lo + hi) / 2;
      var data := render(mid);
      renders := renders + 1;
      HalvingStep(lo, mid, hi);
      if ByteLen(data) <= limit {
        best, bestData := mid, data;
        lo := mid + 1;
      } else {
        OverflowSpreads(mid, maxN, limit, render);
        hi := mid - 1;
      }
    }
  }

  // ----- clampError -----------------------------------------------------

  function EncodedBytes(msg: string): nat {
    ByteLen(Render(Str(msg), 0))
  }

  /** Encoded size of the first n code points of a message with the suffix. */
  function CutBytes(msg: string, suffix: string, n: nat): nat
    requires n <= |msg|
  {
    EncodedBytes(msg[..n] + suffix)
  }

  /** The longest prefix of at most n code points that still fits with the suffix. */
  function LongestClampPrefix(msg: string, suffix: string, n: nat): (r: nat)
    requires n <= |msg|
    ensures r <= n
    ensures r == 0 || CutBytes(msg, suffix, r) <= MAX_INLINE_ERROR_BYTES
    ensures forall m :: r < m <= n ==> MAX_INLINE_ERROR_BYTES < CutBytes(msg, suffix, m)
  {
    if n == 0 || CutBytes(msg, suffix, n) <= MAX_INLINE_ERROR_BYTES then n
    else LongestClampPrefix(msg, suffix, n - 1)
  }

  function Clamped(msg: string): string {
    if EncodedBytes(msg) <= MAX_INLINE_ERROR_BYTES then msg
    else msg[..LongestClampPrefix(msg, CLAMP_SUFFIX, |msg|)] + CLAMP_SUFFIX
  }

  lemma {:induction false} EscapedBytesConcat(a: string, b: string)
    ensures EscapedBytes(a + b) == EscapedBytes(a) + EscapedBytes(b)
  {
    if b == "" {
      assert a + b == a;
    } else {
      var n := |b| - 1;
      assert (a + b)[..|a + b| - 1] == a + b[..n];
      EscapedBytesConcat(a, b[..n]);
    }
  }

  /** Every code point takes at most six bytes in the encoding. */
  lemma {:induction false} EscapedBytesBound(s: string)
    ensures EscapedBytes(s) <= 6 * |s|
  {
    if s == "" {
    } else {
      EscapedBytesBound(s[..|s| - 1]);
    }
  }

  lemma EncodedIsEscaped(msg: string)
    ensures EncodedBytes(msg) == EscapedBytes(msg) + 2
  {
    SizeIsByteLength(Str(msg), 0);
  }

  /** Longer prefixes never encode shorter. */
  lemma CutBytesMonotone(msg: string, suffix: string, m: nat, n: nat)
    requires m <= n <= |msg|
    ensures CutBytes(msg, suffix, m) <= CutBytes(msg, suffix, n)
  {
    EncodedIsEscaped(msg[..m] + suffix);
    EncodedIsEscaped(msg[..n] + suffix);
    EscapedBytesConcat(msg[..m], suffix);
    EscapedBytesConcat(msg[..n], suffix);
    EscapedBytesPrefix(msg, m, n);
  }

  /** The cut message fits with the suffix, even when nothing of it is left. */
  lemma CutFits(msg: string)
    ensures EncodedBytes(Clamped(msg)) <= 2000
  {
    hide LongestClampPrefix, EncodedBytes;
    var n := LongestClampPrefix(msg, CLAMP_SUFFIX, |msg|);
    if n == 0 {
      assert msg[..0] + CLAMP_SUFFIX == CLAMP_SUFFIX;
      EncodedIsEscaped(CLAMP_SUFFIX);
      EscapedBytesBound(CLAMP_SUFFIX);
    } else {
      assert CutBytes(msg, CLAMP_SUFFIX, n) <= 2000;
    }
  }

  /** The clamped message always fits, and is the longest prefix that does when cut. */
  lemma ClampedFits(msg: string)
    ensures EncodedBytes(Clamped(msg)) <= 2000
    ensures EncodedBytes(msg) <= 2000 <==> Clamped(msg) == msg
    ensures EncodedBytes(msg) > 2000 ==>
              exists n ::
                && 0 <= n <= |msg|
                && Clamped(msg) == msg[..n] + " … (truncated)"
                && forall m :: n < m <= |msg| ==> 2000 < EncodedBytes(msg[..m] + " … (truncated)")
  {
    hide EncodedBytes;
    CutFits(msg);
    if EncodedBytes(msg) > MAX_INLINE_ERROR_BYTES {
      var n := LongestClampPrefix(msg, CLAMP_SUFFIX, |msg|);
      assert Clamped(msg) == msg[..n] + CLAMP_SUFFIX;
      forall m | n < m <= |msg| ensures 2000 < EncodedBytes(msg[..m] + CLAMP_SUFFIX) {
        assert CutBytes(msg, CLAMP_SUFFIX, m) > MAX_INLINE_ERROR_BYTES;
      }
    }
  }

  /** Clamping what was clamped changes nothing. */
  lemma ClampedIdempotent(msg: string)
    ensures Clamped(Clamped(msg)) == Clamped(msg)
  {
    ClampedFits(msg);
    ClampedFits(Clamped(msg));
  }

  method LongestCut(msg: string, suffix: string) returns (fit: nat)
    ensures fit == LongestClampPrefix(msg, suffix, |msg|)
  {
    var render := (n: nat) requires n <= |msg| => Render(Str(msg[..n] + suffix), 0);
    forall n: nat | n <= |msg|
      ensures ByteLen(render(n)) == CutBytes(msg, suffix, n)
    {
    }
    forall m: nat, n: nat | m <= n <= |msg|
      ensures ByteLen(render(m)) <= ByteLen(render(n))
    {
      CutBytesMonotone(msg, suffix, m, n);
    }
    var best, _, _ := LargestFit(|msg|, MAX_INLINE_ERROR_BYTES, render);
    fit := best;
  }

  method ClampError(msg: string) returns (r: string)
    ensures r == Clamped(msg)
    ensures EncodedBytes(r) <= 2000
  {
    ClampedFits(msg);
    if EncodedBytes(msg) <= MAX_INLINE_ERROR_BYTES {
      return msg;
    }
    var fit := LongestCut(msg, CLAMP_SUFFIX);
    return msg[..fit] + CLAMP_SUFFIX;
  }

  // ----- truncateSearchOutput -------------------------------------------

  /** How a reduction is described: the size and the place of the saved response. */
  datatype Saved = Saved(totalBytes: nat, fullPath: string) {
    function Describe(total: nat, shown: nat, contentTruncated: bool): Truncation {
      Truncation(true, total, shown, totalBytes, contentTruncated, fullPath, TRUNCATION_HINT)
    }
  }

  /** The envelope that keeps the first n results whole. */
  function Envelope(full: SearchOutput, n: nat, saved: Saved): SearchOutput
    requires n <= full.results.Len()
  {
    SearchOutput(full.results.First(n), Some(saved.Describe(full.results.Len(), n, false)))
  }

  function TrimmedFirst(full: SearchOutput, k: nat): SearchResult
    requires full.results.Len() > 0 && k <= |full.results.Items()[0].content|
  {
    var first := full.results.Items()[0];
    first.(content := first.content[..k])
  }

  /** The envelope that keeps only the first result, its content cut to k code points. */
  function TrimmedEnvelope(full: SearchOutput, k: nat, saved: Saved): SearchOutput
    requires full.results.Len() > 0 && k <= |full.results.Items()[0].content|
  {
    SearchOutput(Slice([TrimmedFirst(full, k)]), Some(saved.Describe(full.results.Len(), 1, true)))
  }

  /** The number of results in the longest prefix of at most n that fits; 0 if none does. */
  function LongestPrefix(full: SearchOutput, limit: nat, saved: Saved, n: nat): (r: nat)
    requires n <= full.results.Len()
    ensures r <= n
  {
    if n == 0 || SearchBytes(Envelope(full, n, saved)) <= limit then n
    else LongestPrefix(full, limit, saved, n - 1)
  }

  function LongestContent(full: SearchOutput, limit: nat, saved: Saved, k: nat): (r: nat)
    requires full.results.Len() > 0 && k <= |full.results.Items()[0].content|
    ensures r <= k
  {
    if k == 0 || SearchBytes(TrimmedEnvelope(full, k, saved)) <= limit then k
    else LongestContent(full, limit, saved, k - 1)
  }

  function ReducedSearch(full: SearchOutput, limit: nat, saved: Saved): SearchOutput {
    var n := LongestPrefix(full, limit, saved, full.results.Len());
    if n >= 1 || full.results.Len() == 0 || limit < SearchBytes(Envelope(full, 0, saved)) then
      Envelope(full, n, saved)
    else if limit < SearchBytes(TrimmedEnvelope(full, 0, saved)) then
      Envelope(full, 0, saved)
    else
      var content := full.results.Items()[0].content;
      TrimmedEnvelope(full, LongestContent(full, limit, saved, |content|), saved)
  }

  /** Keeping more results never renders shorter. */
  lemma EnvelopeMonotone(full: SearchOutput, saved: Saved, m: nat, n: nat)
    requires m <= n <= full.results.Len()
    ensures SearchBytes(Envelope(full, m, saved)) <= SearchBytes(Envelope(full, n, saved))
  {
    ResultsPrefixNoLarger(full.results, m, n, 1);
    TruncationNoLarger(saved.Describe(full.results.Len(), m, false), n, 1);
    EnvelopeNoLarger(Envelope(full, m, saved), Envelope(full, n, saved));
  }

  /** Keeping more of the first result's content never renders shorter. */
  lemma TrimmedEnvelopeMonotone(full: SearchOutput, saved: Saved, j: nat, k: nat)
    requires full.results.Len() > 0 && j <= k <= |full.results.Items()[0].content|
    ensures SearchBytes(TrimmedEnvelope(full, j, saved)) <= SearchBytes(TrimmedEnvelope(full, k, saved))
  {
    TrimmedResultNoLarger(full.results.Items()[0], j, k, 2);
    SingletonNoLarger(TrimmedFirst(full, j), TrimmedFirst(full, k), 1);
    EnvelopeNoLarger(TrimmedEnvelope(full, j, saved), TrimmedEnvelope(full, k, saved));
  }

  lemma {:induction false} LongestPrefixIsLongest(full: SearchOutput, limit: nat, saved: Saved, n: nat)
    requires n <= full.results.Len()
    ensures var r := LongestPrefix(full, limit, saved, n);
            && (r == 0 || SearchBytes(Envelope(full, r, saved)) <= limit)
            && (forall m :: r < m <= n ==> limit < SearchBytes(Envelope(full, m, saved)))
  {
    if n == 0 || SearchBytes(Envelope(full, n, saved)) <= limit {
    } else {
      LongestPrefixIsLongest(full, limit, saved, n - 1);
    }
  }

  lemma {:induction false} LongestContentIsLongest(full: SearchOutput, limit: nat, saved: Saved, k: nat)
    requires full.results.Len() > 0 && k <= |full.results.Items()[0].content|
    ensures var r := LongestContent(full, limit, saved, k);
            && (r == 0 || SearchBytes(TrimmedEnvelope(full, r, saved)) <= limit)
            && (forall j :: r < j <= k ==> limit < SearchBytes(TrimmedEnvelope(full, j, saved)))
  {
    if k == 0 || SearchBytes(TrimmedEnvelope(full, k, saved)) <= limit {
    } else {
      LongestContentIsLongest(full, limit, saved, k - 1);
    }
  }

  /** The second half of the reducer: no whole result fits, but the metadata does. */
  method TrimFirstResult(full: SearchOutput, limit: nat, saved: Saved) returns (out: SearchOutput)
    requires full.results.Len() > 0
    requires LongestPrefix(full, limit, saved, full.results.Len()) == 0
    requires SearchBytes(Envelope(full, 0, saved)) <= limit
    ensures out == ReducedSearch(full, limit, saved)
  {
    var content := full.results.Items()[0].content;
    var render := (k: nat) requires k <= |content| => SearchText(TrimmedEnvelope(full, k, saved));
    forall k: nat | k <= |content|
      ensures ByteLen(render(k)) == SearchBytes(TrimmedEnvelope(full, k, saved))
    {
      TextBytes(TrimmedEnvelope(full, k, saved), MultiOutput([]));
    }
    forall j: nat, k: nat | j <= k <= |content|
      ensures ByteLen(render(j)) <= ByteLen(render(k))
    {
      TrimmedEnvelopeMonotone(full, saved, j, k);
    }
    var fit, data, _ := LargestFit(|content|, limit, render);
    LongestContentIsLongest(full, limit, saved, |content|);
    assert fit == LongestContent(full, limit, saved, |content|);
    if limit < ByteLen(data) {
      assert fit == 0;
      return Envelope(full, 0, saved);
    }
    TrimmedEnvelopeMonotone(full, saved, 0, fit);
    out := TrimmedEnvelope(full, fit, saved);
  }

  method TruncateSearchOutput(full: SearchOutput, limit: nat, saved: Saved) returns (out: SearchOutput)
    ensures out == ReducedSearch(full, limit, saved)
  {
    var total := full.results.Len();
    var render := (n: nat) requires n <= total => SearchText(Envelope(full, n, saved));
    forall n: nat | n <= total
      ensures ByteLen(render(n)) == SearchBytes(Envelope(full, n, saved))
    {
      TextBytes(Envelope(full, n, saved), MultiOutput([]));
    }
    forall m: nat, n: nat | m <= n <= total
      ensures ByteLen(render(m)) <= ByteLen(render(n))
    {
      EnvelopeMonotone(full, saved, m, n);
    }
    var fit, data, _ := LargestFit(total, limit, render);
    LongestPrefixIsLongest(full, limit, saved, total);
    assert fit == LongestPrefix(full, limit, saved, total);
    if fit >= 1 || total == 0 || limit < ByteLen(data) {
      return Envelope(full, fit, saved);
    }
    out := TrimFirstResult(full, limit, saved);
  }

  ghost predicate SomePrefixFits(full: SearchOutput, limit: nat, saved: Saved) {
    exists n :: 1 <= n <= full.results.Len() && SearchBytes(Envelope(full, n, saved)) <= limit
  }

  ghost predicate TrimmingHelps(full: SearchOutput, limit: nat, saved: Saved) {
    && full.results.Len() > 0
    && SearchBytes(Envelope(full, 0, saved)) <= limit
    && SearchBytes(TrimmedEnvelope(full, 0, saved)) <= limit
  }

  /** out keeps the longest prefix of whole results that fits. */
  ghost predicate KeepsLongestPrefix(full: SearchOutput, limit: nat, saved: Saved, out: SearchOutput) {
    exists n ::
      && 1 <= n <= full.results.Len()
      && out == Envelope(full, n, saved)
      && SearchBytes(out) <= limit
      && forall m :: n < m <= full.results.Len() ==> limit < SearchBytes(Envelope(full, m, saved))
  }

  /** out keeps the longest code-point prefix of the first content that fits. */
  ghost predicate KeepsLongestContent(full: SearchOutput, limit: nat, saved: Saved, out: SearchOutput)
    requires full.results.Len() > 0
  {
    var content := full.results.Items()[0].content;
    exists k ::
      && 0 <= k <= |content|
      && out == TrimmedEnvelope(full, k, saved)
      && SearchBytes(out) <= limit
      && forall j :: k < j <= |content| ==> limit < SearchBytes(TrimmedEnvelope(full, j, saved))
  }

  /** The three outcomes of reducing one response, and when each is taken. */
  ghost predicate IsReduction(full: SearchOutput, limit: nat, saved: Saved, out: SearchOutput) {
    && (SomePrefixFits(full, limit, saved) ==> KeepsLongestPrefix(full, limit, saved, out))
    && (!SomePrefixFits(full, limit, saved) && TrimmingHelps(full, limit, saved) ==>
          KeepsLongestContent(full, limit, saved, out))
    && (!SomePrefixFits(full, limit, saved) && !TrimmingHelps(full, limit, saved) ==>
          out == Envelope(full, 0, saved))
  }

  /** The reducer's output; it fits exactly when the zero-results envelope does. */
  lemma SingleQueryOutcome(full: SearchOutput, limit: nat, saved: Saved)
    ensures var out := ReducedSearch(full, limit, saved);
            && IsReduction(full, limit, saved, out)
            && (SearchBytes(out) <= limit <==> SearchBytes(Envelope(full, 0, saved)) <= limit)
  {
    var total := full.results.Len();
    var n := LongestPrefix(full, limit, saved, total);
    var out := ReducedSearch(full, limit, saved);
    LongestPrefixIsLongest(full, limit, saved, total);
    EnvelopeMonotone(full, saved, 0, n);
    if SomePrefixFits(full, limit, saved) {
      assert n >= 1;
      assert out == Envelope(full, n, saved);
    } else {
      assert n == 0;
      if TrimmingHelps(full, limit, saved) {
        var content := full.results.Items()[0].content;
        LongestContentIsLongest(full, limit, saved, |content|);
        var k := LongestContent(full, limit, saved, |content|);
        assert out == TrimmedEnvelope(full, k, saved);
      }
    }
  }

  /** There is one such output only. */
  lemma ReductionUnique(full: SearchOutput, limit: nat, saved: Saved, a: SearchOutput, b: SearchOutput)
    requires IsReduction(full, limit, saved, a) && IsReduction(full, limit, saved, b)
    ensures a == b
  {
    hide SearchBytes;
    if SomePrefixFits(full, limit, saved) {
      var m :| 1 <= m <= full.results.Len() && a == Envelope(full, m, saved) && SearchBytes(a) <= limit &&
               forall k :: m < k <= full.results.Len() ==> limit < SearchBytes(Envelope(full, k, saved));
      var n :| 1 <= n <= full.results.Len() && b == Envelope(full, n, saved) && SearchBytes(b) <= limit &&
               forall k :: n < k <= full.results.Len() ==> limit < SearchBytes(Envelope(full, k, saved));
      assert m == n;
    } else if TrimmingHelps(full, limit, saved) {
      var size := |full.results.Items()[0].content|;
      var m :| 0 <= m <= size && a == TrimmedEnvelope(full, m, saved) && SearchBytes(a) <= limit &&
               forall k :: m < k <= size ==> limit < SearchBytes(TrimmedEnvelope(full, k, saved));
      var n :| 0 <= n <= size && b == TrimmedEnvelope(full, n, saved) && SearchBytes(b) <= limit &&
               forall k :: n < k <= size ==> limit < SearchBytes(TrimmedEnvelope(full, k, saved));
      assert m == n;
    }
  }

  /** A truncation object states the totals, what is shown, and where the rest is. */
  ghost predicate States(t: Truncation, total: nat, shown: nat, saved: Saved) {
    && t.truncated
    && t.totalResults == total
    && t.shownResults == shown
    && t.totalBytes == saved.totalBytes
    && t.fullResponsePath == saved.fullPath
    && t.hint == TRUNCATION_HINT
  }

  /** The shown results are the first of the full ones, whole. */
  ghost predicate ShowsFirst(full: Results, shown: Results) {
    shown.NilSlice? == full.NilSlice? && shown.Items() <= full.Items()
  }

  /** The shown result is the first of the full ones, but for the end of its content. */
  ghost predicate ShowsTrimmed(full: Results, shown: Results) {
    && full.Items() != []
    && shown.Slice? && |shown.items| == 1
    && var first, kept := full.Items()[0], shown.items[0];
       && kept.content <= first.content
       && kept.title == first.title && kept.url == first.url
       && kept.sourceType == first.sourceType && kept.updatedAt == first.updatedAt
  }

  /** How a reduced result list relates to the full one it describes. */
  ghost predicate Faithful(full: Results, shown: Results, t: Option<Truncation>, saved: Saved) {
    && t.Some?
    && States(t.value, |full.Items()|, |shown.Items()|, saved)
    && (if t.value.contentTruncated then ShowsTrimmed(full, shown) else ShowsFirst(full, shown))
  }

  /** The reduced form shows fewer results, or the only result with less content. */
  ghost predicate ShowsLess(full: Results, shown: Results) {
    || shown.Len() < full.Len()
    || (shown.Len() == full.Len() == 1 && |shown.Items()[0].content| < |full.Items()[0].content|)
  }

  /** The candidates that are rendered: n whole results ... */
  lemma EnvelopeMeaning(full: SearchOutput, n: nat, saved: Saved)
    requires n <= full.results.Len()
    ensures var out := Envelope(full, n, saved);
            && Faithful(full.results, out.results, out.truncation, saved)
            && |out.results.Items()| == n && !out.truncation.value.contentTruncated
  {
  }

  /** ... or the first result with k code points of its content. */
  lemma TrimmedEnvelopeMeaning(full: SearchOutput, k: nat, saved: Saved)
    requires full.results.Len() > 0 && k <= |full.results.Items()[0].content|
    ensures var out := TrimmedEnvelope(full, k, saved);
            && Faithful(full.results, out.results, out.truncation, saved)
            && |out.results.Items()[0].content| == k && out.truncation.value.contentTruncated
  {
  }

  /**
   What a reduced response shows: the first results or the first with its content cut, with
   the counts of both sides, the size and the place of the whole.
   */
  lemma SingleQueryFaithful(full: SearchOutput, limit: nat, saved: Saved)
    ensures var out := ReducedSearch(full, limit, saved);
            Faithful(full.results, out.results, out.truncation, saved)
  {
    var n := LongestPrefix(full, limit, saved, full.results.Len());
    assert full.results.First(n).Len() == n;
    assert full.results.First(0).Len() == 0;
  }

  /** An over-limit response with any result is shown strictly reduced. */
  lemma SingleQueryShowsLess(full: SearchOutput, limit: nat, saved: Saved)
    requires full.truncation.None? && limit < SearchBytes(full)
    requires full.results.Len() > 0
    ensures ShowsLess(full.results, ReducedSearch(full, limit, saved).results)
  {
    var total := full.results.Len();
    var out := ReducedSearch(full, limit, saved);
    SingleQueryOutcome(full, limit, saved);
    if SomePrefixFits(full, limit, saved) {
      var n :| 1 <= n <= total && out == Envelope(full, n, saved) && SearchBytes(out) <= limit;
      if n == total {
        assert full.results.First(n) == full.results;
        TruncationAddsBytes(full, out, 0);
      }
    } else if TrimmingHelps(full, limit, saved) {
      var first := full.results.Items()[0];
      var k :| 0 <= k <= |first.content| && out == TrimmedEnvelope(full, k, saved) && SearchBytes(out) <= limit;
      if total == 1 && k == |first.content| {
        assert TrimmedFirst(full, k) == first;
        assert full.results == Slice([first]);
        TruncationAddsBytes(full, out, 0);
      }
    }
  }

  lemma FlagBytes(t: Truncation, depth: nat)
    requires t.contentTruncated
    ensures Size(TruncationJson(t), depth) + 1 == Size(TruncationJson(t.(contentTruncated := false)), depth)
  {
    var fields := TruncationJson(t).fields;
    MembersSizeReplace(fields, 4, Bool(false), depth + 1);
    assert TruncationJson(t.(contentTruncated := false)).fields == fields[4 := fields[4].(value := Bool(false))];
  }

  /** The flag prints one byte shorter than its negation. */
  lemma FlagSavesOneByte(full: SearchOutput, saved: Saved)
    requires full.results.Len() > 0
    ensures var first := full.results.Items()[0];
            SearchBytes(TrimmedEnvelope(full, |first.content|, saved)) + 1 == SearchBytes(Envelope(full, 1, saved))
  {
    var first := full.results.Items()[0];
    var t := saved.Describe(full.results.Len(), 1, true);
    assert TrimmedFirst(full, |first.content|) == first;
    assert full.results.First(1) == Slice([first]);
    FlagBytes(t, 1);
    var fields := [Field("results", ResultsJson(Slice([first]))), Field("truncation", TruncationJson(t))];
    var off := TruncationJson(t.(contentTruncated := false));
    MembersSizeReplace(fields, 1, off, 1);
    assert SearchJson(TrimmedEnvelope(full, |first.content|, saved)).fields == fields;
    assert SearchJson(Envelope(full, 1, saved)).fields == fields[1 := Field("truncation", off)];
  }

  lemma TwoMembersLonger(a: Field, b: Field, c: Field, d: Field, depth: nat)
    requires a.key == b.key && Size(a.value, depth) + 2 <= Size(b.value, depth)
    requires c.key == d.key && Size(c.value, depth) <= Size(d.value, depth)
    ensures MembersSize([a, c], depth) + 1 < MembersSize([b, d], depth)
  {
    assert [a, c] == [a] + [c] && [b, d] == [b] + [d] && [a] == [] + [a] && [b] == [] + [b];
    MembersSizeAppend([], a, depth);
    MembersSizeAppend([], b, depth);
    MembersSizeAppend([a], c, depth);
    MembersSizeAppend([b], d, depth);
  }

  lemma EmptyEnvelopeShorter(full: SearchOutput, saved: Saved)
    requires full.results.Len() > 0
    ensures SearchBytes(Envelope(full, 0, saved)) + 1 < SearchBytes(Envelope(full, 1, saved))
  {
    var none, one := ResultsJson(full.results.First(0)), ResultsJson(full.results.First(1));
    var t0, t1 := saved.Describe(full.results.Len(), 0, false), saved.Describe(full.results.Len(), 1, false);
    TruncationNoLarger(t0, 1, 1);
    TwoMembersLonger(Field("results", none), Field("results", one),
                     Field("truncation", TruncationJson(t0)), Field("truncation", TruncationJson(t1)), 1);
    assert SearchJson(Envelope(full, 0, saved)).fields ==
           [Field("results", none), Field("truncation", TruncationJson(t0))];
    assert SearchJson(Envelope(full, 1, saved)).fields ==
           [Field("results", one), Field("truncation", TruncationJson(t1))];
  }

  /**
   content_truncated does not always mean that content is missing: the flag is set on a
   whole content exactly when keeping the first result misses the limit by one byte.
   */
  lemma FlagOnWholeContent(full: SearchOutput, limit: nat, saved: Saved)
    requires full.results.Len() > 0
    ensures var out := ReducedSearch(full, limit, saved);
            && out.truncation.Some?
            && (out.truncation.value.contentTruncated && out.results == full.results.First(1)
                <==> SearchBytes(Envelope(full, 1, saved)) == limit + 1)
  {
    var total := full.results.Len();
    var first := full.results.Items()[0];
    var whole := |first.content|;
    FlagSavesOneByte(full, saved);
    LongestPrefixIsLongest(full, limit, saved, total);
    LongestContentIsLongest(full, limit, saved, whole);
    TrimmedEnvelopeMonotone(full, saved, 0, whole);
    EnvelopeMonotone(full, saved, 1, total);
    forall m | 1 <= m <= total
      ensures SearchBytes(Envelope(full, 1, saved)) <= SearchBytes(Envelope(full, m, saved))
    {
      EnvelopeMonotone(full, saved, 1, m);
    }
    EmptyEnvelopeShorter(full, saved);
    assert TrimmedFirst(full, whole) == first && full.results.First(1) == Slice([first]);
  }

  // ----- truncateMultiSearchOutput --------------------------------------

  /** The entry with its results capped at k. */
  function CapEntry(e: MultiEntry, k: nat, saved: Saved): MultiEntry {
    if e.error != "" || e.results.Len() <= k then e
    else MultiEntry(e.query, "", e.results.First(k), Some(saved.Describe(e.results.Len(), k, false)))
  }

  function CapAt(full: MultiOutput, k: nat, saved: Saved): MultiOutput {
    MultiOutput(seq(|full.searches|, i requires 0 <= i < |full.searches| => CapEntry(full.searches[i], k, saved)))
  }

  function MaxResults(searches: seq<MultiEntry>): (m: nat)
    ensures forall e :: e in searches ==> e.results.Len() <= m
    ensures m == 0 || exists e :: e in searches && e.results.Len() == m
  {
    if searches == [] then 0
    else
      var before := MaxResults(searches[..|searches| - 1]);
      var last := searches[|searches| - 1].results.Len();
      if last <= before then before else last
  }

  /** The largest cap in [1, k] that fits; 0 if none does. */
  function LargestCap(full: MultiOutput, limit: nat, saved: Saved, k: nat): (r: nat)
    ensures r <= k
    ensures r > 0 ==> MultiBytes(CapAt(full, r, saved)) <= limit
    ensures forall c :: r < c <= k ==> limit < MultiBytes(CapAt(full, c, saved))
  {
    if k == 0 || MultiBytes(CapAt(full, k, saved)) <= limit then k
    else LargestCap(full, limit, saved, k - 1)
  }

  /** The entry reduced against its own share of the limit. */
  function ShareEntry(e: MultiEntry, share: nat, saved: Saved): MultiEntry {
    var single := SearchOutput(e.results, None);
    if e.error != "" || SearchBytes(single) <= share then e
    else
      var reduced := ReducedSearch(single, share, saved);
      MultiEntry(e.query, "", reduced.results, reduced.truncation)
  }

  function SharesOf(full: MultiOutput, share: nat, saved: Saved): MultiOutput {
    MultiOutput(seq(|full.searches|, i requires 0 <= i < |full.searches| => ShareEntry(full.searches[i], share, saved)))
  }

  function EvenShares(full: MultiOutput, limit: nat, saved: Saved): MultiOutput
    requires full.searches != []
  {
    SharesOf(full, limit / |full.searches|, saved)
  }

  function ReducedMulti(full: MultiOutput, limit: nat, saved: Saved): MultiOutput
    requires full.searches != []
  {
    var k := LargestCap(full, limit, saved, MaxResults(full.searches));
    if k > 0 then CapAt(full, k, saved)
    else if MultiBytes(EvenShares(full, limit, saved)) <= limit then EvenShares(full, limit, saved)
    else CapAt(full, 0, saved)
  }

  method RenderCapped(full: MultiOutput, k: nat, saved: Saved) returns (out: MultiOutput, data: string)
    ensures out == CapAt(full, k, saved) && data == MultiText(out)
  {
    var searches: seq<MultiEntry> := [];
    for i := 0 to |full.searches|
      invariant searches == CapAt(full, k, saved).searches[..i]
    {
      var entry := full.searches[i];
      if entry.error != "" || entry.results.Len() <= k {
        searches := searches + [entry];
      } else {
        searches := searches + [MultiEntry(entry.query, "", entry.results.First(k),
                                           Some(saved.Describe(entry.results.Len(), k, false)))];
      }
    }
    out := MultiOutput(searches);
    data := MultiText(out);
  }

  method ReduceToShare(entry: MultiEntry, share: nat, saved: Saved) returns (shown: MultiEntry)
    ensures shown == ShareEntry(entry, share, saved)
  {
    var single := SearchOutput(entry.results, None);
    TextBytes(single, MultiOutput([]));
    if entry.error != "" || ByteLen(SearchText(single)) <= share {
      return entry;
    }
    var reduced := TruncateSearchOutput(single, share, saved);
    shown := MultiEntry(entry.query, "", reduced.results, reduced.truncation);
  }

  method RenderEvenShares(full: MultiOutput, limit: nat, saved: Saved) returns (out: MultiOutput)
    requires full.searches != []
    ensures out == EvenShares(full, limit, saved)
  {
    var share := limit / |full.searches|;
    var searches: seq<MultiEntry> := [];
    for i := 0 to |full.searches|
      invariant searches == EvenShares(full, limit, saved).searches[..i]
    {
      var shown := ReduceToShare(full.searches[i], share, saved);
      searches := searches + [shown];
    }
    out := MultiOutput(searches);
  }

  method TruncateMultiSearchOutput(full: MultiOutput, limit: nat, saved: Saved) returns (out: MultiOutput)
    requires full.searches != []
    ensures out == ReducedMulti(full, limit, saved)
  {
    var maxResults: nat := 0;
    for i := 0 to |full.searches|
      invariant maxResults == MaxResults(full.searches[..i])
    {
      assert full.searches[..i + 1][..i] == full.searches[..i];
      var n := full.searches[i].results.Len();
      maxResults := if n <= maxResults then maxResults else n;
    }
    assert full.searches[..|full.searches|] == full.searches;

    var k: nat := maxResults;
    while k > 0
      invariant k <= maxResults
      invariant LargestCap(full, limit, saved, maxResults) == LargestCap(full, limit, saved, k)
    {
      var capped, data := RenderCapped(full, k, saved);
      TextBytes(SearchOutput(NilSlice, None), capped);
      if ByteLen(data) <= limit {
        return capped;
      }
      k := k - 1;
    }

    var shared := RenderEvenShares(full, limit, saved);
    TextBytes(SearchOutput(NilSlice, None), shared);
    if ByteLen(MultiText(shared)) <= limit {
      return shared;
    }
    var floor, _ := RenderCapped(full, 0, saved);
    out := floor;
  }

  /** Some uniform cap in [1, max] fits. */
  ghost predicate SomeCapFits(full: MultiOutput, limit: nat, saved: Saved) {
    exists k :: 1 <= k <= MaxResults(full.searches) && MultiBytes(CapAt(full, k, saved)) <= limit
  }

  /** out is the render for the largest uniform cap that fits. */
  ghost predicate KeepsLargestCap(full: MultiOutput, limit: nat, saved: Saved, out: MultiOutput) {
    exists k ::
      && 1 <= k <= MaxResults(full.searches)
      && out == CapAt(full, k, saved)
      && MultiBytes(out) <= limit
      && forall c :: k < c <= MaxResults(full.searches) ==> limit < MultiBytes(CapAt(full, c, saved))
  }

  /** An entry with its results capped at k: failed and short ones stay as they are. */
  ghost predicate IsCapped(e: MultiEntry, shown: MultiEntry, k: nat, saved: Saved) {
    if e.error != "" || |e.results.Items()| <= k then shown == e
    else
      && shown.query == e.query && shown.error == ""
      && ShowsFirst(e.results, shown.results) && |shown.results.Items()| == k
      && shown.truncation.Some? && !shown.truncation.value.contentTruncated
      && States(shown.truncation.value, |e.results.Items()|, k, saved)
  }

  /** The candidates that are scanned: every entry capped at k. */
  lemma CapMeaning(full: MultiOutput, k: nat, saved: Saved)
    ensures |CapAt(full, k, saved).searches| == |full.searches|
    ensures forall i :: 0 <= i < |full.searches| ==>
                          IsCapped(full.searches[i], CapAt(full, k, saved).searches[i], k, saved)
  {
  }

  /** An entry against its own share: failed and fitting ones stay, others are reduced like one response. */
  ghost predicate IsShareReduction(e: MultiEntry, shown: MultiEntry, share: nat, saved: Saved) {
    var single := SearchOutput(e.results, None);
    if e.error != "" || SearchBytes(single) <= share then shown == e
    else
      && shown.query == e.query && shown.error == ""
      && IsReduction(single, share, saved, SearchOutput(shown.results, shown.truncation))
  }

  /** Each entry against an equal part of the limit. */
  ghost predicate AreEvenShares(full: MultiOutput, limit: nat, saved: Saved, out: MultiOutput) {
    && |out.searches| == |full.searches| != 0
    && forall i :: 0 <= i < |full.searches| ==>
                     IsShareReduction(full.searches[i], out.searches[i], limit / |full.searches|, saved)
  }

  lemma ShareEntryMeaning(e: MultiEntry, share: nat, saved: Saved)
    ensures IsShareReduction(e, ShareEntry(e, share, saved), share, saved)
  {
    hide IsReduction, ReducedSearch;
    SingleQueryOutcome(SearchOutput(e.results, None), share, saved);
  }

  /** An unfailed entry stays as it is if and only if it fits its share. */
  lemma ShareKeptIff(e: MultiEntry, share: nat, saved: Saved)
    requires e.error == "" && e.truncation.None?
    ensures ShareEntry(e, share, saved) == e <==> SearchBytes(SearchOutput(e.results, None)) <= share
  {
    hide SearchBytes;
    SingleQueryFaithful(SearchOutput(e.results, None), share, saved);
  }

  lemma ShareUnique(e: MultiEntry, a: MultiEntry, b: MultiEntry, share: nat, saved: Saved)
    requires IsShareReduction(e, a, share, saved) && IsShareReduction(e, b, share, saved)
    ensures a == b
  {
    hide IsReduction;
    var single := SearchOutput(e.results, None);
    if e.error == "" && share < SearchBytes(single) {
      ReductionUnique(single, share, saved, SearchOutput(a.results, a.truncation),
                      SearchOutput(b.results, b.truncation));
    }
  }

  /** The even-share render is one of even shares, and the only one. */
  lemma EvenSharesMeaning(full: MultiOutput, limit: nat, saved: Saved, out: MultiOutput)
    requires full.searches != []
    ensures AreEvenShares(full, limit, saved, out) <==> out == EvenShares(full, limit, saved)
  {
    hide IsReduction, ReducedSearch, ShareEntry, SearchBytes;
    var share := limit / |full.searches|;
    forall i | 0 <= i < |full.searches|
      ensures IsShareReduction(full.searches[i], EvenShares(full, limit, saved).searches[i], share, saved)
    {
      ShareEntryMeaning(full.searches[i], share, saved);
    }
    if AreEvenShares(full, limit, saved, out) {
      forall i | 0 <= i < |full.searches| ensures out.searches[i] == EvenShares(full, limit, saved).searches[i] {
        ShareUnique(full.searches[i], out.searches[i], EvenShares(full, limit, saved).searches[i], share, saved);
      }
    }
  }

  /** The three outcomes of reducing several responses, given their even shares. */
  ghost predicate IsMultiReduction(
    full: MultiOutput, limit: nat, saved: Saved, shares: MultiOutput, out: MultiOutput)
  {
    && (SomeCapFits(full, limit, saved) ==> KeepsLargestCap(full, limit, saved, out))
    && (!SomeCapFits(full, limit, saved) && MultiBytes(shares) <= limit ==> out == shares)
    && (!SomeCapFits(full, limit, saved) && limit < MultiBytes(shares) ==> out == CapAt(full, 0, saved))
  }

  /**
   The multi-query reducer. Only the floor can exceed the limit, and it is reached only when
   no cap and no even share fits.
   */
  lemma MultiQueryOutcome(full: MultiOutput, limit: nat, saved: Saved, shares: MultiOutput)
    requires AreEvenShares(full, limit, saved, shares)
    ensures var out := ReducedMulti(full, limit, saved);
            && IsMultiReduction(full, limit, saved, shares, out)
            && (limit < MultiBytes(out) <==>
                  && limit < MultiBytes(shares)
                  && forall k :: 0 <= k <= MaxResults(full.searches) ==> limit < MultiBytes(CapAt(full, k, saved)))
  {
    hide EvenShares, MultiBytes, CapAt, IsShareReduction;
    EvenSharesMeaning(full, limit, saved, shares);
    var max := MaxResults(full.searches);
    var k := LargestCap(full, limit, saved, max);
    var out := ReducedMulti(full, limit, saved);
    if SomeCapFits(full, limit, saved) {
      assert k > 0 && out == CapAt(full, k, saved);
    } else {
      assert k == 0;
    }
  }

  /** What a reduced entry may look like next to the entry it stands for. */
  ghost predicate FaithfulEntry(full: MultiEntry, shown: MultiEntry, saved: Saved) {
    || shown == full
    || (&& full.error == ""
        && shown.query == full.query && shown.error == ""
        && Faithful(full.results, shown.results, shown.truncation, saved))
  }

  lemma CapEntryFaithful(e: MultiEntry, k: nat, saved: Saved)
    ensures FaithfulEntry(e, CapEntry(e, k, saved), saved)
  {
    if e.error == "" && k < e.results.Len() {
      assert e.results.First(k).Len() == k;
    }
  }

  lemma ShareEntryFaithful(e: MultiEntry, share: nat, saved: Saved)
    ensures FaithfulEntry(e, ShareEntry(e, share, saved), saved)
  {
    SingleQueryFaithful(SearchOutput(e.results, None), share, saved);
  }

  ghost predicate IsCandidate(full: MultiOutput, out: MultiOutput, limit: nat, saved: Saved)
    requires full.searches != []
  {
    (exists k :: out == CapAt(full, k, saved)) || out == EvenShares(full, limit, saved)
  }

  /** The output is one of the candidates. */
  lemma ReducedIsCandidate(full: MultiOutput, limit: nat, saved: Saved)
    requires full.searches != []
    ensures IsCandidate(full, ReducedMulti(full, limit, saved), limit, saved)
  {
    hide CapAt, EvenShares, MultiBytes, LargestCap, MaxResults;
    var k := LargestCap(full, limit, saved, MaxResults(full.searches));
    if k > 0 {
      assert ReducedMulti(full, limit, saved) == CapAt(full, k, saved);
    } else if limit < MultiBytes(EvenShares(full, limit, saved)) {
      assert ReducedMulti(full, limit, saved) == CapAt(full, 0, saved);
    }
  }

  /** And so is each of its entries. */
  lemma CandidateEntryFaithful(full: MultiOutput, out: MultiOutput, limit: nat, saved: Saved, i: nat)
    requires i < |full.searches| && IsCandidate(full, out, limit, saved)
    ensures |out.searches| == |full.searches| && FaithfulEntry(full.searches[i], out.searches[i], saved)
  {
    hide CapEntry, ShareEntry, FaithfulEntry;
    if k: nat :| out == CapAt(full, k, saved) {
      CapEntryFaithful(full.searches[i], k, saved);
    } else {
      ShareEntryFaithful(full.searches[i], limit / |full.searches|, saved);
    }
  }

  lemma FaithfulKeeps(full: MultiEntry, shown: MultiEntry, saved: Saved)
    requires FaithfulEntry(full, shown, saved)
    ensures shown.query == full.query
    ensures full.error != "" ==> shown == full
  {
  }

  /**
   Nothing is lost silently: one entry for each query in order, failed entries
   unchanged, and every entry that shows less says so with exact counts and the path.
   */
  lemma MultiQueryFaithful(full: MultiOutput, limit: nat, saved: Saved)
    requires full.searches != []
    ensures var out := ReducedMulti(full, limit, saved);
            && |out.searches| == |full.searches|
            && forall i :: 0 <= i < |full.searches| ==>
                             && out.searches[i].query == full.searches[i].query
                             && FaithfulEntry(full.searches[i], out.searches[i], saved)
                             && (full.searches[i].error != "" ==> out.searches[i] == full.searches[i])
  {
    hide FaithfulEntry, ReducedMulti, IsCandidate;
    var out := ReducedMulti(full, limit, saved);
    ReducedIsCandidate(full, limit, saved);
    CandidateEntryFaithful(full, out, limit, saved, 0);
    forall i | 0 <= i < |full.searches|
      ensures out.searches[i].query == full.searches[i].query
      ensures FaithfulEntry(full.searches[i], out.searches[i], saved)
      ensures full.searches[i].error != "" ==> out.searches[i] == full.searches[i]
    {
      CandidateEntryFaithful(full, out, limit, saved, i);
      FaithfulKeeps(full.searches[i], out.searches[i], saved);
    }
  }

  ghost predicate EntryShowsLess(full: MultiEntry, shown: MultiEntry) {
    ShowsLess(full.results, shown.results)
  }

  /** An entry reduced to its share gets smaller only by showing less. */
  lemma ShareEntryShrinks(e: MultiEntry, share: nat, saved: Saved)
    requires e.truncation.None?
    requires Size(EntryJson(ShareEntry(e, share, saved)), 2) < Size(EntryJson(e), 2)
    ensures EntryShowsLess(e, ShareEntry(e, share, saved))
  {
    var single := SearchOutput(e.results, None);
    var shown := ShareEntry(e, share, saved);
    assert shown != e;
    if e.results.Len() > 0 {
      SingleQueryShowsLess(single, share, saved);
    } else {
      assert shown.results == e.results;
      EntryTruncationAddsBytes(e, shown, 2);
    }
  }

  /** A capped entry changes only by showing less. */
  lemma CapEntryShrinks(e: MultiEntry, k: nat, saved: Saved)
    requires CapEntry(e, k, saved) != e
    ensures EntryShowsLess(e, CapEntry(e, k, saved))
  {
    assert e.results.First(k).Len() == k;
  }

  lemma SmallerSomewhere(a: MultiOutput, b: MultiOutput)
    requires |a.searches| == |b.searches|
    requires MultiBytes(b) < MultiBytes(a)
    ensures exists i :: 0 <= i < |a.searches| && Size(EntryJson(b.searches[i]), 2) < Size(EntryJson(a.searches[i]), 2)
  {
    if forall i :: 0 <= i < |a.searches| ==> Size(EntryJson(a.searches[i]), 2) <= Size(EntryJson(b.searches[i]), 2) {
      MultiNoLarger(a, b, 0);
    }
  }

  /** Some entry shows less than it did, and none is missing. */
  ghost predicate SomeShowsLess(full: MultiOutput, out: MultiOutput) {
    && |out.searches| == |full.searches|
    && exists i :: 0 <= i < |full.searches| && EntryShowsLess(full.searches[i], out.searches[i])
  }

  /** The k = 0 render shows nothing of any entry that had results. */
  lemma FloorShowsLess(full: MultiOutput, saved: Saved, i: nat)
    requires i < |full.searches| && full.searches[i].error == "" && full.searches[i].results.Len() > 0
    ensures SomeShowsLess(full, CapAt(full, 0, saved))
  {
    assert full.searches[i].results.First(0).Len() == 0;
    assert EntryShowsLess(full.searches[i], CapAt(full, 0, saved).searches[i]);
  }

  lemma CapShowsLess(full: MultiOutput, limit: nat, saved: Saved, k: nat)
    requires MultiBytes(CapAt(full, k, saved)) <= limit < MultiBytes(full)
    ensures SomeShowsLess(full, CapAt(full, k, saved))
  {
    var out := CapAt(full, k, saved);
    assert out.searches != full.searches;
    var i :| 0 <= i < |full.searches| && out.searches[i] != full.searches[i];
    CapEntryShrinks(full.searches[i], k, saved);
  }

  lemma SharesShowLess(full: MultiOutput, limit: nat, saved: Saved, share: nat)
    requires MultiBytes(SharesOf(full, share, saved)) <= limit < MultiBytes(full)
    requires forall i :: 0 <= i < |full.searches| ==> full.searches[i].truncation.None?
    ensures SomeShowsLess(full, SharesOf(full, share, saved))
  {
    var out := SharesOf(full, share, saved);
    SmallerSomewhere(full, out);
    var i :| 0 <= i < |full.searches| && Size(EntryJson(out.searches[i]), 2) < Size(EntryJson(full.searches[i]), 2);
    ShareEntryShrinks(full.searches[i], share, saved);
  }

  /** An over-limit payload with any result is shown strictly reduced. */
  lemma MultiQueryShowsLess(full: MultiOutput, limit: nat, saved: Saved, some: nat)
    requires limit < MultiBytes(full)
    requires forall i :: 0 <= i < |full.searches| ==> full.searches[i].truncation.None?
    requires some < |full.searches| && full.searches[some].error == "" && full.searches[some].results.Len() > 0
    ensures SomeShowsLess(full, ReducedMulti(full, limit, saved))
  {
    hide MultiBytes, CapAt, SharesOf, SomeShowsLess, LargestCap, MaxResults;
    var k := LargestCap(full, limit, saved, MaxResults(full.searches));
    if k > 0 {
      CapShowsLess(full, limit, saved, k);
    } else if MultiBytes(EvenShares(full, limit, saved)) <= limit {
      SharesShowLess(full, limit, saved, limit / |full.searches|);
    } else {
      FloorShowsLess(full, saved, some);
    }
  }
}
