/**
 The printing side of `onyx-cli search`: an over-limit payload is saved to a temporary
 file before its reduced form is printed, and printed whole when it cannot be saved.
 */
module SearchWriter {
  import opened Wrappers
  import opened Text
  import opened SearchShapes
  import opened SearchReading
  import opened SearchTruncation

  /** One printed document: the payload it is about and what was shown of it. */
  datatype Printed = Printed(payload: Payload, shown: Payload, savedAt: Option<string>)

  datatype Note =
    | SaveFailed
    | ResponseTruncated(totalBytes: nat, fullPath: string)

  /** The multi-query form is only used with at least one query. */
  predicate HasQueries(p: Payload) {
    p.Multi? ==> p.outputs.searches != []
  }

  function PayloadBytes(p: Payload): nat {
    ByteLen(PayloadText(p))
  }

  function Reduced(p: Payload, limit: nat, saved: Saved): Payload
    requires HasQueries(p)
  {
    match p
    case Single(output) => Single(ReducedSearch(output, limit, saved))
    case Multi(outputs) => Multi(ReducedMulti(outputs, limit, saved))
  }

  method Reduce(p: Payload, limit: nat, saved: Saved) returns (r: Payload)
    requires HasQueries(p)
    ensures r == Reduced(p, limit, saved)
  {
    match p
    case Single(output) =>
      var reduced := TruncateSearchOutput(output, limit, saved);
      r := Single(reduced);
    case Multi(outputs) =>
      var reduced := TruncateMultiSearchOutput(outputs, limit, saved);
      r := Multi(reduced);
  }

  /** Every omission is described: exact counts, the exact size, the saved path. */
  ghost predicate FaithfulPayload(full: Payload, shown: Payload, saved: Saved) {
    match (full, shown)
    case (Single(f), Single(s)) =>
      Faithful(f.results, s.results, s.truncation, saved)
    case (Multi(f), Multi(s)) =>
      && |s.searches| == |f.searches|
      && forall i :: 0 <= i < |f.searches| ==> FaithfulEntry(f.searches[i], s.searches[i], saved)
    case _ => false
  }

  /** All of the payload was printed, or all of it is in the file named next to it. */
  ghost predicate Recoverable(p: Printed, files: map<string, string>) {
    match p.savedAt
    case None => p.shown == p.payload
    case Some(path) =>
      && path in files
      && files[path] == PayloadText(p.payload)
      && FaithfulPayload(p.payload, p.shown, Saved(PayloadBytes(p.payload), path))
  }

  /** What a reader goes by: the saved file if there is one, else what was printed. */
  function FullText(p: Printed, files: map<string, string>): string
    requires Recoverable(p, files)
  {
    match p.savedAt
    case None => PayloadText(p.shown)
    case Some(path) => files[path]
  }

  /** That text leaves no doubt about the payload: no two payloads leave the same one. */
  lemma FullTextDetermines(p: Printed, q: Printed, files: map<string, string>, others: map<string, string>)
    requires Recoverable(p, files) && Recoverable(q, others)
    requires FullText(p, files) == FullText(q, others)
    ensures p.payload == q.payload
  {
    PayloadTextDetermines(p.payload, q.payload);
  }

  function Transcript(history: seq<Printed>): string {
    if history == [] then ""
    else Transcript(history[..|history| - 1]) + PayloadText(history[|history| - 1].shown) + "\n"
  }

  lemma ReducedFaithful(p: Payload, limit: nat, saved: Saved)
    requires HasQueries(p)
    ensures FaithfulPayload(p, Reduced(p, limit, saved), saved)
  {
    match p
    case Single(output) => SingleQueryFaithful(output, limit, saved);
    case Multi(outputs) => MultiQueryFaithful(outputs, limit, saved);
  }

  /** What the writer prints for one payload; temp is the outcome of saving it. */
  function Outcome(p: Payload, truncateAt: int, temp: Option<string>): Printed
    requires HasQueries(p)
  {
    if truncateAt <= 0 || PayloadBytes(p) <= truncateAt then Printed(p, p, None)
    else
      match temp
      case None => Printed(p, p, None)
      case Some(path) => Printed(p, Reduced(p, truncateAt, Saved(PayloadBytes(p), path)), Some(path))
  }

  /** The process: its standard streams and the temporary files it leaves behind. */
  class Console {
    var stdout: string
    var notes: seq<Note>
    var files: map<string, string>
    ghost var history: seq<Printed>

    constructor ()
      ensures Valid()
      ensures stdout == "" && notes == [] && files == map[] && history == []
    {
      stdout, notes, files, history := "", [], map[], [];
    }

    /** Stdout is what the history says, and nothing in it is unrecoverable. */
    ghost predicate Valid()
      reads this
    {
      && stdout == Transcript(history)
      && forall p :: p in history ==> Recoverable(p, files)
    }

    /** Printing is only allowed once the document is recoverable. */
    method Print(p: Printed)
      requires Valid()
      requires Recoverable(p, files)
      modifies this`stdout, this`history
      ensures Valid()
      ensures history == old(history) + [p]
      ensures stdout == old(stdout) + PayloadText(p.shown) + "\n"
    {
      stdout := stdout + PayloadText(p.shown) + "\n";
      history := history + [p];
      assert history[..|history| - 1] == old(history);
    }

    /** A new temporary file: its name was not in use. */
    method SaveFull(path: string, content: string)
      requires Valid()
      requires path !in files
      modifies this`files
      ensures Valid()
      ensures files == old(files)[path := content]
    {
      files := files[path := content];
    }

    method WriteJSONReduced(p: Payload, truncateAt: int, temp: Option<string>)
      requires Valid()
      requires HasQueries(p)
      requires temp.Some? ==> temp.value !in files
      modifies this
      ensures Valid()
      ensures history == old(history) + [Outcome(p, truncateAt, temp)]
      ensures stdout == old(stdout) + PayloadText(Outcome(p, truncateAt, temp).shown) + "\n"
      ensures files == match Outcome(p, truncateAt, temp).savedAt
                       case None => old(files)
                       case Some(path) => old(files)[path := PayloadText(p)]
      ensures notes == old(notes) + if truncateAt <= 0 || PayloadBytes(p) <= truncateAt then []
                                    else if temp.None? then [SaveFailed]
                                    else [ResponseTruncated(PayloadBytes(p), temp.value)]
    {
      var data := PayloadText(p);
      if truncateAt <= 0 || ByteLen(data) <= truncateAt {
        Print(Printed(p, p, None));
        return;
      }
      match temp
      case None =>
        notes := notes + [SaveFailed];
        Print(Printed(p, p, None));
      case Some(path) =>
        SaveFull(path, data);
        var saved := Saved(ByteLen(data), path);
        var reduced := Reduce(p, truncateAt, saved);
        ReducedFaithful(p, truncateAt, saved);
        Print(Printed(p, reduced, Some(path)));
        notes := notes + [ResponseTruncated(ByteLen(data), path)];
    }
  }

  /** The payload carries at least one result of a query that did not fail. */
  ghost predicate HasResults(p: Payload) {
    match p
    case Single(output) => output.results.Len() > 0
    case Multi(outputs) =>
      exists i :: 0 <= i < |outputs.searches| &&
                  outputs.searches[i].error == "" && outputs.searches[i].results.Len() > 0
  }

  /** The payload as the command builds it: nothing truncated yet. */
  ghost predicate Untruncated(p: Payload) {
    match p
    case Single(output) => output.truncation.None?
    case Multi(outputs) => forall i :: 0 <= i < |outputs.searches| ==> outputs.searches[i].truncation.None?
  }

  ghost predicate PayloadShowsLess(full: Payload, shown: Payload) {
    match (full, shown)
    case (Single(f), Single(s)) => ShowsLess(f.results, s.results)
    case (Multi(f), Multi(s)) => SomeShowsLess(f, s)
    case _ => false
  }

  lemma ReducedShowsLess(p: Payload, limit: nat, saved: Saved)
    requires HasQueries(p) && Untruncated(p) && HasResults(p)
    requires limit < PayloadBytes(p)
    ensures PayloadShowsLess(p, Reduced(p, limit, saved))
  {
    match p
    case Single(output) =>
      TextBytes(output, MultiOutput([]));
      SingleQueryShowsLess(output, limit, saved);
    case Multi(outputs) =>
      TextBytes(SearchOutput(NilSlice, None), outputs);
      var some :| 0 <= some < |outputs.searches| &&
                  outputs.searches[some].error == "" && outputs.searches[some].results.Len() > 0;
      MultiQueryShowsLess(outputs, limit, saved, some);
  }

  /**
   A document is shown reduced exactly when it is over the limit and could be saved, and
   then it shows strictly less than the whole.
   */
  lemma ReducedIffOverLimit(p: Payload, truncateAt: int, temp: Option<string>)
    requires HasQueries(p) && Untruncated(p) && HasResults(p)
    ensures var printed := Outcome(p, truncateAt, temp);
            && (printed.shown != p <==> 0 < truncateAt < PayloadBytes(p) && temp.Some?)
            && (printed.shown != p <==> PayloadShowsLess(p, printed.shown))
  {
    if 0 < truncateAt < PayloadBytes(p) && temp.Some? {
      var saved := Saved(PayloadBytes(p), temp.value);
      ReducedShowsLess(p, truncateAt, saved);
    }
  }

  /** What the writer prints when it reduces: a reduction against the limit it was given. */
  lemma PrintedIsReduction(p: Payload, truncateAt: int, temp: Option<string>)
    requires HasQueries(p)
    ensures var printed := Outcome(p, truncateAt, temp);
            if 0 < truncateAt < PayloadBytes(p) && temp.Some? then
              var saved := Saved(PayloadBytes(p), temp.value);
              && printed.savedAt == temp
              && match (p, printed.shown)
                 case (Single(f), Single(s)) => IsReduction(f, truncateAt, saved, s)
                 case (Multi(f), Multi(s)) =>
                   exists shares :: AreEvenShares(f, truncateAt, saved, shares) &&
                                    IsMultiReduction(f, truncateAt, saved, shares, s)
                 case _ => false
            else printed.savedAt.None? && printed.shown == p
  {
    hide PayloadBytes, IsReduction, IsMultiReduction, AreEvenShares, ReducedSearch, ReducedMulti, EvenShares;
    if 0 < truncateAt < PayloadBytes(p) && temp.Some? {
      var saved := Saved(PayloadBytes(p), temp.value);
      match p
      case Single(f) => SingleQueryOutcome(f, truncateAt, saved);
      case Multi(f) =>
        var shares := EvenShares(f, truncateAt, saved);
        EvenSharesMeaning(f, truncateAt, saved, shares);
        MultiQueryOutcome(f, truncateAt, saved, shares);
    }
  }

  /**
   Printed bytes exceed a positive limit in two cases only: nothing could be saved, or
   the reducer is down to showing no result at all.
   */
  lemma OverLimitOnlyAtTheFloor(p: Payload, truncateAt: int, temp: Option<string>)
    requires HasQueries(p)
    requires 0 < truncateAt < PayloadBytes(Outcome(p, truncateAt, temp).shown)
    ensures temp.None? ||
            var saved := Saved(PayloadBytes(p), temp.value);
            Outcome(p, truncateAt, temp).shown ==
            match p
            case Single(output) => Single(Envelope(output, 0, saved))
            case Multi(outputs) => Multi(CapAt(outputs, 0, saved))
  {
    if temp.Some? {
      var saved := Saved(PayloadBytes(p), temp.value);
      match p
      case Single(output) =>
        TextBytes(ReducedSearch(output, truncateAt, saved), MultiOutput([]));
        SingleQueryOutcome(output, truncateAt, saved);
      case Multi(outputs) =>
        TextBytes(SearchOutput(NilSlice, None), ReducedMulti(outputs, truncateAt, saved));
        EvenSharesMeaning(outputs, truncateAt, saved, EvenShares(outputs, truncateAt, saved));
        MultiQueryOutcome(outputs, truncateAt, saved, EvenShares(outputs, truncateAt, saved));
    }
  }
}
