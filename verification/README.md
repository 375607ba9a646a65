# Verification models of the Onyx command line and back-end scripts

This project models the parts of the repository that hold real algorithms, and proves
what they promise:

- **`cli/cmd/search.go`**: `onyx-cli search` prints JSON that fits a byte limit. A binary
  search over renderings finds how much fits, a reducer for one query and one for several
  queries decide what to drop, and a writer saves the whole response before it prints a
  reduced one. Sizes are not assumed: `JsonText` models the indented text that Go's
  `json.MarshalIndent` produces (sections 4 to 7 of RFC 8259, with Go's extra escapes) and
  its length in UTF-8, and every monotonicity claim is proved from it. `JsonReading` and
  `SearchReading` prove that this text determines the payload, so that a saved file is a
  full copy, and read strings and members back as a consumer does. `SearchCorners` holds two corner cases with their exact conditions.
- **`backend/scripts/run_enterpriserag_bench_questions.py`**: concurrent tasks that share a
  semaphore, two locks, counters and a result file, modelled as a step relation
  (`QuestionRunner`, `QuestionInvariant`, `QuestionSchedules`), with the retry policy
  (`QuestionRetries`), resuming
  (`QuestionResume`, `QuestionRuns`), and the sequential request and citation helpers
  (`QuestionRequests`).
- **`backend/scripts/update_recommended_models.py`**: the generator of recommended models,
  which promises no change on a re-run (`RecommendedModels`, `RecommendedBuild`,
  `RecommendedNames`, `RecommendedRerun`), with what it produces described next to its rules
  and its catalog (`RecommendedMeaning`).
- **`backend/scripts/transform_openapi_for_docs.py`**: the worklist over schema references
  and the removals from the public document (`OpenApiDocs`, `OpenApiTransform`), and the
  document next to its input (`OpenApiOutput`).
- **`backend/alembic/`**: tenant ranges (`TenantRanges`), batches and their retry
  (`MigrationBatches`), the worker pool with its monitor thread (`MigrationMonitor`), the
  run that puts these together (`MigrationRun`), and the SCIM username backfill
  (`ScimBackfill`).
- **`backend/scripts/get_wikidocs.py`**: the rotating zip writer (`WikiZips`).

`Wrappers`, `Arithmetic`, `Sequences` and `Text` hold what these share. Strings are
sequences of Unicode scalar values.

Where the source is a loop or an object that changes, the model is a method or a class, and
its contract ties the result to a specification function; the lemmas say what that function
means. The concurrent parts are step relations, and their theorems hold for every schedule.

Three places where the code does something else than its comments or its caller expect,
each stated exactly:

- `content_truncated` can be set on a content that is whole, because `true` prints one byte
  shorter than `false`: exactly when keeping the first result misses the limit by one byte
  (`SearchTruncation.FlagOnWholeContent`). Over-limit responses with two results reach this,
  those with one never do (`SearchCorners`).
- A re-run of the generator on its own file is not always without a change: an empty display
  name is not written, so it never equals what is read back. The condition is
  `RecommendedNames.NoEmptyNames`, a check of rules and catalog, and an if and only if in
  `RecommendedRerun.RerunThroughFile`, with a concrete case in
  `RecommendedRerun.EmptyNameNeverSettles`.
- The documentation of tenant ranges calls them 1-based and inclusive; the code's are 0-based
  and half-open (`TenantRanges.RangeMeaning`). They agree exactly for the arguments of
  `TenantRanges.RangesAgree` (`TenantRanges.DocumentedIffAgree`), and not for a range from 1
  to 1 (`TenantRanges.DocumentedRangeIsNotTheCodes`).

Two promises of resuming hold on a condition, which is exact in both cases:

- Answers survive the next run, wherever it is stopped, exactly when the file does not end in
  an answer without a line end, a check of the file alone (`QuestionRuns.SafeToResumeIff`;
  over many runs `QuestionRuns.KeepsIff`). Two stopped runs that lose both their answers are
  `QuestionRuns.TwoAnswersLost`.
- Another run can start exactly when no run was cut inside a character of several bytes
  (`QuestionRuns.ResumableIff`), because the loader then meets bytes that are not UTF-8
  (`QuestionRuns.CutInsideCharacterEndsAll`).

## Model

| member | source | states |
|---|---|---|
| JsonText.SizeIsByteLength | cli/cmd/search.go:133-138 | the size that all reductions are reasoned about is `len` of the text that MarshalIndent produces, for every JSON value and nesting depth |
| JsonText.EscapedBytesPrefix | cli/cmd/search.go:220-226 | cutting a string at a code point never makes its encoded form longer, escapes included |
| JsonText.ArrayPrefixNoLarger | cli/cmd/search.go:206-209 | dropping trailing elements never makes an indented array longer, the one-line empty array included |
| Text.Utf8Shape | cli/cmd/search.go:133-138 | the byte counts are those of the sequences of section 3 of RFC 3629: each first byte tells its length, and no other byte can be a first one |
| JsonReading.RenderUnique | cli/cmd/search.go:133-143 | two documents whose texts agree up to what can follow a value are the same value with the same rest: the indented text is uniquely readable |
| JsonReading.TextDeterminesValue | cli/cmd/search.go:133-143 | no two JSON values have the same text |
| JsonReading.EscapedReadsBack | cli/cmd/search.go:133-138 | a reader of strings as section 7 of RFC 8259 describes them, two-character and `\u` escapes included, reads every escaped string back |
| JsonReading.EscapedIsSafe | cli/cmd/search.go:133-138 | an escaped string has no control character, no `<`, `>` or `&`, and no U+2028 or U+2029 in it |
| JsonReading.LayoutExample | cli/cmd/search.go:133-138 | the indentation, spelled out: members on lines of their own, two spaces deeper each, commas and line ends where MarshalIndent puts them |
| SearchReading.PayloadTextDetermines | cli/cmd/search.go:22-64 | no two payloads print the same text: nil and empty result lists, absent and present errors, one query and several are all told apart |
| SearchReading.OutputReadsBack | cli/cmd/search.go:22-48 | a reader that looks members up by their JSON names finds every field of a response, its results and its truncation again |
| SearchReading.EntryReadsBack | cli/cmd/search.go:50-57 | so does one for an entry of several queries, where an empty error or an absent truncation has no member |
| SearchReading.SearchesReadBack | cli/cmd/search.go:59-64 | and for the list of entries, in argument order |
| SearchTruncation.LargestFit | cli/cmd/search.go:330-353 | for any renderings of non-decreasing length, the largest n that fits, or 0 if none from 1 on does, with its text, after at most floor(log2 maxN) + 2 renderings |
| SearchTruncation.HalvingsIsLogarithm | cli/cmd/search.go:326-353 | the bound on renderings is the integer logarithm plus one |
| SearchTruncation.ClampError | cli/cmd/search.go:109-124 | the in-band error string is the clamped message and its JSON form has at most 2000 bytes |
| SearchTruncation.ClampedFits | cli/cmd/search.go:109-124 | the clamped message always fits, is the message itself exactly when that fits, and otherwise keeps its longest prefix that fits together with the suffix |
| SearchTruncation.ClampedIdempotent | cli/cmd/search.go:109-124 | clamping twice is clamping once |
| SearchTruncation.EnvelopeMonotone | cli/cmd/search.go:189-209 | keeping more results never renders shorter, counters and the empty list included, so that the binary search applies |
| SearchTruncation.TrimmedEnvelopeMonotone | cli/cmd/search.go:220-226 | keeping more of the first content never renders shorter |
| SearchTruncation.EnvelopeMeaning | cli/cmd/search.go:189-209 | a rendering of n results shows the first n whole; its truncation says `total_results` of the whole response, `shown_results` n, the full size, the path and the hint, and not that content was cut |
| SearchTruncation.TrimmedEnvelopeMeaning | cli/cmd/search.go:219-238 | a rendering of k code points shows the first result alone, its other fields kept and its content cut to k; the truncation says so, with the same exact counts |
| SearchTruncation.TruncateSearchOutput | cli/cmd/search.go:186-239 | the reducer that bisects returns the specified reduction, the one that scans from the top |
| SearchTruncation.SingleQueryOutcome | cli/cmd/search.go:183-239 | the longest fitting prefix of results; else, if the first result without content fits, its longest fitting content; else no result; and the output fits exactly when the envelope without results does |
| SearchTruncation.ReductionUnique | cli/cmd/search.go:183-239 | these outcomes admit one output only |
| SearchTruncation.SingleQueryFaithful | cli/cmd/search.go:186-239 | what is shown is a prefix of the results, or the first one with its content cut at a code point; the truncation object has the length of the full list as total, that of the shown list as shown, the full size, the path and the hint, and flags content exactly in the second form |
| SearchTruncation.SingleQueryShowsLess | cli/cmd/search.go:186-239 | an over-limit response with any result is shown strictly reduced, by a result or by content of the only one |
| SearchTruncation.FlagSavesOneByte | cli/cmd/search.go:189-226 | flagging a whole content as truncated renders one byte shorter than not flagging it |
| SearchTruncation.FlagOnWholeContent | cli/cmd/search.go:206-238 | the flag is set on a whole content if and only if keeping the first result misses the limit by exactly one byte |
| SearchCorners.OneResultNeverFlaggedWhole | cli/cmd/search.go:206-238 | an over-limit response with one result is never flagged on a whole content |
| SearchCorners.FlaggedWholePrinted | cli/cmd/search.go:129-172 | the writer does print it: for every first result and every path there are a response of two results and a limit it exceeds for which the printed document has the flag on a whole content |
| SearchTruncation.RenderCapped | cli/cmd/search.go:254-276 | one entry for each query in order, failed and short ones unchanged, all others capped with their counts, and the text of it |
| SearchTruncation.CapMeaning | cli/cmd/search.go:254-276 | entry by entry: a failed one or one with at most k results is unchanged; any other keeps its query and its first k results, with its own counts, the full size, the path and the hint |
| SearchTruncation.RenderEvenShares | cli/cmd/search.go:293-314 | the loop that reduces each entry against the limit divided by the number of queries |
| SearchTruncation.EvenSharesMeaning | cli/cmd/search.go:291-314 | a payload is the even-share one if and only if it has an entry for each query in order, where a failed entry, or one whose results alone take at most the limit divided by the number of queries, is unchanged, and any other is the single-query reduction of its results against that share |
| SearchTruncation.ShareKeptIff | cli/cmd/search.go:296-305 | an unfailed entry is left as it is if and only if its results alone fit the share |
| SearchTruncation.TruncateMultiSearchOutput | cli/cmd/search.go:247-324 | the loops that build and try candidates return the specified reduction, for one query or more |
| SearchTruncation.MultiQueryOutcome | cli/cmd/search.go:241-324 | for the payload that meets the description of even shares: the largest uniform cap that fits although sizes are not monotone; else those shares if they fit; else the floor; the limit is exceeded exactly when the shares and all caps exceed it |
| SearchTruncation.MultiQueryFaithful | cli/cmd/search.go:241-324 | one entry per query in argument order, failed entries unchanged, and every entry that shows less has the length of its full list as total, that of the shown list as shown, the full size, the path and the hint |
| SearchTruncation.MultiQueryShowsLess | cli/cmd/search.go:241-324 | an over-limit payload with a result of any query that did not fail shows strictly less of some entry |
| SearchCorners.CapSizeNotMonotone | cli/cmd/search.go:278-281 | taking the last result from the only entry that has so many makes the render of the whole payload longer if and only if that result takes less room than the truncation member that then describes the entry |
| SearchCorners.ShortResultRendersShorter | cli/cmd/search.go:278-281 | so the size is not monotone in the cap for any path: showing one result of up to 160 bytes of text renders shorter than showing none |
| SearchWriter.Reduce | cli/cmd/search.go:167-179 | both kinds of payload are reduced against the limit they exceed |
| SearchWriter.ReducedFaithful | cli/cmd/search.go:167-324 | every omission in a reduced payload is described, with one query or several |
| SearchWriter.PrintedIsReduction | cli/cmd/search.go:167-179 | what is printed for an over-limit payload is the described reduction of one response, or that of several against the limit |
| SearchWriter.Console.SaveFull | cli/internal/overflow/writer.go:124-139 | the content is under a new name, and earlier files stay |
| SearchWriter.Console.WriteJSONReduced | cli/cmd/search.go:126-165 | over any run of the writer, each printed document was complete or was saved whole before its reduced form was printed; the exact text, file and note of each call |
| SearchWriter.FullTextDetermines | cli/cmd/search.go:126-165 | what was printed or saved leaves no doubt about the payload: equal texts come from equal payloads |
| SearchWriter.ReducedIffOverLimit | cli/cmd/search.go:133-162 | a payload with results is shown reduced exactly when it exceeds a positive limit and could be saved, and then shows strictly less |
| SearchWriter.OverLimitOnlyAtTheFloor | cli/cmd/search.go:139-162 | printed bytes exceed the limit only when nothing could be saved or no result is shown at all |
| QuestionSchedules.StepKeepsInv | backend/scripts/run_enterpriserag_bench_questions.py:534-641 | whichever task moves and however its request ends: each lock has exactly the holder inside its section, permits and requests in flight add up, counters count tasks, file and failed list hold each task once, only the write lock's holder leaves a line unfinished |
| QuestionSchedules.RunKeepsInv | backend/scripts/run_enterpriserag_bench_questions.py:486-641 | all of that in every state of every run |
| QuestionSchedules.ReachableStates | backend/scripts/run_enterpriserag_bench_questions.py:486-641 | whenever the progress lock is free, completed is successful plus failed; at most `parallelism` requests are in flight; every task counted as a success has its record on a line that is ended; the file is whole lines whenever the write lock is free |
| QuestionSchedules.FinalStates | backend/scripts/run_enterpriserag_bench_questions.py:486-672 | at the end every question is on exactly one of file and failed list, once, on a line of its own; the counters say so; all permits are back |
| QuestionSchedules.SomeTaskCanMove | backend/scripts/run_enterpriserag_bench_questions.py:534-641 | no deadlock: until all tasks are done one of them can move |
| QuestionSchedules.EveryRunCompletes | backend/scripts/run_enterpriserag_bench_questions.py:486-641 | every run has at most 22 steps a question, and it is stuck exactly when all questions are done |
| QuestionRetries.RunKeepsHistories | backend/scripts/run_enterpriserag_bench_questions.py:542-641 | in every state each task's point and each failed entry agree with the outcomes its requests had |
| QuestionRetries.RetryPolicy | backend/scripts/run_enterpriserag_bench_questions.py:542-641 | a finished run answered exactly the questions that timed out fewer than three times and then answered; every other is on the failed list with the error that ended it; one to three requests each |
| QuestionRetries.StuckIsTimeouts | backend/scripts/run_enterpriserag_bench_questions.py:567-587 | at the end the stuck counter is the number of requests that timed out |
| QuestionResume.LoadCompletedQuestionIds | backend/scripts/run_enterpriserag_bench_questions.py:128-146 | exactly the non-empty ids that some line of the result file carries, blank lines and lines that are no JSON skipped; it raises exactly when a line is not UTF-8 or is JSON but no object, with the error of such a line |
| QuestionResume.SelectQuestions | backend/scripts/run_enterpriserag_bench_questions.py:683-715 | what is left to ask is what was considered and not answered, in order; skipped and remaining add up; a bad cap or an unloadable file raises |
| QuestionResume.SkippedPlusRemaining | backend/scripts/run_enterpriserag_bench_questions.py:697-715 | the questions considered are split into skipped and remaining, by whether they were answered |
| QuestionResume.ConsideredMeaning | backend/scripts/run_enterpriserag_bench_questions.py:688-691 | a cap considers the first questions, as many as it says or all; a cap below one raises |
| QuestionResume.SplitInOrder | backend/scripts/run_enterpriserag_bench_questions.py:697-715 | what is left to ask is what was considered, those answered left out, in its order |
| QuestionRuns.RunAnswersOnce | backend/scripts/run_enterpriserag_bench_questions.py:486-715 | one run, stopped anywhere and on whatever file it can load, gives no question a second answer that can be read |
| QuestionRuns.ReadAfterRun | backend/scripts/run_enterpriserag_bench_questions.py:467-613 | the lines that the loader sees after a run, wherever it was stopped: the first record extends an unterminated line, each further one has its own |
| QuestionRuns.AnsweredAfterRun | backend/scripts/run_enterpriserag_bench_questions.py:467-613 | which questions are answered after a run: if it wrote anything, those on ended lines before it and all it wrote itself, but for its first record behind text without a line end |
| QuestionRuns.SurviveIff | backend/scripts/run_enterpriserag_bench_questions.py:467-613 | wherever a run is stopped, inside a record too, the answers it found are all still there if and only if it wrote nothing or did not start behind an answer without a line end |
| QuestionRuns.OwnAnswersIff | backend/scripts/run_enterpriserag_bench_questions.py:467-613 | all answers that a run wrote can be read if and only if it wrote none or began on a line of its own |
| QuestionRuns.CompletedRunAccounts | backend/scripts/run_enterpriserag_bench_questions.py:486-715 | after a completed run that began on a line of its own, each question considered is answered or on its failed list, never both |
| QuestionRuns.LoadableAfterRun | backend/scripts/run_enterpriserag_bench_questions.py:128-146 | the file can be loaded after a run if and only if the run was not cut inside a character |
| QuestionRuns.CutInsideCharacterEndsAll | backend/scripts/run_enterpriserag_bench_questions.py:128-146 | a concrete run, from no file, that is cut inside a character: the loader raises on what it leaves, and no further run can start |
| QuestionRuns.SafeToResumeIff | backend/scripts/run_enterpriserag_bench_questions.py:467-613 | a check of the file alone: whatever run comes next and wherever it is stopped, no answer is lost if and only if the file does not end in an answer without a line end |
| QuestionRuns.TwoAnswersLost | backend/scripts/run_enterpriserag_bench_questions.py:467-613 | two runs from no file, each stopped between a record and its line end: the first answer is there in between, and after the second run neither can be read |
| QuestionRuns.ResumeNeverRepeats | backend/scripts/run_enterpriserag_bench_questions.py:128-715 | over any sequence of runs, each completed or stopped anywhere, inside a record too, each id has at most one answer that can be read |
| QuestionRuns.ResumableIff | backend/scripts/run_enterpriserag_bench_questions.py:128-715 | over any sequence of runs, another run can start if and only if none was cut inside a character, and only the last one can have been |
| QuestionRuns.KeepsIff | backend/scripts/run_enterpriserag_bench_questions.py:128-715 | over any sequence of runs, no run loses an answer it found if and only if none writes behind an answer without a line end; the answered set then only grows |
| QuestionRuns.WholeRunsOnlyAdd | backend/scripts/run_enterpriserag_bench_questions.py:128-715 | runs that are completed, or stopped neither inside a record nor between a record and its line end, only add lines, and none of them meets such an answer |
| QuestionRequests.RequestJsonWithRetries | backend/scripts/run_enterpriserag_bench_questions.py:208-259 | the result is that of the first reply that is neither lost nor 429, 500, 502, 503 or 504, or of the fifth: a payload from parsed text below 400, a refusal with status and text from 400 on; the pauses before attempt k make up 2^(k-1) - 1 seconds |
| QuestionRequests.ValidMeaning | backend/scripts/run_enterpriserag_bench_questions.py:282-290 | the citations that count are the objects with a non-empty document id, each once for each time it is listed, in order |
| QuestionRequests.PrecedesMeaning | backend/scripts/run_enterpriserag_bench_questions.py:262-297 | smaller citation numbers come first, citations without one come behind those with a number below 2^63 - 1, and ties keep the order of the list |
| QuestionRequests.ExtractDocumentIds | backend/scripts/run_enterpriserag_bench_questions.py:262-297 | each document with a valid citation once, ordered by its first citation in the stable order of citation numbers |
| QuestionRequests.DocumentListUnique | backend/scripts/run_enterpriserag_bench_questions.py:262-297 | that description admits one list only |
| RecommendedModels.SelectionMeaning | backend/scripts/update_recommended_models.py:250-279 | a rule picks a catalog model that passes all filters, such that no other one that passes was created later, and none created at the same time has a smaller id; nothing when none passes |
| Text.AtMostMeaning | backend/scripts/update_recommended_models.py:278-279 | ids are compared as Python does: one is a prefix of the other, or the first difference has the smaller code point |
| RecommendedModels.CandidateIsEligible | backend/scripts/update_recommended_models.py:250-275 | to pass is to have the vendor prefix, to match the rule and none of the exclusions, not to end in `:free` or cost nothing, not to have expired by today, and to give text where that is asked for |
| RecommendedMeaning.NativeNameMeaning | backend/scripts/update_recommended_models.py:282-291 | the name of a pick whose id has a slash: its override, its id, or its id behind the first slash with dots kept or turned into dashes |
| RecommendedMeaning.DisplayNameMeaning | backend/scripts/update_recommended_models.py:294-317 | its display name when the catalog name has a colon and blank: none, an override, or the catalog name, without what is in front of the first of them when that is the vendor |
| RecommendedMeaning.WithoutVendor | backend/scripts/update_recommended_models.py:282-306 | an id without a slash is kept whole, dots turned into dashes where asked for, and no vendor is taken off the catalog name |
| RecommendedMeaning.WithoutColon | backend/scripts/update_recommended_models.py:294-317 | a catalog name without a colon and blank is displayed as it is |
| RecommendedMeaning.PicksMeaning | backend/scripts/update_recommended_models.py:343-354 | one pick for each rule that finds a model and one warning, with its text, for each that does not, in rule order |
| RecommendedMeaning.PicksAreNewest | backend/scripts/update_recommended_models.py:343-354 | every pick of a section is the newest eligible model of one of its rules |
| RecommendedMeaning.DefaultMeaning | backend/scripts/update_recommended_models.py:343-354 | the default is the pinned one, else the name of the newest model of the first default rule that has one, else none |
| RecommendedMeaning.InheritedMeaning | backend/scripts/update_recommended_models.py:388-395 | a default that no pick has takes a non-empty override, else the display name shown before |
| RecommendedMeaning.PreviousMeaning | backend/scripts/update_recommended_models.py:390-395 | and that is the one in the view of the previous section |
| RecommendedMeaning.SectionMeaning | backend/scripts/update_recommended_models.py:334-403 | a section is built around its default, which is first, as picked or with the inherited name; without a default it is kept with a warning, or is an error when there is none to keep |
| RecommendedMeaning.FreshInOrder | backend/scripts/update_recommended_models.py:370-382 | its models come in the order of the picks they are |
| RecommendedModels.SelectionOrderFree | backend/scripts/update_recommended_models.py:262-279 | which model a rule picks does not depend on the order of the catalog |
| RecommendedModels.VisibleModels | backend/scripts/update_recommended_models.py:320-331 | the loop over the names computes the view, an absent section included |
| RecommendedModels.MergedIsView | backend/scripts/update_recommended_models.py:320-331 | the view lists each name once, at its first occurrence, with its first non-empty display name |
| RecommendedModels.ViewUnique | backend/scripts/update_recommended_models.py:320-331 | that description admits one view only |
| RecommendedBuild.SelectPicks | backend/scripts/update_recommended_models.py:343-356 | picks in rule order, a warning for each rule that matches nothing, the pinned default or the first pick of a default rule |
| RecommendedBuild.BuildSection | backend/scripts/update_recommended_models.py:334-403 | the loops and list edits compute the section, its warnings after earlier ones, or the error of a section without default and fallback |
| RecommendedBuild.FreshSectionShape | backend/scripts/update_recommended_models.py:374-403 | a freshly built section has distinct names, its default first, and the other picks in rule order |
| RecommendedBuild.FreshSectionsAlike | backend/scripts/update_recommended_models.py:334-418 | builds that inherit the same display name look the same to readers, with the same warnings |
| RecommendedRerun.BumpMeaning | backend/scripts/update_recommended_models.py:421-426 | a version can be bumped exactly when its last part is a numeral; a bump keeps all parts but the last, adds one to that without leading zeros, and never gives the same version |
| RecommendedRerun.BuildRecommendations | backend/scripts/update_recommended_models.py:429-466 | building section by section computes the outcome: the previous file untouched, or a new one, or the first error |
| RecommendedRerun.BumpOnlyOnChange | backend/scripts/update_recommended_models.py:450-466 | the previous file is returned exactly when no visible model changed, and the version moves exactly when the file does |
| RecommendedMeaning.ChangedMeaning | backend/scripts/update_recommended_models.py:406-466 | visible models changed when a section is in one file only, or is in both with another default or another view |
| RecommendedMeaning.OutcomeMeaning | backend/scripts/update_recommended_models.py:429-466 | on a change the file has the new sections, the bumped version and the stamp; else it is the previous file; errors are those of a section or of the bump |
| RecommendedRerun.CatalogOrderIrrelevant | backend/scripts/update_recommended_models.py:262-466 | file, warnings and errors are the same for every order of a catalog with distinct ids |
| RecommendedRerun.RerunUnchanged | backend/scripts/update_recommended_models.py:320-466 | a second run on the result of the first, same catalog, rules and day, returns it untouched, with pins, inherited names and kept sections |
| RecommendedRerun.Serialize | backend/scripts/update_recommended_models.py:469-487 | the loops build the file's value, display names that are empty or absent left out |
| RecommendedMeaning.FileExample | backend/scripts/update_recommended_models.py:469-487 | the member names of the file, spelled out on a file with a display name, an empty one and none |
| RecommendedRerun.LoadSerialized | backend/scripts/update_recommended_models.py:207-224 | loading what was written gives the file with empty display names as absent, and that writes the same again |
| RecommendedRerun.RoundTripIffNoEmptyName | backend/scripts/update_recommended_models.py:207-487 | loading what was written is the identity if and only if no display name is the empty string |
| RecommendedNames.ShownIffGiven | backend/scripts/update_recommended_models.py:282-317 | whether a freshly built section shows an empty name beside its default depends on rules and catalog alone: on the override or the catalog name, without its vendor, of each pick that is listed |
| RecommendedRerun.RerunThroughFile | backend/scripts/update_recommended_models.py:207-487 | a re-run on the file just written changes nothing if and only if no pick of a section is listed with an empty name beside its default, a check of rules and catalog; otherwise it moves the version, or fails exactly when that version cannot be bumped |
| RecommendedRerun.EveryRerunSettles | backend/scripts/update_recommended_models.py:207-487 | without an empty name beside a default, any number of re-runs writes the same file again |
| RecommendedRerun.EveryRerunBumps | backend/scripts/update_recommended_models.py:207-487 | with one, and a version that can be bumped, every one of any number of re-runs succeeds and raises the version by one |
| RecommendedRerun.EmptyNameNeverSettles | backend/scripts/update_recommended_models.py:309-317 | a concrete catalog and override whose file never settles: after n re-runs the version has grown by n |
| OpenApiDocs.CollectSchemaRefs | backend/scripts/transform_openapi_for_docs.py:21-32 | the recursion adds exactly the names that the value mentions: some path of members and list elements leads to an object with a `$ref` that starts with the schema prefix and whose last segment is the name |
| OpenApiDocs.RefsMeaning | backend/scripts/transform_openapi_for_docs.py:21-32 | the specification of the recursion, a union over the parts of a value, is that relation of paths |
| OpenApiDocs.GetAllReferencedSchemas | backend/scripts/transform_openapi_for_docs.py:35-55 | the worklist ends, cycles and dangling names included, with the least set that contains the initial names and every name that an existing schema of the set mentions |
| OpenApiDocs.ClosureUnique | backend/scripts/transform_openapi_for_docs.py:35-55 | there is one such set only |
| OpenApiTransform.PruneAddsNoRefs | backend/scripts/transform_openapi_for_docs.py:58-86 | pruning a schema never adds a reference to it |
| OpenApiTransform.PrunedIsClean | backend/scripts/transform_openapi_for_docs.py:58-86 | afterwards no internal name is left at any position the recursion visits |
| OpenApiOutput.PrunedSchemaMembers | backend/scripts/transform_openapi_for_docs.py:58-86 | member by member: properties and required names lose the internal ones, an emptied list of required names goes, combinators, items and additional properties are pruned in turn, and all else stays |
| OpenApiTransform.PruneUnchangedIffClean | backend/scripts/transform_openapi_for_docs.py:58-86 | a schema is left as it is if and only if nothing visited in it is internal |
| OpenApiTransform.OutputOperationRefs | backend/scripts/transform_openapi_for_docs.py:89-147 | an operation of the output refers to nothing its original did not |
| OpenApiTransform.DocsSpec.RemoveInternalParameters | backend/scripts/transform_openapi_for_docs.py:89-105 | all operations and all kept schemas are pruned in place |
| OpenApiTransform.CollectOperations | backend/scripts/transform_openapi_for_docs.py:131-147 | of a path, the public operations in order and the references they bring |
| OpenApiOutput.PublicOperationsMeaning | backend/scripts/transform_openapi_for_docs.py:131-147 | of a path, exactly the operations whose tags list `public`, in order |
| OpenApiOutput.PublicPathsMeaning | backend/scripts/transform_openapi_for_docs.py:131-147 | of the document, exactly the paths with such an operation, in order |
| OpenApiOutput.PublicRefsMeaning | backend/scripts/transform_openapi_for_docs.py:131-147 | the names to start from are those that some public operation mentions |
| OpenApiOutput.KeptParameters | backend/scripts/transform_openapi_for_docs.py:93-102 | of a parameter list, all but those named `tenant_id` or `db_session` are kept, in order |
| OpenApiOutput.OutputOperationMembers | backend/scripts/transform_openapi_for_docs.py:89-147 | member by member: security becomes the bearer token, parameters lose the internal ones and go when none is left, all else stays |
| OpenApiTransform.TransformOpenApi | backend/scripts/transform_openapi_for_docs.py:108-160 | the document has the pruned public operations and exactly those existing schemas, pruned, that the closure of their references names |
| OpenApiOutput.DocumentIsPublicPart | backend/scripts/transform_openapi_for_docs.py:108-160 | the paths of the output are the public part of the input: the same paths and operations in order, each operation member by member as above |
| OpenApiTransform.OutputReferenceClosed | backend/scripts/transform_openapi_for_docs.py:108-160 | after all removals, a schema that an operation or a schema of the output mentions, at any depth and in lists too, is in the output if and only if the input had it |
| OpenApiTransform.OperationsClean | backend/scripts/transform_openapi_for_docs.py:89-105 | no operation of the output has an internal parameter or an empty parameter list |
| TenantRanges.PositionIsRank | backend/alembic/env.py:93-140 | a tenant's position in the sorted list is the number of tenants before it |
| TenantRanges.TenantsMeaning | backend/alembic/env.py:110-115 | the tenants of a list are its ids that start with `tenant_`, in order |
| TenantRanges.RangeMeaning | backend/alembic/env.py:93-140 | a range keeps a tenant exactly when its 0-based rank is at least the start and below the end, a negative end counting from the end of the list, and keeps every other schema |
| TenantRanges.DocumentedIffAgree | backend/alembic/env.py:93-140 | the result is the documented one, 1-based and inclusive, if and only if the arguments pass a check: with an end that is not negative, the start is absent, below 1, above the number of tenants or above the end; with a negative end, the range is empty |
| TenantRanges.DocumentedDiffersAt | backend/alembic/env.py:98-101 | with an end that is not negative, code and documentation differ on a tenant exactly when it is the first documented one, so on one tenant at most |
| TenantRanges.DocumentedRangeIsNotTheCodes | backend/alembic/env.py:98-101 | a concrete input: of one tenant the range 1 to 1 keeps none, although the documentation keeps it |
| TenantRanges.KeepOrder | backend/alembic/env.py:93-140 | the kept schemas stay in their original order |
| TenantRanges.AdjacentRangesSplit | backend/alembic/env.py:93-140 | two adjacent ranges split the range they cover: no tenant twice, none missed |
| TenantRanges.ShardRangeMeaning | backend/alembic/env.py:336-365 | without a pinned shard, each shard keeps exactly its own tenants whose rank among all shards' tenants is in the range |
| TenantRanges.ShardListMeaning | backend/alembic/env.py:346-365 | a shard keeps its list in order, filtered by the range over all tenants, or as it is without a range |
| TenantRanges.PinnedShardAlone | backend/alembic/env.py:341-365 | with a pinned shard the result is that of a run on this shard alone, so that a range counts its tenants only; an unknown shard has no tenants |
| TenantRanges.ShardsCoverRangeOnce | backend/alembic/env.py:336-365 | with disjoint shards each selected tenant is on exactly one shard's list, and the lists hold nothing else |
| MigrationBatches.ChunkSizes | backend/alembic/run_multitenant_migrations.py:126-130 | every chunk has at least one schema and at most the batch size, and all but the last have exactly that |
| MigrationBatches.BatchesPartition | backend/alembic/run_multitenant_migrations.py:126-130 | no batch is empty, over the size or across shards, and a shard's batches in order are its list |
| MigrationBatches.BatchesInNameOrder | backend/alembic/run_multitenant_migrations.py:126-130 | batches come in the order of the names of their shards |
| MigrationBatches.BatchesOnKnownShards | backend/alembic/run_multitenant_migrations.py:126-130 | no batch goes to a shard that was not given |
| MigrationBatches.MigrateSchemas | backend/alembic/env.py:302-333 | with continue every schema is attempted and nothing raised; without it the pass stops at the first failure and raises |
| MigrationBatches.RunAlembicForBatch | backend/alembic/run_multitenant_migrations.py:62-104 | success exactly when no schema fails the first pass; a failed batch is tried again as a whole, after the prefix that the first pass attempted |
| MigrationBatches.AllAttempted | backend/alembic/run_multitenant_migrations.py:62-104 | every schema of a batch is attempted even when another fails, and is migrated if the batch succeeds or the retry does not fail on it |
| MigrationMonitor.StepKeepsInv | backend/alembic/run_multitenant_migrations.py:140-195 | whatever worker or tick comes next, the map holds exactly the running batches and those whose worker raised, and no more workers are busy than allowed |
| MigrationMonitor.NeverReturns | backend/alembic/run_multitenant_migrations.py:179-191 | a batch that has left the map never comes back |
| MigrationMonitor.ReportIsExact | backend/alembic/run_multitenant_migrations.py:146-174 | at a tick the monitor names exactly the batches that were in the map the whole time since the tick before |
| MigrationMonitor.FirstTickSilent | backend/alembic/run_multitenant_migrations.py:142-163 | the first tick names none |
| MigrationMonitor.InMapMeansRunning | backend/alembic/run_multitenant_migrations.py:179-191 | being in the map means being worked on, except for a batch whose worker raised |
| MigrationMonitor.PoolDrains | backend/alembic/run_multitenant_migrations.py:176-197 | however ticks and workers interleave, workers take at most four steps a batch, and they come to rest exactly when every batch is decided |
| MigrationMonitor.CollectResults | backend/alembic/run_multitenant_migrations.py:193-227 | the result loop gives True exactly when every batch was decided as a success, in whatever order they finish |
| MigrationRun.RunBatches | backend/alembic/run_multitenant_migrations.py:179-191 | the outcomes that the theorems below speak of are those that running each batch gives |
| MigrationRun.AllSucceedIff | backend/alembic/run_multitenant_migrations.py:114-227 | over the batches of all shards and every interleaving of workers and monitor: every batch is decided as a success exactly when no worker raised and no schema of any shard fails its first pass |
| MigrationRun.EverySchemaAttempted | backend/alembic/run_multitenant_migrations.py:62-227 | each schema of each shard is in some batch, and in every batch whose worker did not raise it was attempted, and migrated unless batch and retry fail on it |
| MigrationRun.RunMigrationsParallel | backend/alembic/run_multitenant_migrations.py:114-227 | the run returns True exactly when no worker raised and no schema of any shard fails its first pass, and then every schema of every shard was migrated |
| ScimBackfill.MappingTable.NullDuplicates | backend/alembic/versions/28bb08137807_backfill_scim_username_and_add_unique_.py:32-49 | exactly the rows whose name a row with a smaller id holds without regard to case lose it, and nothing else changes |
| ScimBackfill.NulledMeaning | backend/alembic/versions/28bb08137807_backfill_scim_username_and_add_unique_.py:32-49 | the specification of that update, row by row |
| ScimBackfill.MappingTable.SeedFromEmail | backend/alembic/versions/28bb08137807_backfill_scim_username_and_add_unique_.py:51-67 | exactly the rows without a name whose email no row holds get it, and nothing else changes |
| ScimBackfill.SeededMeaning | backend/alembic/versions/28bb08137807_backfill_scim_username_and_add_unique_.py:51-67 | the specification of that update, row by row |
| ScimBackfill.MappingTable.Upgrade | backend/alembic/versions/28bb08137807_backfill_scim_username_and_add_unique_.py:32-74 | both updates leave the table one on which the unique index can be created |
| ScimBackfill.UpgradeIsUnique | backend/alembic/versions/28bb08137807_backfill_scim_username_and_add_unique_.py:32-74 | afterwards no two names agree without regard to case |
| ScimBackfill.OldestKeepsName | backend/alembic/versions/28bb08137807_backfill_scim_username_and_add_unique_.py:32-67 | a row with a name keeps it when no row with a smaller id holds the same without regard to case; rows keep their identity, and a name is only kept, dropped or set to the user's email |
| ScimBackfill.NullOnlyWhenTaken | backend/alembic/versions/28bb08137807_backfill_scim_username_and_add_unique_.py:32-67 | a row that needs a name ends without one if and only if another row ends up holding its user's email |
| ScimBackfill.UpgradeIdempotent | backend/alembic/versions/28bb08137807_backfill_scim_username_and_add_unique_.py:32-67 | a second run of the two updates changes nothing |
| WikiZips.SanitizeFilename | backend/scripts/get_wikidocs.py:19-47 | any title gives a name of 1 to 200 letters, digits, underscores and hyphens |
| WikiZips.SanitizeMeaning | backend/scripts/get_wikidocs.py:33-47 | the name is the cleaned title, cut to its first 200 characters, or the fallback name when nothing is left |
| WikiZips.SpacesListed | backend/scripts/get_wikidocs.py:33-34 | what counts as whitespace, by code point: what `\s` matches in a Python string |
| WikiZips.FilteredMeaning | backend/scripts/get_wikidocs.py:36-37 | letters, digits, underscores and hyphens are kept, in order, and nothing else |
| WikiZips.CleanedWord | backend/scripts/get_wikidocs.py:33-37 | cleaning goes word by word: allowed characters are kept in order, and each run of whitespace becomes one underscore |
| WikiZips.SanitizeKeepsStems | backend/scripts/get_wikidocs.py:33-47 | a clean name is left alone, so sanitizing twice is sanitizing once |
| WikiZips.SplitOfSanitized | backend/scripts/get_wikidocs.py:120-125 | splitting such a name with its extension gives both back |
| WikiZips.CandidatesDiffer | backend/scripts/get_wikidocs.py:120-125 | the numbered names tried for one page are pairwise distinct |
| WikiZips.CandidateExamples | backend/scripts/get_wikidocs.py:114-125 | the first candidates spelled out: the name, then the name with `_1` behind its stem |
| WikiZips.TriesBounded | backend/scripts/get_wikidocs.py:120-125 | a zip cannot have more tried names in use than it has entries |
| WikiZips.FreeName | backend/scripts/get_wikidocs.py:114-125 | the renaming loop ends, with the first candidate that is not in use, within one try more than the zip has entries |
| WikiZips.StreamToZips | backend/scripts/get_wikidocs.py:83-137 | the zips hold the pages up to the limit, each once, in stream order, with title line and text, under the first free name; all but the last are full |
| WikiZips.TakenMeaning | backend/scripts/get_wikidocs.py:89-93 | the pages up to the limit are the first ones of the stream, as many as asked for or all |
| WikiZips.AllNamesDistinct | backend/scripts/get_wikidocs.py:114-129 | names within a zip are distinct |
| WikiZips.ZipsOfRun | backend/scripts/get_wikidocs.py:91-137 | the number of zips is the number of pages over the zip size, rounded up |

## Left out

`cli/cmd/search.go`

- Marshalling errors: encoding strings, integers and booleans cannot fail, so the error returns of the reducers and of `clampError` are not modelled.
- Invalid UTF-8: a Go string is modelled as a sequence of Unicode scalar values. That is what decoded JSON gives; for query strings from the command line and for error texts it is an assumption.
- `toSearchOutput`, request building, `--raw`, and running the queries: a payload is any value of the printed shapes.
- File-system behaviour: whether a temporary file can be made, and its name, are parameters; its name is assumed not to be in use.
- SearchTruncation.TruncateMultiSearchOutput: asks for at least one query; the command uses this form only with two or more, and the code divides by their number.
- The byte limit of a reducer is a natural number: the writer calls it with a positive limit only.

`backend/scripts/run_enterpriserag_bench_questions.py`

- The HTTP exchange itself, its durations, progress output and logging: a request's outcome and a reply are parameters.
- QuestionSchedules.StepKeepsInv: writes to the result file are assumed not to raise; lock bodies are split into single accesses, which allows more interleavings than the event loop does.
- The text of a line: `QuestionResume` models a line of the result file by the id it carries, or by why it carries none; limits of Python's JSON reader (nesting, digits of an integer) are not modelled. That a record can be cut inside a character, when it has one of several bytes, is up to the run. A record that was written but still in the file's buffer when the process died counts as not written.
- `read_json_response` is reduced to the status check and an uninterpreted parse of the text.

`backend/scripts/update_recommended_models.py`

- Regular expressions and glob patterns are uninterpreted predicates; dates are ordered integers; the catalog is fetched elsewhere.
- The JSON text of the generated file: reading and writing are modelled on its value. Loading rules and command-line options are not modelled.
- RecommendedRerun.BumpMeaning: digits are ASCII digits; Python's `isdigit` accepts others.

`backend/scripts/transform_openapi_for_docs.py`

- Aliasing inside the parsed document: schemas are pruned as values, while the document that holds them is updated in place.
- OpenApiTransform.PrunedIsClean: speaks of the positions that the recursion visits; it does not enter the values under `properties`.
- OpenApiOutput.DocumentIsPublicPart: asks for operations in which no member name is repeated, as parsed objects are; OpenApiOutput.OutputOperationMembers and OpenApiOutput.PrunedSchemaMembers ask the same of the object they describe.
- OpenApiTransform.TransformOpenApi: asks for a well-shaped input, in which `$ref` is a string, tags and parameters are arrays and schemas are objects; the source fails on others. Of the remaining top-level members only paths and schemas are modelled.

`backend/alembic`

- Engines, connections, option parsing and the Alembic revisions themselves: a schema's migration is an outcome, a parameter.
- TenantRanges.RangeMeaning: asks for distinct ids, which the listing of schemas provides.
- TenantRanges.ShardsCoverRangeOnce: a tenant that is on two shards while it is being copied is outside this claim.
- MigrationBatches.RunAlembicForBatch: a subprocess that ends before it reaches its schemas is not modelled.
- MigrationRun.EverySchemaAttempted: says nothing of a batch whose worker raised, because a subprocess that cannot be started, or whose output cannot be read, may have attempted anything.
- MigrationMonitor.ReportIsExact: says which batches are named, not the text; the pool may take queued batches in any order.
- ScimBackfill.MappingTable.Upgrade: assumes one mapping per user, unique emails without regard to case, and statements that read the table as it was when they began.
- All other revisions, among them the Drive id migration.

`backend/scripts/get_wikidocs.py`

- The dataset, compression, progress output, and the closing message, which fails for an empty stream because its counter is then unbound.
