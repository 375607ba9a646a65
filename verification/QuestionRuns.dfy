/**
 What runs of the question runner leave behind: the result file of
 backend/scripts/run_enterpriserag_bench_questions.py over any number of runs, each
 brought to its end or stopped on the way, each resuming from the file it finds.
 */
module QuestionRuns {
  import opened Wrappers
  import opened Sequences
  import opened QuestionRunner
  import opened QuestionInvariant
  import opened QuestionSchedules
  import opened QuestionResume

  // ----- The file as runs write it --------------------------------------

  /** The result file: its terminated lines, and how what follows the last line end reads. */
  datatype ResultFile = ResultFile(lines: seq<ResultLine>, tail: Option<ResultLine>)

  const EMPTY_FILE := ResultFile([], None)

  /** The lines as the loader sees them: the last one needs no line end. */
  function AsRead(f: ResultFile): seq<ResultLine> {
    match f.tail
    case None => f.lines
    case Some(line) => f.lines + [line]
  }

  /** Nothing but whitespace follows the last line end. */
  predicate IsClean(tail: Option<ResultLine>) {
    tail.None? || tail.value.Blank?
  }

  /**
   How an unterminated line reads once a record, or a part of one, is written behind it.
   A part of a character stays undecodable; anything else but whitespace makes it no JSON.
   */
  function Extended(tail: Option<ResultLine>, piece: ResultLine): ResultLine {
    if IsClean(tail) then piece
    else if tail.value.Undecodable? || piece.Undecodable? then Undecodable
    else Malformed
  }

  ghost predicate TasksWithin(file: seq<Chunk>, n: nat) {
    forall i :: 0 <= i < |file| && file[i].Record? ==> file[i].task < n
  }

  function Append(f: ResultFile, questions: seq<Question>, c: Chunk): ResultFile
    requires c.Record? ==> c.task < |questions|
  {
    match c
    case Record(t) => f.(tail := Some(Extended(f.tail, Answer(Some(questions[t].questionId)))))
    case Newline => ResultFile(f.lines + [if f.tail.None? then Blank else f.tail.value], None)
  }

  /** The file after the writes of a run, which opens it for appending. */
  function AppendAll(f: ResultFile, questions: seq<Question>, file: seq<Chunk>): ResultFile
    requires TasksWithin(file, |questions|)
  {
    if file == [] then f else Append(AppendAll(f, questions, file[..|file| - 1]), questions, file[|file| - 1])
  }

  /** The records of these tasks, each alone on a line. */
  function AnswerLines(questions: seq<Question>, written: seq<nat>): (lines: seq<ResultLine>)
    requires forall i :: 0 <= i < |written| ==> written[i] < |questions|
    ensures |lines| == |written|
  {
    seq(|written|, i requires 0 <= i < |written| => Answer(Some(questions[written[i]].questionId)))
  }

  /** The same behind an unterminated line, which the first of them extends. */
  function Behind(tail: Option<ResultLine>, added: seq<ResultLine>): (lines: seq<ResultLine>)
    ensures |lines| == |added|
  {
    if added == [] then [] else [Extended(tail, added[0])] + added[1..]
  }

  /** Whole lines, but for a last record that is not terminated. */
  predicate NearlyWhole(file: seq<Chunk>) {
    || WholeLines(file)
    || (file != [] && file[|file| - 1].Record? && WholeLines(file[..|file| - 1]))
  }

  lemma {:induction false} WrittenWithin(file: seq<Chunk>, n: nat)
    requires TasksWithin(file, n)
    ensures forall i :: 0 <= i < |Written(file)| ==> Written(file)[i] < n
  {
    if file == [] {
    } else {
      WrittenWithin(file[..|file| - 1], n);
    }
  }

  lemma {:induction false} WithinWritten(file: seq<Chunk>, n: nat)
    requires forall i :: 0 <= i < |Written(file)| ==> Written(file)[i] < n
    ensures TasksWithin(file, n)
  {
    if file == [] {
    } else {
      var last := |file| - 1;
      var before := Written(file[..last]);
      assert forall i :: 0 <= i < |before| ==> before[i] == Written(file)[i];
      WithinWritten(file[..last], n);
      if file[last].Record? {
        assert Written(file)[|before|] == file[last].task;
      }
    }
  }

  lemma OneMoreAnswer(questions: seq<Question>, written: seq<nat>, t: nat)
    requires t < |questions| && forall i :: 0 <= i < |written| ==> written[i] < |questions|
    ensures AnswerLines(questions, written + [t]) ==
            AnswerLines(questions, written) + [Answer(Some(questions[t].questionId))]
  {
  }

  lemma OneMoreBehind(tail: Option<ResultLine>, added: seq<ResultLine>, last: ResultLine)
    ensures Behind(tail, added + [last]) ==
            Behind(tail, added) + [if added == [] then Extended(tail, last) else last]
  {
    if added == [] {
      assert ([] + [last])[1..] == [];
    } else {
      assert (added + [last])[1..] == added[1..] + [last];
    }
  }

  /** Appending whole lines to f adds their answers behind its tail. */
  ghost predicate AppendedWhole(f: ResultFile, questions: seq<Question>, file: seq<Chunk>)
    requires TasksWithin(file, |questions|)
  {
    var g := AppendAll(f, questions, file);
    if file == [] then g == f
    else
      && (forall i :: 0 <= i < |Written(file)| ==> Written(file)[i] < |questions|)
      && Written(file) != []
      && g == ResultFile(f.lines + Behind(f.tail, AnswerLines(questions, Written(file))), None)
  }

  lemma ExtendsNothing(piece: ResultLine)
    ensures Extended(None, piece) == piece
  {
  }

  /** A further record on whole lines. */
  lemma AppendRecord(f: ResultFile, questions: seq<Question>, file: seq<Chunk>, t: nat)
    requires TasksWithin(file, |questions|) && t < |questions| && WholeLines(file)
    requires AppendedWhole(f, questions, file)
    ensures var g := AppendAll(f, questions, file + [Record(t)]);
            && TasksWithin(file + [Record(t)], |questions|)
            && g.tail.Some?
            && (forall i :: 0 <= i < |Written(file)| ==> Written(file)[i] < |questions|)
            && g.lines + [g.tail.value] ==
               f.lines + Behind(f.tail, AnswerLines(questions, Written(file) + [t]))
  {
    hide Extended;
    WrittenWithin(file, |questions|);
    var more := file + [Record(t)];
    assert more[..|more| - 1] == file;
    var added, last := AnswerLines(questions, Written(file)), Answer(Some(questions[t].questionId));
    OneMoreAnswer(questions, Written(file), t);
    OneMoreBehind(f.tail, added, last);
    ExtendsNothing(last);
  }

  lemma {:induction false} AppendWhole(f: ResultFile, questions: seq<Question>, file: seq<Chunk>)
    requires WholeLines(file) && TasksWithin(file, |questions|)
    ensures AppendedWhole(f, questions, file)
  {
    hide Extended, Behind, AnswerLines;
    if file == [] {
    } else {
      var n := |file| - 2;
      var before, record := file[..n], file[..n + 1];
      AppendWhole(f, questions, before);
      AppendRecord(f, questions, before, file[n].task);
      assert record == before + [file[n]] && record[..n] == before && file[..|file| - 1] == record;
      WrittenAppend(before, file[n]);
      WrittenAppend(record, file[n + 1]);
      assert file == record + [file[n + 1]];
    }
  }

  /** What the loader sees after these records were written. */
  ghost predicate ReadsAs(g: ResultFile, f: ResultFile, questions: seq<Question>, written: seq<nat>) {
    && (forall i :: 0 <= i < |written| ==> written[i] < |questions|)
    && AsRead(g) == if written == [] then AsRead(f) else f.lines + Behind(f.tail, AnswerLines(questions, written))
  }

  lemma ReadAfterWhole(f: ResultFile, questions: seq<Question>, file: seq<Chunk>)
    requires WholeLines(file) && TasksWithin(file, |questions|)
    ensures ReadsAs(AppendAll(f, questions, file), f, questions, Written(file))
    ensures AppendAll(f, questions, file).tail == if file == [] then f.tail else None
  {
    hide Behind, AnswerLines;
    AppendWhole(f, questions, file);
  }

  lemma ReadAfterRecord(f: ResultFile, questions: seq<Question>, file: seq<Chunk>)
    requires NearlyWhole(file) && !WholeLines(file) && TasksWithin(file, |questions|)
    ensures ReadsAs(AppendAll(f, questions, file), f, questions, Written(file))
    ensures AppendAll(f, questions, file).tail.Some?
  {
    hide Behind, AnswerLines, WholeLines, AppendedWhole, AppendAll, Written;
    var n := |file| - 1;
    AppendWhole(f, questions, file[..n]);
    AppendRecord(f, questions, file[..n], file[n].task);
    assert file == file[..n] + [file[n]];
    WrittenAppend(file[..n], file[n]);
  }

  // ----- One run --------------------------------------------------------

  /** Whether a run was stopped inside a record, and whether inside one of its characters. */
  datatype Cut = Uncut | BetweenCharacters | InsideCharacter

  /** A run over the questions considered, with the schedule that took it to where it ended. */
  datatype Run = Run(considered: seq<Question>, parallelism: nat, schedule: seq<Choice>, final: State, cut: Cut)

  /** What the run asks, on the file it finds. */
  function Asked(f: ResultFile, run: Run): seq<Question> {
    Remaining(run.considered, AnsweredIds(AsRead(f)))
  }

  /** The run starts from f, which it must be able to load, and ends or is stopped somewhere. */
  ghost predicate RunsFrom(f: ResultFile, run: Run) {
    && Loadable(AsRead(f))
    && run.parallelism >= 1
    && Runs(Init(|Asked(f, run)|, run.parallelism), run.schedule, run.final)
    && (!run.cut.Uncut? ==> exists i :: 0 <= i < |run.final.tasks| && run.final.tasks[i].WriteLocked?)
  }

  ghost predicate CompletedRun(f: ResultFile, run: Run) {
    RunsFrom(f, run) && AllDone(run.final)
  }

  /** The run put something into the file. */
  predicate Writes(run: Run) {
    Written(run.final.file) != [] || !run.cut.Uncut?
  }

  /** No task was between a record and its line end, or inside a record. */
  predicate LeftWhole(run: Run) {
    run.cut.Uncut? && forall i :: 0 <= i < |run.final.tasks| ==> !run.final.tasks[i].RecordWritten?
  }

  lemma LinesNearlyWhole(s: State)
    requires LinesConsistent(s) && LocksConsistent(s)
    ensures NearlyWhole(s.file)
    ensures WholeLines(s.file) <==> forall i :: 0 <= i < |s.tasks| ==> !s.tasks[i].RecordWritten?
    ensures (exists i :: 0 <= i < |s.tasks| && s.tasks[i].WriteLocked?) ==> WholeLines(s.file)
  {
    if i :| 0 <= i < |s.tasks| && (s.tasks[i].WriteLocked? || s.tasks[i].RecordWritten?) {
      assert HoldsWrite(s.tasks[i]);
      assert s.writeOwner == Some(i);
    }
  }

  lemma RunLines(f: ResultFile, run: Run)
    requires RunsFrom(f, run)
    ensures NearlyWhole(run.final.file)
    ensures TasksWithin(run.final.file, |Asked(f, run)|)
    ensures Distinct(Written(run.final.file))
    ensures run.cut.Uncut? ==> (WholeLines(run.final.file) <==> LeftWhole(run))
    ensures !run.cut.Uncut? ==> WholeLines(run.final.file)
  {
    hide Asked;
    var n := |Asked(f, run)|;
    var s := Init(n, run.parallelism);
    InitInv(n, run.parallelism);
    RunKeepsInv(n, run.parallelism, s, run.schedule, run.final);
    var written := Written(run.final.file);
    forall i | 0 <= i < |written| ensures written[i] < n {
      assert written[i] in Elements(written);
      assert written[i] in Where(run.final.tasks, OnFile);
    }
    WithinWritten(run.final.file, n);
    LinesNearlyWhole(run.final);
  }

  /** How the part of a record that made it into the file reads. */
  function PartOf(cut: Cut): ResultLine
    requires !cut.Uncut?
  {
    if cut.InsideCharacter? then Undecodable else Malformed
  }

  /** The result file after a run. */
  ghost function FileAfterRun(f: ResultFile, run: Run): ResultFile
    requires RunsFrom(f, run)
  {
    RunLines(f, run);
    var g := AppendAll(f, Asked(f, run), run.final.file);
    if run.cut.Uncut? then g else g.(tail := Some(Extended(g.tail, PartOf(run.cut))))
  }

  lemma CompletedLeftWhole(f: ResultFile, run: Run)
    requires RunsFrom(f, run)
    ensures AllDone(run.final) ==> LeftWhole(run)
  {
    if AllDone(run.final) {
      forall i | 0 <= i < |run.final.tasks|
        ensures !run.final.tasks[i].RecordWritten? && !run.final.tasks[i].WriteLocked?
      {
        assert Done(run.final.tasks[i]);
      }
    }
  }

  /** Whole lines without a record are no lines at all. */
  lemma WholeWrites(file: seq<Chunk>)
    requires WholeLines(file)
    ensures Written(file) == [] <==> file == []
  {
    if file != [] {
      var n := |file| - 2;
      assert file[..n + 1][..n] == file[..n] && file[..|file| - 1] == file[..n + 1];
      assert Written(file) == Written(file[..n + 1]);
    }
  }

  lemma NothingAppended(f: ResultFile, questions: seq<Question>)
    ensures AppendAll(f, questions, []) == f
  {
  }

  /** What a cut run leaves behind its last line end. */
  function CutLine(f: ResultFile, run: Run): seq<ResultLine> {
    if run.cut.Uncut? then []
    else [Extended(if Written(run.final.file) == [] then f.tail else None, PartOf(run.cut))]
  }

  lemma ReadAfterCut(f: ResultFile, run: Run)
    requires RunsFrom(f, run)
    requires TasksWithin(run.final.file, |Asked(f, run)|)
    requires var g := AppendAll(f, Asked(f, run), run.final.file);
             && ReadsAs(g, f, Asked(f, run), Written(run.final.file))
             && (!run.cut.Uncut? ==> g.tail == if Written(run.final.file) == [] then f.tail else None)
             && (!run.cut.Uncut? && Written(run.final.file) == [] ==> g == f)
    ensures AsRead(FileAfterRun(f, run)) ==
            if !Writes(run) then AsRead(f)
            else f.lines + Behind(f.tail, AnswerLines(Asked(f, run), Written(run.final.file))) + CutLine(f, run)
  {
    hide AnswerLines, AppendAll, WholeLines, Asked, Extended, Runs, Written;
    var added := AnswerLines(Asked(f, run), Written(run.final.file));
    assert f.lines + Behind(f.tail, added) + [] == f.lines + Behind(f.tail, added);
    assert f.lines + [] == f.lines;
  }

  /** The lines that the loader sees after a run. */
  lemma ReadAfterRun(f: ResultFile, run: Run)
    requires RunsFrom(f, run)
    ensures var questions, written := Asked(f, run), Written(run.final.file);
            && (forall i :: 0 <= i < |written| ==> written[i] < |questions|)
            && AsRead(FileAfterRun(f, run)) ==
               if !Writes(run) then AsRead(f)
               else f.lines + Behind(f.tail, AnswerLines(questions, written)) + CutLine(f, run)
    ensures f.tail.None? ==> (FileAfterRun(f, run).tail.None? <==> LeftWhole(run))
  {
    hide AnswerLines, AppendAll, WholeLines, Asked, Extended, Runs, Written;
    var questions, file := Asked(f, run), run.final.file;
    RunLines(f, run);
    if WholeLines(file) {
      ReadAfterWhole(f, questions, file);
      WholeWrites(file);
      NothingAppended(f, questions);
    } else {
      ReadAfterRecord(f, questions, file);
    }
    ReadAfterCut(f, run);
  }

  // ----- What a run adds ------------------------------------------------

  /** No question has two lines that can be read. */
  ghost predicate AnsweredOnce(lines: seq<ResultLine>) {
    forall i, j :: 0 <= i < j < |lines| && LineId(lines[i]).Some? ==> LineId(lines[i]) != LineId(lines[j])
  }

  ghost predicate UsableQuestions(questions: seq<Question>) {
    && DistinctQuestions(questions)
    && forall q :: q in questions ==> q.questionId != ""
  }

  lemma AddedOnce(lines: seq<ResultLine>, questions: seq<Question>, written: seq<nat>)
    requires AnsweredOnce(lines) && DistinctQuestions(questions) && Distinct(written)
    requires forall q :: q in questions ==> q.questionId !in AnsweredIds(lines) && q.questionId != ""
    requires forall i :: 0 <= i < |written| ==> written[i] < |questions|
    ensures AnsweredOnce(lines + AnswerLines(questions, written))
  {
    var added := AnswerLines(questions, written);
    var all := lines + added;
    forall i, j | 0 <= i < j < |all| && LineId(all[i]).Some?
      ensures LineId(all[i]) != LineId(all[j])
    {
      if j < |lines| {
      } else if i < |lines| {
        var q := questions[written[j - |lines|]];
        AnsweredMeans(lines, q.questionId);
        assert q in questions;
      } else {
        assert written[i - |lines|] != written[j - |lines|];
      }
    }
  }

  /** Making lines unreadable repeats no answer. */
  lemma UnreadableKeepsOnce(a: seq<ResultLine>, b: seq<ResultLine>)
    requires AnsweredOnce(a) && |a| <= |b|
    requires forall i :: 0 <= i < |b| ==> LineId(b[i]).None? || (i < |a| && b[i] == a[i])
    ensures AnsweredOnce(b)
  {
  }

  /** The ids that these tasks' records carry. */
  ghost function IdsOf(questions: seq<Question>, written: seq<nat>): set<string> {
    set t | t in written && t < |questions| :: questions[t].questionId
  }

  lemma AnswersCarry(questions: seq<Question>, written: seq<nat>)
    requires forall q :: q in questions ==> q.questionId != ""
    requires forall i :: 0 <= i < |written| ==> written[i] < |questions|
    ensures AnsweredIds(AnswerLines(questions, written)) == IdsOf(questions, written)
  {
    hide AnsweredIds;
    var lines := AnswerLines(questions, written);
    forall id ensures id in AnsweredIds(lines) <==> id in IdsOf(questions, written) {
      AnsweredMeans(lines, id);
      if i :| 0 <= i < |lines| && LineId(lines[i]) == Some(id) {
        assert written[i] in written;
      }
      if t :| t in written && t < |questions| && questions[t].questionId == id {
        var i :| 0 <= i < |written| && written[i] == t;
        assert questions[t] in questions;
        assert LineId(lines[i]) == Some(id);
      }
    }
  }

  /** The records that stay readable behind this tail: all, or all but the first. */
  function Readable(tail: Option<ResultLine>, written: seq<nat>): seq<nat> {
    if IsClean(tail) || written == [] then written else written[1..]
  }

  lemma NoIdFirst(line: ResultLine, rest: seq<ResultLine>)
    requires LineId(line).None?
    ensures AnsweredIds([line] + rest) == AnsweredIds(rest)
  {
    assert [line][..0] == [];
    AnsweredConcat([line], rest);
  }

  lemma NoIdLast(lines: seq<ResultLine>, line: ResultLine)
    requires LineId(line).None?
    ensures AnsweredIds(lines + [line]) == AnsweredIds(lines)
  {
    assert (lines + [line])[..|lines|] == lines;
  }

  lemma BehindCarry(tail: Option<ResultLine>, questions: seq<Question>, written: seq<nat>)
    requires forall q :: q in questions ==> q.questionId != ""
    requires forall i :: 0 <= i < |written| ==> written[i] < |questions|
    ensures AnsweredIds(Behind(tail, AnswerLines(questions, written))) == IdsOf(questions, Readable(tail, written))
  {
    hide AnsweredIds;
    var added := AnswerLines(questions, written);
    if written == [] || IsClean(tail) {
      AnswersCarry(questions, written);
      assert added != [] ==> [added[0]] + added[1..] == added;
      assert Behind(tail, added) == added;
    } else {
      assert added[1..] == AnswerLines(questions, written[1..]);
      AnswersCarry(questions, written[1..]);
      NoIdFirst(Extended(tail, added[0]), added[1..]);
    }
  }

  /** The file ends in an answer without a line end: a check of the file alone. */
  predicate TornAnswer(f: ResultFile) {
    f.tail.Some? && LineId(f.tail.value).Some?
  }

  /** The lines of f are among those read; so is its tail, once it is an answer. */
  lemma LinesWithin(f: ResultFile)
    ensures AnsweredIds(f.lines) <= AnsweredIds(AsRead(f))
    ensures AnsweredOnce(AsRead(f)) ==> AnsweredOnce(f.lines)
    ensures Loadable(AsRead(f)) ==> Loadable(f.lines)
    ensures !TornAnswer(f) ==> AnsweredIds(AsRead(f)) == AnsweredIds(f.lines)
  {
    assert AsRead(f)[..|f.lines|] == f.lines;
    forall i | 0 <= i < |f.lines| ensures AsRead(f)[i] == f.lines[i] {
    }
  }

  /** Which questions are answered after a run, wherever it was stopped. */
  lemma AnsweredAfterRun(f: ResultFile, run: Run)
    requires UsableQuestions(run.considered) && RunsFrom(f, run)
    ensures AnsweredIds(AsRead(FileAfterRun(f, run))) ==
            if !Writes(run) then AnsweredIds(AsRead(f))
            else AnsweredIds(f.lines) + IdsOf(Asked(f, run), Readable(f.tail, Written(run.final.file)))
  {
    hide Runs, FileAfterRun, AnsweredIds, Behind, AnswerLines, Written, Readable, IdsOf;
    ReadAfterRun(f, run);
    if Writes(run) {
      var questions, written := Asked(f, run), Written(run.final.file);
      SkippedPlusRemaining(run.considered, AnsweredIds(AsRead(f)));
      BehindCarry(f.tail, questions, written);
      var added := Behind(f.tail, AnswerLines(questions, written));
      AnsweredConcat(f.lines, added);
      if run.cut.Uncut? {
        assert f.lines + added + [] == f.lines + added;
      } else {
        NoIdLast(f.lines + added, CutLine(f, run)[0]);
      }
    }
  }

  /** Answers to questions without one repeat none, however many of them are unreadable. */
  lemma BehindOnce(
    lines: seq<ResultLine>, tail: Option<ResultLine>, questions: seq<Question>, written: seq<nat>,
    end: seq<ResultLine>)
    requires AnsweredOnce(lines) && DistinctQuestions(questions) && Distinct(written)
    requires forall q :: q in questions ==> q.questionId !in AnsweredIds(lines) && q.questionId != ""
    requires forall i :: 0 <= i < |written| ==> written[i] < |questions|
    requires forall i :: 0 <= i < |end| ==> LineId(end[i]).None?
    ensures AnsweredOnce(lines + Behind(tail, AnswerLines(questions, written)) + end)
  {
    hide AnsweredOnce, DistinctQuestions;
    var added := AnswerLines(questions, written);
    AddedOnce(lines, questions, written);
    UnreadableKeepsOnce(lines + added, lines + Behind(tail, added) + end);
  }

  /** Wherever a run is stopped, no question gets two answers that can be read. */
  lemma RunAnswersOnce(f: ResultFile, run: Run)
    requires AnsweredOnce(AsRead(f)) && UsableQuestions(run.considered) && RunsFrom(f, run)
    ensures AnsweredOnce(AsRead(FileAfterRun(f, run)))
  {
    hide AnsweredIds, Runs, FileAfterRun, AsRead, AnsweredOnce, Loadable, Behind, AnswerLines, Written, Remaining;
    RunLines(f, run);
    ReadAfterRun(f, run);
    SkippedPlusRemaining(run.considered, AnsweredIds(AsRead(f)));
    RemainingDistinct(run.considered, AnsweredIds(AsRead(f)));
    LinesWithin(f);
    BehindOnce(f.lines, f.tail, Asked(f, run), Written(run.final.file), CutLine(f, run));
  }

  lemma BehindLoads(tail: Option<ResultLine>, added: seq<ResultLine>)
    requires tail.Some? ==> !StopsLoader(tail.value)
    requires forall i :: 0 <= i < |added| ==> added[i].Answer?
    ensures Loadable(Behind(tail, added))
  {
  }

  lemma CutLineLoads(f: ResultFile, run: Run)
    requires f.tail.Some? ==> !StopsLoader(f.tail.value)
    ensures Loadable(CutLine(f, run)) <==> !run.cut.InsideCharacter?
  {
    if run.cut.InsideCharacter? {
      assert StopsLoader(CutLine(f, run)[0]);
    }
  }

  lemma PartsLoad(a: seq<ResultLine>, b: seq<ResultLine>, c: seq<ResultLine>)
    requires Loadable(a) && Loadable(b)
    ensures Loadable(a + b + c) <==> Loadable(c)
  {
    if Loadable(a + b + c) {
      forall i | 0 <= i < |c| ensures !StopsLoader(c[i]) {
        assert c[i] == (a + b + c)[|a| + |b| + i];
      }
    }
  }

  /** The file can be loaded again unless the run was cut inside a character. */
  lemma LoadableAfterRun(f: ResultFile, run: Run)
    requires RunsFrom(f, run)
    ensures Loadable(AsRead(FileAfterRun(f, run))) <==> !run.cut.InsideCharacter?
  {
    hide AnsweredIds, Runs, FileAfterRun, Written, Remaining;
    ReadAfterRun(f, run);
    LinesWithin(f);
    assert f.tail.Some? ==> AsRead(f)[|f.lines|] == f.tail.value;
    var added := AnswerLines(Asked(f, run), Written(run.final.file));
    BehindLoads(f.tail, added);
    if Writes(run) {
      PartsLoad(f.lines, Behind(f.tail, added), CutLine(f, run));
      CutLineLoads(f, run);
    }
  }

  // ----- Which answers survive ------------------------------------------

  lemma TornOnlyOnce(f: ResultFile)
    requires TornAnswer(f) && AnsweredOnce(AsRead(f))
    ensures f.tail.value.questionId.value in AnsweredIds(AsRead(f))
    ensures f.tail.value.questionId.value !in AnsweredIds(f.lines)
  {
    var id, n := f.tail.value.questionId.value, |f.lines|;
    assert AsRead(f)[n] == f.tail.value;
    AnsweredMeans(AsRead(f), id);
    AnsweredMeans(f.lines, id);
    forall i | 0 <= i < n ensures LineId(f.lines[i]) != Some(id) {
      assert AsRead(f)[i] == f.lines[i];
    }
  }

  lemma AskedAreOpen(f: ResultFile, run: Run, written: seq<nat>, id: string)
    requires id in IdsOf(Asked(f, run), written)
    ensures id !in AnsweredIds(AsRead(f))
  {
    SkippedPlusRemaining(run.considered, AnsweredIds(AsRead(f)));
    var t :| t in written && t < |Asked(f, run)| && Asked(f, run)[t].questionId == id;
    assert Asked(f, run)[t] in Asked(f, run);
  }

  /**
   Wherever a run is stopped, the answers it found are still there afterwards if and only
   if it wrote nothing or did not start behind an answer without a line end.
   */
  lemma SurviveIff(f: ResultFile, run: Run)
    requires AnsweredOnce(AsRead(f)) && UsableQuestions(run.considered) && RunsFrom(f, run)
    ensures AnsweredIds(AsRead(f)) <= AnsweredIds(AsRead(FileAfterRun(f, run))) <==>
            !(TornAnswer(f) && Writes(run))
  {
    hide AnsweredIds, Runs, FileAfterRun, AnsweredOnce, IdsOf, Asked;
    AnsweredAfterRun(f, run);
    LinesWithin(f);
    if TornAnswer(f) && Writes(run) {
      TornOnlyOnce(f);
      var id := f.tail.value.questionId.value;
      var written := Readable(f.tail, Written(run.final.file));
      if id in IdsOf(Asked(f, run), written) {
        AskedAreOpen(f, run, written, id);
      }
    }
  }

  lemma {:induction false} FirstOnlyOnce(questions: seq<Question>, written: seq<nat>)
    requires DistinctQuestions(questions) && Distinct(written) && written != [] && written[0] < |questions|
    ensures questions[written[0]].questionId in IdsOf(questions, written)
    ensures questions[written[0]].questionId !in IdsOf(questions, written[1..])
  {
    forall t | t in written[1..] && t < |questions|
      ensures questions[t].questionId != questions[written[0]].questionId
    {
      var j :| 0 <= j < |written[1..]| && written[1..][j] == t;
      assert written[j + 1] == t;
    }
  }

  lemma NoIds(questions: seq<Question>)
    ensures IdsOf(questions, []) == {}
  {
  }

  lemma AskedDistinct(f: ResultFile, run: Run)
    requires UsableQuestions(run.considered)
    ensures UsableQuestions(Asked(f, run))
  {
    SkippedPlusRemaining(run.considered, AnsweredIds(AsRead(f)));
    RemainingDistinct(run.considered, AnsweredIds(AsRead(f)));
  }

  /** The run's own answers are all readable if and only if it began on a line of its own. */
  lemma OwnAnswersIff(f: ResultFile, run: Run)
    requires AnsweredOnce(AsRead(f)) && UsableQuestions(run.considered) && RunsFrom(f, run)
    ensures IdsOf(Asked(f, run), Written(run.final.file)) <= AnsweredIds(AsRead(FileAfterRun(f, run))) <==>
            Written(run.final.file) == [] || IsClean(f.tail)
  {
    hide AnsweredIds, Runs, FileAfterRun, AnsweredOnce, IdsOf, Asked, Written;
    var questions, written := Asked(f, run), Written(run.final.file);
    AnsweredAfterRun(f, run);
    if written == [] {
      NoIds(questions);
    } else if !IsClean(f.tail) {
      RunLines(f, run);
      ReadAfterRun(f, run);
      AskedDistinct(f, run);
      LinesWithin(f);
      FirstOnlyOnce(questions, written);
      AskedAreOpen(f, run, written, questions[written[0]].questionId);
    }
  }

  // ----- Completed runs -------------------------------------------------

  /** The failed list of a run, as question ids. */
  ghost function FailedIds(f: ResultFile, run: Run): set<string> {
    IdsOf(Asked(f, run), FailedTasks(run.final.failed))
  }

  lemma IdIn(questions: seq<Question>, written: seq<nat>, t: nat)
    requires DistinctQuestions(questions) && t < |questions|
    ensures questions[t].questionId in IdsOf(questions, written) <==> t in written
  {
  }

  lemma TaskAccounted(questions: nat, run: Run, t: nat)
    requires Runs(Init(questions, run.parallelism), run.schedule, run.final) && AllDone(run.final)
    requires t < questions
    ensures t in Written(run.final.file) <==> t !in FailedTasks(run.final.failed)
  {
    FinalStates(questions, run.parallelism, run.schedule, run.final);
    assert t in Upto(questions);
    assert t in Written(run.final.file) <==> t in Elements(Written(run.final.file));
    assert t in FailedTasks(run.final.failed) <==> t in Elements(FailedTasks(run.final.failed));
  }

  /** A completed run answers each question it considered, or has it on its failed list. */
  lemma CompletedRunAccounts(f: ResultFile, run: Run, q: Question)
    requires IsClean(f.tail) && UsableQuestions(run.considered) && q in run.considered
    requires CompletedRun(f, run)
    ensures q.questionId in AnsweredIds(AsRead(FileAfterRun(f, run))) <==> q.questionId !in FailedIds(f, run)
  {
    hide AnsweredIds, Runs, FileAfterRun, Written;
    var answered, questions := AnsweredIds(AsRead(f)), Asked(f, run);
    AnsweredAfterRun(f, run);
    CompletedLeftWhole(f, run);
    LinesWithin(f);
    SkippedPlusRemaining(run.considered, answered);
    if q.questionId in answered {
      if q.questionId in FailedIds(f, run) {
        AskedAreOpen(f, run, FailedTasks(run.final.failed), q.questionId);
      }
    } else {
      assert q in questions;
      var t: nat :| t < |questions| && questions[t] == q;
      AskedDistinct(f, run);
      IdIn(questions, Written(run.final.file), t);
      IdIn(questions, FailedTasks(run.final.failed), t);
      TaskAccounted(|questions|, run, t);
      NoIds(questions);
    }
  }

  // ----- Any number of runs ---------------------------------------------

  /** Runs one after another, each resuming from the file the one before left. */
  ghost predicate RunsInTurn(f: ResultFile, runs: seq<Run>, after: ResultFile)
    decreases |runs|
  {
    if runs == [] then after == f
    else
      && UsableQuestions(runs[0].considered)
      && RunsFrom(f, runs[0])
      && RunsInTurn(FileAfterRun(f, runs[0]), runs[1..], after)
  }

  /** Over any sequence of runs, each stopped anywhere, no question gets two readable answers. */
  lemma {:induction false} ResumeNeverRepeats(f: ResultFile, runs: seq<Run>, after: ResultFile)
    requires AnsweredOnce(AsRead(f)) && RunsInTurn(f, runs, after)
    ensures AnsweredOnce(AsRead(after))
    decreases |runs|
  {
    if runs == [] {
    } else {
      RunAnswersOnce(f, runs[0]);
      ResumeNeverRepeats(FileAfterRun(f, runs[0]), runs[1..], after);
    }
  }

  /**
   Another run can start if and only if no run was cut inside a character; and only the
   last run can have been.
   */
  lemma {:induction false} ResumableIff(f: ResultFile, runs: seq<Run>, after: ResultFile)
    requires Loadable(AsRead(f)) && RunsInTurn(f, runs, after)
    ensures Loadable(AsRead(after)) <==> forall i :: 0 <= i < |runs| ==> !runs[i].cut.InsideCharacter?
    ensures forall i :: 0 <= i < |runs| - 1 ==> !runs[i].cut.InsideCharacter?
    decreases |runs|
  {
    if runs == [] {
    } else {
      LoadableAfterRun(f, runs[0]);
      if runs[1..] != [] {
        ResumableIff(FileAfterRun(f, runs[0]), runs[1..], after);
        forall i | 1 <= i < |runs| ensures runs[i] == runs[1..][i - 1] {
        }
      }
    }
  }

  /** Each run leaves all answers it found. */
  ghost predicate EachKeeps(f: ResultFile, runs: seq<Run>, after: ResultFile)
    requires RunsInTurn(f, runs, after)
    decreases |runs|
  {
    runs == [] ||
    (&& AnsweredIds(AsRead(f)) <= AnsweredIds(AsRead(FileAfterRun(f, runs[0])))
     && EachKeeps(FileAfterRun(f, runs[0]), runs[1..], after))
  }

  /** No run writes behind an answer without a line end. */
  ghost predicate NoneBehindTorn(f: ResultFile, runs: seq<Run>, after: ResultFile)
    requires RunsInTurn(f, runs, after)
    decreases |runs|
  {
    runs == [] ||
    (&& !(TornAnswer(f) && Writes(runs[0]))
     && NoneBehindTorn(FileAfterRun(f, runs[0]), runs[1..], after))
  }

  /** Over any sequence of runs: no run loses an answer iff none writes behind a torn one. */
  lemma {:induction false} KeepsIff(f: ResultFile, runs: seq<Run>, after: ResultFile)
    requires AnsweredOnce(AsRead(f)) && RunsInTurn(f, runs, after)
    ensures EachKeeps(f, runs, after) <==> NoneBehindTorn(f, runs, after)
    ensures NoneBehindTorn(f, runs, after) ==> AnsweredIds(AsRead(f)) <= AnsweredIds(AsRead(after))
    decreases |runs|
  {
    if runs == [] {
    } else {
      SurviveIff(f, runs[0]);
      RunAnswersOnce(f, runs[0]);
      KeepsIff(FileAfterRun(f, runs[0]), runs[1..], after);
    }
  }

  /** Runs that leave no line unfinished, completed ones among them, only add lines. */
  lemma {:induction false} WholeRunsOnlyAdd(f: ResultFile, runs: seq<Run>, after: ResultFile)
    requires RunsInTurn(f, runs, after) && f.tail.None?
    requires forall i :: 0 <= i < |runs| ==> LeftWhole(runs[i]) || AllDone(runs[i].final)
    ensures f.lines <= after.lines && after.tail.None?
    ensures NoneBehindTorn(f, runs, after)
    decreases |runs|
  {
    if runs == [] {
    } else {
      ReadAfterRun(f, runs[0]);
      CompletedLeftWhole(f, runs[0]);
      WholeRunsOnlyAdd(FileAfterRun(f, runs[0]), runs[1..], after);
    }
  }

  // ----- Stopped runs ---------------------------------------------------

  const ANSWERED := Choice(0, Answers)

  function Steps(n: nat): seq<Choice> {
    seq(n, _ => ANSWERED)
  }

  lemma NoStep(s: State)
    ensures Runs(s, Steps(0), s)
  {
  }

  lemma OneMoreStep(s: State, n: nat, t: State)
    requires |s.tasks| == 1 && !Blocked(s, 0) && Runs(Next(s, 0, Answers), Steps(n), t)
    ensures Runs(s, Steps(n + 1), t)
  {
    assert Steps(n + 1)[1..] == Steps(n);
  }

  /** A single task is inside its write section, and behind the record it wrote there. */
  const AT_WRITE := State([WriteLocked], 1, None, Some(0), 0, 0, 0, [], [])
  const AT_RECORD := State([RecordWritten], 1, None, Some(0), 0, 0, 0, [], [Record(0)])

  lemma ToWrite(two: State)
    requires two == Next(Next(Init(1, 1), 0, Answers), 0, Answers)
    ensures !Blocked(two, 0) && Next(two, 0, Answers) == AT_WRITE
    ensures !Blocked(AT_WRITE, 0) && Next(AT_WRITE, 0, Answers) == AT_RECORD
  {
    assert Init(1, 1).tasks == [AwaitSemaphore(1)];
  }

  /** Three steps lead there, and a fourth to the record. */
  lemma OneTaskSteps()
    ensures Runs(Init(1, 1), Steps(3), AT_WRITE)
    ensures Runs(Init(1, 1), Steps(4), AT_RECORD)
  {
    hide Runs;
    var s := Init(1, 1);
    assert s.tasks == [AwaitSemaphore(1)];
    var one := Next(s, 0, Answers);
    var two := Next(one, 0, Answers);
    ToWrite(two);
    NoStep(AT_WRITE);
    OneMoreStep(two, 0, AT_WRITE);
    OneMoreStep(one, 1, AT_WRITE);
    OneMoreStep(s, 2, AT_WRITE);
    NoStep(AT_RECORD);
    OneMoreStep(AT_WRITE, 0, AT_RECORD);
    OneMoreStep(two, 1, AT_RECORD);
    OneMoreStep(one, 2, AT_RECORD);
    OneMoreStep(s, 3, AT_RECORD);
  }

  lemma RemainingOne(q: Question, answered: set<string>)
    ensures Remaining([q], answered) == if q.questionId in answered then [] else [q]
  {
    var considered := [q];
    assert considered[..0] == [] && Remaining(considered[..0], answered) == [];
  }

  lemma OnlyAsked(f: ResultFile, run: Run, q: Question)
    requires run.considered == [q] && q.questionId != "" && q.questionId !in AnsweredIds(AsRead(f))
    ensures Asked(f, run) == [q] && UsableQuestions(run.considered)
  {
    hide AnsweredIds, AsRead;
    RemainingOne(q, AnsweredIds(AsRead(f)));
  }

  /** Any loadable file and open question: a run can be stopped between record and line end. */
  lemma StoppedAtRecord(f: ResultFile, q: Question) returns (run: Run)
    requires Loadable(AsRead(f)) && q.questionId != "" && q.questionId !in AnsweredIds(AsRead(f))
    ensures UsableQuestions(run.considered) && RunsFrom(f, run) && Writes(run)
    ensures FileAfterRun(f, run) == ResultFile(f.lines, Some(Extended(f.tail, Answer(Some(q.questionId)))))
  {
    hide AnsweredIds, Runs;
    OneTaskSteps();
    run := Run([q], 1, Steps(4), AT_RECORD, Uncut);
    OnlyAsked(f, run, q);
    WrittenAppend([], Record(0));
    assert [] + [Record(0)] == AT_RECORD.file;
    NothingAppended(f, [q]);
  }

  /** Or inside the record, between its characters or, if one takes several bytes, inside it. */
  lemma StoppedInRecord(f: ResultFile, q: Question, cut: Cut) returns (run: Run)
    requires Loadable(AsRead(f)) && q.questionId != "" && q.questionId !in AnsweredIds(AsRead(f))
    requires !cut.Uncut?
    ensures UsableQuestions(run.considered) && RunsFrom(f, run) && run.cut == cut
    ensures FileAfterRun(f, run) == ResultFile(f.lines, Some(Extended(f.tail, PartOf(cut))))
  {
    hide AnsweredIds, Runs;
    OneTaskSteps();
    run := Run([q], 1, Steps(3), AT_WRITE, cut);
    OnlyAsked(f, run, q);
    assert AT_WRITE.tasks[0].WriteLocked?;
    NothingAppended(f, [q]);
  }

  /**
   A check that a caller can make on the file alone: whatever run comes next and wherever it
   is stopped, the answers survive if and only if the file does not end in an answer without
   a line end. (q is any question left to ask.)
   */
  lemma SafeToResumeIff(f: ResultFile, q: Question)
    requires AnsweredOnce(AsRead(f)) && Loadable(AsRead(f))
    requires q.questionId != "" && q.questionId !in AnsweredIds(AsRead(f))
    ensures (forall run :: RunsFrom(f, run) && UsableQuestions(run.considered) ==>
                             AnsweredIds(AsRead(f)) <= AnsweredIds(AsRead(FileAfterRun(f, run)))) <==>
            !TornAnswer(f)
  {
    hide AnsweredIds, Runs, FileAfterRun, AnsweredOnce;
    forall run | RunsFrom(f, run) && UsableQuestions(run.considered)
      ensures AnsweredIds(AsRead(f)) <= AnsweredIds(AsRead(FileAfterRun(f, run))) <==>
              !(TornAnswer(f) && Writes(run))
    {
      SurviveIff(f, run);
    }
    var run := StoppedAtRecord(f, q);
  }

  lemma NoAnswers()
    ensures AsRead(EMPTY_FILE) == [] && AnsweredIds([]) == {}
  {
  }

  lemma AnsweredByOne(line: ResultLine)
    ensures AnsweredIds([line]) == match LineId(line) case None => {} case Some(id) => {id}
  {
    assert [line][..0] == [];
  }

  /**
   Two answers lost: from no file, a run stopped behind its record, and a second one stopped
   behind its own. The first answer was there in between; then neither is.
   */
  lemma TwoAnswersLost(a: Question, b: Question) returns (first: Run, second: Run)
    requires a.questionId != b.questionId && a.questionId != "" && b.questionId != ""
    ensures RunsFrom(EMPTY_FILE, first) && UsableQuestions(first.considered)
    ensures AnsweredIds(AsRead(FileAfterRun(EMPTY_FILE, first))) == {a.questionId}
    ensures RunsFrom(FileAfterRun(EMPTY_FILE, first), second) && UsableQuestions(second.considered)
    ensures Writes(second)
    ensures AnsweredIds(AsRead(FileAfterRun(FileAfterRun(EMPTY_FILE, first), second))) == {}
  {
    hide RunsFrom, UsableQuestions, Writes, FileAfterRun, AnsweredIds;
    NoAnswers();
    first := StoppedAtRecord(EMPTY_FILE, a);
    var torn := Answer(Some(a.questionId));
    assert AsRead(ResultFile([], Some(torn))) == [torn];
    AnsweredByOne(torn);
    second := StoppedAtRecord(ResultFile([], Some(torn)), b);
    assert AsRead(ResultFile([], Some(Malformed))) == [Malformed];
    AnsweredByOne(Malformed);
  }

  /**
   A run cut inside a character leaves a file that keeps every later run from starting: the
   loader raises on it.
   */
  lemma CutInsideCharacterEndsAll(q: Question) returns (run: Run)
    requires q.questionId != ""
    ensures RunsFrom(EMPTY_FILE, run) && UsableQuestions(run.considered)
    ensures !Loadable(AsRead(FileAfterRun(EMPTY_FILE, run)))
    ensures forall runs, after :: RunsInTurn(FileAfterRun(EMPTY_FILE, run), runs, after) ==> runs == []
  {
    run := StoppedInRecord(EMPTY_FILE, q, InsideCharacter);
    LoadableAfterRun(EMPTY_FILE, run);
  }
}
