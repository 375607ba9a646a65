/**
 The retry policy seen from outside: which sequences of request outcomes put a question
 on the result file, and which on the failed list with which error.
 */
module QuestionRetries {
  import opened Sequences
  import opened QuestionRunner
  import opened QuestionInvariant
  import opened QuestionSchedules

  // ----- What one question went through -----------------------------------

  function TimedOut(n: nat): seq<Outcome> {
    seq(n, _ => TimesOut)
  }

  /** Answered on one of the attempts, all before it timed out. */
  ghost predicate AnswersAfter(h: seq<Outcome>) {
    exists k: nat :: k < 3 && h == TimedOut(k) + [Answers]
  }

  /** Raised on one of the attempts, all before it timed out. */
  ghost predicate RaisesAfter(h: seq<Outcome>, error: string) {
    exists k: nat :: k < 3 && h == TimedOut(k) + [Raises(error)]
  }

  /** Gave up on the question with this error. */
  ghost predicate FailsWith(h: seq<Outcome>, error: string) {
    || RaisesAfter(h, error)
    || (h == TimedOut(3) && error == "Timed out after 300s on attempt 3/3")
  }

  /** The outcomes a task at this point has seen, in order. */
  ghost predicate Seen(pc: Pc, h: seq<Outcome>) {
    match pc
    case AwaitSemaphore(a) => 1 <= a <= MAX_QUESTION_ATTEMPTS && h == TimedOut(a - 1)
    case Requesting(a) => 1 <= a <= MAX_QUESTION_ATTEMPTS && h == TimedOut(a - 1)
    case AwaitStuck(a) => 1 <= a <= MAX_QUESTION_ATTEMPTS && h == TimedOut(a)
    case StuckLocked(a) => 1 <= a <= MAX_QUESTION_ATTEMPTS && h == TimedOut(a)
    case StuckCounted(a) => 1 <= a <= MAX_QUESTION_ATTEMPTS && h == TimedOut(a)
    case Sleeping(a) => 1 <= a <= MAX_QUESTION_ATTEMPTS && h == TimedOut(a)
    case AwaitFail(e) => FailsWith(h, e)
    case FailLocked(e) => FailsWith(h, e)
    case FailCounted(e) => FailsWith(h, e)
    case FailRecorded => exists e :: FailsWith(h, e)
    case Failed => exists e :: FailsWith(h, e)
    case _ => AnswersAfter(h)
  }

  /** A move of task i adds an outcome to its history when it ends a request. */
  function SeenAfter(h: seq<Outcome>, pc: Pc, o: Outcome): seq<Outcome> {
    if pc.Requesting? then h + [o] else h
  }

  lemma MoveSeen(pc: Pc, h: seq<Outcome>, o: Outcome)
    requires Seen(pc, h)
    ensures Seen(Move(pc, o), SeenAfter(h, pc, o))
  {
    LastTimedOutError();
    match pc
    case Requesting(a) =>
      assert TimedOut(a - 1) + [TimesOut] == TimedOut(a);
      assert a - 1 < MAX_QUESTION_ATTEMPTS;
    case _ =>
  }

  // ----- Whole runs -------------------------------------------------------

  function HistoriesAfter(s: State, i: nat, o: Outcome, hs: seq<seq<Outcome>>): seq<seq<Outcome>>
    requires i < |s.tasks| == |hs|
  {
    hs[i := SeenAfter(hs[i], s.tasks[i], o)]
  }

  /** The outcomes each question's requests had, after a run that started with hs. */
  ghost function Histories(s: State, schedule: seq<Choice>, t: State, hs: seq<seq<Outcome>>): seq<seq<Outcome>>
    requires Runs(s, schedule, t) && |hs| == |s.tasks|
    decreases |schedule|
  {
    if schedule == [] then hs
    else
      var i, o := schedule[0].task, schedule[0].outcome;
      Histories(Next(s, i, o), schedule[1..], t, HistoriesAfter(s, i, o, hs))
  }

  ghost predicate HistoryInv(s: State, hs: seq<seq<Outcome>>) {
    && |hs| == |s.tasks|
    && (forall i: nat :: i < |hs| ==> Seen(s.tasks[i], hs[i]))
    && (forall f :: f in s.failed ==> f.task < |hs| && OnFailedList(s.tasks[f.task]) && FailsWith(hs[f.task], f.error))
  }

  /** The points from which an entry of the failed list may still be reached. */
  lemma EntriesKept(s: State, i: nat, o: Outcome, hs: seq<seq<Outcome>>)
    requires HistoryInv(s, hs) && i < |s.tasks| && !Blocked(s, i)
    ensures var t, after := Next(s, i, o), HistoriesAfter(s, i, o, hs);
            forall f :: f in t.failed ==>
                          f.task < |after| && OnFailedList(t.tasks[f.task]) && FailsWith(after[f.task], f.error)
  {
    var pc := s.tasks[i];
    var t, after := Next(s, i, o), HistoriesAfter(s, i, o, hs);
    MoveOutputs(pc, o);
    forall f | f in t.failed
      ensures f.task < |after| && OnFailedList(t.tasks[f.task]) && FailsWith(after[f.task], f.error)
    {
      if f in s.failed {
        assert f.task == i ==> OnFailedList(pc);
      } else {
        assert AddsFailed(pc) && f == FailedQuestion(i, pc.error);
      }
    }
  }

  lemma StepKeepsHistories(s: State, i: nat, o: Outcome, hs: seq<seq<Outcome>>)
    requires HistoryInv(s, hs) && i < |s.tasks| && !Blocked(s, i)
    ensures HistoryInv(Next(s, i, o), HistoriesAfter(s, i, o, hs))
  {
    MoveSeen(s.tasks[i], hs[i], o);
    EntriesKept(s, i, o, hs);
  }

  lemma {:induction false} RunKeepsHistories(s: State, schedule: seq<Choice>, t: State, hs: seq<seq<Outcome>>)
    requires HistoryInv(s, hs) && Runs(s, schedule, t)
    ensures HistoryInv(t, Histories(s, schedule, t, hs))
    decreases |schedule|
  {
    if schedule == [] {
    } else {
      var i, o := schedule[0].task, schedule[0].outcome;
      StepKeepsHistories(s, i, o, hs);
      RunKeepsHistories(Next(s, i, o), schedule[1..], t, HistoriesAfter(s, i, o, hs));
    }
  }

  /** Before the run no request was made. */
  function NoRequests(questions: nat): seq<seq<Outcome>> {
    seq(questions, _ => [])
  }

  lemma Decided(pc: Pc, h: seq<Outcome>)
    requires Done(pc) && Seen(pc, h)
    ensures pc.Answered? <==> AnswersAfter(h)
    ensures pc.Failed? <==> exists e :: FailsWith(h, e)
    ensures 1 <= |h| <= MAX_QUESTION_ATTEMPTS
  {
    forall e, k: nat, l: nat | k < MAX_QUESTION_ATTEMPTS && l < MAX_QUESTION_ATTEMPTS
      ensures TimedOut(k) + [Answers] != TimedOut(l) + [Raises(e)]
    {
      assert (TimedOut(k) + [Answers])[k] == Answers;
      assert (TimedOut(l) + [Raises(e)])[l] == Raises(e);
    }
    forall k: nat | k < MAX_QUESTION_ATTEMPTS ensures TimedOut(k) + [Answers] != TimedOut(MAX_QUESTION_ATTEMPTS) {
      assert (TimedOut(k) + [Answers])[k] == Answers;
    }
  }

  /**
   A finished run answered exactly the questions whose requests timed out less than three
   times and then answered; every other question is on the failed list with the error
   that ended it: what its last request raised, or its third timeout.
   */
  lemma RetryPolicy(questions: nat, parallelism: nat, schedule: seq<Choice>, t: State)
    requires Runs(Init(questions, parallelism), schedule, t) && AllDone(t)
    ensures var hs := Histories(Init(questions, parallelism), schedule, t, NoRequests(questions));
            && |hs| == questions
            && (forall i: nat :: i < questions ==>
                                   && 1 <= |hs[i]| <= 3
                                   && (i in Written(t.file) <==> AnswersAfter(hs[i]))
                                   && (i in FailedTasks(t.failed) <==> !AnswersAfter(hs[i])))
            && (forall f :: f in t.failed ==> f.task < questions && FailsWith(hs[f.task], f.error))
  {
    var s := Init(questions, parallelism);
    var hs := Histories(s, schedule, t, NoRequests(questions));
    assert TimedOut(0) == [];
    RunKeepsHistories(s, schedule, t, NoRequests(questions));
    InitInv(questions, parallelism);
    RunKeepsInv(questions, parallelism, s, schedule, t);
    forall i: nat | i < questions
      ensures 1 <= |hs[i]| <= MAX_QUESTION_ATTEMPTS
      ensures i in Written(t.file) <==> AnswersAfter(hs[i])
      ensures i in FailedTasks(t.failed) <==> !AnswersAfter(hs[i])
    {
      Decided(t.tasks[i], hs[i]);
      DonePoint(t.tasks[i]);
      assert i in Elements(Written(t.file)) <==> i in Where(t.tasks, OnFile);
      assert i in Elements(FailedTasks(t.failed)) <==> i in Where(t.tasks, OnFailedList);
    }
  }

  // ----- The stuck counter ------------------------------------------------

  /** The task saw a timeout that the stuck counter does not show yet. */
  predicate Uncounted(pc: Pc) {
    pc.AwaitStuck? || pc.StuckLocked?
  }

  /** The timeouts of a run. */
  ghost function Timeouts(s: State, schedule: seq<Choice>, t: State): nat
    requires Runs(s, schedule, t)
    decreases |schedule|
  {
    if schedule == [] then 0
    else
      var i, o := schedule[0].task, schedule[0].outcome;
      (if s.tasks[i].Requesting? && o.TimesOut? then 1 else 0) + Timeouts(Next(s, i, o), schedule[1..], t)
  }

  lemma {:induction false} StuckCountsTimeouts(s: State, schedule: seq<Choice>, t: State)
    requires Runs(s, schedule, t)
    ensures t.stuck + |Where(t.tasks, Uncounted)| ==
            s.stuck + |Where(s.tasks, Uncounted)| + Timeouts(s, schedule, t)
    decreases |schedule|
  {
    if schedule == [] {
    } else {
      var i, o := schedule[0].task, schedule[0].outcome;
      WhereCount(s.tasks, i, Move(s.tasks[i], o), Uncounted);
      StuckCountsTimeouts(Next(s, i, o), schedule[1..], t);
    }
  }

  /** At the end the stuck counter is the number of requests that timed out. */
  lemma StuckIsTimeouts(questions: nat, parallelism: nat, schedule: seq<Choice>, t: State)
    requires Runs(Init(questions, parallelism), schedule, t) && AllDone(t)
    ensures t.stuck == Timeouts(Init(questions, parallelism), schedule, t)
  {
    var s := Init(questions, parallelism);
    StuckCountsTimeouts(s, schedule, t);
    assert Where(s.tasks, Uncounted) == {};
    forall i: nat | i < |t.tasks| ensures !Uncounted(t.tasks[i]) {
      assert Done(t.tasks[i]);
    }
    assert Where(t.tasks, Uncounted) == {};
  }
}
