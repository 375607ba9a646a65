/**
 Whole runs of the question runner, for every schedule: what holds in each reachable state
 and at the end, and that every run comes to its end.
 */
module QuestionSchedules {
  import opened Sequences
  import opened QuestionRunner
  import opened QuestionInvariant

  /** Whatever task moves and however its request ends, the invariant is kept. */
  lemma {:induction false} StepKeepsInv(questions: nat, parallelism: nat, s: State, i: nat, o: Outcome)
    requires Inv(questions, parallelism, s) && i < questions && !Blocked(s, i)
    ensures Inv(questions, parallelism, Next(s, i, o))
  {
    LocksKept(s, i, o);
    PermitsKept(parallelism, s, i, o);
    CountersKept(s, i, o);
    FailedKept(s, i, o);
    WrittenKept(s, i, o);
    LinesKept(s, i, o);
    AttemptsKept(s, i, o);
  }

  // ----- Runs -----------------------------------------------------------

  /** The scheduler's choice: which task moves, and how its request ends if it has one. */
  datatype Choice = Choice(task: nat, outcome: Outcome)

  /** The schedule leads from s to t. */
  ghost predicate Runs(s: State, schedule: seq<Choice>, t: State)
    decreases |schedule|
  {
    if schedule == [] then s == t
    else
      && schedule[0].task < |s.tasks|
      && !Blocked(s, schedule[0].task)
      && Runs(Next(s, schedule[0].task, schedule[0].outcome), schedule[1..], t)
  }

  lemma {:induction false} RunKeepsInv(questions: nat, parallelism: nat, s: State, schedule: seq<Choice>, t: State)
    requires Inv(questions, parallelism, s) && Runs(s, schedule, t)
    ensures Inv(questions, parallelism, t)
    decreases |schedule|
  {
    if schedule == [] {
    } else {
      StepKeepsInv(questions, parallelism, s, schedule[0].task, schedule[0].outcome);
      RunKeepsInv(questions, parallelism, Next(s, schedule[0].task, schedule[0].outcome), schedule[1..], t);
    }
  }

  /** While no task is inside a progress section, the counters add up. */
  lemma CountersAddUp(questions: nat, parallelism: nat, s: State)
    requires Inv(questions, parallelism, s) && s.progressOwner.None?
    ensures s.completed == s.successful + |s.failed|
  {
    var completed := Where(s.tasks, CountsCompleted);
    var successful := Where(s.tasks, CountsSuccessful);
    var failed := Where(s.tasks, OnFailedList);
    forall i: nat | i < |s.tasks|
      ensures CountsCompleted(s.tasks[i]) <==> CountsSuccessful(s.tasks[i]) || OnFailedList(s.tasks[i])
    {
      assert !HoldsProgress(s.tasks[i]);
    }
    assert completed == successful + failed && successful !! failed;
    DistinctCount(FailedTasks(s.failed));
  }

  /** On whole lines every record is terminated. */
  lemma {:induction false} WholeTerminated(file: seq<Chunk>)
    requires WholeLines(file)
    ensures Terminated(file) == Written(file)
  {
    if file == [] {
    } else {
      var n := |file| - 2;
      WholeTerminated(file[..n]);
      assert file[..n + 1][..n] == file[..n] && file[..|file| - 1] == file[..n + 1];
      assert Written(file) == Written(file[..n + 1]);
      assert Written(file[..n + 1]) == Written(file[..n]) + [file[n].task];
    }
  }

  /** One more record is not, as long as its line end is missing. */
  lemma NotYetTerminated(file: seq<Chunk>, t: nat)
    ensures Terminated(file + [Record(t)]) == Terminated(file)
  {
    var more := file + [Record(t)];
    assert more[..|more| - 1] == file;
  }

  /** A success is counted only after its record's line end. */
  lemma SuccessesTerminated(questions: nat, parallelism: nat, s: State)
    requires Inv(questions, parallelism, s)
    ensures forall i :: i in Where(s.tasks, CountsSuccessful) ==> i in Terminated(s.file)
    ensures s.successful <= |Terminated(s.file)|
  {
    var file := s.file;
    if WholeLines(file) {
      WholeTerminated(file);
    } else {
      var n := |file| - 1;
      WholeTerminated(file[..n]);
      NotYetTerminated(file[..n], file[n].task);
      assert file == file[..n] + [file[n]];
      WrittenAppend(file[..n], file[n]);
    }
    forall i | i in Where(s.tasks, CountsSuccessful) ensures i in Terminated(file) {
      assert i in Where(s.tasks, OnFile);
      assert i in Elements(Written(file));
    }
    CountBound(Terminated(file));
    SubsetCount(Where(s.tasks, CountsSuccessful), Elements(Terminated(file)));
  }

  /**
   Every reachable state: the counters add up whenever the progress lock is free, at most
   parallelism requests are in flight, no success is counted before its line is ended,
   and the file is whole lines whenever the write lock is free.
   */
  lemma ReachableStates(questions: nat, parallelism: nat, schedule: seq<Choice>, t: State)
    requires Runs(Init(questions, parallelism), schedule, t)
    ensures t.progressOwner.None? ==> t.completed == t.successful + |t.failed|
    ensures |Where(t.tasks, InFlight)| <= parallelism
    ensures forall i :: i in Where(t.tasks, CountsSuccessful) ==> i in Terminated(t.file)
    ensures t.successful == |Where(t.tasks, CountsSuccessful)| <= |Terminated(t.file)|
    ensures t.writeOwner.None? ==> WholeLines(t.file)
  {
    InitInv(questions, parallelism);
    RunKeepsInv(questions, parallelism, Init(questions, parallelism), schedule, t);
    if t.progressOwner.None? { CountersAddUp(questions, parallelism, t); }
    SuccessesTerminated(questions, parallelism, t);
  }

  lemma DonePoint(pc: Pc)
    requires Done(pc)
    ensures !HoldsProgress(pc) && !HoldsWrite(pc) && !InFlight(pc) && CountsCompleted(pc)
    ensures CountsSuccessful(pc) <==> OnFile(pc)
    ensures OnFile(pc) <==> !OnFailedList(pc)
  {
  }

  lemma DoneSets(tasks: seq<Pc>)
    requires forall i :: 0 <= i < |tasks| ==> Done(tasks[i])
    ensures Where(tasks, InFlight) == {}
    ensures Where(tasks, CountsCompleted) == Upto(|tasks|)
    ensures Where(tasks, OnFile) + Where(tasks, OnFailedList) == Upto(|tasks|)
    ensures Where(tasks, OnFile) !! Where(tasks, OnFailedList)
    ensures Where(tasks, CountsSuccessful) == Where(tasks, OnFile)
  {
    forall i | 0 <= i < |tasks|
      ensures !InFlight(tasks[i]) && CountsCompleted(tasks[i])
      ensures CountsSuccessful(tasks[i]) == OnFile(tasks[i]) == !OnFailedList(tasks[i])
    {
      DonePoint(tasks[i]);
    }
    assert Where(tasks, CountsCompleted) == Upto(|tasks|);
    assert Where(tasks, OnFile) + Where(tasks, OnFailedList) == Upto(|tasks|);
    assert Where(tasks, CountsSuccessful) == Where(tasks, OnFile);
  }

  /** With every task done, no lock or permit is held and every task is counted. */
  lemma DoneFacts(questions: nat, parallelism: nat, t: State)
    requires Inv(questions, parallelism, t) && AllDone(t)
    ensures t.progressOwner.None? && t.writeOwner.None?
    ensures Where(t.tasks, InFlight) == {}
    ensures Where(t.tasks, CountsCompleted) == Upto(questions)
    ensures Where(t.tasks, OnFile) + Where(t.tasks, OnFailedList) == Upto(questions)
    ensures Where(t.tasks, OnFile) !! Where(t.tasks, OnFailedList)
    ensures Where(t.tasks, CountsSuccessful) == Where(t.tasks, OnFile)
  {
    forall i: nat | i < |t.tasks|
      ensures !HoldsProgress(t.tasks[i]) && !HoldsWrite(t.tasks[i])
    {
      DonePoint(t.tasks[i]);
    }
    DoneSets(t.tasks);
  }

  /**
   When all tasks are done, every question is on exactly one of the result file and the
   failed list, exactly once, on a line of its own; and the counters say so.
   */
  lemma FinalStates(questions: nat, parallelism: nat, schedule: seq<Choice>, t: State)
    requires Runs(Init(questions, parallelism), schedule, t) && AllDone(t)
    ensures Distinct(Written(t.file)) && Distinct(FailedTasks(t.failed))
    ensures Elements(Written(t.file)) + Elements(FailedTasks(t.failed)) == Upto(questions)
    ensures Elements(Written(t.file)) !! Elements(FailedTasks(t.failed))
    ensures WholeLines(t.file)
    ensures t.completed == questions && t.successful == |Written(t.file)|
    ensures t.completed == t.successful + |t.failed|
    ensures t.permits == parallelism
  {
    InitInv(questions, parallelism);
    RunKeepsInv(questions, parallelism, Init(questions, parallelism), schedule, t);
    DoneFacts(questions, parallelism, t);
    CountersAddUp(questions, parallelism, t);
    DistinctCount(Written(t.file));
  }

  // ----- Every run ends -------------------------------------------------

  /** The most steps a task can still take. */
  function StepsLeft(pc: Pc): nat
    requires AttemptInRange(pc)
  {
    match pc
    case AwaitSemaphore(a) => 10 + 6 * (MAX_QUESTION_ATTEMPTS - a)
    case Requesting(a) => 9 + 6 * (MAX_QUESTION_ATTEMPTS - a)
    case AwaitStuck(a) => 8 + 6 * (MAX_QUESTION_ATTEMPTS - a)
    case StuckLocked(a) => 7 + 6 * (MAX_QUESTION_ATTEMPTS - a)
    case StuckCounted(a) => 6 + 6 * (MAX_QUESTION_ATTEMPTS - a)
    case Sleeping(a) => 5 + 6 * (MAX_QUESTION_ATTEMPTS - a)
    case AwaitFail(_) => 4
    case FailLocked(_) => 3
    case FailCounted(_) => 2
    case FailRecorded => 1
    case AwaitWrite => 8
    case WriteLocked => 7
    case RecordWritten => 6
    case LineWritten => 5
    case AwaitCount => 4
    case CountLocked => 3
    case CountedCompleted => 2
    case CountedBoth => 1
    case Answered => 0
    case Failed => 0
  }

  lemma MoveStepsLeft(pc: Pc, o: Outcome)
    requires AttemptInRange(pc) && !Done(pc)
    ensures AttemptInRange(Move(pc, o)) && StepsLeft(Move(pc, o)) < StepsLeft(pc)
  {
  }

  ghost function TotalStepsLeft(tasks: seq<Pc>): nat
    requires forall i :: 0 <= i < |tasks| ==> AttemptInRange(tasks[i])
  {
    if tasks == [] then 0
    else StepsLeft(tasks[|tasks| - 1]) + TotalStepsLeft(tasks[..|tasks| - 1])
  }

  lemma {:induction false} TotalStepsLeftUpdate(tasks: seq<Pc>, i: nat, pc: Pc)
    requires i < |tasks| && AttemptInRange(pc)
    requires forall j :: 0 <= j < |tasks| ==> AttemptInRange(tasks[j])
    ensures TotalStepsLeft(tasks[i := pc]) + StepsLeft(tasks[i]) == TotalStepsLeft(tasks) + StepsLeft(pc)
  {
    var n := |tasks| - 1;
    if i == n {
      assert tasks[i := pc][..n] == tasks[..n];
    } else {
      assert tasks[i := pc][..n] == tasks[..n][i := pc];
      TotalStepsLeftUpdate(tasks[..n], i, pc);
    }
  }

  lemma {:induction false} InitialStepsLeft(questions: nat, parallelism: nat)
    ensures forall i :: 0 <= i < questions ==> AttemptInRange(Init(questions, parallelism).tasks[i])
    ensures TotalStepsLeft(Init(questions, parallelism).tasks) == 22 * questions
  {
    if questions == 0 {
    } else {
      InitialStepsLeft(questions - 1, parallelism);
      assert Init(questions, parallelism).tasks[..questions - 1] == Init(questions - 1, parallelism).tasks;
    }
  }

  lemma {:induction false} RunBounded(questions: nat, parallelism: nat, s: State, schedule: seq<Choice>, t: State)
    requires Inv(questions, parallelism, s) && Runs(s, schedule, t)
    ensures |schedule| <= TotalStepsLeft(s.tasks)
    decreases |schedule|
  {
    if schedule == [] {
    } else {
      var i, o := schedule[0].task, schedule[0].outcome;
      var next := Next(s, i, o);
      StepKeepsInv(questions, parallelism, s, i, o);
      MoveStepsLeft(s.tasks[i], o);
      TotalStepsLeftUpdate(s.tasks, i, Move(s.tasks[i], o));
      RunBounded(questions, parallelism, next, schedule[1..], t);
    }
  }

  /** No deadlock: until all tasks are done, some task can move. */
  lemma SomeTaskCanMove(questions: nat, parallelism: nat, s: State)
    requires Inv(questions, parallelism, s) && parallelism >= 1 && !AllDone(s)
    ensures exists i: nat :: i < |s.tasks| && !Blocked(s, i)
  {
    if s.progressOwner.Some? {
      assert HoldsProgress(s.tasks[s.progressOwner.value]);
      assert !Blocked(s, s.progressOwner.value);
    } else if s.writeOwner.Some? {
      assert HoldsWrite(s.tasks[s.writeOwner.value]);
      assert !Blocked(s, s.writeOwner.value);
    } else if s.permits == 0 {
      assert Where(s.tasks, InFlight) != {};
      var i :| i in Where(s.tasks, InFlight);
      assert !Blocked(s, i);
    } else {
      var i: nat :| i < |s.tasks| && !Done(s.tasks[i]);
      assert !Blocked(s, i);
    }
  }

  /**
   Every run is finite, with at most 22 steps a question, and a run that cannot go on
   has finished every question.
   */
  lemma {:induction false} EveryRunCompletes(questions: nat, parallelism: nat, schedule: seq<Choice>, t: State)
    requires parallelism >= 1
    requires Runs(Init(questions, parallelism), schedule, t)
    ensures |schedule| <= 22 * questions
    ensures (forall i: nat :: i < |t.tasks| ==> Blocked(t, i)) <==> AllDone(t)
  {
    InitInv(questions, parallelism);
    InitialStepsLeft(questions, parallelism);
    RunBounded(questions, parallelism, Init(questions, parallelism), schedule, t);
    RunKeepsInv(questions, parallelism, Init(questions, parallelism), schedule, t);
    if !AllDone(t) {
      SomeTaskCanMove(questions, parallelism, t);
    }
  }
}
