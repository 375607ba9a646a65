/**
 What every step of the question runner keeps: who holds which lock, what the counters
 count, and what the result file and the failed list hold.
 */
module QuestionInvariant {
  import opened Wrappers
  import opened Sequences
  import opened QuestionRunner

  /** A lock is held by exactly the task inside its section. */
  ghost predicate LocksConsistent(s: State) {
    && (forall i: nat :: i < |s.tasks| ==> (HoldsProgress(s.tasks[i]) <==> s.progressOwner == Some(i)))
    && (forall i: nat :: i < |s.tasks| ==> (HoldsWrite(s.tasks[i]) <==> s.writeOwner == Some(i)))
    && (s.progressOwner.Some? ==> s.progressOwner.value < |s.tasks|)
    && (s.writeOwner.Some? ==> s.writeOwner.value < |s.tasks|)
  }

  /** A permit is free or in use by a request in flight. */
  ghost predicate PermitsConsistent(parallelism: nat, s: State) {
    s.permits + |Where(s.tasks, InFlight)| == parallelism
  }

  ghost predicate CountersConsistent(s: State) {
    && s.completed == |Where(s.tasks, CountsCompleted)|
    && s.successful == |Where(s.tasks, CountsSuccessful)|
  }

  ghost predicate FailedConsistent(s: State) {
    && Distinct(FailedTasks(s.failed))
    && Elements(FailedTasks(s.failed)) == Where(s.tasks, OnFailedList)
  }

  /** The file is whole lines, but for the record its writer has not terminated yet. */
  ghost predicate LinesConsistent(s: State) {
    if s.writeOwner.Some? && s.writeOwner.value < |s.tasks| && s.tasks[s.writeOwner.value].RecordWritten? then
      s.file != [] && s.file[|s.file| - 1] == Record(s.writeOwner.value) && WholeLines(s.file[..|s.file| - 1])
    else
      WholeLines(s.file)
  }

  ghost predicate FileConsistent(s: State) {
    && Distinct(Written(s.file))
    && Elements(Written(s.file)) == Where(s.tasks, OnFile)
    && LinesConsistent(s)
  }

  predicate AttemptInRange(pc: Pc) {
    match pc
    case AwaitSemaphore(a) => 1 <= a <= MAX_QUESTION_ATTEMPTS
    case Requesting(a) => 1 <= a <= MAX_QUESTION_ATTEMPTS
    case AwaitStuck(a) => 1 <= a <= MAX_QUESTION_ATTEMPTS
    case StuckLocked(a) => 1 <= a <= MAX_QUESTION_ATTEMPTS
    case StuckCounted(a) => 1 <= a <= MAX_QUESTION_ATTEMPTS
    case Sleeping(a) => 1 <= a <= MAX_QUESTION_ATTEMPTS
    case _ => true
  }

  ghost predicate Inv(questions: nat, parallelism: nat, s: State) {
    && |s.tasks| == questions
    && LocksConsistent(s)
    && PermitsConsistent(parallelism, s)
    && CountersConsistent(s)
    && FailedConsistent(s)
    && FileConsistent(s)
    && (forall i :: 0 <= i < |s.tasks| ==> AttemptInRange(s.tasks[i]))
  }

  lemma InitInv(questions: nat, parallelism: nat)
    ensures Inv(questions, parallelism, Init(questions, parallelism))
  {
    var s := Init(questions, parallelism);
    assert Where(s.tasks, InFlight) == {};
    assert Where(s.tasks, CountsCompleted) == {};
    assert Where(s.tasks, CountsSuccessful) == {};
    assert Where(s.tasks, OnFailedList) == {};
    assert Where(s.tasks, OnFile) == {};
  }

  // How one move changes what a task's point stands for.

  lemma MoveProgress(pc: Pc, o: Outcome)
    ensures HoldsProgress(Move(pc, o)) <==> TakesProgress(pc) || (HoldsProgress(pc) && !FreesProgress(pc))
    ensures TakesProgress(pc) ==> !HoldsProgress(pc)
    ensures FreesProgress(pc) ==> HoldsProgress(pc) && !TakesProgress(pc)
  {
  }

  lemma MoveWrite(pc: Pc, o: Outcome)
    ensures HoldsWrite(Move(pc, o)) <==> TakesWrite(pc) || (HoldsWrite(pc) && !FreesWrite(pc))
    ensures TakesWrite(pc) ==> !HoldsWrite(pc)
    ensures FreesWrite(pc) ==> HoldsWrite(pc) && !TakesWrite(pc)
  {
  }

  lemma MoveCounters(pc: Pc, o: Outcome)
    ensures CountsCompleted(Move(pc, o)) <==> CountsCompleted(pc) || AddsCompleted(pc)
    ensures AddsCompleted(pc) ==> !CountsCompleted(pc)
    ensures CountsSuccessful(Move(pc, o)) <==> CountsSuccessful(pc) || AddsSuccessful(pc)
    ensures AddsSuccessful(pc) ==> !CountsSuccessful(pc)
  {
  }

  lemma MoveOutputs(pc: Pc, o: Outcome)
    ensures OnFailedList(Move(pc, o)) <==> OnFailedList(pc) || AddsFailed(pc)
    ensures AddsFailed(pc) ==> !OnFailedList(pc)
    ensures OnFile(Move(pc, o)) <==> OnFile(pc) || pc.WriteLocked?
    ensures pc.WriteLocked? ==> !OnFile(pc)
    ensures Move(pc, o).RecordWritten? <==> pc.WriteLocked?
  {
  }

  /** A lock passes to the task that takes it and is freed by its holder only. */
  lemma OwnerKept(tasks: seq<Pc>, owner: Option<nat>, i: nat, pc: Pc, holds: Pc -> bool, takes: bool, frees: bool)
    requires i < |tasks|
    requires forall j: nat :: j < |tasks| ==> (holds(tasks[j]) <==> owner == Some(j))
    requires owner.Some? ==> owner.value < |tasks|
    requires takes ==> owner.None?
    requires frees ==> holds(tasks[i]) && !takes
    requires holds(pc) <==> takes || (holds(tasks[i]) && !frees)
    ensures var after := OwnerAfter(owner, i, takes, frees);
            && (forall j: nat :: j < |tasks| ==> (holds(tasks[i := pc][j]) <==> after == Some(j)))
            && (after.Some? ==> after.value < |tasks|)
  {
  }

  lemma LocksKept(s: State, i: nat, o: Outcome)
    requires LocksConsistent(s) && i < |s.tasks| && !Blocked(s, i)
    ensures LocksConsistent(Next(s, i, o))
  {
    var pc := s.tasks[i];
    MoveProgress(pc, o);
    MoveWrite(pc, o);
    OwnerKept(s.tasks, s.progressOwner, i, Move(pc, o), HoldsProgress, TakesProgress(pc), FreesProgress(pc));
    OwnerKept(s.tasks, s.writeOwner, i, Move(pc, o), HoldsWrite, TakesWrite(pc), FreesWrite(pc));
  }

  lemma CountersKept(s: State, i: nat, o: Outcome)
    requires CountersConsistent(s) && i < |s.tasks| && !Blocked(s, i)
    ensures CountersConsistent(Next(s, i, o))
  {
    var pc := s.tasks[i];
    MoveCounters(pc, o);
    WhereCount(s.tasks, i, Move(pc, o), CountsCompleted);
    WhereCount(s.tasks, i, Move(pc, o), CountsSuccessful);
  }

  lemma PermitsKept(parallelism: nat, s: State, i: nat, o: Outcome)
    requires PermitsConsistent(parallelism, s) && i < |s.tasks| && !Blocked(s, i)
    ensures PermitsConsistent(parallelism, Next(s, i, o))
  {
    WhereCount(s.tasks, i, Move(s.tasks[i], o), InFlight);
  }

  lemma FailedKept(s: State, i: nat, o: Outcome)
    requires FailedConsistent(s) && i < |s.tasks| && !Blocked(s, i)
    ensures FailedConsistent(Next(s, i, o))
  {
    var pc := s.tasks[i];
    var t := Next(s, i, o);
    MoveOutputs(pc, o);
    WhereUpdate(s.tasks, i, Move(pc, o), OnFailedList);
    if AddsFailed(pc) {
      assert FailedTasks(t.failed) == FailedTasks(s.failed) + [i];
      assert i !in Elements(FailedTasks(s.failed));
    } else {
      assert Where(t.tasks, OnFailedList) == Where(s.tasks, OnFailedList);
    }
  }

  lemma WrittenKept(s: State, i: nat, o: Outcome)
    requires Distinct(Written(s.file)) && Elements(Written(s.file)) == Where(s.tasks, OnFile)
    requires i < |s.tasks| && !Blocked(s, i)
    ensures var t := Next(s, i, o);
            Distinct(Written(t.file)) && Elements(Written(t.file)) == Where(t.tasks, OnFile)
  {
    var pc := s.tasks[i];
    var t := Next(s, i, o);
    MoveOutputs(pc, o);
    WhereUpdate(s.tasks, i, Move(pc, o), OnFile);
    if pc.WriteLocked? {
      WrittenAppend(s.file, Record(i));
      assert i !in Elements(Written(s.file));
    } else {
      if pc.RecordWritten? { WrittenAppend(s.file, Newline); }
      assert Where(t.tasks, OnFile) == Where(s.tasks, OnFile);
    }
  }

  /** The write lock keeps lines whole: only its holder leaves one unfinished. */
  lemma LinesKept(s: State, i: nat, o: Outcome)
    requires LocksConsistent(s) && LinesConsistent(s) && i < |s.tasks| && !Blocked(s, i)
    ensures LinesConsistent(Next(s, i, o))
  {
    var pc := s.tasks[i];
    var t := Next(s, i, o);
    MoveOutputs(pc, o);
    MoveWrite(pc, o);
    if pc.WriteLocked? {
      assert s.writeOwner == Some(i);
      assert t.file[..|t.file| - 1] == s.file;
    } else if pc.RecordWritten? {
      assert s.writeOwner == Some(i);
      assert t.file[..|t.file| - 2] == s.file[..|s.file| - 1];
    } else if s.writeOwner == Some(i) {
      assert !t.tasks[i].RecordWritten?;
    }
  }

  lemma AttemptsKept(s: State, i: nat, o: Outcome)
    requires i < |s.tasks| && !Blocked(s, i)
    requires forall j :: 0 <= j < |s.tasks| ==> AttemptInRange(s.tasks[j])
    ensures forall j :: 0 <= j < |s.tasks| ==> AttemptInRange(Next(s, i, o).tasks[j])
  {
    assert AttemptInRange(s.tasks[i]);
  }
}
