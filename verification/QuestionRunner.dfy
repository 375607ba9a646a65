/**
 The concurrent question runner of backend/scripts/run_enterpriserag_bench_questions.py
 as a step relation: every task is at one of a fixed set of points, and a scheduler
 picks which task moves and how its request ends.

 A step is one access to the state the tasks share, so the relation allows every
 interleaving the event loop can produce, and more: the bodies of the locked sections
 are split too.
 */
module QuestionRunner {
  import opened Wrappers

  const MAX_QUESTION_ATTEMPTS := 3

  /** How an attempt's request ends. */
  datatype Outcome = Answers | Raises(error: string) | TimesOut

  /** Where a task is. A `Locked` or `Counted` point is inside a locked section. */
  datatype Pc =
    | AwaitSemaphore(attempt: nat)
    | Requesting(attempt: nat)
    | AwaitStuck(attempt: nat)
    | StuckLocked(attempt: nat)
    | StuckCounted(attempt: nat)
    | Sleeping(attempt: nat)
    | AwaitFail(error: string)
    | FailLocked(error: string)
    | FailCounted(error: string)
    | FailRecorded
    | AwaitWrite
    | WriteLocked
    | RecordWritten
    | LineWritten
    | AwaitCount
    | CountLocked
    | CountedCompleted
    | CountedBoth
    | Answered
    | Failed

  /** A write to the result file: the record of a task's question, or a line end. */
  datatype Chunk = Record(task: nat) | Newline

  datatype FailedQuestion = FailedQuestion(task: nat, error: string)

  datatype State = State(
    tasks: seq<Pc>,
    permits: nat,
    progressOwner: Option<nat>,
    writeOwner: Option<nat>,
    completed: nat,
    successful: nat,
    stuck: nat,
    failed: seq<FailedQuestion>,
    file: seq<Chunk>)

  function TimedOutError(attempt: nat): string {
    "Timed out after 300s on attempt " + [('0' as int + attempt % 10) as char] + "/3"
  }

  lemma LastTimedOutError()
    ensures TimedOutError(3) == "Timed out after 300s on attempt 3/3"
  {
  }

  /** All tasks are created at once, each about to make its first attempt. */
  function Init(questions: nat, parallelism: nat): State {
    State(seq(questions, _ => AwaitSemaphore(1)), parallelism, None, None, 0, 0, 0, [], [])
  }

  /** Where a task goes from a point; o matters only when a request ends. */
  function Move(pc: Pc, o: Outcome): Pc {
    match pc
    case AwaitSemaphore(a) => Requesting(a)
    case Requesting(a) =>
      (match o
       case Answers => AwaitWrite
       case Raises(e) => AwaitFail(e)
       case TimesOut => AwaitStuck(a))
    case AwaitStuck(a) => StuckLocked(a)
    case StuckLocked(a) => StuckCounted(a)
    case StuckCounted(a) => Sleeping(a)
    case Sleeping(a) => if a < MAX_QUESTION_ATTEMPTS then AwaitSemaphore(a + 1) else AwaitFail(TimedOutError(a))
    case AwaitFail(e) => FailLocked(e)
    case FailLocked(e) => FailCounted(e)
    case FailCounted(e) => FailRecorded
    case FailRecorded => Failed
    case AwaitWrite => WriteLocked
    case WriteLocked => RecordWritten
    case RecordWritten => LineWritten
    case LineWritten => AwaitCount
    case AwaitCount => CountLocked
    case CountLocked => CountedCompleted
    case CountedCompleted => CountedBoth
    case CountedBoth => Answered
    case Answered => Answered
    case Failed => Failed
  }

  // What moving on from a point does to the shared state.

  predicate TakesProgress(pc: Pc) { pc.AwaitStuck? || pc.AwaitFail? || pc.AwaitCount? }

  predicate FreesProgress(pc: Pc) { pc.StuckCounted? || pc.FailRecorded? || pc.CountedBoth? }

  predicate TakesWrite(pc: Pc) { pc.AwaitWrite? }

  predicate FreesWrite(pc: Pc) { pc.LineWritten? }

  predicate AddsCompleted(pc: Pc) { pc.FailLocked? || pc.CountLocked? }

  predicate AddsSuccessful(pc: Pc) { pc.CountedCompleted? }

  predicate AddsFailed(pc: Pc) { pc.FailCounted? }

  predicate Done(pc: Pc) {
    pc.Answered? || pc.Failed?
  }

  /** A task waits for a permit or a lock, or is finished. */
  predicate Blocked(s: State, i: nat)
    requires i < |s.tasks|
  {
    var pc := s.tasks[i];
    || (pc.AwaitSemaphore? && s.permits == 0)
    || (TakesProgress(pc) && s.progressOwner.Some?)
    || (TakesWrite(pc) && s.writeOwner.Some?)
    || Done(pc)
  }

  function PermitsAfter(permits: nat, pc: Pc): nat
    requires pc.AwaitSemaphore? ==> permits > 0
  {
    if pc.AwaitSemaphore? then permits - 1 else if pc.Requesting? then permits + 1 else permits
  }

  function OwnerAfter(owner: Option<nat>, i: nat, takes: bool, frees: bool): Option<nat> {
    if takes then Some(i) else if frees then None else owner
  }

  function FailedAfter(failed: seq<FailedQuestion>, i: nat, pc: Pc): seq<FailedQuestion> {
    if AddsFailed(pc) then failed + [FailedQuestion(i, pc.error)] else failed
  }

  function FileAfter(file: seq<Chunk>, i: nat, pc: Pc): seq<Chunk> {
    if pc.WriteLocked? then file + [Record(i)]
    else if pc.RecordWritten? then file + [Newline]
    else file
  }

  /** The state after task i, which is not blocked, moves on. */
  function Next(s: State, i: nat, o: Outcome): State
    requires i < |s.tasks| && !Blocked(s, i)
  {
    var pc := s.tasks[i];
    State(s.tasks[i := Move(pc, o)],
          PermitsAfter(s.permits, pc),
          OwnerAfter(s.progressOwner, i, TakesProgress(pc), FreesProgress(pc)),
          OwnerAfter(s.writeOwner, i, TakesWrite(pc), FreesWrite(pc)),
          s.completed + (if AddsCompleted(pc) then 1 else 0),
          s.successful + (if AddsSuccessful(pc) then 1 else 0),
          s.stuck + (if pc.StuckLocked? then 1 else 0),
          FailedAfter(s.failed, i, pc),
          FileAfter(s.file, i, pc))
  }

  // ----- What the points mean -------------------------------------------

  predicate InFlight(pc: Pc) { pc.Requesting? }

  predicate HoldsProgress(pc: Pc) {
    || pc.StuckLocked? || pc.StuckCounted?
    || pc.FailLocked? || pc.FailCounted? || pc.FailRecorded?
    || pc.CountLocked? || pc.CountedCompleted? || pc.CountedBoth?
  }

  predicate HoldsWrite(pc: Pc) {
    pc.WriteLocked? || pc.RecordWritten? || pc.LineWritten?
  }

  predicate CountsCompleted(pc: Pc) {
    || pc.FailCounted? || pc.FailRecorded? || pc.Failed?
    || pc.CountedCompleted? || pc.CountedBoth? || pc.Answered?
  }

  predicate CountsSuccessful(pc: Pc) {
    pc.CountedBoth? || pc.Answered?
  }

  predicate OnFailedList(pc: Pc) {
    pc.FailRecorded? || pc.Failed?
  }

  predicate OnFile(pc: Pc) {
    || pc.RecordWritten? || pc.LineWritten? || pc.AwaitCount?
    || pc.CountLocked? || pc.CountedCompleted? || pc.CountedBoth? || pc.Answered?
  }

  predicate AllDone(s: State) {
    forall i :: 0 <= i < |s.tasks| ==> Done(s.tasks[i])
  }

  /** The tasks at a point satisfying p. */
  ghost function Where(tasks: seq<Pc>, p: Pc -> bool): set<nat> {
    set i: nat | i < |tasks| && p(tasks[i])
  }

  lemma WhereUpdate(tasks: seq<Pc>, i: nat, pc: Pc, p: Pc -> bool)
    requires i < |tasks|
    ensures Where(tasks[i := pc], p) == if p(pc) then Where(tasks, p) + {i} else Where(tasks, p) - {i}
  {
  }

  lemma WhereCount(tasks: seq<Pc>, i: nat, pc: Pc, p: Pc -> bool)
    requires i < |tasks|
    ensures |Where(tasks[i := pc], p)| ==
            |Where(tasks, p)| + (if p(pc) then 1 else 0) - (if p(tasks[i]) then 1 else 0)
  {
    WhereUpdate(tasks, i, pc, p);
    var before := Where(tasks, p);
    assert i in before <==> p(tasks[i]);
    if p(tasks[i]) {
      assert before + {i} == before;
    } else {
      assert before - {i} == before;
    }
  }

  // ----- The result file ------------------------------------------------

  /** The tasks whose records were written, in file order. */
  function Written(file: seq<Chunk>): seq<nat> {
    if file == [] then []
    else
      var before := Written(file[..|file| - 1]);
      match file[|file| - 1]
      case Record(task) => before + [task]
      case Newline => before
  }

  /** Every record is alone on a terminated line. */
  predicate WholeLines(file: seq<Chunk>) {
    file == [] ||
    (&& |file| >= 2
     && file[|file| - 1].Newline? && file[|file| - 2].Record?
     && WholeLines(file[..|file| - 2]))
  }

  /** The tasks whose records are on terminated lines, in file order. */
  function Terminated(file: seq<Chunk>): seq<nat> {
    if |file| < 2 then []
    else
      var n := |file| - 2;
      if file[n].Record? && file[n + 1].Newline? then Terminated(file[..n]) + [file[n].task]
      else Terminated(file[..n + 1])
  }

  function FailedTasks(failed: seq<FailedQuestion>): seq<nat> {
    seq(|failed|, i requires 0 <= i < |failed| => failed[i].task)
  }

  lemma WrittenAppend(file: seq<Chunk>, c: Chunk)
    ensures Written(file + [c]) == match c case Record(task) => Written(file) + [task] case Newline => Written(file)
  {
    assert (file + [c])[..|file|] == file;
  }
}
