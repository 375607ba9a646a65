/**
 Resuming the question runner of backend/scripts/run_enterpriserag_bench_questions.py: how
 the lines of the result file decide which questions are asked again.
 */
module QuestionResume {
  import opened Wrappers
  import opened Sequences

  datatype Question = Question(questionId: string, question: string)

  /**
   A line of the result file: blank, not JSON, not UTF-8, JSON that is no object, or a
   record with what it holds under question_id.
   */
  datatype ResultLine =
    | Blank
    | Malformed
    | Undecodable
    | NotAnObject
    | Answer(questionId: Option<string>)

  /** The id a line stands for: a non-empty string under question_id. */
  function LineId(line: ResultLine): Option<string> {
    match line
    case Answer(Some(id)) => if id == "" then None else Some(id)
    case _ => None
  }

  function AnsweredIds(lines: seq<ResultLine>): set<string> {
    if lines == [] then {}
    else
      var n := |lines| - 1;
      match LineId(lines[n])
      case None => AnsweredIds(lines[..n])
      case Some(id) => AnsweredIds(lines[..n]) + {id}
  }

  /** The loader skips lines that are not JSON, but raises on these. */
  predicate StopsLoader(line: ResultLine) {
    line.Undecodable? || line.NotAnObject?
  }

  function RaisedBy(line: ResultLine): string
    requires StopsLoader(line)
  {
    if line.Undecodable? then "'utf-8' codec can't decode" else "record has no attribute 'get'"
  }

  predicate Loadable(lines: seq<ResultLine>) {
    forall i :: 0 <= i < |lines| ==> !StopsLoader(lines[i])
  }

  /** The error is that of some line. */
  ghost predicate FailsToLoad(lines: seq<ResultLine>, error: string) {
    exists i :: 0 <= i < |lines| && StopsLoader(lines[i]) && error == RaisedBy(lines[i])
  }

  lemma {:induction false} AnsweredMeans(lines: seq<ResultLine>, id: string)
    ensures id in AnsweredIds(lines) <==> exists i :: 0 <= i < |lines| && LineId(lines[i]) == Some(id)
  {
    if lines == [] {
    } else {
      var n := |lines| - 1;
      AnsweredMeans(lines[..n], id);
      if i :| 0 <= i < |lines| && LineId(lines[i]) == Some(id) {
        assert i < n ==> LineId(lines[..n][i]) == Some(id);
      }
      if id in AnsweredIds(lines[..n]) {
        var i :| 0 <= i < n && LineId(lines[..n][i]) == Some(id);
        assert LineId(lines[i]) == Some(id);
      }
    }
  }

  method LoadCompletedQuestionIds(lines: seq<ResultLine>) returns (r: Result<set<string>, string>)
    ensures r.Success? <==> forall i :: 0 <= i < |lines| ==> lines[i] != Undecodable && lines[i] != NotAnObject
    ensures r.Failure? ==> FailsToLoad(lines, r.error)
    ensures r.Success? ==> r.value == AnsweredIds(lines)
    ensures r.Success? ==>
              forall id :: id in r.value <==> id != "" && Answer(Some(id)) in lines
  {
    var completed := {};
    for i := 0 to |lines|
      invariant completed == AnsweredIds(lines[..i])
      invariant Loadable(lines[..i])
    {
      assert lines[..i + 1][..i] == lines[..i];
      if StopsLoader(lines[i]) {
        return Failure(RaisedBy(lines[i]));
      }
      match lines[i]
      case Answer(questionId) =>
        if questionId.Some? && questionId.value != "" {
          completed := completed + {questionId.value};
        }
      case _ =>
    }
    assert lines[..|lines|] == lines;
    forall id ensures id in completed <==> id != "" && Answer(Some(id)) in lines {
      AnsweredMeans(lines, id);
    }
    return Success(completed);
  }

  lemma {:induction false} AnsweredConcat(a: seq<ResultLine>, b: seq<ResultLine>)
    ensures AnsweredIds(a + b) == AnsweredIds(a) + AnsweredIds(b)
  {
    if b == [] {
      assert a + b == a;
    } else {
      var n := |b| - 1;
      assert (a + b)[..|a + b| - 1] == a + b[..n];
      AnsweredConcat(a, b[..n]);
    }
  }

  /** `--max-questions`: a positive cap on how many questions are considered. */
  function Considered(questions: seq<Question>, maxQuestions: Option<int>): Result<seq<Question>, string> {
    match maxQuestions
    case None => Success(questions)
    case Some(m) =>
      if m < 1 then Failure("`--max-questions` must be at least 1 when provided.")
      else Success(if m < |questions| then questions[..m] else questions)
  }

  /** A cap keeps the first questions, all of them if there are no more; it must be positive. */
  lemma ConsideredMeaning(questions: seq<Question>, maxQuestions: Option<int>)
    ensures maxQuestions.None? ==> Considered(questions, maxQuestions) == Success(questions)
    ensures maxQuestions.Some? ==>
              (Considered(questions, maxQuestions).Success? <==> maxQuestions.value >= 1)
    ensures maxQuestions.Some? && maxQuestions.value >= 1 ==>
              var first := Considered(questions, maxQuestions).value;
              && first <= questions
              && (|first| == maxQuestions.value || (first == questions && |first| < maxQuestions.value))
  {
  }

  function Remaining(considered: seq<Question>, answered: set<string>): seq<Question> {
    if considered == [] then []
    else
      var n := |considered| - 1;
      var before := Remaining(considered[..n], answered);
      if considered[n].questionId in answered then before else before + [considered[n]]
  }

  /** The questions of a run that were answered before, in order. */
  function Skipped(considered: seq<Question>, answered: set<string>): seq<Question> {
    if considered == [] then []
    else
      var n := |considered| - 1;
      var before := Skipped(considered[..n], answered);
      if considered[n].questionId in answered then before + [considered[n]] else before
  }

  ghost predicate DistinctQuestions(questions: seq<Question>) {
    forall i, j :: 0 <= i < j < |questions| ==> questions[i].questionId != questions[j].questionId
  }

  /** Skipped and remaining questions together are exactly the questions considered. */
  lemma {:induction false} SkippedPlusRemaining(considered: seq<Question>, answered: set<string>)
    ensures |Skipped(considered, answered)| + |Remaining(considered, answered)| == |considered|
    ensures forall q :: q in Remaining(considered, answered) <==> q in considered && q.questionId !in answered
    ensures forall q :: q in Skipped(considered, answered) <==> q in considered && q.questionId in answered
  {
    if considered == [] {
    } else {
      var n := |considered| - 1;
      SkippedPlusRemaining(considered[..n], answered);
      assert considered == considered[..n] + [considered[n]];
    }
  }

  /** Both keep the order of the questions. */
  lemma {:induction false} SplitInOrder(considered: seq<Question>, answered: set<string>)
    ensures Remaining(considered, answered) == Filter(considered, (q: Question) => q.questionId !in answered)
    ensures Skipped(considered, answered) == Filter(considered, (q: Question) => q.questionId in answered)
  {
    if considered == [] {
    } else {
      SplitInOrder(considered[..|considered| - 1], answered);
    }
  }

  lemma {:induction false} RemainingDistinct(considered: seq<Question>, answered: set<string>)
    requires DistinctQuestions(considered)
    ensures DistinctQuestions(Remaining(considered, answered))
  {
    if considered == [] {
    } else {
      var n := |considered| - 1;
      RemainingDistinct(considered[..n], answered);
      SkippedPlusRemaining(considered[..n], answered);
      var before := Remaining(considered[..n], answered);
      forall i | 0 <= i < |before|
        ensures before[i].questionId != considered[n].questionId
      {
        assert before[i] in considered[..n];
      }
    }
  }

  /** The resume filter of main: what is left to ask, and how many were skipped. */
  method SelectQuestions(questions: seq<Question>, maxQuestions: Option<int>, lines: seq<ResultLine>)
    returns (r: Result<seq<Question>, string>, skipped: nat)
    ensures match Considered(questions, maxQuestions)
            case Failure(e) => r == Failure(e)
            case Success(considered) =>
              if !Loadable(lines) then r.Failure? && FailsToLoad(lines, r.error)
              else
                && r == Success(Remaining(considered, AnsweredIds(lines)))
                && skipped == |Skipped(considered, AnsweredIds(lines))|
                && skipped + |r.value| == |considered|
  {
    var considered := Considered(questions, maxQuestions);
    if considered.Failure? {
      return Failure(considered.error), 0;
    }
    var asked := considered.value;
    var loaded := LoadCompletedQuestionIds(lines);
    if loaded.Failure? {
      return Failure(loaded.error), 0;
    }
    var completed := loaded.value;
    var remaining: seq<Question> := [];
    for i := 0 to |asked|
      invariant remaining == Remaining(asked[..i], completed)
    {
      assert asked[..i + 1][..i] == asked[..i];
      if asked[i].questionId !in completed {
        remaining := remaining + [asked[i]];
      }
    }
    assert asked[..|asked|] == asked;
    SkippedPlusRemaining(asked, completed);
    return Success(remaining), |asked| - |remaining|;
  }
}
