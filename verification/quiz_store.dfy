/** The quiz-taking store of src/stores/quizStore.ts: one immutable record and
    one pure transition per action. The zustand `set`/`get` wiring becomes
    "take the old record, return the new one". */
module QuizStore {
  import opened QuizTypes
  import AnswerLedger
  import ElapsedClock
  import IdSets

  /** The store's state. `startTime` is left out: it is a wall-clock value
      that nothing reads. */
  datatype QuizState = QuizState(
    questions: seq<Question>,
    currentQuestionIndex: int,
    answers: seq<Answer>,
    isSubmitting: bool,
    lastQuizResult: Option<SubmissionResponse>,
    elapsedTime: nat)

  /** The cursor points at a loaded question, or is 0 when none are loaded. */
  predicate CursorInBounds(s: QuizState)
  {
    || 0 <= s.currentQuestionIndex < |s.questions|
    || (s.currentQuestionIndex == 0 && |s.questions| == 0)
  }

  /** Every ledger entry belongs to a distinct loaded question. */
  predicate LedgerWellFormed(s: QuizState)
  {
    && AnswerLedger.IdsUnique(s.answers)
    && AnswerLedger.Ids(s.answers) <= QuestionIds(s.questions)
  }

  /** The session invariant. */
  predicate Valid(s: QuizState)
  {
    CursorInBounds(s) && LedgerWellFormed(s)
  }

  /** `isQuizComplete`: the submission gate. It compares counts only. */
  predicate IsQuizComplete(s: QuizState)
  {
    |s.answers| == |s.questions| && |s.questions| > 0
  }

  /** `getAnswerForQuestion`: the option recorded for `id`, if any. */
  function GetAnswerForQuestion(s: QuizState, id: int): (r: Option<Choice>)
    ensures r.None? <==> forall i :: 0 <= i < |s.answers| ==> s.answers[i].questionId != id
  {
    var r := AnswerLedger.Lookup(s.answers, id);
    assert r.None? <==> id !in AnswerLedger.Ids(s.answers);
    assert forall i :: 0 <= i < |s.answers| ==> s.answers[i].questionId == AnswerLedger.AnswerIds(s.answers)[i];
    r
  }

  /** "Every loaded question has an answer." */
  predicate AllAnswered(s: QuizState)
  {
    forall i :: 0 <= i < |s.questions| ==> GetAnswerForQuestion(s, s.questions[i].id).Some?
  }

  /** The state the store is created in. */
  function Initial(): (s: QuizState)
    ensures Valid(s) && !IsQuizComplete(s)
    ensures forall id :: GetAnswerForQuestion(s, id).None?
    ensures !s.isSubmitting && s.lastQuizResult.None? && s.elapsedTime == 0
  {
    QuizState([], 0, [], false, None, 0)
  }

  /** `setQuestions`: load a question sequence, rewind the cursor and clear the
      ledger; the clock, the submitting flag and the result are kept. */
  function SetQuestions(s: QuizState, qs: seq<Question>): (r: QuizState)
    ensures r.questions == qs && r.currentQuestionIndex == 0
    ensures forall id :: GetAnswerForQuestion(r, id).None?
    ensures r.elapsedTime == s.elapsedTime && r.isSubmitting == s.isSubmitting
    ensures r.lastQuizResult == s.lastQuizResult
    ensures Valid(r) && !IsQuizComplete(r)
  {
    s.(questions := qs, currentQuestionIndex := 0, answers := [])
  }

  /** `startQuiz`: rewind the cursor, clear the ledger, zero the clock and drop
      any previous result, on whatever questions are loaded. The submitting
      flag is not touched. */
  function StartQuiz(s: QuizState): (r: QuizState)
    ensures r.questions == s.questions && r.currentQuestionIndex == 0
    ensures forall id :: GetAnswerForQuestion(r, id).None?
    ensures r.elapsedTime == 0 && r.lastQuizResult.None?
    ensures r.isSubmitting == s.isSubmitting
    ensures Valid(r) && !IsQuizComplete(r)
  {
    s.(currentQuestionIndex := 0, answers := [], elapsedTime := 0, lastQuizResult := None)
  }

  /** `resetQuiz`: every field back to its initial value. */
  function ResetQuiz(s: QuizState): (r: QuizState)
    ensures r == Initial()
  {
    QuizState(
      questions := [],
      currentQuestionIndex := 0,
      answers := [],
      isSubmitting := false,
      lastQuizResult := None,
      elapsedTime := 0)
  }

  /** `goToQuestion`: jump to `index` when it names a loaded question; any
      other index is silently ignored. */
  function GoToQuestion(s: QuizState, index: int): (r: QuizState)
    ensures 0 <= index < |s.questions| ==> r == s.(currentQuestionIndex := index)
    ensures !(0 <= index < |s.questions|) ==> r == s
    ensures CursorInBounds(s) ==> CursorInBounds(r)
  {
    if index >= 0 && index < |s.questions| then s.(currentQuestionIndex := index) else s
  }

  /** `nextQuestion`: one step forward unless already at the last question. */
  function NextQuestion(s: QuizState): (r: QuizState)
    ensures s.currentQuestionIndex < |s.questions| - 1 ==>
      r == s.(currentQuestionIndex := s.currentQuestionIndex + 1)
    ensures s.currentQuestionIndex >= |s.questions| - 1 ==> r == s
    ensures CursorInBounds(s) ==> CursorInBounds(r)
  {
    if s.currentQuestionIndex < |s.questions| - 1 then
      s.(currentQuestionIndex := s.currentQuestionIndex + 1)
    else s
  }

  /** `previousQuestion`: one step back unless already at the first question. */
  function PreviousQuestion(s: QuizState): (r: QuizState)
    ensures s.currentQuestionIndex > 0 ==>
      r == s.(currentQuestionIndex := s.currentQuestionIndex - 1)
    ensures s.currentQuestionIndex <= 0 ==> r == s
    ensures CursorInBounds(s) ==> CursorInBounds(r)
  {
    if s.currentQuestionIndex > 0 then
      s.(currentQuestionIndex := s.currentQuestionIndex - 1)
    else s
  }

  /** `setAnswer`: upsert into the ledger. The id is not checked against the
      loaded questions. */
  function SetAnswer(s: QuizState, id: int, choice: Choice): (r: QuizState)
    ensures GetAnswerForQuestion(r, id) == Some(choice)
    ensures forall other :: other != id ==>
      GetAnswerForQuestion(r, other) == GetAnswerForQuestion(s, other)
    ensures |r.answers| == if GetAnswerForQuestion(s, id).None? then |s.answers| + 1 else |s.answers|
    ensures r.(answers := s.answers) == s
    ensures AnswerLedger.IdsUnique(s.answers) ==> AnswerLedger.IdsUnique(r.answers)
    ensures Valid(s) && id in QuestionIds(s.questions) ==> Valid(r)
  {
    AnswerLedger.UpsertKeepsUnique(s.answers, id, choice);
    s.(answers := AnswerLedger.Upsert(s.answers, id, choice))
  }

  /** `setSubmitting`: only the flag changes. */
  function SetSubmitting(s: QuizState, submitting: bool): (r: QuizState)
    ensures r.isSubmitting == submitting
    ensures r.(isSubmitting := s.isSubmitting) == s
  {
    s.(isSubmitting := submitting)
  }

  /** `setQuizResult`: store the grading response and clear the flag. */
  function SetQuizResult(s: QuizState, result: SubmissionResponse): (r: QuizState)
    ensures r.lastQuizResult == Some(result) && !r.isSubmitting
    ensures r.(lastQuizResult := s.lastQuizResult, isSubmitting := s.isSubmitting) == s
  {
    s.(lastQuizResult := Some(result), isSubmitting := false)
  }

  /** `setElapsedTime`: overwrite the clock. */
  function SetElapsedTime(s: QuizState, time: nat): (r: QuizState)
    ensures r.elapsedTime == time
    ensures r.(elapsedTime := s.elapsedTime) == s
  {
    s.(elapsedTime := time)
  }

  /** `incrementElapsedTime`: one more second; the display changes with it. */
  function IncrementElapsedTime(s: QuizState): (r: QuizState)
    ensures r.elapsedTime == s.elapsedTime + 1
    ensures r.(elapsedTime := s.elapsedTime) == s
    ensures GetFormattedElapsedTime(r) != GetFormattedElapsedTime(s)
  {
    ElapsedClock.FormatInjective(s.elapsedTime + 1, s.elapsedTime);
    s.(elapsedTime := s.elapsedTime + 1)
  }

  /** `getFormattedElapsedTime`: the `MM:SS` display, from which the elapsed
      seconds can be read back. */
  function GetFormattedElapsedTime(s: QuizState): (r: string)
    ensures ElapsedClock.Parse(r) == Some(s.elapsedTime)
  {
    ElapsedClock.FormatRoundTrip(s.elapsedTime);
    ElapsedClock.Format(s.elapsedTime)
  }

  /** Loading questions and starting the quiz commute, so the order in which
      the fetched questions and the start action reach the store does not
      matter. */
  lemma LoadStartCommute(s: QuizState, qs: seq<Question>)
    ensures StartQuiz(SetQuestions(s, qs)) == SetQuestions(StartQuiz(s), qs)
  {
  }

  /** A step forward followed by a step back returns to the same state. */
  lemma NextThenPrevious(s: QuizState)
    requires 0 <= s.currentQuestionIndex < |s.questions| - 1
    ensures PreviousQuestion(NextQuestion(s)) == s
  {
  }

  /** A step back followed by a step forward returns to the same state. */
  lemma PreviousThenNext(s: QuizState)
    requires CursorInBounds(s) && s.currentQuestionIndex > 0
    ensures NextQuestion(PreviousQuestion(s)) == s
  {
  }

  /** Navigation never wraps: forward at the last question and back at the
      first are no-ops. */
  lemma NavigationClamps(s: QuizState)
    requires Valid(s) && |s.questions| > 0
    ensures s.currentQuestionIndex == |s.questions| - 1 ==> NextQuestion(s) == s
    ensures s.currentQuestionIndex == 0 ==> PreviousQuestion(s) == s
    ensures NextQuestion(s).currentQuestionIndex >= s.currentQuestionIndex
    ensures PreviousQuestion(s).currentQuestionIndex <= s.currentQuestionIndex
  {
  }

  /** Repeating an identical `setAnswer` call changes nothing further. */
  lemma SetAnswerIdempotent(s: QuizState, id: int, choice: Choice)
    ensures SetAnswer(SetAnswer(s, id, choice), id, choice) == SetAnswer(s, id, choice)
  {
    AnswerLedger.UpsertIdempotent(s.answers, id, choice);
  }

  /** Under the session invariant, with server-unique question ids, the
      count-based gate holds exactly when every loaded question has an
      answer. */
  lemma CompleteIffAllAnswered(s: QuizState)
    requires LedgerWellFormed(s) && QuestionIdsUnique(s.questions)
    ensures IsQuizComplete(s) <==> |s.questions| > 0 && AllAnswered(s)
  {
    var answered, loaded := AnswerLedger.Ids(s.answers), QuestionIds(s.questions);
    AnswerLedger.UniqueLedgerSize(s.answers);
    IdSets.DistinctCard(QuestionIdSeq(s.questions));
    assert |answered| == |s.answers| && |loaded| == |s.questions|;
    forall i | 0 <= i < |s.questions|
      ensures GetAnswerForQuestion(s, s.questions[i].id).Some? <==> s.questions[i].id in answered
    {
      assert AnswerLedger.Lookup(s.answers, s.questions[i].id).None? <==> s.questions[i].id !in answered;
    }
    if IsQuizComplete(s) {
      IdSets.SubsetFull(answered, loaded);
      forall i | 0 <= i < |s.questions|
        ensures s.questions[i].id in answered
      {
        assert QuestionIdSeq(s.questions)[i] in loaded;
      }
    }
    if |s.questions| > 0 && AllAnswered(s) {
      assert loaded <= answered by {
        forall id | id in loaded
          ensures id in answered
        {
          var i :| 0 <= i < |s.questions| && QuestionIdSeq(s.questions)[i] == id;
          assert GetAnswerForQuestion(s, s.questions[i].id).Some?;
        }
      }
      IdSets.SubsetCard(loaded, answered);
      IdSets.SubsetCard(answered, loaded);
    }
  }

  /** Without the invariant the gate is only a count: an answer recorded for
      an id that is not loaded lets a quiz with an unanswered question pass. */
  lemma CountGateIgnoresIds(q1: Question, q2: Question, stray: int)
    requires q1.id != q2.id && stray != q1.id && stray != q2.id
    ensures var s := SetAnswer(SetAnswer(SetQuestions(Initial(), [q1, q2]), q1.id, A), stray, B);
      IsQuizComplete(s) && GetAnswerForQuestion(s, q2.id).None? && !LedgerWellFormed(s)
  {
    var s0 := SetQuestions(Initial(), [q1, q2]);
    var s1 := SetAnswer(s0, q1.id, A);
    var s2 := SetAnswer(s1, stray, B);
    assert stray in AnswerLedger.Ids(s2.answers);
    assert stray !in QuestionIds(s2.questions) by {
      assert QuestionIdSeq(s2.questions) == [q1.id, q2.id];
    }
  }
}
