/** The page logic of src/pages/QuizPage.tsx that drives the quiz store: two
    local flags, the click and callback handlers, the timer gate, the screen
    selection and the review join. Rendering is left out. */
module QuizPage {
  import opened QuizTypes
  import opened QuizStore
  import AnswerLedger
  import ElapsedClock
  import IdSets

  /** The store together with the page's `isQuizStarted` and `showResults`. */
  datatype PageState = PageState(store: QuizState, isQuizStarted: bool, showResults: bool)

  /** The three screens the page can render. */
  datatype Screen = StartScreen | QuizScreen | ResultsScreen

  /** What a click on "Submit Quiz" produces: the next page state and, when
      the gate lets it through, the request handed to the grading call. */
  datatype SubmitOutcome = SubmitOutcome(page: PageState, request: Option<SubmissionRequest>)

  /** One entry of the review list: a grading result and the loaded question
      it was matched with, if any. */
  datatype ReviewItem = ReviewItem(question: Option<Question>, result: QuizResult)

  /** The page as first mounted. */
  function InitialPage(): (p: PageState)
    ensures Valid(p.store) && ScreenOf(p) == StartScreen && !TimerEnabled(p)
  {
    PageState(Initial(), false, false)
  }

  /** The screen shown: results once a result is stored and `showResults` is
      set, otherwise the quiz while it is started and has questions,
      otherwise the start screen. */
  function ScreenOf(p: PageState): Screen
  {
    if p.showResults && p.store.lastQuizResult.Some? then ResultsScreen
    else if p.isQuizStarted && |p.store.questions| > 0 then QuizScreen
    else StartScreen
  }

  /** The interval that calls `incrementElapsedTime` runs only in this state. */
  predicate TimerEnabled(p: PageState)
  {
    p.isQuizStarted && !p.showResults && !p.store.isSubmitting
  }

  /** The question the quiz screen shows: `questions[currentQuestionIndex]`,
      which the session invariant keeps in bounds. */
  function CurrentQuestion(p: PageState): (q: Question)
    requires Valid(p.store) && ScreenOf(p) == QuizScreen
    ensures q in p.store.questions && q.id in QuestionIds(p.store.questions)
  {
    var i := p.store.currentQuestionIndex;
    assert QuestionIdSeq(p.store.questions)[i] == p.store.questions[i].id;
    p.store.questions[i]
  }

  /** The quiz screen shows "Submit Quiz" instead of "Next" on the last question. */
  predicate IsLastQuestion(p: PageState)
  {
    p.store.currentQuestionIndex == |p.store.questions| - 1
  }

  /** `handleStartQuiz`: start the store's quiz and show the quiz screen. The
      question fetch that precedes it is the separate `QuestionsLoaded` event. */
  function HandleStartQuiz(p: PageState): (r: PageState)
    ensures r.store == StartQuiz(p.store)
    ensures r.isQuizStarted && !r.showResults
    ensures ScreenOf(r) == if |p.store.questions| > 0 then QuizScreen else StartScreen
    ensures TimerEnabled(r) <==> !p.store.isSubmitting
  {
    PageState(StartQuiz(p.store), true, false)
  }

  /** `handleAnswerSelect`: record the chosen option for a question. */
  function HandleAnswerSelect(p: PageState, questionId: int, choice: Choice): (r: PageState)
    ensures GetAnswerForQuestion(r.store, questionId) == Some(choice)
    ensures r.store == SetAnswer(p.store, questionId, choice)
    ensures r.isQuizStarted == p.isQuizStarted && r.showResults == p.showResults
  {
    p.(store := SetAnswer(p.store, questionId, choice))
  }

  /** `handleSubmitQuiz`: refuse while the quiz is incomplete; otherwise set
      the submitting flag and hand the ledger and the elapsed-time display of
      this moment to the grading call. */
  function HandleSubmitQuiz(p: PageState): (r: SubmitOutcome)
    ensures !IsQuizComplete(p.store) ==> r.page == p && r.request.None?
    ensures IsQuizComplete(p.store) ==>
      && r.page == p.(store := SetSubmitting(p.store, true))
      && r.request == Some(SubmissionRequest(p.store.answers, GetFormattedElapsedTime(p.store)))
    ensures r.request.Some? ==>
      && ElapsedClock.Parse(r.request.value.timeTaken) == Some(p.store.elapsedTime)
      && r.page.store.isSubmitting && !TimerEnabled(r.page)
  {
    if !IsQuizComplete(p.store) then SubmitOutcome(p, None)
    else
      var timeFormatted := GetFormattedElapsedTime(p.store);
      SubmitOutcome(
        p.(store := SetSubmitting(p.store, true)),
        Some(SubmissionRequest(p.store.answers, timeFormatted)))
  }

  /** `onSuccess` of the submission: store the result, which clears the
      submitting flag, and switch to the results screen. */
  function OnSubmitSuccess(p: PageState, response: SubmissionResponse): (r: PageState)
    ensures r.store == SetQuizResult(p.store, response)
    ensures r.showResults && ScreenOf(r) == ResultsScreen && !TimerEnabled(r)
    ensures r.isQuizStarted == p.isQuizStarted
  {
    PageState(SetQuizResult(p.store, response), p.isQuizStarted, true)
  }

  /** `onError` of the submission: only the submitting flag is cleared. */
  function OnSubmitError(p: PageState): (r: PageState)
    ensures r.store == SetSubmitting(p.store, false)
    ensures r.isQuizStarted == p.isQuizStarted && r.showResults == p.showResults
    ensures !r.store.isSubmitting
  {
    p.(store := SetSubmitting(p.store, false))
  }

  /** `handleRestartQuiz`: reset the store and lower both page flags. */
  function HandleRestartQuiz(p: PageState): (r: PageState)
    ensures r == InitialPage()
  {
    PageState(ResetQuiz(p.store), false, false)
  }

  /** One firing of the one-second interval: it exists only while the timer
      is enabled, so in any other state nothing happens. */
  function TimerTick(p: PageState): (r: PageState)
    ensures TimerEnabled(p) ==> r == p.(store := IncrementElapsedTime(p.store))
    ensures !TimerEnabled(p) ==> r == p
  {
    if TimerEnabled(p) then p.(store := IncrementElapsedTime(p.store)) else p
  }

  /** `n` firings of the interval. */
  function TimerTicks(p: PageState, n: nat): (r: PageState)
    ensures TimerEnabled(p) ==> r == p.(store := p.store.(elapsedTime := p.store.elapsedTime + n))
    ensures !TimerEnabled(p) ==> r == p
    decreases n
  {
    if n == 0 then p else TimerTicks(TimerTick(p), n - 1)
  }

  /** `questions.find(q => q.id === id)`: the first loaded question with that
      id, if any. */
  function FindQuestion(qs: seq<Question>, id: int): (r: Option<Question>)
    ensures r.None? <==> forall i :: 0 <= i < |qs| ==> qs[i].id != id
    ensures r.Some? ==>
      exists i :: 0 <= i < |qs| && qs[i] == r.value && r.value.id == id &&
        forall j :: 0 <= j < i ==> qs[j].id != id
    decreases |qs|
  {
    if |qs| == 0 then None
    else if qs[0].id == id then Some(qs[0])
    else
      var r := FindQuestion(qs[1..], id);
      if r.Some? then
        ghost var i :| 0 <= i < |qs[1..]| && qs[1..][i] == r.value && r.value.id == id &&
          forall j :: 0 <= j < i ==> qs[1..][j].id != id;
        assert qs[i + 1] == r.value;
        r
      else
        assert forall i :: 1 <= i < |qs| ==> qs[i] == qs[1..][i - 1];
        r
  }

  /** The "Question Review" list: one entry per grading result, in the
      results' order, each paired with the first loaded question of the same
      id; a result whose id matches no loaded question is kept, unpaired. */
  function ReviewList(qs: seq<Question>, results: seq<QuizResult>): (r: seq<ReviewItem>)
    ensures |r| == |results|
    ensures forall i :: 0 <= i < |r| ==> r[i].result == results[i]
    ensures forall i :: 0 <= i < |r| ==> r[i].question == FindQuestion(qs, results[i].questionId)
    decreases |results|
  {
    if |results| == 0 then []
    else [ReviewItem(FindQuestion(qs, results[0].questionId), results[0])] + ReviewList(qs, results[1..])
  }

  /** The review the results screen renders: the stored results joined onto
      the store's loaded questions. */
  function Review(p: PageState): (r: seq<ReviewItem>)
    requires ScreenOf(p) == ResultsScreen
    ensures |r| == |p.store.lastQuizResult.value.results|
    ensures forall i :: 0 <= i < |r| ==> r[i].result == p.store.lastQuizResult.value.results[i]
    ensures forall i :: 0 <= i < |r| && r[i].question.Some? ==>
      r[i].question.value in p.store.questions && r[i].question.value.id == r[i].result.questionId
    ensures forall i :: 0 <= i < |r| && r[i].question.None? ==>
      r[i].result.questionId !in QuestionIds(p.store.questions)
  {
    ReviewList(p.store.questions, p.store.lastQuizResult.value.results)
  }

  /** After a successful submission the results screen reviews exactly the
      response's results against the questions that were on the page. */
  lemma ReviewAfterSuccess(p: PageState, response: SubmissionResponse)
    ensures ScreenOf(OnSubmitSuccess(p, response)) == ResultsScreen
    ensures Review(OnSubmitSuccess(p, response)) == ReviewList(p.store.questions, response.results)
  {
  }

  /** On the quiz screen "Submit Quiz" replaces "Next" exactly when moving
      forward is no longer possible. */
  lemma LastQuestionIffNextIsNoop(p: PageState)
    requires Valid(p.store) && ScreenOf(p) == QuizScreen
    ensures IsLastQuestion(p) <==> NextQuestion(p.store) == p.store
  {
    if !IsLastQuestion(p) {
      assert NextQuestion(p.store).currentQuestionIndex == p.store.currentQuestionIndex + 1;
    }
  }

  /** A failed grading call after a successful submit click gives back the
      page exactly as it was before the click: answers, clock, cursor and
      questions are all kept. */
  lemma FailedSubmissionLosesNothing(p: PageState)
    requires !p.store.isSubmitting
    ensures OnSubmitError(HandleSubmitQuiz(p).page) == p
  {
  }

  /** Under the session invariant the submitted ledger answers every loaded
      question exactly once. */
  lemma SubmissionCoversEveryQuestion(p: PageState)
    requires Valid(p.store) && QuestionIdsUnique(p.store.questions)
    requires IsQuizComplete(p.store)
    ensures HandleSubmitQuiz(p).request.Some?
    ensures var answers := HandleSubmitQuiz(p).request.value.answers;
      && AnswerLedger.IdsUnique(answers)
      && AnswerLedger.Ids(answers) == QuestionIds(p.store.questions)
  {
    var s := p.store;
    AnswerLedger.UniqueLedgerSize(s.answers);
    IdSets.DistinctCard(QuestionIdSeq(s.questions));
    IdSets.SubsetFull(AnswerLedger.Ids(s.answers), QuestionIds(s.questions));
  }

  /** The clock is frozen while a submission is in flight and once results are
      shown, however many times the interval would have fired. */
  lemma ClockFrozen(p: PageState, n: nat)
    requires p.store.isSubmitting || p.showResults || !p.isQuizStarted
    ensures TimerTicks(p, n) == p
  {
  }

  /** With server-unique question ids, every result whose id is loaded is
      paired with that very question, and the others with none. */
  lemma ReviewPairsById(qs: seq<Question>, results: seq<QuizResult>, i: int, k: int)
    requires QuestionIdsUnique(qs)
    requires 0 <= i < |results| && 0 <= k < |qs|
    ensures results[i].questionId == qs[k].id <==> ReviewList(qs, results)[i].question == Some(qs[k])
  {
  }

  /** The events that reach the page: the fetched questions arriving, the
      user's clicks, the two outcomes of the grading call, and one firing of
      the one-second interval. */
  datatype Event =
    | QuestionsLoaded(qs: seq<Question>)
    | StartClicked
    | QuestionPicked(index: int)
    | NextClicked
    | PreviousClicked
    | OptionChosen(choice: Choice)
    | SubmitClicked
    | SubmitSucceeded(response: SubmissionResponse)
    | SubmitFailed
    | SecondElapsed
    | RestartClicked

  /** Loaded question sets carry server-unique ids. */
  predicate LoadsUniqueIds(e: Event)
  {
    e.QuestionsLoaded? ==> QuestionIdsUnique(e.qs)
  }

  /** The page's reaction to one event. Clicks reach a handler only from the
      screen that shows the button, and only while the button is enabled;
      the option buttons answer the question on screen. */
  function Step(p: PageState, e: Event): (r: PageState)
    requires Valid(p.store)
    ensures Valid(r.store)
    ensures LoadsUniqueIds(e) && QuestionIdsUnique(p.store.questions) ==> QuestionIdsUnique(r.store.questions)
    ensures r.store.elapsedTime > p.store.elapsedTime ==>
      e.SecondElapsed? && TimerEnabled(p) && r.store.elapsedTime == p.store.elapsedTime + 1
    ensures p.store.isSubmitting && !e.SubmitSucceeded? && !e.SubmitFailed? && !e.RestartClicked? ==>
      r.store.isSubmitting
  {
    var screen := ScreenOf(p);
    match e
    case QuestionsLoaded(qs) => p.(store := SetQuestions(p.store, qs))
    case StartClicked => if screen == StartScreen then HandleStartQuiz(p) else p
    case QuestionPicked(index) =>
      if screen == QuizScreen then p.(store := GoToQuestion(p.store, index)) else p
    case NextClicked =>
      if screen == QuizScreen && !IsLastQuestion(p) then p.(store := NextQuestion(p.store)) else p
    case PreviousClicked =>
      if screen == QuizScreen && p.store.currentQuestionIndex != 0 then
        p.(store := PreviousQuestion(p.store))
      else p
    case OptionChosen(choice) =>
      if screen == QuizScreen then HandleAnswerSelect(p, CurrentQuestion(p).id, choice) else p
    case SubmitClicked =>
      if screen == QuizScreen && IsLastQuestion(p) && !p.store.isSubmitting then
        HandleSubmitQuiz(p).page
      else p
    case SubmitSucceeded(response) => OnSubmitSuccess(p, response)
    case SubmitFailed => OnSubmitError(p)
    case SecondElapsed => TimerTick(p)
    case RestartClicked => if screen == ResultsScreen then HandleRestartQuiz(p) else p
  }

  /** The page after a sequence of events. */
  function Run(p: PageState, es: seq<Event>): (r: PageState)
    requires Valid(p.store)
    ensures Valid(r.store)
    ensures (forall i :: 0 <= i < |es| ==> LoadsUniqueIds(es[i])) && QuestionIdsUnique(p.store.questions) ==>
      QuestionIdsUnique(r.store.questions)
    decreases |es|
  {
    if |es| == 0 then p else Run(Step(p, es[0]), es[1..])
  }

  /** On every run from a fresh page, the count-based submission gate is open
      exactly when every loaded question has been answered. */
  lemma GateIsAllAnsweredOnEveryRun(es: seq<Event>)
    requires forall i :: 0 <= i < |es| ==> LoadsUniqueIds(es[i])
    ensures var p := Run(InitialPage(), es);
      IsQuizComplete(p.store) <==> |p.store.questions| > 0 && AllAnswered(p.store)
  {
    var p := Run(InitialPage(), es);
    assert QuestionIdsUnique(InitialPage().store.questions);
    CompleteIffAllAnswered(p.store);
  }

  /** Three questions, two answered: the submit click is refused and nothing
      changes. After the third answer it goes through with all three answers
      in the order given, and a successful grading shows the results. */
  lemma ThreeQuestionSession(q1: Question, q2: Question, q3: Question, response: SubmissionResponse)
    requires q1.id != q2.id && q2.id != q3.id && q1.id != q3.id
    ensures var p1 := HandleStartQuiz(PageState(SetQuestions(Initial(), [q1, q2, q3]), false, false));
      var p2 := HandleAnswerSelect(HandleAnswerSelect(p1, q1.id, A), q2.id, B);
      var p3 := HandleAnswerSelect(p2, q3.id, C);
      && HandleSubmitQuiz(p2) == SubmitOutcome(p2, None)
      && HandleSubmitQuiz(p3).request ==
           Some(SubmissionRequest([Answer(q1.id, A), Answer(q2.id, B), Answer(q3.id, C)], "00:00"))
      && ScreenOf(OnSubmitSuccess(HandleSubmitQuiz(p3).page, response)) == ResultsScreen
  {
    var p1 := HandleStartQuiz(PageState(SetQuestions(Initial(), [q1, q2, q3]), false, false));
    var pa := HandleAnswerSelect(p1, q1.id, A);
    assert pa.store.answers == [Answer(q1.id, A)];
    var p2 := HandleAnswerSelect(pa, q2.id, B);
    assert p2.store.answers == [Answer(q1.id, A), Answer(q2.id, B)];
    var p3 := HandleAnswerSelect(p2, q3.id, C);
    assert p3.store.answers == [Answer(q1.id, A), Answer(q2.id, B), Answer(q3.id, C)];
    ElapsedClock.FormatZero();
  }

  /** The review follows the order of the grading results, not the order in
      which the questions were loaded. */
  lemma ReviewFollowsResultOrder(q1: Question, q2: Question, r1: QuizResult, r2: QuizResult)
    requires q1.id != q2.id && r1.questionId == q1.id && r2.questionId == q2.id
    ensures ReviewList([q1, q2], [r2, r1]) == [ReviewItem(Some(q2), r2), ReviewItem(Some(q1), r1)]
  {
    var qs := [q1, q2];
    assert FindQuestion(qs, q1.id) == Some(q1);
    assert FindQuestion(qs, q2.id) == Some(q2) by {
      assert FindQuestion(qs[1..], q2.id) == Some(q2);
    }
  }
}
