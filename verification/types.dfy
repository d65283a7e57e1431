/** Data types of the quiz-taking session (src/types/index.ts). */
module QuizTypes {
  import IdSets

  /** A value that may be absent (`T | null` in the source). */
  datatype Option<+T> = None | Some(value: T)

  /** The four option labels `'A' | 'B' | 'C' | 'D'`. */
  datatype Choice = A | B | C | D

  /** A question as held during a quiz: `QuizQuestion` without `correct_answer`
      and `created_by`, which the quiz endpoint withholds. */
  datatype Question = Question(
    id: int,
    questionText: string,
    optionA: string,
    optionB: string,
    optionC: string,
    optionD: string,
    createdAt: string,
    updatedAt: string)

  /** One entry of the answer ledger (`QuizAnswer`). */
  datatype Answer = Answer(questionId: int, selectedAnswer: Choice)

  /** The backend's marking of one answered question (`QuizResult`). */
  datatype QuizResult = QuizResult(
    questionId: int,
    selectedAnswer: Choice,
    correctAnswer: Choice,
    isCorrect: bool)

  /** The grading summary: produced by the server, only displayed, never
      interpreted by the session. */
  datatype GradeSummary = GradeSummary(
    totalQuestions: int,
    correctAnswers: int,
    score: real,
    timeTaken: string)

  /** `QuizSubmissionResponse`: the opaque summary plus the per-question results. */
  datatype SubmissionResponse = SubmissionResponse(summary: GradeSummary, results: seq<QuizResult>)

  /** `QuizSubmissionRequest`: what is handed to the grading call. */
  datatype SubmissionRequest = SubmissionRequest(answers: seq<Answer>, timeTaken: string)

  /** The ids of a question sequence, in order. */
  function QuestionIdSeq(qs: seq<Question>): (ids: seq<int>)
    ensures |ids| == |qs|
    ensures forall i :: 0 <= i < |qs| ==> ids[i] == qs[i].id
  {
    seq(|qs|, i requires 0 <= i < |qs| => qs[i].id)
  }

  /** The set of loaded question ids. */
  function QuestionIds(qs: seq<Question>): set<int>
  {
    IdSets.Elems(QuestionIdSeq(qs))
  }

  /** Server-assigned question ids are unique; the session assumes, never checks, this. */
  predicate QuestionIdsUnique(qs: seq<Question>)
  {
    IdSets.Distinct(QuestionIdSeq(qs))
  }
}
