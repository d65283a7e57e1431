# Quiz-taking session: a Dafny model

This project models the quiz-taking session of a multiple-choice quiz web app.
It has two parts:

- the zustand store `useQuizStore` (`src/stores/quizStore.ts`);
- the page logic of `QuizPage` (`src/pages/QuizPage.tsx`) that drives the store.

The store holds:

- the loaded questions;
- a cursor, `currentQuestionIndex`;
- an answer ledger of `(question_id, 'A'|'B'|'C'|'D')` entries;
- an elapsed-seconds counter;
- an `isSubmitting` flag;
- the last grading response.

The page adds the flags `isQuizStarted` and `showResults`. It also adds:

- the click handlers and the two callbacks of the grading call;
- the rule that the one-second interval only runs in one state;
- the choice between the start, quiz and results screens;
- the review list, which joins the grading results back onto the loaded
  questions.

Every store action and every page handler is a pure function from the old
state record to the new one. The files are:

- `types.dfy` (`QuizTypes`): the records of `src/types/index.ts`.
- `id_sets.dfy` (`IdSets`): cardinality facts about id sequences.
- `answer_ledger.dfy` (`AnswerLedger`): the `findIndex`/`find`/upsert logic
  behind `setAnswer` and `getAnswerForQuestion`.
- `elapsed_clock.dfy` (`ElapsedClock`): `toString`, `padStart` and the
  `MM:SS` display. It also has a parser for that display, used to state the
  round trip.
- `quiz_store.dfy` (`QuizStore`): the store state and every action.
- `quiz_page.dfy` (`QuizPage`): the page flags, the handlers, the timer gate,
  the review join, and an event machine (`Step`/`Run`) that combines them.

The session invariant `QuizStore.Valid` has two parts:

- the cursor is inside the loaded questions, or 0 when none are loaded;
- ledger ids are unique and are all loaded ids.

Two parts of the code are weaker than one might expect, and the model keeps
them as written:

- `setAnswer` accepts any question id.
- `isQuizComplete` compares counts, not ids.

The page only ever answers the question on screen, so on every run of the
page the ledger stays well formed. There, the count gate means exactly
"every loaded question is answered" (`QuizPage.GateIsAllAnsweredOnEveryRun`).
`QuizStore.CountGateIgnoresIds` shows that the store alone does not ensure
this.

No action raises an error:

- `setQuestions` accepts an empty list.
- `startQuiz` runs on any loaded set, including an empty one, and from any
  state.
- `setAnswer` accepts any id, loaded or not.

There is no lifecycle field. The phase is the combination of
`isQuizStarted`, `isSubmitting`, `showResults` and the stored result.

The review keeps a grading result whose id matches no loaded question. It
is paired with no question rather than dropped.

## Model

| member | source | states |
|---|---|---|
| AnswerLedger.FindIndex | src/stores/quizStore.ts:109-111 | the position of the first entry with the id, or -1 exactly when no entry has it |
| AnswerLedger.Lookup | src/stores/quizStore.ts:126-130 | nothing exactly when the id is not among the ledger's ids; otherwise the option of the first entry with that id |
| AnswerLedger.Upsert | src/stores/quizStore.ts:107-124 | afterwards the id looks up to the new option; every other id looks up as before; the ledger grows by one exactly when the id was absent; its id set gains just that id |
| AnswerLedger.UpsertKeepsUnique | src/stores/quizStore.ts:107-124 | an upsert never creates a second entry for an id |
| AnswerLedger.UpsertIdempotent | src/stores/quizStore.ts:107-124 | repeating the same upsert changes nothing |
| AnswerLedger.UniqueLedgerSize | src/stores/quizStore.ts:107-124 | a duplicate-free ledger has as many entries as answered ids |
| AnswerLedger.UpsertAll | src/stores/quizStore.ts:107-124 | after a sequence of upserts the ledger's ids are the old ids plus those used, and uniqueness is kept |
| AnswerLedger.LedgerSizeIsDistinctIds | src/stores/quizStore.ts:107-124 | however often questions are re-answered, a ledger built from empty has one entry per distinct id used |
| ElapsedClock.NatToString | src/stores/quizStore.ts:160 | `toString()` yields the shortest digit string that denotes n: one digit exactly when n < 10, and no leading zero otherwise |
| ElapsedClock.PadStart | src/stores/quizStore.ts:160 | `padStart` keeps the string as its suffix, prefixes only fill characters, and reaches the width |
| ElapsedClock.TwoDigitField | src/stores/quizStore.ts:160 | a padded field is at least two digits, exactly two below 100, denotes its number, and gets no padding zero once n >= 10 |
| ElapsedClock.FormatFields | src/stores/quizStore.ts:156-161 | the display is a minutes field for the full t/60 (not wrapped), a colon, and a two-digit seconds field for t%60 < 60 |
| ElapsedClock.FormatRoundTrip | src/stores/quizStore.ts:156-161 | parsing the display recovers the elapsed seconds |
| ElapsedClock.FormatZero | src/stores/quizStore.ts:156-161 | a clock at zero seconds is displayed as "00:00" |
| ElapsedClock.FormatInjective | src/stores/quizStore.ts:156-161 | distinct elapsed times give distinct displays |
| QuizStore.GetAnswerForQuestion | src/stores/quizStore.ts:126-130 | null exactly when no ledger entry has the id |
| QuizStore.Initial | src/stores/quizStore.ts:48-55 | the initial state satisfies the invariant, has no answers, is not complete and not submitting |
| QuizStore.SetQuestions | src/stores/quizStore.ts:58-60 | questions replaced, cursor 0, no answers, clock/flag/result kept, invariant established, gate closed |
| QuizStore.StartQuiz | src/stores/quizStore.ts:62-70 | questions and submitting flag kept, cursor 0, no answers, clock 0, result cleared, invariant established |
| QuizStore.ResetQuiz | src/stores/quizStore.ts:72-82 | from any state the result is exactly the initial state |
| QuizStore.GoToQuestion | src/stores/quizStore.ts:85-90 | moves the cursor to the index exactly when it names a loaded question, otherwise no change; keeps the cursor in bounds |
| QuizStore.NextQuestion | src/stores/quizStore.ts:92-97 | +1 while before the last question, otherwise no change; keeps the cursor in bounds |
| QuizStore.PreviousQuestion | src/stores/quizStore.ts:99-104 | -1 while after the first question, otherwise no change; keeps the cursor in bounds |
| QuizStore.SetAnswer | src/stores/quizStore.ts:107-124 | upsert seen through the store: new option found, other lookups unchanged, growth by one exactly when new, nothing else changes, invariant kept for a loaded id |
| QuizStore.SetSubmitting | src/stores/quizStore.ts:133-135 | only the submitting flag changes |
| QuizStore.SetQuizResult | src/stores/quizStore.ts:137-139 | result stored, submitting cleared, nothing else changes |
| QuizStore.SetElapsedTime | src/stores/quizStore.ts:142-144 | only the clock changes |
| QuizStore.IncrementElapsedTime | src/stores/quizStore.ts:146-148 | the clock gains exactly one second, nothing else changes, and the display changes |
| QuizStore.GetFormattedElapsedTime | src/stores/quizStore.ts:156-161 | the display parses back to the elapsed seconds |
| QuizStore.LoadStartCommute | src/stores/quizStore.ts:58-70 | loading questions and starting the quiz commute |
| QuizStore.NextThenPrevious | src/stores/quizStore.ts:92-104 | a step forward then back returns to the same state |
| QuizStore.PreviousThenNext | src/stores/quizStore.ts:92-104 | a step back then forward returns to the same state |
| QuizStore.NavigationClamps | src/stores/quizStore.ts:92-104 | forward at the last and back at the first question are no-ops; navigation never wraps |
| QuizStore.SetAnswerIdempotent | src/stores/quizStore.ts:107-124 | repeating the same `setAnswer` is idempotent |
| QuizStore.CompleteIffAllAnswered | src/stores/quizStore.ts:151-154 | with unique ledger ids that are all loaded and unique question ids, the gate holds exactly when questions exist and every one is answered |
| QuizStore.CountGateIgnoresIds | src/stores/quizStore.ts:151-154 | without that invariant, an answer for an unloaded id opens the gate while a loaded question is unanswered |
| QuizPage.InitialPage | src/pages/QuizPage.tsx:34-35 | the fresh page shows the start screen with the timer off |
| QuizPage.CurrentQuestion | src/pages/QuizPage.tsx:225-227 | on the quiz screen the cursor indexes a loaded question safely |
| QuizPage.HandleStartQuiz | src/pages/QuizPage.tsx:82-87 | the store is started, the page is started and not showing results, the quiz screen shows when questions exist, and the timer runs unless a submission is in flight |
| QuizPage.HandleAnswerSelect | src/pages/QuizPage.tsx:94-96 | the chosen option is recorded for the question, page flags kept |
| QuizPage.HandleSubmitQuiz | src/pages/QuizPage.tsx:98-111 | incomplete: no change and no request; complete: submitting set and the current ledger plus the current display handed over, display parsing back to the clock, timer stopped |
| QuizPage.OnSubmitSuccess | src/pages/QuizPage.tsx:47-51 | result stored, submitting cleared, results screen shown, timer stopped |
| QuizPage.OnSubmitError | src/pages/QuizPage.tsx:52-55 | only the submitting flag is cleared |
| QuizPage.HandleRestartQuiz | src/pages/QuizPage.tsx:113-117 | from any page the result is the fresh page: initial store, both flags false |
| QuizPage.TimerTick | src/pages/QuizPage.tsx:59-73 | a firing adds one second only when started, not showing results and not submitting; otherwise nothing changes |
| QuizPage.TimerTicks | src/pages/QuizPage.tsx:59-73 | n firings add exactly n seconds while enabled and nothing otherwise |
| QuizPage.ClockFrozen | src/pages/QuizPage.tsx:62-66 | while submitting, once results show, or before start, the clock does not move |
| QuizPage.FindQuestion | src/pages/QuizPage.tsx:166 | the first loaded question with the id, or none exactly when no loaded question has it |
| QuizPage.ReviewList | src/pages/QuizPage.tsx:165-166 | one entry per grading result, in result order, each paired with the first loaded question of its id or with none |
| QuizPage.Review | src/pages/QuizPage.tsx:136-166 | on the results screen the review has one entry per stored result, in order; a paired question is a loaded question with the result's id, and an unpaired result has an id no loaded question carries |
| QuizPage.ReviewAfterSuccess | src/pages/QuizPage.tsx:46-50 | after a successful submission the results screen is shown and reviews the response's results against the page's loaded questions |
| QuizPage.ReviewPairsById | src/pages/QuizPage.tsx:165-166 | with unique question ids, a result is paired with a loaded question exactly when their ids agree |
| QuizPage.ReviewFollowsResultOrder | src/pages/QuizPage.tsx:165-166 | results listed as [Q2, Q1] review as [Q2, Q1], not in load order |
| QuizPage.LastQuestionIffNextIsNoop | src/pages/QuizPage.tsx:324-340 | "Submit Quiz" replaces "Next" exactly when moving forward is a no-op |
| QuizPage.FailedSubmissionLosesNothing | src/pages/QuizPage.tsx:52-55 | a submit click followed by a failed grading call gives back the page exactly as before the click |
| QuizPage.SubmissionCoversEveryQuestion | src/pages/QuizPage.tsx:98-111 | under the invariant, the submitted ledger answers every loaded question exactly once |
| QuizPage.Step | src/pages/QuizPage.tsx:82-117 | every page event keeps the session invariant and unique question ids; only an enabled timer firing advances the clock, by one; only the grading callbacks or a restart clear a submission in flight |
| QuizPage.Run | src/pages/QuizPage.tsx:225-228 | after any sequence of events the invariant holds, so the quiz screen's `questions[currentQuestionIndex]` is in bounds |
| QuizPage.GateIsAllAnsweredOnEveryRun | src/pages/QuizPage.tsx:98-102 | on every run from a fresh page, the submission gate is open exactly when every loaded question is answered |
| QuizPage.ThreeQuestionSession | src/pages/QuizPage.tsx:98-111 | with two of three answered the submit is refused and nothing changes; with all three it sends the three answers in the order given with the time "00:00"; success shows the results |

## Left out

- Rendering, JSX, toasts, routing and the "back to questions" navigation: presentation only.
- The loading spinner (`isLoading`), the `refetch` call and the `catch` branch of `handleStartQuiz`. These are fetch plumbing. Question arrival is the explicit `QuestionsLoaded` event. `QuizStore.LoadStartCommute` shows that its order relative to `startQuiz` does not change the resulting state.
- `startTime: new Date()`: a wall-clock value that nothing reads.
- The zustand `create`/`get`/`set` wiring and the React effects. Each action is a pure transition.
- The `setInterval` timer: it is the external `SecondElapsed` event, gated by `TimerEnabled`, not concurrency.
- The progress-bar percentage: floating-point display math.
- The grading call itself and the HTTP services: the request is returned to the caller and the outcome arrives as an event.
- The summary fields of the grading response (totals, score, time taken): carried as an opaque value, only displayed.
- The authentication store and the question-authoring page.
- QuizStore.SetElapsedTime: takes a non-negative whole number. A JavaScript `number` could also be negative or fractional, but the page never calls this action.
- Integer widths: ids and seconds are unbounded integers. JavaScript numbers lose precision beyond 2^53, which a quiz clock never reaches.
