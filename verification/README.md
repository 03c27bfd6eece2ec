# Quiz engine model

A Dafny model of the quiz logic inside the quiz-app React client. The client
fetches multiple-choice questions from a trivia API, shows them one at a time
with a shuffled answer list and a 30-second countdown, scores the attempt, and
keeps a history of at most 50 finished quizzes in browser storage.

The model treats every event handler as one atomic transition over immutable
records:

- `App`: the session record (`start` → `quiz` → `results`), `fetchQuizQuestions`
  once its response is in, `handleAnswer`, `finishQuiz`, `handleRetakeQuiz`,
  `handleNewQuiz`, what the app renders (`ScreenOf`) and which actions each
  screen offers (`Enabled`, `Apply`), including "Clear History" in the history
  dialog that the start screen opens. The invariant `Valid` says that during a
  quiz there is one result per answered question, each result records the
  question at its own position, and the score is the number of correct results.
- `QuizHistory`: the capped newest-first history (`unshift`, then one `pop`
  past 50 entries), `clearHistory`, `getStats` and the colour of the progress bar.
- `ScoreSummary`: the per-question result, the performance tier, the star
  badge and the review list.
- `QuestionCard`: the Durstenfeld shuffle with the random draws given as input,
  loading a question, selecting, `handleSubmit`, the timer effect, the
  one-shot lock and `getAnswerClass`.
- `QuizStart`: the 1..50 range check of `handleStartQuiz`, the default form,
  and the case-insensitive category search.
- `Scoring`: `Math.round` of a quotient as integer round-half-up.
- `Text`: ASCII lower-casing and substring search.
- `Common`: `Option`.

Inputs that the source takes from the environment are parameters. The network
response is a `FetchOutcome`, either a response code with a list of questions or
a transport failure. `Date.now()` and `toISOString()` become a `Stamp`. Each
`Math.random()` draw of the shuffle is a position in `picks`. The stored history
is `Option<seq<Entry>>`, with `None` for an absent key. The `confirm()` answer is
a boolean. A `TimerFires` event is one timer expiry together with the effect run
it triggers. When the expiry empties the clock, that effect submits at once, so a
card never waits at 0 seconds for another event.

## Model

| member | source | states |
|---|---|---|
| `Text.LowerChar` | quiz-app/quiz-app/src/app/components/QuizStart.tsx:47 | an upper-case ASCII letter becomes the letter 32 code points above it, every other character is kept, and the result is never upper case |
| `Text.Lower` | quiz-app/quiz-app/src/app/components/QuizStart.tsx:47 | lower-casing keeps the length and maps each character independently |
| `Text.LowerIdempotent` | quiz-app/quiz-app/src/app/components/QuizStart.tsx:47 | lower-casing an already lower-cased string changes nothing |
| `Text.LowerIgnoresCase` | quiz-app/quiz-app/src/app/components/QuizStart.tsx:47 | strings that differ only in the case of ASCII letters lower-case to the same string |
| `Text.ContainsIffOccurs` | quiz-app/quiz-app/src/app/components/QuizStart.tsx:47 | the search `includes` succeeds exactly when the term occurs at some position of the name |
| `Scoring.RoundHalfUp` | quiz-app/quiz-app/src/app/components/QuizHistory.tsx:53 | `Math.round(n/d)` is an integer r with r - 1/2 <= n/d < r + 1/2 |
| `Scoring.RoundHalfUpUnique` | quiz-app/quiz-app/src/app/components/QuizHistory.tsx:53 | that bracket determines the rounded value uniquely |
| `Scoring.Percentage` | quiz-app/quiz-app/src/app/components/ScoreSummary.tsx:25 | the percentage is score/total*100 rounded half up; it lies in [0, 100] when 0 <= score <= total, is 100 for a perfect score and 0 for none |
| `Scoring.RoundedMeanAtMost` | quiz-app/quiz-app/src/app/components/QuizHistory.tsx:43-53 | a rounded mean never exceeds an integer bound on every summand |
| `ScoreSummary.CountCorrect` | quiz-app/quiz-app/src/app/App.tsx:74-76 | the correct count is at most the number of results, and equals it exactly when every result is correct |
| `ScoreSummary.CountCorrectAppend` | quiz-app/quiz-app/src/app/App.tsx:64-76 | appending a result raises the correct count by one exactly for a correct result |
| `ScoreSummary.PerformanceTier` | quiz-app/quiz-app/src/app/components/ScoreSummary.tsx:27-32 | exactly one message: >= 90 Outstanding, [70, 90) Great Job, [50, 70) Good Effort, < 50 Keep Practicing |
| `ScoreSummary.TierMonotone` | quiz-app/quiz-app/src/app/components/ScoreSummary.tsx:28-31 | a higher percentage never yields a lower message |
| `ScoreSummary.StarExactlyForTopTiers` | quiz-app/quiz-app/src/app/components/ScoreSummary.tsx:51 | the star badge appears exactly for the Outstanding and Great Job messages |
| `ScoreSummary.ReviewRows` | quiz-app/quiz-app/src/app/components/ScoreSummary.tsx:107-136 | one review row per result, in order, numbered index+1; the "Your answer" line, with the selected answer, appears exactly for incorrect results |
| `ScoreSummary.AnswerLinesCountMisses` | quiz-app/quiz-app/src/app/components/ScoreSummary.tsx:131-136 | the review shows as many "Your answer" lines as results minus correct results |
| `QuizHistory.AddEntry` | quiz-app/quiz-app/src/app/App.tsx:100-107 | the new entry is first and the previous entries follow in order; below the cap nothing is dropped, at or over the cap exactly the oldest one is, so a history of at most 50 stays at most 50 |
| `QuizHistory.AddEntryKeepsNewest` | quiz-app/quiz-app/src/app/App.tsx:102-107 | on a history within the cap, adding keeps exactly the newest 50 of the entry followed by the history |
| `QuizHistory.AddAllKeepsNewest` | quiz-app/quiz-app/src/app/App.tsx:102-107 | after any number of finished quizzes the history is exactly the newest 50 of all entries recorded, newest first, so the oldest are evicted first |
| `QuizHistory.ClearHistory` | quiz-app/quiz-app/src/app/components/QuizHistory.tsx:32-37 | a confirmed clear leaves an empty list and no storage key; a declined one changes nothing |
| `QuizHistory.BestPercent` | quiz-app/quiz-app/src/app/components/QuizHistory.tsx:45 | the best score is at least every entry's percentage and equals some entry's percentage |
| `QuizHistory.GetStats` | quiz-app/quiz-app/src/app/components/QuizHistory.tsx:39-57 | no statistics exactly for an empty history; otherwise the count is the length, the best score is the maximum percentage, the average is the mean percentage rounded half up and never exceeds the best, and the question count is the sum of the entries' totals |
| `QuizHistory.ClearedHistoryHasNoStats` | quiz-app/quiz-app/src/app/components/QuizHistory.tsx:32-40 | after a confirmed clear neither the shown list nor the storage yields statistics |
| `QuizHistory.ColourOf` | quiz-app/quiz-app/src/app/components/QuizHistory.tsx:159-165 | exactly one colour: >= 70 green, [50, 70) yellow, < 50 red |
| `App.BarColourAgreesWithTier` | quiz-app/quiz-app/src/app/components/QuizHistory.tsx:159-165 | a history bar is green exactly when the summary would show the star, yellow exactly for "Good Effort" and red exactly for "Keep Practicing" |
| `QuestionCard.Swap` | quiz-app/quiz-app/src/app/components/QuestionCard.tsx:56 | the destructuring swap exchanges positions i and j and keeps every other position |
| `QuestionCard.SwapPermutes` | quiz-app/quiz-app/src/app/components/QuestionCard.tsx:56 | a swap keeps the multiset of answers |
| `QuestionCard.ShufflePass` | quiz-app/quiz-app/src/app/components/QuestionCard.tsx:54-57 | the swaps from position i down to 1 keep the length and leave every position above i untouched |
| `QuestionCard.ShufflePassPermutes` | quiz-app/quiz-app/src/app/components/QuestionCard.tsx:54-57 | the descending sequence of swaps keeps the multiset of answers |
| `QuestionCard.Shuffled` | quiz-app/quiz-app/src/app/components/QuestionCard.tsx:52-59 | the shuffle returns a list of the same length and the same multiset, for any draws j in [0, i] |
| `QuestionCard.ShuffleArray` | quiz-app/quiz-app/src/app/components/QuestionCard.tsx:52-59 | the in-place loop yields a permutation of its input and agrees with the recursive definition of the shuffle |
| `QuestionCard.IdentityPicksKeepOrder` | quiz-app/quiz-app/src/app/components/QuestionCard.tsx:54-57 | when every draw picks the visited position the order is unchanged |
| `QuestionCard.LoadQuestion` | quiz-app/quiz-app/src/app/components/QuestionCard.tsx:31-41 | after a question loads, the answers are the incorrect answers plus the correct one, as a multiset, with length incorrect+1; nothing is selected, feedback is off and 30 seconds remain |
| `QuestionCard.Select` | quiz-app/quiz-app/src/app/components/QuestionCard.tsx:141-142 | a click selects the answer while no feedback is shown and is ignored afterwards |
| `QuestionCard.HandleSubmit` | quiz-app/quiz-app/src/app/components/QuestionCard.tsx:67-76 | submitting with no selection while time is left does nothing; otherwise feedback turns on and the report is correct exactly when the selection is the correct answer, with an empty selection reported as "No answer" |
| `QuestionCard.Tick` | quiz-app/quiz-app/src/app/components/QuestionCard.tsx:43-50 | while more than one second remains an expiry takes exactly one second off; the expiry that empties the clock submits at once, locking the card and reporting the selection or "No answer"; under feedback nothing happens |
| `QuestionCard.Step` | quiz-app/quiz-app/src/app/components/QuestionCard.tsx:141-176 | every event keeps the card consistent and its question and answers; under feedback no click, submit or expiry changes the card; a click reports nothing and selects its answer while no feedback is shown; the submit button reports exactly when there is no feedback and a selection; every report comes with the feedback lock |
| `QuestionCard.Run` | quiz-app/quiz-app/src/app/components/QuestionCard.tsx:43-176 | any sequence of events keeps the card consistent and its question and answers unchanged |
| `QuestionCard.RunSubmitsAtMostOnce` | quiz-app/quiz-app/src/app/components/QuestionCard.tsx:43-76 | along any sequence of events a question reports at most one answer, none once feedback is shown |
| `QuestionCard.CountdownThenAutoSubmit` | quiz-app/quiz-app/src/app/components/QuestionCard.tsx:43-50 | left alone the clock falls by one per expiry without reporting, and after exactly timeLeft expiries the card is locked at 0 and has reported once |
| `QuestionCard.AutoSubmitAfterCountdown` | quiz-app/quiz-app/src/app/components/QuestionCard.tsx:43-50 | timeLeft expiries from any running card leave it locked at 0 seconds, having reported the selection exactly once |
| `QuestionCard.FreshCardTimesOutOnThirtiethTick` | quiz-app/quiz-app/src/app/components/QuestionCard.tsx:31-50 | a freshly loaded question left alone reports nothing in 29 seconds and reports "No answer" after 30 |
| `QuestionCard.TimeoutWithoutSelection` | quiz-app/quiz-app/src/app/components/QuestionCard.tsx:43-74 | the expiry of the last second with nothing selected reports "No answer" as incorrect |
| `QuestionCard.AnswerLook` | quiz-app/quiz-app/src/app/components/QuestionCard.tsx:78-94 | before feedback only the selection is highlighted; under feedback the correct answer is marked correct, a selected wrong answer is marked wrong, every other answer is neutral |
| `QuestionCard.WrongMarkAgreesWithSubmission` | quiz-app/quiz-app/src/app/components/QuestionCard.tsx:85-93 | after submitting a listed selection, some answer is marked wrong exactly when the reported answer is incorrect |
| `QuizStart.HandleStartQuiz` | quiz-app/quiz-app/src/app/components/QuizStart.tsx:38-44 | a count outside 1..50 sets the range error and starts nothing; a count inside asks for exactly the selected count, category and difficulty |
| `QuizStart.DefaultsStartAQuiz` | quiz-app/quiz-app/src/app/components/QuizStart.tsx:15-17 | the default form (category 9, medium, 10 questions) is a valid start request |
| `QuizStart.FilterCategories` | quiz-app/quiz-app/src/app/components/QuizStart.tsx:46-48 | the filtered list is an order-preserving subsequence holding every matching category as often as it occurs and nothing else, a match being a lower-cased name that includes the lower-cased term |
| `QuizStart.MatchIgnoresTermCase` | quiz-app/quiz-app/src/app/components/QuizStart.tsx:46-48 | a search term and its lower case match the same categories |
| `QuizStart.EmptySearchKeepsAll` | quiz-app/quiz-app/src/app/components/QuizStart.tsx:47 | an empty search term keeps every category |
| `App.FetchQuizQuestions` | quiz-app/quiz-app/src/app/App.tsx:32-57 | response code 0 starts a quiz at index 0 with score 0, no results, the returned questions, the config recorded and no error; another code or a network failure only sets the matching error |
| `App.DifficultyOf` | quiz-app/quiz-app/src/app/App.tsx:94 | the recorded difficulty, or the empty string when no config is recorded |
| `App.HistoryEntry` | quiz-app/quiz-app/src/app/App.tsx:90-98 | the entry carries the stamp's id and date, the first question's category, the recorded difficulty, the final score, the number of questions and the rounded percentage of the two, which is in [0, 100] when 0 <= score <= total |
| `App.FinishQuiz` | quiz-app/quiz-app/src/app/App.tsx:86-110 | finishing switches to results and stores the history with the new entry added, changing nothing else |
| `App.HandleAnswer` | quiz-app/quiz-app/src/app/App.tsx:60-84 | the results grow by exactly one entry holding the question, the selected and the correct answer and the correctness; the score rises by 1 exactly for a correct answer; before the last question the index advances, on the last the quiz finishes with the new score |
| `App.HandleNewQuizAsWritten` | quiz-app/quiz-app/src/app/App.tsx:122-129 | as written: start phase, no questions, index 0, score 0, no results, no config, and the error message kept |
| `App.HandleNewQuiz` | quiz-app/quiz-app/src/app/App.tsx:122-129 | corrected: the session returns to its initial state over the same stored history, error cleared |
| `App.HandleRetakeQuiz` | quiz-app/quiz-app/src/app/App.tsx:112-120 | a retake repeats the fetch with the recorded settings and does nothing without them |
| `App.NewQuizAsWrittenValid` | quiz-app/quiz-app/src/app/App.tsx:122-129 | even as written, the new-quiz handler leaves a session satisfying the invariant, with the stored history unchanged |
| `App.ScreenOf` | quiz-app/quiz-app/src/app/App.tsx:131-193 | the error screen shows exactly when an error is set; otherwise the start screen in the start phase, the question card with number index+1 of the question count when the index has a question, the summary in the results phase, and nothing in a quiz without a current question |
| `App.Enabled` | quiz-app/quiz-app/src/app/App.tsx:142-197 | starting is offered only on the start screen, answering only with a question on screen, retaking only on the summary, a new quiz only on the summary or the error screen, and clearing the history only on the start screen with a non-empty stored history |
| `App.Apply` | quiz-app/quiz-app/src/app/App.tsx:27-197 | with the handlers as written: a count outside 1..50 leaves the session unchanged, one inside fetches with the form's count, category and difficulty; only answering and a confirmed clear write the history, answering adding exactly one result and a clear emptying it and changing nothing else; retaking keeps the recorded settings; a new quiz ends on the start screen, or back on the error screen when an error is shown |
| `App.InitialValid` | quiz-app/quiz-app/src/app/App.tsx:17-25 | the first render satisfies the session invariant and shows the start screen |
| `App.AnswerPreservesValid` | quiz-app/quiz-app/src/app/App.tsx:60-84 | answering keeps results length equal to the index, results aligned with their questions and score equal to the count of correct results |
| `App.ApplyPreservesValid` | quiz-app/quiz-app/src/app/App.tsx:27-129 | every action a screen offers keeps the session invariant, and a history of at most 50 stays at most 50 |
| `App.FinishRecordsCorrectCount` | quiz-app/quiz-app/src/app/App.tsx:79-98 | after the last answer the newest history entry holds the number of correct answers, at most the number of questions, and the same percentage in [0, 100] as the results screen |
| `App.ResultsScoreBounded` | quiz-app/quiz-app/src/app/App.tsx:185-192 | on the results screen the score is the correct count, at most the total, the percentage is in [0, 100], and the review has a "Your answer" line for each missed question |
| `App.CardSubmissionScores` | quiz-app/quiz-app/src/app/App.tsx:176-183 | the score rises by exactly 1 when the card's selection is the correct answer of the question on screen and is otherwise unchanged |
| `App.ErrorScreenIsATrapAsWritten` | quiz-app/quiz-app/src/app/App.tsx:142-158 | as written, "Try Again" is the only action on the error screen and leads back to it with the same message |
| `App.FailedFetchThenTryAgainAsWritten` | quiz-app/quiz-app/src/app/App.tsx:48-51 | a rejected fetch followed by "Try Again" still shows the error screen, as written |
| `App.CorrectionOnlyAffectsErrorScreen` | quiz-app/quiz-app/src/app/App.tsx:122-129 | the corrected handler differs from the one as written exactly when an error is set |
| `App.ClearThenFinish` | quiz-app/quiz-app/src/app/components/QuizHistory.tsx:32-37 | after a confirmed clear, the next quiz to finish stores a history holding only its own entry |
| `App.TryAgainReturnsToStart` | quiz-app/quiz-app/src/app/App.tsx:142-158 | with the corrected handler, "Try Again" returns to the start screen in a valid state |

## Findings

| source | as written | input that shows it | evidently intended | confidence | as-written member | corrected member |
|---|---|---|---|---|---|---|
| quiz-app/quiz-app/src/app/App.tsx:122-129 | `handleNewQuiz` resets the session but not `error`; the error screen (lines 142-158) is drawn whenever `error` is set and offers only "Try Again", which calls `handleNewQuiz`, so the app stays on the error screen until the page is reloaded | a fetch answered with response code 1 (too few questions for the chosen settings), then "Try Again" | "Try Again" returns to the start screen with the error cleared | high; not executed | `App.HandleNewQuizAsWritten`, shown by `App.ErrorScreenIsATrapAsWritten` and `App.FailedFetchThenTryAgainAsWritten` | `App.HandleNewQuiz`, proved by `App.TryAgainReturnsToStart` |

`Apply` runs `handleNewQuiz` as written. The corrected `HandleNewQuiz` differs
from it only when an error is set (`App.CorrectionOnlyAffectsErrorScreen`).

## Left out

- The HTTP requests for questions and categories (`fetch`, `response.json()`, `fetchCategories`): only the response code and the question list enter, as `FetchOutcome`. The category list is an input of `FilterCategories`.
- The `loading` flag and its spinner: each fetch is one atomic transition, so the loading screen is never observed.
- `localStorage` and JSON: the stored history is an `Option<seq<Entry>>`; malformed stored JSON is not modelled.
- `Date.now()` and `toISOString()`: opaque `Stamp` inputs.
- `Math.random()`: replaced by the `picks` positions, each in [0, i].
- `setTimeout` timing: a 1-second expiry, with the effect it triggers, is one `TimerFires` event, and the 1500 ms delay before `onAnswer` is dropped. The submission goes to `HandleAnswer` directly.
- React batching and stale closures: each handler is one sequential transition. The per-question reset effect is `LoadQuestion`. Applying it when the index changes is left to the caller and not modelled as an event.
- `decodeHTML`: it only changes how text is displayed. Results and review rows carry the raw strings.
- Markup, CSS class strings, icons, the progress bar, the red clock under 10 seconds, the message texts and colours of the performance tiers, and opening or closing the history dialog: presentation only. The dialog's "Clear History" button is the `ClearHistoryClick` action.
- Scoring.Percentage: computes `Math.round((score / total) * 100)` on the exact rational value. The floating-point quotient of the source could differ on a value within rounding error of a half.
- Text.Lower: lower-cases ASCII letters only, not the full Unicode case mapping of `toLowerCase`.
- The trivia API's promise to return exactly the requested number of questions belongs to the external service, not this code. A response with code 0 and no questions is modelled: the quiz phase then renders nothing (`Blank`).
