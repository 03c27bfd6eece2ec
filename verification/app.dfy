/** The quiz session: start screen, questions, results. Each handler is one
    atomic transition of the session record; the network response, the clock
    stamp of a finished quiz and the stored history are explicit inputs. */
module App {
  import opened Common
  import Scoring
  import opened ScoreSummary
  import opened QuizHistory
  import QuestionCard
  import QuizStart

  datatype Phase = Start | Quiz | Results

  datatype Config = Config(amount: int, category: int, difficulty: string)

  /** The component state of the app. `saved` is the history under the
      storage key, `None` when the key is absent. */
  datatype Session = Session(
    phase: Phase,
    questions: seq<QuestionCard.Question>,
    index: nat,
    score: nat,
    results: seq<QuizResult>,
    config: Option<Config>,
    error: string,
    saved: Option<seq<Entry>>)

  /** The trivia API's answer, or a transport failure. */
  datatype FetchOutcome = Response(code: int, questions: seq<QuestionCard.Question>) | NetworkFailure

  /** `Date.now()` and `toISOString()` of a finished quiz. */
  datatype Stamp = Stamp(id: string, date: string)

  const FetchFailed: string := "Failed to fetch quiz questions. Please try different settings."
  const NetworkFailed: string := "Network error. Please check your connection and try again."

  /** The app as it first renders, over whatever history is stored. */
  function Initial(saved: Option<seq<Entry>>): Session {
    Session(Start, [], 0, 0, [], None, "", saved)
  }

  /** `fetchQuizQuestions` once the response is in. Response code 0 starts a
      fresh quiz over the returned questions; anything else keeps the session
      and shows an error. */
  function FetchQuizQuestions(s: Session, amount: int, category: int, difficulty: string,
                              outcome: FetchOutcome): (r: Session)
    ensures outcome.Response? && outcome.code == 0 ==>
      && r.phase == Quiz && r.questions == outcome.questions
      && r.index == 0 && r.score == 0 && r.results == []
      && r.config == Some(Config(amount, category, difficulty))
      && r.error == "" && r.saved == s.saved
    ensures outcome.Response? && outcome.code != 0 ==> r == s.(error := FetchFailed)
    ensures outcome.NetworkFailure? ==> r == s.(error := NetworkFailed)
  {
    match outcome
    case Response(code, qs) =>
      if code == 0 then
        Session(Quiz, qs, 0, 0, [], Some(Config(amount, category, difficulty)), "", s.saved)
      else s.(error := FetchFailed)
    case NetworkFailure => s.(error := NetworkFailed)
  }

  /** `quizConfig?.difficulty || ''`. */
  function DifficultyOf(config: Option<Config>): (d: string)
    ensures config.Some? ==> d == config.value.difficulty
    ensures config.None? ==> d == ""
  {
    match config
    case Some(c) => c.difficulty
    case None => ""
  }

  /** The history entry `finishQuiz` builds. */
  function HistoryEntry(s: Session, finalScore: int, stamp: Stamp): (e: Entry)
    requires |s.questions| > 0
    ensures e.score == finalScore && e.totalQuestions == |s.questions|
    ensures 0 <= finalScore <= |s.questions| ==> 0 <= e.percentage <= 100
    ensures e.category == s.questions[0].category
    ensures e.difficulty == DifficultyOf(s.config)
    ensures e.id == stamp.id && e.date == stamp.date
    ensures e.percentage == Scoring.Percentage(finalScore, |s.questions|)
  {
    Entry(stamp.id, stamp.date, s.questions[0].category, DifficultyOf(s.config),
          finalScore, |s.questions|, Scoring.Percentage(finalScore, |s.questions|))
  }

  /** `finishQuiz`: show the results and prepend the entry to the stored history. */
  function FinishQuiz(s: Session, finalScore: int, stamp: Stamp): (r: Session)
    requires |s.questions| > 0
    ensures r.phase == Results
    ensures r.saved.Some? && Load(r.saved) == AddEntry(Load(s.saved), HistoryEntry(s, finalScore, stamp))
    ensures r == s.(phase := Results, saved := r.saved)
  {
    s.(phase := Results, saved := Some(AddEntry(Load(s.saved), HistoryEntry(s, finalScore, stamp))))
  }

  /** `handleAnswer`: record the result of the current question, count a
      correct answer, then move on or finish. Only reachable while a question
      is on screen. */
  function HandleAnswer(s: Session, isCorrect: bool, selectedAnswer: string, stamp: Stamp): (r: Session)
    requires s.phase == Quiz && s.index < |s.questions|
    ensures |r.results| == |s.results| + 1 && r.results[..|s.results|] == s.results
    ensures r.results[|s.results|] ==
      QuizResult(s.questions[s.index].text, selectedAnswer, s.questions[s.index].correctAnswer, isCorrect)
    ensures isCorrect ==> r.score == s.score + 1
    ensures !isCorrect ==> r.score == s.score
    ensures s.index < |s.questions| - 1 ==> r.phase == Quiz && r.index == s.index + 1 && r.saved == s.saved
    ensures s.index == |s.questions| - 1 ==>
      && r.phase == Results && r.index == s.index
      && r.saved.Some? && Load(r.saved) == AddEntry(Load(s.saved), HistoryEntry(s, r.score, stamp))
    ensures r.questions == s.questions && r.config == s.config && r.error == s.error
  {
    var q := s.questions[s.index];
    var results := s.results + [QuizResult(q.text, selectedAnswer, q.correctAnswer, isCorrect)];
    var score := if isCorrect then s.score + 1 else s.score;
    var s1 := s.(results := results, score := score);
    if s.index < |s.questions| - 1 then s1.(index := s.index + 1)
    else FinishQuiz(s1, score, stamp)
  }

  /** `handleNewQuiz` as the repository writes it: back to the start phase,
      but the error message is left in place. */
  function HandleNewQuizAsWritten(s: Session): (r: Session)
    ensures r.phase == Start && r.questions == [] && r.index == 0 && r.score == 0
    ensures r.results == [] && r.config == None
    ensures r.error == s.error && r.saved == s.saved
  {
    Session(Start, [], 0, 0, [], None, s.error, s.saved)
  }

  /** `handleNewQuiz` as the error screen's "Try Again" needs it: back to the
      start phase with the error cleared. */
  function HandleNewQuiz(s: Session): (r: Session)
    ensures r == Initial(s.saved)
    ensures r == HandleNewQuizAsWritten(s).(error := "")
  {
    Session(Start, [], 0, 0, [], None, "", s.saved)
  }

  /** `handleRetakeQuiz`: fetch again with the recorded settings, if any. */
  function HandleRetakeQuiz(s: Session, outcome: FetchOutcome): (r: Session)
    ensures s.config.None? ==> r == s
    ensures s.config.Some? ==>
      r == FetchQuizQuestions(s, s.config.value.amount, s.config.value.category,
                              s.config.value.difficulty, outcome)
  {
    match s.config
    case Some(c) => FetchQuizQuestions(s, c.amount, c.category, c.difficulty, outcome)
    case None => s
  }

  /** What the app renders. */
  datatype Screen = ErrorScreen | StartScreen | QuestionScreen(number: int, total: int) | SummaryScreen | Blank

  /** The loading screen is not modelled: a fetch is one atomic step. An
      error hides every other screen; a quiz whose current index has no
      question renders nothing. */
  function ScreenOf(s: Session): (r: Screen)
    ensures r == ErrorScreen <==> s.error != ""
    ensures r == StartScreen <==> s.error == "" && s.phase == Start
    ensures r.QuestionScreen? <==> s.error == "" && s.phase == Quiz && s.index < |s.questions|
    ensures r.QuestionScreen? ==> r.number == s.index + 1 && 1 <= r.number <= r.total == |s.questions|
    ensures r == SummaryScreen <==> s.error == "" && s.phase == Results
    ensures r == Blank <==> s.error == "" && s.phase == Quiz && s.index >= |s.questions|
  {
    if s.error != "" then ErrorScreen
    else match s.phase
      case Start => StartScreen
      case Quiz => if s.index < |s.questions| then QuestionScreen(s.index + 1, |s.questions|) else Blank
      case Results => SummaryScreen
  }

  /** The things a user can do, each tied to the screen that offers it.
      `ClearHistoryClick` is "Clear History" in the history dialog, opened
      from the start screen, with the answer given to `confirm()`. */
  datatype Action =
    | StartQuiz(form: QuizStart.Form, outcome: FetchOutcome)
    | Answer(submission: QuestionCard.Submission, stamp: Stamp)
    | RetakeQuiz(outcome: FetchOutcome)
    | NewQuiz
    | ClearHistoryClick(confirmed: bool)

  function Enabled(s: Session, a: Action): (r: bool)
    ensures a.StartQuiz? ==> (r <==> s.error == "" && s.phase == Start)
    ensures a.Answer? ==> (r <==> s.error == "" && s.phase == Quiz && s.index < |s.questions|)
    ensures a.RetakeQuiz? ==> (r <==> s.error == "" && s.phase == Results)
    ensures a.NewQuiz? ==> (r <==> s.error != "" || s.phase == Results)
    ensures a.ClearHistoryClick? ==> (r <==> s.error == "" && s.phase == Start && |Load(s.saved)| > 0)
  {
    match a
    case StartQuiz(_, _) => ScreenOf(s) == StartScreen
    case Answer(_, _) => ScreenOf(s).QuestionScreen?
    case RetakeQuiz(_) => ScreenOf(s) == SummaryScreen
    case NewQuiz => ScreenOf(s) == SummaryScreen || ScreenOf(s) == ErrorScreen
    case ClearHistoryClick(_) => ScreenOf(s) == StartScreen && Load(s.saved) != []
  }

  /** One user action, with every handler as the repository writes it.
      Starting with a question count outside [1, 50] changes nothing but the
      form; only answering and a confirmed clear write the history; retaking
      repeats the recorded settings; a new quiz ends on the start screen
      unless an error is shown, which it keeps. */
  function Apply(s: Session, a: Action): (r: Session)
    requires Enabled(s, a)
    ensures a.StartQuiz? && !(QuizStart.MinQuestions <= a.form.questionCount <= QuizStart.MaxQuestions) ==> r == s
    ensures a.StartQuiz? && QuizStart.MinQuestions <= a.form.questionCount <= QuizStart.MaxQuestions ==>
      r == FetchQuizQuestions(s, a.form.questionCount, a.form.selectedCategory,
                              a.form.selectedDifficulty, a.outcome)
    ensures !a.Answer? && !a.ClearHistoryClick? ==> r.saved == s.saved
    ensures a.Answer? ==>
      && |r.results| == |s.results| + 1 && r.results[..|s.results|] == s.results
      && (r.score == s.score + 1 <==> a.submission.isCorrect)
      && (r.score != s.score + 1 ==> r.score == s.score)
    ensures a.RetakeQuiz? ==> r.config == s.config
    ensures a.NewQuiz? ==> ScreenOf(r) == (if s.error == "" then StartScreen else ErrorScreen)
    ensures a.ClearHistoryClick? ==>
      && Load(r.saved) == (if a.confirmed then [] else Load(s.saved))
      && r.(saved := s.saved) == s
  {
    match a
    case StartQuiz(form, outcome) =>
      var (_, request) := QuizStart.HandleStartQuiz(form);
      if request.Some? then
        FetchQuizQuestions(s, request.value.amount, request.value.category, request.value.difficulty, outcome)
      else s
    case Answer(sub, stamp) => HandleAnswer(s, sub.isCorrect, sub.selectedAnswer, stamp)
    case RetakeQuiz(outcome) => HandleRetakeQuiz(s, outcome)
    case NewQuiz => HandleNewQuizAsWritten(s)
    case ClearHistoryClick(confirmed) => s.(saved := ClearHistory(Load(s.saved), s.saved, confirmed).1)
  }

  /** A history bar is green exactly when the summary for that percentage
      shows the star, yellow for "Good effort" and red for "Keep practicing". */
  lemma BarColourAgreesWithTier(percentage: int)
    ensures ColourOf(percentage) == Green <==> ShowsStar(percentage)
    ensures ColourOf(percentage) == Yellow <==> PerformanceTier(percentage) == GoodEffort
    ensures ColourOf(percentage) == Red <==> PerformanceTier(percentage) == KeepPracticing
  {
  }

  /** Each result records the question at its own position. */
  predicate ResultsFollowQuestions(results: seq<QuizResult>, questions: seq<QuestionCard.Question>) {
    && |results| <= |questions|
    && forall i :: 0 <= i < |results| ==>
         results[i].question == questions[i].text && results[i].correctAnswer == questions[i].correctAnswer
  }

  /** The session invariant: during a quiz, one result per question already
      answered and the score is the number of correct results; on the results
      screen, one result per question. */
  predicate Valid(s: Session) {
    && (s.config.Some? ==> QuizStart.MinQuestions <= s.config.value.amount <= QuizStart.MaxQuestions)
    && match s.phase
       case Start =>
         s.questions == [] && s.index == 0 && s.score == 0 && s.results == [] && s.config.None?
       case Quiz =>
         && s.config.Some?
         && (s.index < |s.questions| || s.questions == [])
         && |s.results| == s.index
         && ResultsFollowQuestions(s.results, s.questions)
         && s.score == CountCorrect(s.results)
       case Results =>
         && s.config.Some?
         && |s.questions| > 0
         && s.index == |s.questions| - 1
         && |s.results| == |s.questions|
         && ResultsFollowQuestions(s.results, s.questions)
         && s.score == CountCorrect(s.results)
  }

  lemma InitialValid(saved: Option<seq<Entry>>)
    ensures Valid(Initial(saved)) && ScreenOf(Initial(saved)) == StartScreen
  {
  }

  /** Answering keeps the invariant. */
  lemma AnswerPreservesValid(s: Session, isCorrect: bool, selectedAnswer: string, stamp: Stamp)
    requires Valid(s) && s.phase == Quiz && s.index < |s.questions|
    ensures Valid(HandleAnswer(s, isCorrect, selectedAnswer, stamp))
  {
    var r := HandleAnswer(s, isCorrect, selectedAnswer, stamp);
    var q := s.questions[s.index];
    var res := QuizResult(q.text, selectedAnswer, q.correctAnswer, isCorrect);
    CountCorrectAppend(s.results, res);
    assert r.results == s.results + [res];
    assert r.score == CountCorrect(r.results);
    forall i | 0 <= i < |r.results|
      ensures r.results[i].question == r.questions[i].text
      ensures r.results[i].correctAnswer == r.questions[i].correctAnswer
    {
      if i < |s.results| {
        assert r.results[i] == s.results[i];
      }
    }
    assert ResultsFollowQuestions(r.results, r.questions);
  }

  /** Every action the screens offer keeps the invariant, and a history within
      the cap stays within it. */
  lemma ApplyPreservesValid(s: Session, a: Action)
    requires Valid(s) && Enabled(s, a)
    ensures Valid(Apply(s, a))
    ensures |Load(s.saved)| <= MaxEntries ==> |Load(Apply(s, a).saved)| <= MaxEntries
  {
    match a
    case Answer(sub, stamp) =>
      AnswerPreservesValid(s, sub.isCorrect, sub.selectedAnswer, stamp);
    case NewQuiz =>
      NewQuizAsWrittenValid(s);
    case _ =>
  }

  /** When the last question is answered, the entry added to the history holds
      the number of correct answers, the number of questions and a percentage
      in [0, 100] that equals the one the results screen shows. */
  lemma FinishRecordsCorrectCount(s: Session, isCorrect: bool, selectedAnswer: string, stamp: Stamp)
    requires Valid(s) && s.phase == Quiz && s.index == |s.questions| - 1
    ensures var r := HandleAnswer(s, isCorrect, selectedAnswer, stamp);
      && r.phase == Results
      && Load(r.saved)[0].score == r.score == CountCorrect(r.results)
      && Load(r.saved)[0].totalQuestions == |r.questions|
      && r.score <= |r.questions|
      && 0 <= Load(r.saved)[0].percentage <= 100
      && Load(r.saved)[0].percentage == Scoring.Percentage(r.score, |r.questions|)
  {
    AnswerPreservesValid(s, isCorrect, selectedAnswer, stamp);
  }

  /** On the results screen the score is the number of correct results, at
      most the number of questions, so the percentage lies in [0, 100]; the
      review shows a "Your answer" line for each of the other questions. */
  lemma ResultsScoreBounded(s: Session)
    requires Valid(s) && s.phase == Results
    ensures s.score == CountCorrect(s.results) <= |s.questions|
    ensures 0 <= Scoring.Percentage(s.score, |s.questions|) <= 100
    ensures CountAnswerLines(ReviewRows(s.results)) == |s.questions| - s.score
  {
    AnswerLinesCountMisses(s.results);
  }

  /** The score moves by one exactly when the card's selection is the correct
      answer of the question on screen. */
  lemma CardSubmissionScores(s: Session, c: QuestionCard.Card, stamp: Stamp)
    requires ScreenOf(s).QuestionScreen?
    requires c.question == s.questions[s.index]
    requires QuestionCard.HandleSubmit(c).1.Some?
    ensures var r := Apply(s, Answer(QuestionCard.HandleSubmit(c).1.value, stamp));
      && (r.score == s.score + 1 <==> c.selected == s.questions[s.index].correctAnswer)
      && (r.score != s.score + 1 ==> r.score == s.score)
  {
  }

  /** As written, "Try Again" on the error screen leads back to the error
      screen: it is the only action offered there and it keeps the message. */
  lemma ErrorScreenIsATrapAsWritten(s: Session, a: Action)
    requires ScreenOf(s) == ErrorScreen && Enabled(s, a)
    ensures a == NewQuiz
    ensures ScreenOf(Apply(s, a)) == ErrorScreen && Apply(s, a).error == s.error
  {
  }

  /** A concrete run: a rejected fetch from the start screen, then "Try Again". */
  lemma FailedFetchThenTryAgainAsWritten()
    ensures var s := FetchQuizQuestions(Initial(None), 10, 9, "medium", Response(1, []));
      && ScreenOf(s) == ErrorScreen
      && ScreenOf(Apply(s, NewQuiz)) == ErrorScreen
  {
  }

  /** Even as written, "Try Again" leaves a session that satisfies the
      invariant: only the screen it leads to is wrong. */
  lemma NewQuizAsWrittenValid(s: Session)
    ensures Valid(HandleNewQuizAsWritten(s))
    ensures HandleNewQuizAsWritten(s).saved == s.saved
  {
  }

  /** With the error cleared, "Try Again" returns to the start screen. */
  lemma TryAgainReturnsToStart(s: Session)
    requires ScreenOf(s) == ErrorScreen
    ensures ScreenOf(HandleNewQuiz(s)) == StartScreen
    ensures Valid(HandleNewQuiz(s))
  {
  }

  /** The correction matters only on the error screen: from the summary,
      "New Quiz" behaves the same either way. */
  lemma CorrectionOnlyAffectsErrorScreen(s: Session)
    ensures HandleNewQuiz(s) == HandleNewQuizAsWritten(s) <==> s.error == ""
  {
  }

  /** After a confirmed clear, the next quiz to finish (starting and
      answering leave the storage alone) stores a history of just its own
      entry. */
  lemma ClearThenFinish(s: Session, t: Session, finalScore: int, stamp: Stamp)
    requires Enabled(s, ClearHistoryClick(true))
    requires t.saved == Apply(s, ClearHistoryClick(true)).saved && |t.questions| > 0
    ensures Load(FinishQuiz(t, finalScore, stamp).saved) == [HistoryEntry(t, finalScore, stamp)]
  {
  }
}
