/** One question on screen: the shuffled answer list, the selection, the
    one-shot feedback lock and the 30-second countdown. Randomness enters as
    an explicit list of swap positions; each timer expiry is one event. */
module QuestionCard {
  import opened Common

  datatype Question = Question(
    category: string,
    kind: string,
    difficulty: string,
    text: string,
    correctAnswer: string,
    incorrectAnswers: seq<string>)

  /** Seconds on the clock when a question appears. */
  const TimeLimit: int := 30

  /** What is reported for a question left unanswered at time-out. */
  const NoAnswer: string := "No answer"

  /** `picks[i]` is the position `Math.floor(Math.random() * (i + 1))` drawn
      when the shuffle visits position `i`; it always lies in `[0, i]`. */
  predicate ValidPicks(picks: seq<nat>, n: nat) {
    |picks| == n && forall i :: 0 <= i < n ==> picks[i] <= i
  }

  /** The destructuring swap `[a[i], a[j]] = [a[j], a[i]]`. */
  function Swap<T>(a: seq<T>, i: nat, j: nat): (r: seq<T>)
    requires i < |a| && j < |a|
    ensures |r| == |a| && r[i] == a[j] && r[j] == a[i]
    ensures forall k :: 0 <= k < |a| && k != i && k != j ==> r[k] == a[k]
  {
    a[i := a[j]][j := a[i]]
  }

  /** A swap only rearranges the list. */
  lemma SwapPermutes<T>(a: seq<T>, i: nat, j: nat)
    requires i < |a| && j < |a|
    ensures multiset(Swap(a, i, j)) == multiset(a)
  {
  }

  /** The swaps the shuffle performs at positions `i`, `i - 1`, ..., `1`. */
  function ShufflePass<T>(a: seq<T>, picks: seq<nat>, i: int): (r: seq<T>)
    requires ValidPicks(picks, |a|) && i < |a|
    ensures |r| == |a|
    ensures forall k :: i < k < |a| && 0 <= k ==> r[k] == a[k]
    decreases i
  {
    if i <= 0 then a else ShufflePass(Swap(a, i, picks[i]), picks, i - 1)
  }

  /** Each pass of swaps only rearranges the list. */
  lemma {:induction false} ShufflePassPermutes<T>(a: seq<T>, picks: seq<nat>, i: int)
    requires ValidPicks(picks, |a|) && i < |a|
    ensures multiset(ShufflePass(a, picks, i)) == multiset(a)
    decreases i
  {
    if i > 0 {
      SwapPermutes(a, i, picks[i]);
      ShufflePassPermutes(Swap(a, i, picks[i]), picks, i - 1);
    }
  }

  /** The complete Durstenfeld pass over a list. */
  function Shuffled<T>(a: seq<T>, picks: seq<nat>): (r: seq<T>)
    requires ValidPicks(picks, |a|)
    ensures |r| == |a| && multiset(r) == multiset(a)
  {
    ShufflePassPermutes(a, picks, |a| - 1);
    ShufflePass(a, picks, |a| - 1)
  }

  /** `shuffleArray`: a copy of the list, swapped in place from the last
      position down to position 1. The result is a permutation of the input
      for every admissible choice of swap positions. */
  method ShuffleArray<T>(items: seq<T>, picks: seq<nat>) returns (shuffled: seq<T>)
    requires ValidPicks(picks, |items|)
    ensures |shuffled| == |items| && multiset(shuffled) == multiset(items)
    ensures shuffled == Shuffled(items, picks)
  {
    shuffled := items;
    var i := |items| - 1;
    while i > 0
      invariant i < |shuffled| && |shuffled| == |items|
      invariant multiset(shuffled) == multiset(items)
      invariant ShufflePass(shuffled, picks, i) == ShufflePass(items, picks, |items| - 1)
    {
      SwapPermutes(shuffled, i, picks[i]);
      shuffled := Swap(shuffled, i, picks[i]);
      i := i - 1;
    }
  }

  /** When every draw picks the position itself, the shuffle changes nothing. */
  lemma {:induction false} IdentityPicksKeepOrder<T>(a: seq<T>, picks: seq<nat>, i: int)
    requires ValidPicks(picks, |a|) && i < |a|
    requires forall k :: 0 <= k < |a| ==> picks[k] == k
    ensures ShufflePass(a, picks, i) == a
    decreases i
  {
    if i > 0 {
      assert Swap(a, i, picks[i]) == a;
      IdentityPicksKeepOrder(a, picks, i - 1);
    }
  }

  /** The state of the card. */
  datatype Card = Card(
    question: Question,
    answers: seq<string>,
    selected: string,
    feedback: bool,
    timeLeft: int)

  /** What the card hands to the quiz after submitting. */
  datatype Submission = Submission(isCorrect: bool, selectedAnswer: string)

  /** Every reachable card keeps its clock between 0 and the time limit, and
      the clock reads 0 only once feedback is shown: the expiry that empties
      the clock re-runs the timer effect, which submits at once. */
  predicate Consistent(c: Card) {
    0 <= c.timeLeft <= TimeLimit && (c.timeLeft == 0 ==> c.feedback)
  }

  /** The effect that runs when a new question arrives: the incorrect answers
      followed by the correct one, shuffled; no selection, no feedback, a full clock. */
  function LoadQuestion(q: Question, picks: seq<nat>): (c: Card)
    requires ValidPicks(picks, |q.incorrectAnswers| + 1)
    ensures c.question == q
    ensures |c.answers| == |q.incorrectAnswers| + 1
    ensures multiset(c.answers) == multiset(q.incorrectAnswers) + multiset{q.correctAnswer}
    ensures q.correctAnswer in c.answers
    ensures forall a :: a in q.incorrectAnswers ==> a in c.answers
    ensures c.selected == "" && !c.feedback && c.timeLeft == TimeLimit
    ensures Consistent(c)
  {
    var all := q.incorrectAnswers + [q.correctAnswer];
    var shuffled := Shuffled(all, picks);
    assert multiset(shuffled) == multiset(all);
    assert forall a :: a in q.incorrectAnswers ==> a in multiset(all);
    assert q.correctAnswer in multiset(all);
    Card(q, shuffled, "", false, TimeLimit)
  }

  /** Clicking an answer: the selection changes only while no feedback is shown. */
  function Select(c: Card, answer: string): (r: Card)
    ensures c.feedback ==> r == c
    ensures !c.feedback ==> r.selected == answer && r == c.(selected := answer)
  {
    if c.feedback then c else c.(selected := answer)
  }

  /** `handleSubmit`: ignored while nothing is selected and time remains;
      otherwise the feedback is locked on and the answer is reported. */
  function HandleSubmit(c: Card): (r: (Card, Option<Submission>))
    ensures r.1.None? <==> (c.selected == "" && c.timeLeft > 0)
    ensures r.1.None? ==> r.0 == c
    ensures r.1.Some? ==> r.0 == c.(feedback := true)
    ensures r.1.Some? ==> (r.1.value.isCorrect <==> c.selected == c.question.correctAnswer)
    ensures r.1.Some? && c.selected == "" ==> r.1.value.selectedAnswer == NoAnswer
    ensures r.1.Some? && c.selected != "" ==> r.1.value.selectedAnswer == c.selected
  {
    if c.selected == "" && c.timeLeft > 0 then (c, None)
    else
      var isCorrect := c.selected == c.question.correctAnswer;
      (c.(feedback := true), Some(Submission(isCorrect, if c.selected == "" then NoAnswer else c.selected)))
  }

  /** What `handleSubmit` reports for the current selection: the selection, or "No answer" when there is none. */
  function SubmissionOf(c: Card): Submission {
    Submission(c.selected == c.question.correctAnswer, if c.selected == "" then NoAnswer else c.selected)
  }

  /** One timer expiry together with the effect run it causes: while more
      than one second remains, one second comes off; the expiry that empties
      the clock is followed at once by `handleSubmit`, which reports whatever
      is selected; under feedback no timer is running. */
  function Tick(c: Card): (r: (Card, Option<Submission>))
    requires 0 <= c.timeLeft <= TimeLimit
    ensures Consistent(r.0)
    ensures c.feedback ==> r == (c, None)
    ensures !c.feedback && c.timeLeft > 1 ==> r == (c.(timeLeft := c.timeLeft - 1), None)
    ensures !c.feedback && c.timeLeft <= 1 ==>
      r == (c.(timeLeft := 0, feedback := true), Some(SubmissionOf(c)))
  {
    if c.feedback then (c, None)
    else if c.timeLeft > 1 then (c.(timeLeft := c.timeLeft - 1), None)
    else HandleSubmit(c.(timeLeft := 0))
  }

  /** What can happen to a card: a click on an answer, a click on the submit
      button, or a timer expiry. */
  datatype Event = Click(answer: string) | SubmitClick | TimerFires

  /** One event. The submit button exists only without feedback and is
      disabled without a selection. Once feedback is shown no event changes
      the card or reports anything, and every report comes with the lock. */
  function Step(c: Card, ev: Event): (r: (Card, Option<Submission>))
    requires Consistent(c)
    ensures Consistent(r.0)
    ensures r.0.question == c.question && r.0.answers == c.answers
    ensures c.feedback ==> r == (c, None)
    ensures r.1.Some? ==> !c.feedback && r.0.feedback
    ensures ev.Click? ==> r.1.None? && (!c.feedback ==> r.0.selected == ev.answer)
    ensures ev.SubmitClick? ==> (r.1.Some? <==> !c.feedback && c.selected != "")
    ensures ev.SubmitClick? && r.1.Some? ==> r.1.value == SubmissionOf(c)
  {
    match ev
    case Click(a) => (Select(c, a), None)
    case SubmitClick =>
      if !c.feedback && c.selected != "" then HandleSubmit(c) else (c, None)
    case TimerFires => Tick(c)
  }

  /** A run of events, collecting every submission reported. */
  function Run(c: Card, evs: seq<Event>): (r: (Card, seq<Submission>))
    requires Consistent(c)
    ensures Consistent(r.0)
    ensures r.0.question == c.question && r.0.answers == c.answers
    decreases |evs|
  {
    if evs == [] then (c, [])
    else
      var (c1, out) := Step(c, evs[0]);
      var (c2, rest) := Run(c1, evs[1..]);
      (c2, if out.Some? then [out.value] + rest else rest)
  }

  /** A question is answered at most once: whatever happens, at most one
      submission is reported, none after feedback, and a reported one leaves
      the card locked. */
  lemma {:induction false} RunSubmitsAtMostOnce(c: Card, evs: seq<Event>)
    requires Consistent(c)
    ensures |Run(c, evs).1| <= if c.feedback then 0 else 1
    ensures |Run(c, evs).1| == 1 ==> Run(c, evs).0.feedback
    ensures c.feedback ==> Run(c, evs).0 == c
    decreases |evs|
  {
    if evs != [] {
      var (c1, out) := Step(c, evs[0]);
      RunSubmitsAtMostOnce(c1, evs[1..]);
    }
  }

  function Ticks(n: nat): seq<Event> {
    seq(n, _ => TimerFires)
  }

  /** Left alone, the clock loses one second per expiry without reporting,
      and the expiry that empties it reports the time-out exactly once. */
  lemma {:induction false} CountdownThenAutoSubmit(c: Card, k: nat)
    requires Consistent(c) && !c.feedback && k < c.timeLeft
    ensures Run(c, Ticks(k)) == (c.(timeLeft := c.timeLeft - k), [])
    ensures Run(c, Ticks(c.timeLeft)) == (c.(timeLeft := 0, feedback := true), [SubmissionOf(c)])
    decreases k
  {
    if k > 0 {
      assert Ticks(k)[1..] == Ticks(k - 1);
      CountdownThenAutoSubmit(c.(timeLeft := c.timeLeft - 1), k - 1);
    }
    AutoSubmitAfterCountdown(c);
  }

  /** Exactly `timeLeft` expiries after any running card, the card is locked
      with an empty clock and has reported its selection once. */
  lemma {:induction false} AutoSubmitAfterCountdown(c: Card)
    requires Consistent(c) && !c.feedback
    ensures Run(c, Ticks(c.timeLeft)) == (c.(timeLeft := 0, feedback := true), [SubmissionOf(c)])
    decreases c.timeLeft
  {
    assert Ticks(c.timeLeft)[1..] == Ticks(c.timeLeft - 1);
    if c.timeLeft > 1 {
      AutoSubmitAfterCountdown(c.(timeLeft := c.timeLeft - 1));
    } else {
      var c1 := c.(timeLeft := 0, feedback := true);
      assert Step(c, TimerFires) == (c1, Some(SubmissionOf(c)));
      assert Ticks(c.timeLeft) == [TimerFires];
      assert [TimerFires][1..] == [];
      assert Run(c1, []) == (c1, []);
      assert [SubmissionOf(c)] + [] == [SubmissionOf(c)];
    }
  }

  /** A freshly loaded question left alone reports nothing for 29 expiries
      and reports "No answer" on the 30th. */
  lemma FreshCardTimesOutOnThirtiethTick(q: Question, picks: seq<nat>)
    requires ValidPicks(picks, |q.incorrectAnswers| + 1)
    ensures Run(LoadQuestion(q, picks), Ticks(TimeLimit - 1)).1 == []
    ensures Run(LoadQuestion(q, picks), Ticks(TimeLimit)).1 == [Submission(q.correctAnswer == "", NoAnswer)]
  {
    var c := LoadQuestion(q, picks);
    CountdownThenAutoSubmit(c, TimeLimit - 1);
  }

  /** A time-out with nothing selected reports "No answer" as incorrect. */
  lemma TimeoutWithoutSelection(c: Card)
    requires c.timeLeft == 1 && !c.feedback && c.selected == ""
    requires c.question.correctAnswer != ""
    ensures Tick(c).1 == Some(Submission(false, NoAnswer))
  {
  }

  /** How an answer button is drawn. */
  datatype Look = Plain | Highlighted | MarkedCorrect | MarkedWrong | Neutral

  /** `getAnswerClass`. */
  function AnswerLook(c: Card, answer: string): (l: Look)
    ensures !c.feedback ==> (l == Highlighted <==> answer == c.selected)
    ensures !c.feedback ==> l in {Plain, Highlighted}
    ensures c.feedback ==> (l == MarkedCorrect <==> answer == c.question.correctAnswer)
    ensures c.feedback ==> (l == MarkedWrong <==> answer == c.selected && answer != c.question.correctAnswer)
    ensures c.feedback ==> l in {MarkedCorrect, MarkedWrong, Neutral}
  {
    if !c.feedback then
      if c.selected == answer then Highlighted else Plain
    else if answer == c.question.correctAnswer then MarkedCorrect
    else if answer == c.selected && answer != c.question.correctAnswer then MarkedWrong
    else Neutral
  }

  /** Under feedback, some listed answer is marked wrong exactly when the
      reported submission was incorrect and the selection is one of the
      listed answers; the marks agree with the banner. */
  lemma WrongMarkAgreesWithSubmission(c: Card)
    requires !c.feedback && c.selected != "" && c.selected in c.answers
    ensures HandleSubmit(c).1.Some?
    ensures var c' := HandleSubmit(c).0;
      (exists a :: a in c'.answers && AnswerLook(c', a) == MarkedWrong) <==> !HandleSubmit(c).1.value.isCorrect
  {
    var c' := HandleSubmit(c).0;
    if !HandleSubmit(c).1.value.isCorrect {
      assert AnswerLook(c', c.selected) == MarkedWrong;
    }
  }
}
