/** The results screen: per-question results, the performance tier, the
    star badge and the review list. */
module ScoreSummary {
  import opened Common

  /** One answered question, recorded in question order. */
  datatype QuizResult = QuizResult(
    question: string,
    selectedAnswer: string,
    correctAnswer: string,
    isCorrect: bool)

  /** The number of correct results, counted as the results are appended. */
  function CountCorrect(results: seq<QuizResult>): (n: nat)
    ensures n <= |results|
    ensures n == |results| <==> forall i :: 0 <= i < |results| ==> results[i].isCorrect
  {
    if results == [] then 0
    else
      var init := results[..|results| - 1];
      assert forall i :: 0 <= i < |init| ==> init[i] == results[i];
      CountCorrect(init) + if results[|results| - 1].isCorrect then 1 else 0
  }

  /** Appending one result raises the count by one exactly for a correct result. */
  lemma CountCorrectAppend(results: seq<QuizResult>, r: QuizResult)
    ensures CountCorrect(results + [r]) == CountCorrect(results) + if r.isCorrect then 1 else 0
  {
    assert (results + [r])[..|results|] == results;
  }

  /** The four performance messages, lowest first. */
  datatype Tier = KeepPracticing | GoodEffort | GreatJob | Outstanding

  function Rank(t: Tier): nat {
    match t
    case KeepPracticing => 0
    case GoodEffort => 1
    case GreatJob => 2
    case Outstanding => 3
  }

  /** `getPerformanceMessage`: the first threshold the percentage reaches. */
  function PerformanceTier(percentage: int): (t: Tier)
    ensures t == Outstanding <==> percentage >= 90
    ensures t == GreatJob <==> 70 <= percentage < 90
    ensures t == GoodEffort <==> 50 <= percentage < 70
    ensures t == KeepPracticing <==> percentage < 50
  {
    if percentage >= 90 then Outstanding
    else if percentage >= 70 then GreatJob
    else if percentage >= 50 then GoodEffort
    else KeepPracticing
  }

  /** A higher percentage never earns a lower message. */
  lemma TierMonotone(p: int, q: int)
    requires p <= q
    ensures Rank(PerformanceTier(p)) <= Rank(PerformanceTier(q))
  {
  }

  /** The star badge next to the trophy. */
  predicate ShowsStar(percentage: int) {
    percentage >= 70
  }

  /** The badge appears exactly for the two best messages. */
  lemma StarExactlyForTopTiers(percentage: int)
    ensures ShowsStar(percentage) <==> PerformanceTier(percentage) in {Outstanding, GreatJob}
  {
  }

  /** One entry of the review list: its number, the question, the
      "Your answer" line (present only for a wrong answer), the correct answer
      and the tick or cross. */
  datatype ReviewRow = ReviewRow(
    number: int,
    question: string,
    yourAnswer: Option<string>,
    correctAnswer: string,
    isCorrect: bool)

  function RowOf(index: int, r: QuizResult): ReviewRow {
    ReviewRow(index + 1, r.question,
              if r.isCorrect then None else Some(r.selectedAnswer),
              r.correctAnswer, r.isCorrect)
  }

  /** The review list: one row per result, in order, numbered from 1. */
  function ReviewRows(results: seq<QuizResult>): (rows: seq<ReviewRow>)
    ensures |rows| == |results|
    ensures forall i :: 0 <= i < |rows| ==>
      && rows[i].number == i + 1
      && rows[i].question == results[i].question
      && rows[i].correctAnswer == results[i].correctAnswer
      && rows[i].isCorrect == results[i].isCorrect
    ensures forall i :: 0 <= i < |rows| ==>
      (rows[i].yourAnswer.Some? <==> !results[i].isCorrect)
    ensures forall i :: 0 <= i < |rows| && rows[i].yourAnswer.Some? ==>
      rows[i].yourAnswer.value == results[i].selectedAnswer
  {
    seq(|results|, i requires 0 <= i < |results| => RowOf(i, results[i]))
  }

  /** The number of rows that show a "Your answer" line. */
  function CountAnswerLines(rows: seq<ReviewRow>): nat {
    if rows == [] then 0
    else CountAnswerLines(rows[..|rows| - 1]) + if rows[|rows| - 1].yourAnswer.Some? then 1 else 0
  }

  /** The review shows a "Your answer" line for every missed question and no
      other: as many lines as results minus correct results. */
  lemma {:induction false} AnswerLinesCountMisses(results: seq<QuizResult>)
    ensures CountAnswerLines(ReviewRows(results)) == |results| - CountCorrect(results)
    decreases |results|
  {
    if results != [] {
      var init := results[..|results| - 1];
      var rows := ReviewRows(results);
      assert rows[..|rows| - 1] == ReviewRows(init);
      AnswerLinesCountMisses(init);
    }
  }
}
