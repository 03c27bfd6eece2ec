/** The persisted history of completed quizzes: the capped list that
    finishing a quiz prepends to, the statistics panel, clearing, and the
    colour of each entry's progress bar. */
module QuizHistory {
  import opened Common
  import Scoring

  /** One completed quiz. `id` and `date` come from the clock and are opaque here. */
  datatype Entry = Entry(
    id: string,
    date: string,
    category: string,
    difficulty: string,
    score: int,
    totalQuestions: int,
    percentage: int)

  /** The history keeps at most this many quizzes. */
  const MaxEntries: nat := 50

  /** The stored list, or the empty list when the storage key is absent. */
  function Load(saved: Option<seq<Entry>>): (h: seq<Entry>)
  {
    saved.GetOr([])
  }

  /** `unshift` the new entry, then `pop` one entry if the list is over the cap. */
  function AddEntry(history: seq<Entry>, e: Entry): (r: seq<Entry>)
    ensures |r| > 0 && r[0] == e
    ensures |r| - 1 <= |history| && r[1..] == history[..|r| - 1]
    ensures |history| < MaxEntries ==> r == [e] + history
    ensures |history| >= MaxEntries ==> |r| == |history|
    ensures |history| <= MaxEntries ==> |r| <= MaxEntries
  {
    var h := [e] + history;
    if |h| > MaxEntries then h[..|h| - 1] else h
  }

  /** The newest `MaxEntries` entries of a newest-first list. */
  function Newest(xs: seq<Entry>): (r: seq<Entry>)
    ensures |r| <= MaxEntries
  {
    if |xs| <= MaxEntries then xs else xs[..MaxEntries]
  }

  /** On a list within the cap, adding an entry keeps exactly the newest
      `MaxEntries` of the entry followed by the list. */
  lemma AddEntryKeepsNewest(history: seq<Entry>, e: Entry)
    requires |history| <= MaxEntries
    ensures AddEntry(history, e) == Newest([e] + history)
  {
  }

  lemma NewestAbsorbs(a: seq<Entry>, b: seq<Entry>)
    ensures Newest(a + Newest(b)) == Newest(a + b)
  {
    if |b| > MaxEntries {
      assert (a + b[..MaxEntries])[..MaxEntries] == (a + b)[..MaxEntries];
    }
  }

  function Reverse(xs: seq<Entry>): (r: seq<Entry>)
    ensures |r| == |xs|
    ensures forall i :: 0 <= i < |xs| ==> r[i] == xs[|xs| - 1 - i]
  {
    if xs == [] then [] else Reverse(xs[1..]) + [xs[0]]
  }

  /** Finishing the quizzes `es` one after another, `es[0]` first. */
  function AddAll(history: seq<Entry>, es: seq<Entry>): seq<Entry>
    decreases |es|
  {
    if es == [] then history else AddAll(AddEntry(history, es[0]), es[1..])
  }

  /** Oldest entries are evicted first: after any number of quizzes the history
      holds exactly the newest `MaxEntries` of everything recorded, newest first. */
  lemma {:induction false} AddAllKeepsNewest(history: seq<Entry>, es: seq<Entry>)
    requires |history| <= MaxEntries
    ensures AddAll(history, es) == Newest(Reverse(es) + history)
    decreases |es|
  {
    if es == [] {
    } else {
      var h1 := AddEntry(history, es[0]);
      AddEntryKeepsNewest(history, es[0]);
      AddAllKeepsNewest(h1, es[1..]);
      NewestAbsorbs(Reverse(es[1..]), [es[0]] + history);
      assert Reverse(es[1..]) + ([es[0]] + history) == Reverse(es) + history;
    }
  }

  /** `clearHistory`: after a confirmed dialog both the storage key and the
      displayed list are gone; a declined dialog changes nothing. */
  function ClearHistory(shown: seq<Entry>, saved: Option<seq<Entry>>, confirmed: bool)
    : (r: (seq<Entry>, Option<seq<Entry>>))
    ensures confirmed ==> r.0 == [] && r.1 == None && Load(r.1) == []
    ensures !confirmed ==> r == (shown, saved)
  {
    if confirmed then ([], None) else (shown, saved)
  }

  function SumPercent(h: seq<Entry>): int {
    if h == [] then 0 else SumPercent(h[..|h| - 1]) + h[|h| - 1].percentage
  }

  function SumQuestions(h: seq<Entry>): int {
    if h == [] then 0 else SumQuestions(h[..|h| - 1]) + h[|h| - 1].totalQuestions
  }

  /** `Math.max` of the percentages. */
  function BestPercent(h: seq<Entry>): (best: int)
    requires |h| > 0
    ensures forall i :: 0 <= i < |h| ==> h[i].percentage <= best
    ensures exists i :: 0 <= i < |h| && h[i].percentage == best
  {
    if |h| == 1 then h[0].percentage
    else
      var init := h[..|h| - 1];
      var m := BestPercent(init);
      assert forall i :: 0 <= i < |init| ==> init[i] == h[i];
      if h[|h| - 1].percentage > m then h[|h| - 1].percentage else m
  }

  lemma {:induction false} SumPercentAtMost(h: seq<Entry>, m: int)
    requires forall i :: 0 <= i < |h| ==> h[i].percentage <= m
    ensures SumPercent(h) <= |h| * m
    decreases |h|
  {
    if h != [] {
      var init := h[..|h| - 1];
      assert forall i :: 0 <= i < |init| ==> init[i] == h[i];
      SumPercentAtMost(init, m);
    }
  }

  /** The four figures of the statistics panel. */
  datatype Stats = Stats(totalQuizzes: int, averageScore: int, bestScore: int, totalQuestions: int)

  /** `getStats`. */
  function GetStats(h: seq<Entry>): (r: Option<Stats>)
    ensures r.None? <==> h == []
    ensures r.Some? ==> r.value.totalQuizzes == |h|
    ensures r.Some? ==> forall i :: 0 <= i < |h| ==> h[i].percentage <= r.value.bestScore
    ensures r.Some? ==> exists i :: 0 <= i < |h| && h[i].percentage == r.value.bestScore
    ensures r.Some? ==>
      |h| * (2 * r.value.averageScore - 1) <= 2 * SumPercent(h) < |h| * (2 * r.value.averageScore + 1)
    ensures r.Some? ==> r.value.averageScore <= r.value.bestScore
    ensures r.Some? ==> r.value.totalQuestions == SumQuestions(h)
  {
    if h == [] then None
    else
      var best := BestPercent(h);
      SumPercentAtMost(h, best);
      Scoring.RoundedMeanAtMost(SumPercent(h), |h|, best);
      Some(Stats(|h|, Scoring.RoundHalfUp(SumPercent(h), |h|), best, SumQuestions(h)))
  }

  /** Once a confirmed clear has run, the statistics panel disappears. */
  lemma ClearedHistoryHasNoStats(shown: seq<Entry>, saved: Option<seq<Entry>>)
    ensures GetStats(ClearHistory(shown, saved, true).0) == None
    ensures GetStats(Load(ClearHistory(shown, saved, true).1)) == None
  {
  }

  /** Colour of an entry's progress bar. */
  datatype BarColour = Red | Yellow | Green

  function ColourOf(percentage: int): (c: BarColour)
    ensures c == Green <==> percentage >= 70
    ensures c == Yellow <==> 50 <= percentage < 70
    ensures c == Red <==> percentage < 50
  {
    if percentage >= 70 then Green
    else if percentage >= 50 then Yellow
    else Red
  }
}
