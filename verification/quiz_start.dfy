/** The start screen: the request a click on "Start Quiz" produces, and the
    category search. */
module QuizStart {
  import opened Common
  import Text

  datatype Category = Category(id: int, name: string)

  /** What `onStartQuiz` receives. */
  datatype StartRequest = StartRequest(amount: int, category: int, difficulty: string)

  /** The form's state. */
  datatype Form = Form(
    selectedCategory: int,
    selectedDifficulty: string,
    questionCount: int,
    searchTerm: string,
    error: string)

  const MinQuestions: int := 1
  const MaxQuestions: int := 50
  const RangeError: string := "Please select between 1 and 50 questions."

  /** The form as it first appears: General Knowledge (9), medium, 10 questions. */
  const DefaultForm: Form := Form(9, "medium", 10, "", "")

  /** `handleStartQuiz`: a count outside 1..50 only sets the error; a count
      inside the range asks for exactly the selected count, category and
      difficulty and leaves the form alone. */
  function HandleStartQuiz(f: Form): (r: (Form, Option<StartRequest>))
    ensures r.1.None? <==> (f.questionCount < MinQuestions || f.questionCount > MaxQuestions)
    ensures r.1.None? ==> r.0 == f.(error := RangeError)
    ensures r.1.Some? ==> r.0 == f
    ensures r.1.Some? ==>
      r.1.value == StartRequest(f.questionCount, f.selectedCategory, f.selectedDifficulty)
    ensures r.1.Some? ==> MinQuestions <= r.1.value.amount <= MaxQuestions
  {
    if f.questionCount < MinQuestions || f.questionCount > MaxQuestions then
      (f.(error := RangeError), None)
    else
      (f, Some(StartRequest(f.questionCount, f.selectedCategory, f.selectedDifficulty)))
  }

  /** The untouched form starts a quiz of 10 medium General Knowledge questions. */
  lemma DefaultsStartAQuiz()
    ensures HandleStartQuiz(DefaultForm).1 == Some(StartRequest(10, 9, "medium"))
  {
  }

  /** A category is listed when its lower-cased name includes the lower-cased search term. */
  predicate Matches(c: Category, term: string) {
    Text.Contains(Text.Lower(c.name), Text.Lower(term))
  }

  /** `xs` is what remains of `ys` after deleting some of its elements. */
  predicate IsSubsequence<T(==)>(xs: seq<T>, ys: seq<T>)
    decreases |ys|
  {
    if ys == [] then xs == []
    else (xs != [] && xs[0] == ys[0] && IsSubsequence(xs[1..], ys[1..]))
         || IsSubsequence(xs, ys[1..])
  }

  /** `filteredCategories`: the matching categories, in their original order,
      each as often as it occurs. */
  function FilterCategories(categories: seq<Category>, term: string): (r: seq<Category>)
    ensures IsSubsequence(r, categories)
    ensures forall i :: 0 <= i < |r| ==> Matches(r[i], term)
    ensures forall c :: c in categories && Matches(c, term) ==> c in r
    ensures forall c :: multiset(r)[c] == if Matches(c, term) then multiset(categories)[c] else 0
  {
    if categories == [] then []
    else
      var rest := FilterCategories(categories[1..], term);
      assert categories == [categories[0]] + categories[1..];
      if Matches(categories[0], term) then [categories[0]] + rest else rest
  }

  /** The search ignores the case of the search term: a term and its lower
      case select the same categories. */
  lemma MatchIgnoresTermCase(c: Category, term: string)
    ensures Matches(c, term) == Matches(c, Text.Lower(term))
  {
    Text.LowerIdempotent(term);
  }

  /** An empty search lists every category. */
  lemma {:induction false} EmptySearchKeepsAll(categories: seq<Category>)
    ensures FilterCategories(categories, "") == categories
    decreases |categories|
  {
    if categories != [] {
      Text.ContainsEmpty(Text.Lower(categories[0].name));
      assert Text.Lower("") == "";
      EmptySearchKeepsAll(categories[1..]);
    }
  }
}
