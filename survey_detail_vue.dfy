/**
 * static/js/survey_detail_vue.js: the survey page's question list, split by
 * the `my_answer` each question carries into the questions still to answer
 * and the user's own answers.
 */
module SurveyDetailVue {
  import opened Wrappers
  import opened Seqs

  /** One question of the JSON list; `myAnswer` is `None` for null or a missing field. */
  datatype ListedQuestion = ListedQuestion(id: int, text: string, myAnswer: Option<string>)

  /** `q.my_answer` is truthy: present and not empty. */
  predicate Answered(q: ListedQuestion) {
    q.myAnswer.Some? && q.myAnswer.value != ""
  }

  predicate NotAnswered(q: ListedQuestion) {
    !Answered(q)
  }

  /** The `unansweredQuestions` computed list. */
  function UnansweredQuestions(questions: seq<ListedQuestion>): seq<ListedQuestion> {
    Filter(questions, NotAnswered)
  }

  /** The `userAnswers` computed list. */
  function UserAnswers(questions: seq<ListedQuestion>): seq<ListedQuestion> {
    Filter(questions, Answered)
  }

  /** The two lists together hold every question exactly as often as the full list does. */
  lemma {:induction false} PartitionIsPermutation(questions: seq<ListedQuestion>)
    ensures multiset(UnansweredQuestions(questions)) + multiset(UserAnswers(questions)) == multiset(questions)
    ensures |UnansweredQuestions(questions)| + |UserAnswers(questions)| == |questions|
  {
    if questions != [] {
      PartitionIsPermutation(questions[1..]);
      assert questions == [questions[0]] + questions[1..];
    }
  }

  /** Every listed question is in exactly one of the two lists, decided by its answer. */
  lemma InExactlyOne(questions: seq<ListedQuestion>, q: ListedQuestion)
    requires q in questions
    ensures q in UserAnswers(questions) <==> Answered(q)
    ensures q in UnansweredQuestions(questions) <==> !Answered(q)
  {
  }

  /** Both lists keep the list's order: splitting the list anywhere splits each of them at the same place. */
  lemma PartitionKeepsOrder(a: seq<ListedQuestion>, b: seq<ListedQuestion>)
    ensures UnansweredQuestions(a + b) == UnansweredQuestions(a) + UnansweredQuestions(b)
    ensures UserAnswers(a + b) == UserAnswers(a) + UserAnswers(b)
  {
    FilterAppend(a, b, NotAnswered);
    FilterAppend(a, b, Answered);
  }
}
