/**
 * wikikysely_project/survey/context_processors.py: the number of questions of
 * the main survey that the signed-in user has not answered yet, shown in the
 * navigation bar of every page.
 */
module ContextProcessors {
  import opened Wrappers
  import opened SurveyModels
  import opened SurveyQueries
  import SurveyViews

  /**
   * `unanswered_count`: nothing for an anonymous visitor; otherwise the main
   * survey's non-deleted questions minus those the user has an answer on.
   */
  function UnansweredCount(requester: Requester, questions: seq<Question>, answers: AnswerTable,
                           main: SurveyId): (r: Option<nat>)
    ensures r.None? <==> requester.Anonymous?
    ensures r.Some? ==> r.value == |Remaining(questions, answers, requester.account.id, main)|
  {
    match requester
    case Anonymous => None
    case SignedIn(user) =>
      var unanswered := LiveQuestions(questions, main) - AnsweredIds(questions, answers, user.id, main);
      assert unanswered == Remaining(questions, answers, user.id, main);
      Some(|unanswered|)
  }

  /** The count never exceeds the number of live questions, and deleted questions never add to it. */
  lemma CountBound(user: Account, questions: seq<Question>, answers: AnswerTable, main: SurveyId)
    ensures UnansweredCount(SignedIn(user), questions, answers, main).value <= |LiveQuestions(questions, main)|
  {
    var r := Remaining(questions, answers, user.id, main);
    assert r <= LiveQuestions(questions, main);
    SubsetCardinality(r, LiveQuestions(questions, main));
  }

  lemma SubsetCardinality(a: set<QuestionId>, b: set<QuestionId>)
    requires a <= b
    ensures |a| <= |b|
  {
    assert b == a + (b - a);
  }

  /** An answer in another survey, or by another user, leaves the count as it was. */
  lemma OtherAnswersDoNotCount(user: Account, questions: seq<Question>, answers: AnswerTable,
                               newId: AnswerId, row: Answer, main: SurveyId)
    requires newId !in answers
    requires row.user != user.id || !InSurvey(questions, row.question, main)
    ensures UnansweredCount(SignedIn(user), questions, answers[newId := row], main)
         == UnansweredCount(SignedIn(user), questions, answers, main)
  {
    RemainingIgnoresOtherRows(questions, answers, newId, row, user.id, main);
  }

  /** Deleting one of the main survey's questions that the user has not answered lowers the count by one. */
  lemma DeletedQuestionsNotCounted(user: Account, questions: seq<Question>, answers: AnswerTable,
                                   q: QuestionId, main: SurveyId)
    requires q < |questions|
    requires q in Remaining(questions, answers, user.id, main)
    ensures UnansweredCount(SignedIn(user), SetDeleted(questions, q, true), answers, main).value
         == UnansweredCount(SignedIn(user), questions, answers, main).value - 1
  {
    DeleteHidesQuestion(questions, answers, q, user.id, main);
  }

  /** Answering one of the offered questions lowers the count by exactly one. */
  lemma AnswerLowersCount(user: Account, questions: seq<Question>, answers: AnswerTable, newId: AnswerId,
                          q: QuestionId, v: AnswerValue, main: SurveyId)
    requires UniquePairs(answers) && newId !in answers
    requires q in Remaining(questions, answers, user.id, main)
    ensures UnansweredCount(SignedIn(user), questions, Upsert(answers, newId, q, user.id, v), main).value
         == UnansweredCount(SignedIn(user), questions, answers, main).value - 1
  {
    AnswerShrinksRemaining(questions, answers, newId, q, user.id, v, main);
  }

  /** On the main survey's own page, the navigation count and the page's count agree. */
  lemma CountMatchesDetail(surveys: seq<Survey>, user: Account, questions: seq<Question>,
                           answers: AnswerTable, main: SurveyId)
    requires SurveyViews.SurveyLive(surveys, main)
    ensures SurveyViews.SurveyDetail(surveys, questions, answers, SignedIn(user), main).value.unansweredCount
         == UnansweredCount(SignedIn(user), questions, answers, main).value
  {
  }
}
