/**
 * The views of wikikysely_project/survey/views.py that read or change survey
 * data, as guarded operations on the database. Rendering, flash messages and
 * redirects are replaced by an `Outcome` saying which branch a request took.
 */
module SurveyViews {
  import opened Wrappers
  import opened Text
  import opened SurveyModels
  import opened SurveyQueries

  /** Which branch a view took, in place of its redirect, message or page. */
  datatype Outcome =
    | NotFound         // get_object_or_404 found no matching row
    | NoPermission     // neither the survey's creator nor a superuser
    | SurveyClosed     // the survey's state is 'closed'
    | NotActive        // answer_survey on a survey that is not active today
    | NotRunning       // answer_edit / answer_delete on a survey that is not running
    | NoMoreQuestions  // answer_survey with nothing left to offer
    | FormShown        // a GET, or a POST whose form did not validate: the form is rendered
    | Skipped          // answer_survey with an empty answer: nothing is written
    | Saved            // the change was written

  /** The request method, with the one posted field the view reads. */
  datatype Request = Get | Post(field: string)

  /** What the answer field of a valid answer form holds. */
  datatype Cleaned = Skip | Give(value: AnswerValue)

  /**
   * The question form, a model form whose `text` field is a Django `CharField`:
   * the text is stripped, and must then be non-empty, fit the 500-character
   * column and hold no NUL character.
   */
  function CleanQuestionText(raw: string): (r: Option<string>)
    ensures r.Some? <==> 0 < |Trim(Py, raw)| <= QuestionTextMaxLength && '\0' !in Trim(Py, raw)
    ensures r.Some? ==> r.value == Trim(Py, raw) && 0 < |r.value| <= QuestionTextMaxLength && '\0' !in r.value
  {
    var t := Trim(Py, raw);
    if 0 < |t| <= QuestionTextMaxLength && '\0' !in t then Some(t) else None
  }

  /** A NUL character is refused wherever it stands, since stripping never removes it. */
  lemma NulRejected(before: string, after: string)
    ensures CleanQuestionText(before + "\0" + after).None?
  {
    var raw := before + "\0" + after;
    var t := Trim(Py, raw);
    var a := LeadingSpaces(Py, raw);
    assert raw[|before|] == '\0';
    assert !IsSpace(Py, '\0');
    if 0 < |t| {
      assert a <= |before| < a + |t|;
      assert t[|before| - a] == '\0';
    }
  }

  /** The answer form of `answer_survey`: an empty value is a skip, "yes" and "no" are answers. */
  function CleanAnswerField(raw: string): (r: Option<Cleaned>)
    ensures r == Some(Skip) <==> raw == ""
    ensures forall v :: r == Some(Give(v)) <==> raw == AnswerCode(v)
  {
    if raw == "" then Some(Skip)
    else match ParseAnswer(raw)
      case Some(v) => Some(Give(v))
      case None => None
  }

  /** `get_object_or_404(Survey, pk=pk, deleted=False)` succeeds. */
  predicate SurveyLive(surveys: seq<Survey>, pk: SurveyId) {
    pk < |surveys| && !surveys[pk].deleted
  }

  /** What `survey_detail` hands its template. */
  datatype DetailPage = DetailPage(
    questions: set<QuestionId>,
    userAnswers: set<AnswerId>,
    unanswered: set<QuestionId>,
    canEdit: bool,
    unansweredCount: nat)

  /**
   * `survey_detail`: the survey's live questions; for a signed-in user their
   * answers in the survey and the live questions they have not answered, with
   * that count; for an anonymous visitor every live question is listed as
   * unanswered but the count is 0.
   */
  function SurveyDetail(surveys: seq<Survey>, questions: seq<Question>, answers: AnswerTable,
                        requester: Requester, pk: SurveyId): (r: Option<DetailPage>)
    ensures r.None? <==> !SurveyLive(surveys, pk)
    ensures r.Some? ==> r.value.questions == LiveQuestions(questions, pk) && r.value.unanswered <= r.value.questions
    ensures r.Some? ==> (r.value.canEdit <==> requester.SignedIn? && CanEdit(surveys[pk], requester.account))
    ensures r.Some? && requester.SignedIn? ==>
      && r.value.unanswered == Remaining(questions, answers, requester.account.id, pk)
      && r.value.questions - r.value.unanswered == r.value.questions * AnsweredIds(questions, answers, requester.account.id, pk)
      && r.value.unansweredCount == |r.value.unanswered|
      && (forall a :: a in r.value.userAnswers <==>
            a in answers && answers[a].user == requester.account.id && InSurvey(questions, answers[a].question, pk))
    ensures r.Some? && requester.Anonymous? ==>
      r.value.unanswered == r.value.questions && r.value.userAnswers == {} && r.value.unansweredCount == 0
  {
    if !SurveyLive(surveys, pk) then None
    else
      var live := LiveQuestions(questions, pk);
      match requester
      case Anonymous => Some(DetailPage(live, {}, live, false, 0))
      case SignedIn(user) =>
        var mine := set a | a in answers && answers[a].user == user.id && InSurvey(questions, answers[a].question, pk);
        var unanswered := live - AnsweredIds(questions, answers, user.id, pk);
        Some(DetailPage(live, mine, unanswered, CanEdit(surveys[pk], user), |unanswered|))
  }

  /** The database: surveys and questions by primary key, answers by primary key. */
  class Store {
    var surveys: seq<Survey>
    var questions: seq<Question>
    var answers: AnswerTable
    var nextAnswer: AnswerId

    ghost predicate Valid()
      reads this
    {
      TablesValid(surveys, questions, answers, nextAnswer)
    }

    /** A database holding the given surveys and no questions or answers yet. */
    constructor (surveys: seq<Survey>)
      ensures Valid()
      ensures this.surveys == surveys && questions == [] && answers == map[]
    {
      this.surveys := surveys;
      questions := [];
      answers := map[];
      nextAnswer := 0;
    }

    /** `question_add`: the creator or a superuser adds a question to a survey that is not closed. */
    method QuestionAdd(user: Account, pk: SurveyId, request: Request) returns (outcome: Outcome)
      requires Valid()
      modifies this
      ensures Valid()
      ensures surveys == old(surveys) && answers == old(answers) && nextAnswer == old(nextAnswer)
      ensures outcome ==
        if !SurveyLive(surveys, pk) then NotFound
        else if !CanEdit(surveys[pk], user) then NoPermission
        else if surveys[pk].state == Closed then SurveyClosed
        else if request.Get? || CleanQuestionText(request.field).None? then FormShown
        else Saved
      ensures questions ==
        if outcome == Saved then old(questions) + [NewQuestion(pk, CleanQuestionText(request.field).value, user.id)]
        else old(questions)
    {
      if !SurveyLive(surveys, pk) {
        return NotFound;
      }
      if !CanEdit(surveys[pk], user) {
        return NoPermission;
      }
      if surveys[pk].state == Closed {
        return SurveyClosed;
      }
      match request
      case Get =>
        outcome := FormShown;
      case Post(text) =>
        var cleaned := CleanQuestionText(text);
        if cleaned.None? {
          return FormShown;
        }
        questions := questions + [NewQuestion(pk, cleaned.value, user.id)];
        outcome := Saved;
    }

    /** `question_delete`: the creator or a superuser hides a live question of a survey that is not closed. */
    method QuestionDelete(user: Account, pk: QuestionId) returns (outcome: Outcome)
      requires Valid()
      modifies this
      ensures Valid()
      ensures surveys == old(surveys) && answers == old(answers) && nextAnswer == old(nextAnswer)
      ensures outcome ==
        if pk >= |old(questions)| || old(questions)[pk].deleted then NotFound
        else if !CanEdit(surveys[old(questions)[pk].survey], user) then NoPermission
        else if surveys[old(questions)[pk].survey].state == Closed then SurveyClosed
        else Saved
      ensures questions == if outcome == Saved then SetDeleted(old(questions), pk, true) else old(questions)
    {
      if pk >= |questions| || questions[pk].deleted {
        return NotFound;
      }
      var survey := surveys[questions[pk].survey];
      if !CanEdit(survey, user) {
        return NoPermission;
      }
      if survey.state == Closed {
        return SurveyClosed;
      }
      questions := questions[pk := questions[pk].(deleted := true)];
      outcome := Saved;
    }

    /** `question_restore`: the creator or a superuser brings back a deleted question of a survey that is not closed. */
    method QuestionRestore(user: Account, pk: QuestionId) returns (outcome: Outcome)
      requires Valid()
      modifies this
      ensures Valid()
      ensures surveys == old(surveys) && answers == old(answers) && nextAnswer == old(nextAnswer)
      ensures outcome ==
        if pk >= |old(questions)| || !old(questions)[pk].deleted then NotFound
        else if !CanEdit(surveys[old(questions)[pk].survey], user) then NoPermission
        else if surveys[old(questions)[pk].survey].state == Closed then SurveyClosed
        else Saved
      ensures questions == if outcome == Saved then SetDeleted(old(questions), pk, false) else old(questions)
    {
      if pk >= |questions| || !questions[pk].deleted {
        return NotFound;
      }
      var survey := surveys[questions[pk].survey];
      if !CanEdit(survey, user) {
        return NoPermission;
      }
      if survey.state == Closed {
        return SurveyClosed;
      }
      questions := questions[pk := questions[pk].(deleted := false)];
      outcome := Saved;
    }

    /** `Answer.objects.update_or_create(user=u, question=q, defaults={'answer': v})`. */
    method UpdateOrCreate(q: QuestionId, u: UserId, v: AnswerValue)
      requires Valid() && q < |questions|
      modifies this
      ensures Valid()
      ensures surveys == old(surveys) && questions == old(questions)
      ensures answers == Upsert(old(answers), old(nextAnswer), q, u, v)
      ensures nextAnswer == if HasRow(old(answers), q, u) then old(nextAnswer) else old(nextAnswer) + 1
    {
      UpsertSpec(answers, nextAnswer, q, u, v);
      if k :| k in answers && answers[k].question == q && answers[k].user == u {
        assert k == RowOf(answers, q, u);
        answers := answers[k := Answer(q, u, v)];
      } else {
        answers := answers[nextAnswer := Answer(q, u, v)];
        nextAnswer := nextAnswer + 1;
      }
    }

    /**
     * `answer_survey`: on an active survey, draw one of the user's remaining
     * questions at random; a posted "yes" or "no" is stored against that drawn
     * question (whatever question id the request carried), an empty answer
     * stores nothing.
     */
    method AnswerSurvey(user: Account, pk: SurveyId, today: Date, request: Request)
      returns (outcome: Outcome, offered: Option<QuestionId>)
      requires Valid()
      modifies this
      ensures Valid()
      ensures surveys == old(surveys) && questions == old(questions)
      ensures !SurveyLive(surveys, pk) ==> outcome == NotFound && offered == None
      ensures SurveyLive(surveys, pk) && !IsActive(surveys[pk], today) ==> outcome == NotActive && offered == None
      ensures SurveyLive(surveys, pk) && IsActive(surveys[pk], today) && Remaining(questions, old(answers), user.id, pk) == {} ==>
        outcome == NoMoreQuestions && offered == None
      ensures SurveyLive(surveys, pk) && IsActive(surveys[pk], today) && Remaining(questions, old(answers), user.id, pk) != {} ==>
        && offered.Some? && offered.value in Remaining(questions, old(answers), user.id, pk)
        && outcome == (
          if request.Get? || CleanAnswerField(request.field).None? then FormShown
          else if CleanAnswerField(request.field) == Some(Skip) then Skipped
          else Saved)
      ensures outcome == Saved ==>
        answers == Upsert(old(answers), old(nextAnswer), offered.value, user.id, CleanAnswerField(request.field).value.value)
      ensures outcome != Saved ==> answers == old(answers) && nextAnswer == old(nextAnswer)
    {
      offered := None;
      if !SurveyLive(surveys, pk) {
        return NotFound, offered;
      }
      if !IsActive(surveys[pk], today) {
        return NotActive, offered;
      }
      var remaining := Remaining(questions, answers, user.id, pk);
      if remaining == {} {
        return NoMoreQuestions, offered;
      }
      var q :| q in remaining;
      offered := Some(q);
      match request
      case Get =>
        outcome := FormShown;
      case Post(field) =>
        match CleanAnswerField(field)
        case None =>
          outcome := FormShown;
        case Some(Skip) =>
          outcome := Skipped;
        case Some(Give(v)) =>
          UpdateOrCreate(q, user.id, v);
          outcome := Saved;
    }

    /** `get_object_or_404(Answer, pk=a, user=u, question__survey__deleted=False, question__deleted=False)`. */
    predicate EditableAnswer(user: Account, a: AnswerId)
      reads this
    {
      && a in answers && answers[a].user == user.id
      && answers[a].question < |questions| && !questions[answers[a].question].deleted
      && SurveyLive(surveys, questions[answers[a].question].survey)
    }

    /** `answer_edit`: the owner of a live answer changes its value while the survey is running. */
    method AnswerEdit(user: Account, a: AnswerId, request: Request) returns (outcome: Outcome)
      requires Valid()
      modifies this
      ensures Valid()
      ensures surveys == old(surveys) && questions == old(questions) && nextAnswer == old(nextAnswer)
      ensures outcome ==
        if !old(EditableAnswer(user, a)) then NotFound
        else if surveys[questions[old(answers)[a].question].survey].state != Running then NotRunning
        else if request.Get? || ParseAnswer(request.field).None? then FormShown
        else Saved
      ensures answers ==
        if outcome == Saved then old(answers)[a := old(answers)[a].(value := ParseAnswer(request.field).value)]
        else old(answers)
    {
      if !EditableAnswer(user, a) {
        return NotFound;
      }
      if surveys[questions[answers[a].question].survey].state != Running {
        return NotRunning;
      }
      match request
      case Get =>
        outcome := FormShown;
      case Post(field) =>
        var parsed := ParseAnswer(field);
        if parsed.None? {
          return FormShown;
        }
        answers := answers[a := answers[a].(value := parsed.value)];
        outcome := Saved;
    }

    /** `answer_delete`: the owner of an answer removes it while the survey is running. */
    method AnswerDelete(user: Account, a: AnswerId) returns (outcome: Outcome)
      requires Valid()
      modifies this
      ensures Valid()
      ensures surveys == old(surveys) && questions == old(questions) && nextAnswer == old(nextAnswer)
      ensures outcome ==
        if !(a in old(answers) && old(answers)[a].user == user.id) then NotFound
        else if surveys[questions[old(answers)[a].question].survey].state != Running then NotRunning
        else Saved
      ensures answers == if outcome == Saved then old(answers) - {a} else old(answers)
      ensures outcome == Saved ==> !HasRow(answers, old(answers)[a].question, user.id)
    {
      if !(a in answers && answers[a].user == user.id) {
        return NotFound;
      }
      if surveys[questions[answers[a].question].survey].state != Running {
        return NotRunning;
      }
      DeleteClearsPair(answers, a);
      answers := answers - {a};
      outcome := Saved;
    }

    /**
     * `survey_results`: one row per live question of the survey, in key order,
     * with its yes, no and total counts, and the number of distinct users who
     * answered anything in the survey.
     */
    method SurveyResults(pk: SurveyId) returns (found: bool, data: seq<ResultRow>, totalUsers: nat)
      ensures found <==> SurveyLive(surveys, pk)
      ensures found ==> data == ResultRowsUpTo(questions, answers, pk, |questions|)
      ensures found ==> totalUsers == |Respondents(questions, answers, pk)|
      ensures !found ==> data == [] && totalUsers == 0
    {
      data, totalUsers := [], 0;
      found := SurveyLive(surveys, pk);
      if !found {
        return;
      }
      totalUsers := |Respondents(questions, answers, pk)|;
      for q := 0 to |questions|
        invariant data == ResultRowsUpTo(questions, answers, pk, q)
      {
        if IsLive(questions, q, pk) {
          var yes := |VotesFor(answers, q, Yes)|;
          var no := |VotesFor(answers, q, No)|;
          data := data + [ResultRow(q, yes, no, yes + no)];
        }
      }
    }
  }

  /** A user who has answered everything left in an active survey is told there are no more questions. */
  lemma AnsweringEverythingEnds(questions: seq<Question>, answers: AnswerTable, newId: AnswerId,
                                q: QuestionId, u: UserId, v: AnswerValue, s: SurveyId)
    requires UniquePairs(answers) && newId !in answers
    requires Remaining(questions, answers, u, s) == {q}
    ensures Remaining(questions, Upsert(answers, newId, q, u, v), u, s) == {}
  {
    AnswerShrinksRemaining(questions, answers, newId, q, u, v, s);
  }
}
