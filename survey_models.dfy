/**
 * The records of the survey app (wikikysely_project/survey/models.py):
 * surveys with a lifecycle state and an active window, yes/no questions that
 * are soft-deleted, and one answer per user per question.
 */
module SurveyModels {
  import opened Wrappers

  type UserId = nat
  type SurveyId = nat
  type QuestionId = nat
  type AnswerId = nat

  /** A calendar date as a day number, so that dates compare as days do. */
  type Date = int

  /** The logged-in user making a request. */
  datatype Account = Account(id: UserId, isSuperuser: bool)

  /** Who makes a request: nobody logged in, or an account. */
  datatype Requester = Anonymous | SignedIn(account: Account)

  /** The three choices of `Survey.state`. */
  datatype State = Running | Paused | Closed

  /** The yes/no choices of `Answer.answer`. */
  datatype AnswerValue = Yes | No

  /** Widths of the `state` and `answer` character columns. */
  const StateMaxLength: nat := 7
  const AnswerMaxLength: nat := 3
  /** Width of the `text` column of a question. */
  const QuestionTextMaxLength: nat := 500

  datatype Survey = Survey(
    title: string,
    creator: UserId,
    startDate: Date,
    endDate: Date,
    state: State,
    deleted: bool)

  datatype Question = Question(
    survey: SurveyId,
    text: string,
    creator: UserId,
    deleted: bool)

  datatype Answer = Answer(
    question: QuestionId,
    user: UserId,
    value: AnswerValue)

  /** The string stored in the `state` column for a choice. */
  function StateCode(st: State): string {
    match st
    case Running => "running"
    case Paused => "paused"
    case Closed => "closed"
  }

  /** The choice a stored `state` string stands for; anything else is not a choice. */
  function ParseState(code: string): Option<State> {
    if code == "running" then Some(Running)
    else if code == "paused" then Some(Paused)
    else if code == "closed" then Some(Closed)
    else None
  }

  /** Every state is written as one of its choice strings, fits the column, and reads back as itself. */
  lemma StateCodeRoundTrip(st: State)
    ensures ParseState(StateCode(st)) == Some(st)
    ensures |StateCode(st)| <= StateMaxLength
  {
  }

  /** Only the three choice strings are accepted, each as the state it stands for. */
  lemma ParseStateExact(code: string)
    ensures ParseState(code).Some? <==> code in {"running", "paused", "closed"}
    ensures ParseState(code).Some? ==> StateCode(ParseState(code).value) == code
  {
  }

  function AnswerCode(v: AnswerValue): string {
    match v
    case Yes => "yes"
    case No => "no"
  }

  function ParseAnswer(code: string): Option<AnswerValue> {
    if code == "yes" then Some(Yes) else if code == "no" then Some(No) else None
  }

  /** Every answer is written as "yes" or "no", fits the column, and reads back as itself. */
  lemma AnswerCodeRoundTrip(v: AnswerValue)
    ensures ParseAnswer(AnswerCode(v)) == Some(v)
    ensures AnswerCode(v) in {"yes", "no"} && |AnswerCode(v)| <= AnswerMaxLength
  {
  }

  /**
   * `Survey.is_active`: running, not deleted, and today within the window,
   * both ends included.
   */
  predicate IsActive(s: Survey, today: Date) {
    s.state == Running && s.startDate <= today <= s.endDate && !s.deleted
  }

  /** The active window includes its first and last days and no day outside them. */
  lemma ActiveWindowInclusive(s: Survey)
    requires s.state == Running && !s.deleted && s.startDate <= s.endDate
    ensures IsActive(s, s.startDate) && IsActive(s, s.endDate)
    ensures !IsActive(s, s.startDate - 1) && !IsActive(s, s.endDate + 1)
  {
  }

  /** A paused, closed or deleted survey is not active on any day. */
  lemma ActiveOnlyWhenRunning(s: Survey, today: Date)
    requires s.state != Running || s.deleted
    ensures !IsActive(s, today)
  {
  }

  /** A survey as the model's defaults create it: paused and not deleted, hence never active. */
  function NewSurvey(title: string, creator: UserId, startDate: Date, endDate: Date): (s: Survey)
    ensures s.state == Paused && !s.deleted
    ensures s.creator == creator && s.startDate == startDate && s.endDate == endDate
    ensures forall today :: !IsActive(s, today)
  {
    Survey(title, creator, startDate, endDate, Paused, false)
  }

  /** A question as the model's defaults create it: not deleted. */
  function NewQuestion(survey: SurveyId, text: string, creator: UserId): (q: Question)
    ensures !q.deleted && q.survey == survey && q.creator == creator && q.text == text
  {
    Question(survey, text, creator, false)
  }

  /** The survey's creator or a superuser may edit it; nobody else. */
  predicate CanEdit(s: Survey, user: Account) {
    user.id == s.creator || user.isSuperuser
  }
}
