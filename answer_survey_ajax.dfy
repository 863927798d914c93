/**
 * static/js/answer_survey_ajax.js: the one-question-at-a-time answering page.
 * The unanswered questions are fetched once into a queue; each step draws one
 * at random, shows it, and sends the user's answer (or a skip) to the server.
 */
module AnswerSurveyAjax {
  import opened Wrappers
  import opened Text
  import opened AnswerNav
  import SurveyViews

  datatype QuestionItem = QuestionItem(id: int, text: string)

  /** What `questions.splice(idx, 1)` leaves behind: every element but the one at `idx`, in order. */
  function Spliced<T>(s: seq<T>, idx: nat): (r: seq<T>)
    requires idx < |s|
    ensures |r| == |s| - 1
    ensures forall k :: 0 <= k < |r| ==> r[k] == (if k < idx then s[k] else s[k + 1])
  {
    s[..idx] + s[idx + 1..]
  }

  /** Splicing out one element loses nothing else: the element and the rest make up the original. */
  lemma SplicedPermutation<T>(s: seq<T>, idx: nat)
    requires idx < |s|
    ensures multiset(Spliced(s, idx)) + multiset{s[idx]} == multiset(s)
  {
    assert s == s[..idx] + [s[idx]] + s[idx + 1..];
  }

  /** One field of a posted form. */
  datatype Field = Field(name: string, value: string)

  /**
   * The form `sendAnswer(value)` posts: nothing at all without a current
   * question; otherwise its id, then an `answer` field only when the value is
   * not empty, so a skip carries no answer.
   */
  function AnswerPayload(current: Option<QuestionItem>, value: string): (r: Option<seq<Field>>)
    ensures r.None? <==> current.None?
    ensures r.Some? ==> |r.value| >= 1 && r.value[0] == Field("question_id", IntToString(current.value.id))
    ensures r.Some? ==> (|r.value| == 2 <==> value != "") && |r.value| <= 2
    ensures r.Some? && |r.value| == 2 ==> r.value[1] == Field("answer", value)
  {
    match current
    case None => None
    case Some(q) =>
      var idField := [Field("question_id", IntToString(q.id))];
      Some(if value != "" then idField + [Field("answer", value)] else idField)
  }

  /** The value the server reads as `answer`: the first such field, or empty when there is none. */
  function PostedAnswer(fields: seq<Field>): string {
    if fields == [] then ""
    else if fields[0].name == "answer" then fields[0].value
    else PostedAnswer(fields[1..])
  }

  /**
   * The page's three buttons post "yes", "no" and "" (skip); the answering
   * view takes each as a valid form: an answer for "yes" and "no", a skip for "".
   */
  lemma ButtonsPostValidAnswers(current: QuestionItem, value: string)
    requires value in {"yes", "no", ""}
    ensures var posted := PostedAnswer(AnswerPayload(Some(current), value).value);
      && posted == value
      && SurveyViews.CleanAnswerField(posted).Some?
      && (SurveyViews.CleanAnswerField(posted) == Some(SurveyViews.Skip) <==> value == "")
  {
    var fields := AnswerPayload(Some(current), value).value;
    assert fields[0].name == "question_id";
    assert fields[1..] == if value == "" then [] else [Field("answer", value)];
  }

  /** The `#ajax-message` element: its text and its class. */
  datatype MessageBox = MessageBox(text: string, className: string)

  /** The class of the message box after a reply: informational for a skip, success otherwise. */
  function ReplyAlertClass(skipped: bool): (c: string)
    ensures c == "alert alert-info" <==> skipped
    ensures c == "alert alert-success" <==> !skipped
  {
    "alert " + (if skipped then "alert-info" else "alert-success")
  }

  /** The JSON of an answer reply, or `{}` for a response that is not ok. */
  datatype Reply = Reply(ok: bool, message: string, skipped: bool, unansweredCount: Option<int>)

  class AnswerPage {
    /** The questions not yet drawn. */
    var questions: seq<QuestionItem>
    /** The question on screen, `null` in the source before the first draw. */
    var current: Option<QuestionItem>
    /** The text of `#question-text`, `None` when the page has no such element. */
    var questionText: Option<string>
    var nav: NavBar
    /** `None` when the page has no `#ajax-message`. */
    var messageBox: Option<MessageBox>
    /** Whether the page asked the browser to reload. */
    var reloaded: bool

    constructor (questionText: Option<string>, nav: NavBar, messageBox: Option<MessageBox>)
      ensures this.questionText == questionText && this.nav == nav && this.messageBox == messageBox
      ensures questions == [] && current.None? && !reloaded
    {
      this.questionText := questionText;
      this.nav := nav;
      this.messageBox := messageBox;
      questions := [];
      current := None;
      reloaded := false;
    }

    /**
     * `showNext`: with an empty queue the page reloads and nothing else
     * changes; otherwise one question is drawn at random, removed from the
     * queue and shown, and the count shows how many are left.
     */
    method ShowNext()
      modifies this
      ensures old(questions) == [] ==>
        reloaded && current == old(current) && questions == [] && nav == old(nav) && questionText == old(questionText)
      ensures old(questions) != [] ==>
        && (exists idx :: 0 <= idx < |old(questions)| && current == Some(old(questions)[idx])
                         && questions == Spliced(old(questions), idx))
        && nav == UpdateNavLink(old(nav), |questions|)
        && questionText == (if old(questionText).Some? then Some(current.value.text) else None)
        && reloaded == old(reloaded)
      ensures messageBox == old(messageBox)
    {
      if |questions| == 0 {
        reloaded := true;
        return;
      }
      var idx :| 0 <= idx < |questions|;
      var drawn := questions[idx];
      current := Some(drawn);
      questions := Spliced(questions, idx);
      if questionText.Some? {
        questionText := Some(drawn.text);
      }
      nav := UpdateNavLink(nav, |questions|);
    }

    /**
     * The initial fetch's handler: the listed questions (none for a response
     * that is not ok or a reply without a list), then the first draw. With
     * nothing listed the page reloads; otherwise one listed question is
     * current, the others stay queued in their order, and the count shows
     * how many are queued.
     */
    method Load(ok: bool, listed: Option<seq<QuestionItem>>)
      modifies this
      ensures var queue := if ok && listed.Some? then listed.value else [];
        && (queue == [] ==>
              reloaded && current == old(current) && questions == [] && nav == old(nav)
              && questionText == old(questionText))
        && (queue != [] ==>
              && (exists idx :: 0 <= idx < |queue| && current == Some(queue[idx]) && questions == Spliced(queue, idx))
              && current.Some? && current.value in queue
              && multiset(questions) + multiset{current.value} == multiset(queue)
              && nav == UpdateNavLink(old(nav), |questions|) && |questions| == |queue| - 1
              && questionText == (if old(questionText).Some? then Some(current.value.text) else None)
              && reloaded == old(reloaded))
      ensures messageBox == old(messageBox)
    {
      questions := if ok && listed.Some? then listed.value else [];
      ghost var queue := questions;
      ShowNext();
      if queue != [] {
        var idx :| 0 <= idx < |queue| && current == Some(queue[idx]) && questions == Spliced(queue, idx);
        SplicedPermutation(queue, idx);
      }
    }

    /**
     * The reply to `sendAnswer`: a message, when there is one, goes into the
     * message box with the skip or success class; a numeric unanswered count
     * updates the navigation; then the next question is drawn. A response
     * that is not ok counts as an empty reply.
     */
    method ReceiveReply(reply: Reply)
      modifies this
      ensures messageBox ==
        if old(messageBox).Some? && reply.ok && reply.message != "" then
          Some(MessageBox(reply.message, ReplyAlertClass(reply.skipped)))
        else old(messageBox)
      ensures var mid := if reply.ok && reply.unansweredCount.Some? then UpdateNavLink(old(nav), reply.unansweredCount.value)
                         else old(nav);
        && (old(questions) == [] ==>
              reloaded && current == old(current) && questions == [] && nav == mid && questionText == old(questionText))
        && (old(questions) != [] ==>
              && (exists idx :: 0 <= idx < |old(questions)| && current == Some(old(questions)[idx])
                               && questions == Spliced(old(questions), idx))
              && nav == UpdateNavLink(mid, |questions|)
              && questionText == (if old(questionText).Some? then Some(current.value.text) else None)
              && reloaded == old(reloaded))
    {
      if messageBox.Some? && reply.ok && reply.message != "" {
        messageBox := Some(MessageBox(reply.message, ReplyAlertClass(reply.skipped)));
      }
      if reply.ok && reply.unansweredCount.Some? {
        nav := UpdateNavLink(nav, reply.unansweredCount.value);
      }
      ShowNext();
    }
  }
}
