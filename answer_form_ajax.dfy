/**
 * static/js/answer_form_ajax.js: the single-question answer form submitted in
 * the background. A successful reply rewrites the tally cells, the
 * navigation's unanswered count and the message box; any failure reloads.
 */
module AnswerFormAjax {
  import opened Wrappers
  import opened AnswerNav
  import opened SurveyModels
  import opened SurveyQueries

  /** The "no" cell: the reply carries only the total and the yes count. */
  function NoCount(total: int, yes: int): (n: int)
    ensures n + yes == total
    ensures yes <= total <==> n >= 0
  {
    total - yes
  }

  /** For a tally that counts every answer as a yes or a no, the derived cell is the number of no answers. */
  lemma NoCountOfTally(answers: AnswerTable, q: QuestionId)
    ensures NoCount(RowFor(answers, q).total, RowFor(answers, q).yes) == |VotesFor(answers, q, No)|
    ensures NoCount(RowFor(answers, q).total, RowFor(answers, q).yes) >= 0
  {
  }

  /** The alert kind: informational for a skip, success for an answer. */
  function AlertType(skipped: bool): (t: string)
    ensures t == "alert-info" <==> skipped
    ensures t == "alert-success" <==> !skipped
  {
    if skipped then "alert-info" else "alert-success"
  }

  /** The `#ajax-message` element: its class and its text. */
  datatype MessageBox = MessageBox(className: string, text: string)

  /** What the message box becomes after a successful reply; a missing message clears the text. */
  function MessageAfter(skipped: bool, message: Option<string>): (m: MessageBox)
    ensures m.className == "alert " + AlertType(skipped) + " mt-2"
    ensures message.Some? ==> m.text == message.value
    ensures message.None? ==> m.text == ""
  {
    MessageBox("alert " + AlertType(skipped) + " mt-2", if message.Some? then message.value else "")
  }

  /** The reply of a response that was ok and parsed; `None` stands for every other outcome. */
  datatype FormReply = FormReply(success: bool, yesCount: int, total: int,
                                 unansweredCount: Option<int>, skipped: bool, message: Option<string>)

  class AnswerFormPage {
    /** `#yes-count`, `#no-count`, `#total-count`: their numbers, `None` when the page lacks the cell. */
    var yesCell: Option<int>
    var noCell: Option<int>
    var totalCell: Option<int>
    var nav: NavBar
    var messageBox: Option<MessageBox>
    var reloaded: bool

    constructor (yesCell: Option<int>, noCell: Option<int>, totalCell: Option<int>, nav: NavBar,
                 messageBox: Option<MessageBox>)
      ensures this.yesCell == yesCell && this.noCell == noCell && this.totalCell == totalCell
      ensures this.nav == nav && this.messageBox == messageBox && !reloaded
    {
      this.yesCell := yesCell;
      this.noCell := noCell;
      this.totalCell := totalCell;
      this.nav := nav;
      this.messageBox := messageBox;
      reloaded := false;
    }

    /**
     * The reply to one submission: a failure or `success` false reloads and
     * changes nothing else; otherwise each present cell shows its number, the
     * navigation follows the unanswered count only when the reply has one, and
     * the message box, when present, shows the message.
     */
    method HandleReply(reply: Option<FormReply>)
      modifies this
      ensures reply.None? || !reply.value.success ==>
        reloaded && yesCell == old(yesCell) && noCell == old(noCell) && totalCell == old(totalCell)
        && nav == old(nav) && messageBox == old(messageBox)
      ensures reply.Some? && reply.value.success ==>
        var data := reply.value;
        && reloaded == old(reloaded)
        && yesCell == (if old(yesCell).Some? then Some(data.yesCount) else None)
        && noCell == (if old(noCell).Some? then Some(NoCount(data.total, data.yesCount)) else None)
        && totalCell == (if old(totalCell).Some? then Some(data.total) else None)
        && nav == (if data.unansweredCount.Some? then UpdateNavLink(old(nav), data.unansweredCount.value) else old(nav))
        && messageBox == (if old(messageBox).Some? then Some(MessageAfter(data.skipped, data.message)) else None)
    {
      if reply.None? || !reply.value.success {
        reloaded := true;
        return;
      }
      var data := reply.value;
      var noCount := NoCount(data.total, data.yesCount);
      if yesCell.Some? { yesCell := Some(data.yesCount); }
      if noCell.Some? { noCell := Some(noCount); }
      if totalCell.Some? { totalCell := Some(data.total); }
      if data.unansweredCount.Some? {
        nav := UpdateNavLink(nav, data.unansweredCount.value);
      }
      if messageBox.Some? {
        messageBox := Some(MessageAfter(data.skipped, data.message));
      }
    }
  }
}
