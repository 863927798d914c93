/**
 * static/js/survey_detail_ajax.js: the survey page's answer forms submitted in
 * the background. A successful answer removes the question's card and row,
 * reveals the next hidden card, records a yes/no answer in "my answers",
 * toggles the skip and thanks messages and counts down the unanswered
 * questions, leaving the page when none are left.
 */
module SurveyDetailAjax {
  import opened Wrappers
  import opened Seqs
  import opened Text
  import opened AnswerNav

  /** `parseInt(text, 10) || 0`: text that is not a number, and zero, both give 0. */
  function CountOrZero(text: string): (n: int)
    ensures ParseInt(text).None? ==> n == 0
    ensures ParseInt(text).Some? ==> n == ParseInt(text).value
  {
    match ParseInt(text)
    case Some(v) => v
    case None => 0
  }

  /**
   * The count after a non-edit answer: the server's `unanswered_count` when the
   * reply carries one, else one less than the count shown, but never below zero.
   */
  function NextCount(serverCount: Option<int>, shown: string): (r: int)
    ensures serverCount.Some? ==> r == serverCount.value
    ensures serverCount.None? ==> r >= 0 && r >= CountOrZero(shown) - 1
    ensures serverCount.None? && CountOrZero(shown) >= 1 ==> r == CountOrZero(shown) - 1
  {
    match serverCount
    case Some(n) => n
    case None => if CountOrZero(shown) - 1 > 0 then CountOrZero(shown) - 1 else 0
  }

  /** Counting down from a count the page itself wrote takes one off, stopping at zero. */
  lemma CountDownFromShown(n: int)
    ensures NextCount(None, IntToString(n)) == if n > 0 then n - 1 else 0
  {
    ParseIntToString(n);
  }

  /** Text that is not a number counts as zero, so the fallback shows zero. */
  lemma UnreadableCountIsZero(text: string)
    requires ParseInt(text).None?
    ensures NextCount(None, text) == 0
  {
  }

  /** An unanswered question's card; the cards after the first few start hidden (class `d-none`). */
  datatype Card = Card(questionId: int, hidden: bool)

  /** Number of hidden cards. */
  function HiddenCount(cards: seq<Card>): nat {
    if cards == [] then 0 else (if cards[0].hidden then 1 else 0) + HiddenCount(cards[1..])
  }

  /** The page after removing every card tagged with `qid`, keeping the order of the rest. */
  function DropCards(cards: seq<Card>, qid: int): (r: seq<Card>)
    ensures |r| <= |cards|
    ensures forall c :: c in r <==> c in cards && c.questionId != qid
    ensures r == Filter(cards, (c: Card) => c.questionId != qid)
    ensures HiddenCount(r) <= HiddenCount(cards)
  {
    if cards == [] then []
    else if cards[0].questionId == qid then DropCards(cards[1..], qid)
    else [cards[0]] + DropCards(cards[1..], qid)
  }

  /** The rows of "my answers" after removing every row tagged with `qid`. */
  function DropRows(rows: seq<int>, qid: int): (r: seq<int>)
    ensures |r| <= |rows|
    ensures forall x :: x in r <==> x in rows && x != qid
    ensures r == Filter(rows, (x: int) => x != qid)
  {
    if rows == [] then []
    else if rows[0] == qid then DropRows(rows[1..], qid)
    else [rows[0]] + DropRows(rows[1..], qid)
  }

  /** Removing the answered question's cards and rows keeps the rest in page order: it splits over any cut of the page. */
  lemma DropKeepsOrder(a: seq<Card>, b: seq<Card>, rowsA: seq<int>, rowsB: seq<int>, qid: int)
    ensures DropCards(a + b, qid) == DropCards(a, qid) + DropCards(b, qid)
    ensures DropRows(rowsA + rowsB, qid) == DropRows(rowsA, qid) + DropRows(rowsB, qid)
  {
    FilterAppend(a, b, (c: Card) => c.questionId != qid);
    FilterAppend(rowsA, rowsB, (x: int) => x != qid);
  }

  /**
   * The first card with class `d-none` loses it: exactly that card changes,
   * and it becomes visible, so one card fewer is hidden when any was.
   */
  function RevealFirstHidden(cards: seq<Card>): (r: seq<Card>)
    ensures |r| == |cards|
    ensures forall k :: 0 <= k < |r| ==> r[k].questionId == cards[k].questionId
    ensures forall k :: 0 <= k < |r| && r[k] != cards[k] ==>
      cards[k].hidden && !r[k].hidden && forall j :: 0 <= j < k ==> !cards[j].hidden
    ensures HiddenCount(r) == if HiddenCount(cards) > 0 then HiddenCount(cards) - 1 else 0
  {
    if cards == [] then []
    else if cards[0].hidden then [Card(cards[0].questionId, false)] + cards[1..]
    else [cards[0]] + RevealFirstHidden(cards[1..])
  }

  datatype Location = Here | Reloaded | NavigatedTo(url: string)

  /**
   * Where the page goes once the count is updated: nowhere while answer forms
   * remain or when the page names no completion URL; otherwise to the
   * completion page when the count is zero, and a reload when it is not.
   */
  function Completion(completionUrl: Option<string>, formsLeft: nat, newCount: int): (r: Option<Location>)
    ensures r.Some? <==> completionUrl.Some? && formsLeft == 0
    ensures r.Some? ==> (r.value == NavigatedTo(completionUrl.value) <==> newCount == 0)
    ensures r.Some? ==> (r.value == Reloaded <==> newCount != 0)
  {
    if completionUrl.Some? && formsLeft == 0 then
      Some(if newCount == 0 then NavigatedTo(completionUrl.value) else Reloaded)
    else None
  }

  /** The alert `showAlert` leaves at the top of the page. */
  datatype Alert = Alert(message: string, kind: string)

  /** The JSON of a successful response; `None` stands for a failed one, an unreadable one and `null`. */
  datatype Reply = Reply(success: bool, questionId: int, message: string, messageType: string,
                         unansweredCount: Option<int>)

  predicate IsYesNo(value: string) {
    value == "yes" || value == "no"
  }

  /**
   * A message element after an answer: `#skip-help-message` (shown on a skip)
   * or `#thanks-message` (shown on yes/no). Edit forms, missing elements and
   * other values leave it as it was.
   */
  function ToggleAfter(shown: Option<bool>, isEdit: bool, answerValue: string, showOnSkip: bool): (r: Option<bool>)
    ensures r.None? <==> shown.None?
    ensures isEdit ==> r == shown
    ensures !isEdit && shown.Some? && answerValue == "" ==> r == Some(showOnSkip)
    ensures !isEdit && shown.Some? && IsYesNo(answerValue) ==> r == Some(!showOnSkip)
    ensures answerValue != "" && !IsYesNo(answerValue) ==> r == shown
  {
    if isEdit || shown.None? then shown
    else if answerValue == "" then Some(showOnSkip)
    else if IsYesNo(answerValue) then Some(!showOnSkip)
    else shown
  }

  /** After a skip or a yes/no on a non-edit form, exactly one of the two messages is displayed. */
  lemma SkipAndThanksExclusive(skipHelp: bool, thanks: bool, answerValue: string)
    requires answerValue == "" || IsYesNo(answerValue)
    ensures var s := ToggleAfter(Some(skipHelp), false, answerValue, true).value;
      var t := ToggleAfter(Some(thanks), false, answerValue, false).value;
      s != t && (s <==> answerValue == "")
  {
  }

  /**
   * "My answers" after an answer to `qid`: its old row goes, and a new row for
   * it is put on top only for a yes or a no.
   */
  function RowsAfter(rows: Option<seq<int>>, qid: int, answerValue: string): (r: Option<seq<int>>)
    ensures r.None? <==> rows.None?
    ensures r.Some? ==> (qid in r.value <==> IsYesNo(answerValue))
    ensures r.Some? && IsYesNo(answerValue) ==> r.value[0] == qid && r.value[1..] == DropRows(rows.value, qid)
    ensures r.Some? && !IsYesNo(answerValue) ==> r.value == DropRows(rows.value, qid)
    ensures r.Some? ==> forall x :: x != qid ==> (x in r.value <==> x in rows.value)
  {
    match rows
    case None => None
    case Some(shown) =>
      var kept := DropRows(shown, qid);
      Some(if IsYesNo(answerValue) then [qid] + kept else kept)
  }

  /** `showAlert(data.message, data.message_type || 'info')` when the reply carries a message. */
  function AlertAfter(alert: Option<Alert>, reply: Reply): (r: Option<Alert>)
    ensures reply.message == "" ==> r == alert
    ensures reply.message != "" ==> r.Some? && r.value.message == reply.message
    ensures reply.message != "" ==> r.value.kind == (if reply.messageType != "" then reply.messageType else "info")
  {
    if reply.message != "" then
      Some(Alert(reply.message, if reply.messageType != "" then reply.messageType else "info"))
    else alert
  }

  class DetailPage {
    var nav: NavBar
    /** The unanswered cards, each holding one `form.ajax-answer-question`, in page order. */
    var cards: seq<Card>
    /** The question ids of the rows of `#my-answers-body`, top first; `None` when there is no such table body. */
    var myAnswers: Option<seq<int>>
    /** Whether `#skip-help-message` and `#thanks-message` are displayed; `None` when absent. */
    var skipHelp: Option<bool>
    var thanks: Option<bool>
    var alert: Option<Alert>
    var location: Location
    /** The page's `completionUrl`, when it defines one. */
    const completionUrl: Option<string>

    /** Loading the page normalises the navigation link from the count shown. */
    constructor (nav: NavBar, cards: seq<Card>, myAnswers: Option<seq<int>>, skipHelp: Option<bool>,
                 thanks: Option<bool>, completionUrl: Option<string>)
      ensures this.nav == if nav.countText.Some? then UpdateNavLink(nav, CountOrZero(nav.countText.value)) else nav
      ensures this.cards == cards && this.myAnswers == myAnswers && this.skipHelp == skipHelp
      ensures this.thanks == thanks && this.completionUrl == completionUrl
      ensures alert.None? && location == Here
    {
      this.nav := if nav.countText.Some? then UpdateNavLink(nav, CountOrZero(nav.countText.value)) else nav;
      this.cards := cards;
      this.myAnswers := myAnswers;
      this.skipHelp := skipHelp;
      this.thanks := thanks;
      this.alert := None;
      this.location := Here;
      this.completionUrl := completionUrl;
    }

    /**
     * The reply to one submitted answer form. `isEdit` is the form's
     * `data-is-edit`, `next` its `next` field (empty when missing) and
     * `answerValue` the value of the `answer` button pressed (empty for skip).
     */
    method HandleAnswer(isEdit: bool, next: string, answerValue: string, reply: Option<Reply>)
      modifies this
      ensures reply.None? || !reply.value.success ==>
        location == Reloaded && nav == old(nav) && cards == old(cards) && myAnswers == old(myAnswers)
        && skipHelp == old(skipHelp) && thanks == old(thanks) && alert == old(alert)
      ensures reply.Some? && reply.value.success && isEdit && next != "" ==>
        location == NavigatedTo(next) && nav == old(nav) && cards == old(cards) && myAnswers == old(myAnswers)
        && skipHelp == old(skipHelp) && thanks == old(thanks) && alert == old(alert)
      ensures reply.Some? && reply.value.success && !(isEdit && next != "") ==>
        var qid := reply.value.questionId;
        && cards == RevealFirstHidden(DropCards(old(cards), qid))
        && myAnswers == RowsAfter(old(myAnswers), qid, answerValue)
        && alert == AlertAfter(old(alert), reply.value)
        && skipHelp == ToggleAfter(old(skipHelp), isEdit, answerValue, true)
        && thanks == ToggleAfter(old(thanks), isEdit, answerValue, false)
        && (isEdit || old(nav).countText.None? ==> nav == old(nav) && location == old(location))
        && (!isEdit && old(nav).countText.Some? ==>
              var newCount := NextCount(reply.value.unansweredCount, old(nav).countText.value);
              && nav == UpdateNavLink(old(nav), newCount)
              && location == match Completion(completionUrl, |cards|, newCount)
                             case Some(l) => l
                             case None => old(location))
    {
      if reply.None? || !reply.value.success {
        location := Reloaded;
        return;
      }
      var data := reply.value;
      if isEdit && next != "" {
        location := NavigatedTo(next);
        return;
      }
      var qid := data.questionId;
      cards := RevealFirstHidden(DropCards(cards, qid));
      alert := AlertAfter(alert, data);
      skipHelp := ToggleAfter(skipHelp, isEdit, answerValue, true);
      thanks := ToggleAfter(thanks, isEdit, answerValue, false);
      myAnswers := RowsAfter(myAnswers, qid, answerValue);
      if nav.countText.Some? && !isEdit {
        var newCount := NextCount(data.unansweredCount, nav.countText.value);
        nav := UpdateNavLink(nav, newCount);
        var goTo := Completion(completionUrl, |cards|, newCount);
        if goTo.Some? {
          location := goTo.value;
        }
      }
    }
  }

  /** A rendered count that already matches the page is left as it is by the normalisation on load. */
  lemma NormaliseKeepsCount(nav: NavBar, n: int)
    requires nav.countText == Some(IntToString(n))
    ensures UpdateNavLink(nav, CountOrZero(nav.countText.value)).countText == nav.countText
  {
    ParseIntToString(n);
  }
}
