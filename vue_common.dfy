/**
 * What static/js/survey_detail_vue.js, static/js/answers_vue.js and
 * static/js/survey_answers_vue.js share, defined once: `formatDate`,
 * `answerUrl`, `data.questions || []`, and a question list fetched with a
 * `loading` flag.
 */
module VueCommon {
  import opened Wrappers
  import opened Text

  /** `str ? str.slice(0, 10) : ''`: the date part of an ISO timestamp; `None` stands for null and undefined. */
  function FormatDate(str: Option<string>): (r: string)
    ensures r == "" <==> str.None? || str.value == ""
    ensures str.Some? ==> IsPrefix(r, str.value) && |r| == (if |str.value| < 10 then |str.value| else 10)
  {
    match str
    case None => ""
    case Some(s) => if |s| < 10 then s else s[..10]
  }

  /** A timestamp whose date part is `day` shows as `day`. */
  lemma FormatDateOfTimestamp(day: string, rest: string)
    requires |day| == 10
    ensures FormatDate(Some(day + rest)) == day
  {
    assert (day + rest)[..10] == day;
  }

  /** Formatting an already formatted date changes nothing. */
  lemma FormatDateIdempotent(str: Option<string>)
    ensures FormatDate(Some(FormatDate(str))) == FormatDate(str)
  {
  }

  /**
   * `answerUrlTemplate.replace('0', id) + '?next=' + nextParam`, where the next
   * parameter is the current path and query passed through `encode`
   * (`encodeURIComponent`, left uninterpreted).
   */
  function AnswerUrl(template: string, id: int, encode: string -> string, here: string): (r: string)
    ensures IsPrefix(ReplaceFirst(template, "0", IntToString(id)), r)
    ensures r[|ReplaceFirst(template, "0", IntToString(id))|..] == "?next=" + encode(here)
  {
    ReplaceFirst(template, "0", IntToString(id)) + "?next=" + encode(here)
  }

  /** A one-character pattern occurs exactly where that character is. */
  lemma OccursAtZero(s: string, j: int)
    requires 0 <= j < |s|
    ensures OccursAt(s, "0", j) <==> s[j] == '0'
  {
    assert s[j..j + 1] == [s[j]];
  }

  /** Only the first `0` of the template becomes the id; any later `0` is kept as it is. */
  lemma AnswerUrlFirstZeroOnly(before: string, after: string, id: int, encode: string -> string, here: string)
    requires '0' !in before
    ensures AnswerUrl(before + "0" + after, id, encode, here) == before + IntToString(id) + after + "?next=" + encode(here)
  {
    var t := before + "0" + after;
    OccursAtZero(t, |before|);
    assert OccursAt(t, "0", |before|);
    var i := Find(t, "0").value;
    if i < |before| {
      OccursAtZero(t, i);
    }
    assert i == |before|;
    assert t[..i] == before;
    assert t[i + 1..] == after;
  }

  /** A template without a `0` is used unchanged. */
  lemma AnswerUrlWithoutZero(template: string, id: int, encode: string -> string, here: string)
    requires '0' !in template
    ensures AnswerUrl(template, id, encode, here) == template + "?next=" + encode(here)
  {
    if Find(template, "0").Some? {
      OccursAtZero(template, Find(template, "0").value);
    }
  }

  /** `data.questions || []`: a missing list is an empty one. */
  function OrEmpty<T>(listed: Option<seq<T>>): (r: seq<T>)
    ensures listed.None? ==> r == []
    ensures listed.Some? ==> r == listed.value
  {
    if listed.Some? then listed.value else []
  }

  /** How a fetch ended: the response was not JSON or never came, or it parsed to an object with or without `questions`. */
  datatype FetchOutcome<T> = Failed | Parsed(questions: Option<seq<T>>)

  /** The `questions` and `loading` refs of a Vue app that lists questions fetched as JSON. */
  class QuestionList<T> {
    var questions: seq<T>
    var loading: bool

    /** `ref([])` and `ref(true)`: empty and loading until the first fetch settles. */
    constructor ()
      ensures questions == [] && loading
    {
      questions := [];
      loading := true;
    }

    /** The start of a fetch: the list is loading, and still shows what it showed. */
    method BeginFetch()
      modifies this
      ensures loading && questions == old(questions)
    {
      loading := true;
    }

    /**
     * The fetch settles: a parsed reply replaces the list (with an empty one
     * when it has no `questions`), a failure keeps it, and in every case
     * loading ends.
     */
    method Settle(outcome: FetchOutcome<T>)
      modifies this
      ensures !loading
      ensures outcome.Parsed? ==> questions == OrEmpty(outcome.questions)
      ensures outcome.Failed? ==> questions == old(questions)
    {
      if outcome.Parsed? {
        questions := OrEmpty(outcome.questions);
      }
      loading := false;
    }
  }
}
