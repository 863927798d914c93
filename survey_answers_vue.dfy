/**
 * static/js/survey_answers_vue.js: the survey's answers table, a Vue app that
 * is mounted at most once and reused, whose rows are the JSON questions
 * renamed field by field.
 */
module SurveyAnswersVue {
  import opened Wrappers
  import opened Text
  import opened VueCommon

  /** One question of the JSON list. */
  datatype ApiQuestion = ApiQuestion(id: int, text: string, createdAt: string, yesCount: int, noCount: int,
                                     totalAnswers: int, agreeRatio: string, myAnswer: Option<string>)

  /** One row of the table. */
  datatype AnswerRow = AnswerRow(id: int, text: string, published: string, yes: int, no: int, total: int,
                                 agreeRatio: string, myAnswer: Option<string>)

  /** The `items.map` callback. */
  function ToRow(q: ApiQuestion): AnswerRow {
    AnswerRow(q.id, q.text, q.createdAt, q.yesCount, q.noCount, q.totalAnswers, q.agreeRatio, q.myAnswer)
  }

  /** The question a row was made from, read back field by field. */
  function FromRow(r: AnswerRow): ApiQuestion {
    ApiQuestion(r.id, r.text, r.published, r.yes, r.no, r.total, r.agreeRatio, r.myAnswer)
  }

  /** The rows of `(data.questions || []).map(...)`: one per question, in order, each carrying that question's data. */
  function Rows(listed: Option<seq<ApiQuestion>>): (rows: seq<AnswerRow>)
    ensures |rows| == |OrEmpty(listed)|
    ensures forall k :: 0 <= k < |rows| ==> FromRow(rows[k]) == OrEmpty(listed)[k]
    ensures listed.None? ==> rows == []
  {
    var items := OrEmpty(listed);
    seq(|items|, k requires 0 <= k < |items| => ToRow(items[k]))
  }

  /** The renaming loses nothing and adds nothing: rows and questions correspond one to one. */
  lemma RowRoundTrip(q: ApiQuestion, r: AnswerRow)
    ensures FromRow(ToRow(q)) == q
    ensures ToRow(FromRow(r)) == r
  {
  }

  /** `data.total_users || 0`: a missing total, like zero, shows as zero. */
  function TotalUsers(reported: Option<int>): (n: int)
    ensures reported.None? ==> n == 0
    ensures reported.Some? ==> n == reported.value
  {
    if reported.Some? then reported.value else 0
  }

  /** The app's `answerUrl`: `#` for a visitor who is not signed in, the answer page otherwise. */
  function GuardedAnswerUrl(auth: bool, template: string, id: int, encode: string -> string, here: string): (r: string)
    ensures !auth ==> r == "#"
    ensures auth ==> r == AnswerUrl(template, id, encode, here)
  {
    if !auth then "#" else AnswerUrl(template, id, encode, here)
  }

  /** A signed-in user's link always points somewhere: it is never the `#` placeholder. */
  lemma SignedInLinkIsReal(template: string, id: int, encode: string -> string, here: string)
    ensures GuardedAnswerUrl(true, template, id, encode, here) != "#"
  {
    var r := GuardedAnswerUrl(true, template, id, encode, here);
    var n := |ReplaceFirst(template, "0", IntToString(id))|;
    assert r[n..] == "?next=" + encode(here);
    assert |r| >= n + 6;
    if n == 0 {
      assert r[0] == '?';
    }
  }

  /** How `fetchData` ended: nothing usable, or a parsed object with or without each field. */
  datatype DataOutcome = NoData | Data(questions: Option<seq<ApiQuestion>>, totalUsers: Option<int>)

  /** The `rows`, `totalUsers` and `loading` refs of the mounted app. */
  class AnswersTable {
    var rows: seq<AnswerRow>
    var totalUsers: int
    var loading: bool

    constructor ()
      ensures rows == [] && totalUsers == 0 && loading
    {
      rows := [];
      totalUsers := 0;
      loading := true;
    }

    method BeginFetch()
      modifies this
      ensures loading && rows == old(rows) && totalUsers == old(totalUsers)
    {
      loading := true;
    }

    /** The fetch settles: parsed data replaces rows and total, a failure keeps them, and loading ends either way. */
    method Settle(outcome: DataOutcome)
      modifies this
      ensures !loading
      ensures outcome.Data? ==> rows == Rows(outcome.questions) && totalUsers == TotalUsers(outcome.totalUsers)
      ensures outcome.NoData? ==> rows == old(rows) && totalUsers == old(totalUsers)
    {
      if outcome.Data? {
        rows := Rows(outcome.questions);
        totalUsers := TotalUsers(outcome.totalUsers);
      }
      loading := false;
    }
  }

  /** The module-level `answersApp` cache; `mounts` counts the mounts so far. */
  class AnswersMount {
    var answersApp: Option<AnswersTable>
    var mounts: nat

    /** At most one mount, and a cached app exactly when there was one. */
    predicate Valid()
      reads this
    {
      mounts <= 1 && (mounts == 1 <==> answersApp.Some?)
    }

    constructor ()
      ensures Valid() && answersApp.None? && mounts == 0
    {
      answersApp := None;
      mounts := 0;
    }

    /**
     * `mountAnswersApp`: nothing without the root element; the cached app when
     * there is one; otherwise a newly mounted app, which is cached.
     */
    method MountAnswersApp(rootPresent: bool) returns (app: Option<AnswersTable>)
      requires Valid()
      modifies this
      ensures Valid()
      ensures !rootPresent ==> app.None? && answersApp == old(answersApp) && mounts == old(mounts)
      ensures rootPresent && old(answersApp).Some? ==>
        app == old(answersApp) && answersApp == old(answersApp) && mounts == old(mounts)
      ensures rootPresent && old(answersApp).None? ==>
        app.Some? && fresh(app.value) && answersApp == app && mounts == 1
    {
      if !rootPresent {
        return None;
      }
      if answersApp.Some? {
        return answersApp;
      }
      var table := new AnswersTable();
      answersApp := Some(table);
      mounts := mounts + 1;
      app := answersApp;
    }
  }

  /** Mounting again returns the very app the first mount created, and mounts nothing new. */
  method MountTwice(cache: AnswersMount) returns (first: Option<AnswersTable>, second: Option<AnswersTable>)
    requires cache.Valid() && cache.answersApp.None?
    modifies cache
    ensures first.Some? && first == second && cache.mounts == 1
  {
    first := cache.MountAnswersApp(true);
    second := cache.MountAnswersApp(true);
  }
}
