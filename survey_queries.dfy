/**
 * The queries and row updates the survey views run against the database
 * (wikikysely_project/survey/views.py, context_processors.py), stated over
 * the tables as values: the question table is a sequence indexed by primary
 * key, the answer table a map from primary key to row.
 */
module SurveyQueries {
  import opened Wrappers
  import opened SurveyModels

  type AnswerTable = map<AnswerId, Answer>

  /** Question `q` exists and belongs to survey `s`. */
  predicate InSurvey(questions: seq<Question>, q: QuestionId, s: SurveyId) {
    q < |questions| && questions[q].survey == s
  }

  /** Question `q` belongs to survey `s` and is not soft-deleted. */
  predicate IsLive(questions: seq<Question>, q: QuestionId, s: SurveyId) {
    InSurvey(questions, q, s) && !questions[q].deleted
  }

  /** `survey.questions.filter(deleted=False)`, as a set of primary keys. */
  function LiveQuestions(questions: seq<Question>, s: SurveyId): (r: set<QuestionId>)
    ensures forall q :: q in r <==> IsLive(questions, q, s)
  {
    set q: QuestionId | q < |questions| && IsLive(questions, q, s)
  }

  /** Some row of the answer table is user `u`'s answer to question `q`. */
  ghost predicate HasRow(answers: AnswerTable, q: QuestionId, u: UserId) {
    exists a :: a in answers && answers[a].question == q && answers[a].user == u
  }

  /** The `unique_together = ('question', 'user')` constraint. */
  ghost predicate UniquePairs(answers: AnswerTable) {
    forall a, b ::
      (a in answers && b in answers && answers[a].question == answers[b].question && answers[a].user == answers[b].user)
      ==> a == b
  }

  /** The integrity the database keeps: foreign keys resolve, primary keys stay below the next one, pairs are unique. */
  ghost predicate TablesValid(surveys: seq<Survey>, questions: seq<Question>, answers: AnswerTable, nextAnswer: AnswerId) {
    && (forall q :: 0 <= q < |questions| ==> questions[q].survey < |surveys|)
    && (forall a :: a in answers ==> answers[a].question < |questions| && a < nextAnswer)
    && UniquePairs(answers)
  }

  /**
   * `Answer.objects.filter(user=u, question__survey=s).values_list('question_id')`:
   * the questions of `s` that `u` has answered, deleted ones included.
   */
  function AnsweredIds(questions: seq<Question>, answers: AnswerTable, u: UserId, s: SurveyId): (r: set<QuestionId>)
    ensures forall q :: q in r <==> HasRow(answers, q, u) && InSurvey(questions, q, s)
  {
    var r := set a | a in answers && answers[a].user == u && InSurvey(questions, answers[a].question, s) :: answers[a].question;
    assert forall q :: HasRow(answers, q, u) && InSurvey(questions, q, s) ==> q in r by {
      forall q | HasRow(answers, q, u) && InSurvey(questions, q, s) ensures q in r {
        var a :| a in answers && answers[a].question == q && answers[a].user == u;
      }
    }
    r
  }

  /**
   * The questions still to offer `u` in survey `s`: the live questions minus
   * those `u` has answered (the `remaining` query of `answer_survey` and the
   * count of the `unanswered_count` context processor).
   */
  function Remaining(questions: seq<Question>, answers: AnswerTable, u: UserId, s: SurveyId): (r: set<QuestionId>)
    ensures forall q :: q in r <==> IsLive(questions, q, s) && !HasRow(answers, q, u)
    ensures r <= LiveQuestions(questions, s)
  {
    LiveQuestions(questions, s) - AnsweredIds(questions, answers, u, s)
  }

  /** The answer row of `u` for `q`; unique under `UniquePairs`. */
  ghost function RowOf(answers: AnswerTable, q: QuestionId, u: UserId): (a: AnswerId)
    requires HasRow(answers, q, u)
    ensures a in answers && answers[a].question == q && answers[a].user == u
  {
    var a :| a in answers && answers[a].question == q && answers[a].user == u; a
  }

  /** What `u` answered to `q`, if anything. */
  ghost function Lookup(answers: AnswerTable, q: QuestionId, u: UserId): Option<AnswerValue> {
    if HasRow(answers, q, u) then Some(answers[RowOf(answers, q, u)].value) else None
  }

  /**
   * `Answer.objects.update_or_create(user=u, question=q, defaults={'answer': v})`:
   * overwrite the value of the existing row for the pair, or insert a new row
   * under the next primary key `newId`.
   */
  ghost function Upsert(answers: AnswerTable, newId: AnswerId, q: QuestionId, u: UserId, v: AnswerValue): AnswerTable {
    if HasRow(answers, q, u) then answers[RowOf(answers, q, u) := Answer(q, u, v)]
    else answers[newId := Answer(q, u, v)]
  }

  /**
   * After an upsert exactly one row holds the pair, with the new value; every
   * other row is kept as it was and no other row appears.
   */
  lemma UpsertSpec(answers: AnswerTable, newId: AnswerId, q: QuestionId, u: UserId, v: AnswerValue)
    requires UniquePairs(answers)
    requires newId !in answers
    ensures var r := Upsert(answers, newId, q, u, v);
      && UniquePairs(r)
      && Lookup(r, q, u) == Some(v)
      && (forall a :: a in r && r[a].question == q && r[a].user == u ==> r[a] == Answer(q, u, v))
      && (forall a :: a in answers && !(answers[a].question == q && answers[a].user == u) ==> a in r && r[a] == answers[a])
      && (forall a :: a in r && a !in answers ==> a == newId)
  {
    var r := Upsert(answers, newId, q, u, v);
    var k := if HasRow(answers, q, u) then RowOf(answers, q, u) else newId;
    assert r == answers[k := Answer(q, u, v)];
    PairOwner(answers, k, q, u, v, r);
    assert k in r && r[k].question == q && r[k].user == u;
    assert RowOf(r, q, u) == k;
  }

  /** An upsert adds a row exactly when the pair had none. */
  lemma UpsertSize(answers: AnswerTable, newId: AnswerId, q: QuestionId, u: UserId, v: AnswerValue)
    requires newId !in answers
    ensures |Upsert(answers, newId, q, u, v)| == if HasRow(answers, q, u) then |answers| else |answers| + 1
  {
    if HasRow(answers, q, u) {
      assert Upsert(answers, newId, q, u, v).Keys == answers.Keys;
    } else {
      assert Upsert(answers, newId, q, u, v).Keys == answers.Keys + {newId};
    }
  }

  /** Writing the pair `(q, u)` under `k`, where `k` is the pair's row or a new key, keeps pairs unique. */
  lemma PairOwner(answers: AnswerTable, k: AnswerId, q: QuestionId, u: UserId, v: AnswerValue, r: AnswerTable)
    requires UniquePairs(answers)
    requires k in answers ==> answers[k].question == q && answers[k].user == u
    requires k !in answers ==> !HasRow(answers, q, u)
    requires r == answers[k := Answer(q, u, v)]
    ensures UniquePairs(r)
    ensures forall a :: a in r && r[a].question == q && r[a].user == u ==> a == k
    ensures forall a :: a in answers && !(answers[a].question == q && answers[a].user == u) ==> a != k && r[a] == answers[a]
  {
    forall a | a in r && r[a].question == q && r[a].user == u ensures a == k {
      if a != k && k !in answers {
        assert HasRow(answers, q, u);
      }
    }
  }

  /** `answer.delete()`: the row goes, and with it the user's answer to that question. */
  lemma DeleteClearsPair(answers: AnswerTable, a: AnswerId)
    requires UniquePairs(answers)
    requires a in answers
    ensures UniquePairs(answers - {a})
    ensures !HasRow(answers - {a}, answers[a].question, answers[a].user)
    ensures Lookup(answers - {a}, answers[a].question, answers[a].user) == None
  {
  }

  /** Answering the offered question removes exactly that question from what is left to answer. */
  lemma AnswerShrinksRemaining(questions: seq<Question>, answers: AnswerTable, newId: AnswerId,
                               q: QuestionId, u: UserId, v: AnswerValue, s: SurveyId)
    requires UniquePairs(answers)
    requires newId !in answers
    requires q in Remaining(questions, answers, u, s)
    ensures Remaining(questions, Upsert(answers, newId, q, u, v), u, s) == Remaining(questions, answers, u, s) - {q}
    ensures |Remaining(questions, Upsert(answers, newId, q, u, v), u, s)| == |Remaining(questions, answers, u, s)| - 1
  {
    var r := Upsert(answers, newId, q, u, v);
    assert !HasRow(answers, q, u);
    assert r == answers[newId := Answer(q, u, v)];
    forall p ensures HasRow(r, p, u) <==> HasRow(answers, p, u) || p == q {
      if HasRow(r, p, u) && p != q {
        var a := RowOf(r, p, u);
        assert a != newId && a in answers;
      }
      if HasRow(answers, p, u) {
        var a := RowOf(answers, p, u);
        assert a in r && r[a] == answers[a];
      }
      if p == q {
        assert r[newId].question == q && r[newId].user == u;
      }
    }
    assert Remaining(questions, r, u, s) == Remaining(questions, answers, u, s) - {q};
  }

  /** An answer in another survey, or by another user, leaves the user's remaining questions in `s` as they were. */
  lemma RemainingIgnoresOtherRows(questions: seq<Question>, answers: AnswerTable, newId: AnswerId,
                                  row: Answer, u: UserId, s: SurveyId)
    requires newId !in answers
    requires row.user != u || !InSurvey(questions, row.question, s)
    ensures Remaining(questions, answers[newId := row], u, s) == Remaining(questions, answers, u, s)
  {
    var r := answers[newId := row];
    forall p | IsLive(questions, p, s) ensures HasRow(r, p, u) <==> HasRow(answers, p, u) {
      if HasRow(r, p, u) {
        var a :| a in r && r[a].question == p && r[a].user == u;
        assert a != newId;
        assert a in answers && answers[a] == r[a];
      }
      if HasRow(answers, p, u) {
        var a :| a in answers && answers[a].question == p && answers[a].user == u;
        assert a in r && r[a] == answers[a];
      }
    }
    assert Remaining(questions, r, u, s) == Remaining(questions, answers, u, s);
  }

  /** `question.deleted = flag; question.save()`. */
  function SetDeleted(questions: seq<Question>, q: QuestionId, flag: bool): (r: seq<Question>)
    requires q < |questions|
    ensures |r| == |questions| && r[q].deleted == flag
    ensures r[q] == questions[q].(deleted := flag)
    ensures forall p :: 0 <= p < |questions| && p != q ==> r[p] == questions[p]
  {
    questions[q := questions[q].(deleted := flag)]
  }

  /** Restoring a question that was just deleted gives back the table as it was. */
  lemma DeleteRestoreRoundTrip(questions: seq<Question>, q: QuestionId)
    requires q < |questions| && !questions[q].deleted
    ensures SetDeleted(SetDeleted(questions, q, true), q, false) == questions
  {
    assert questions[q].(deleted := true).(deleted := false) == questions[q];
  }

  /** Deleting a question hides it from everyone's remaining questions and changes nothing else there. */
  lemma DeleteHidesQuestion(questions: seq<Question>, answers: AnswerTable, q: QuestionId, u: UserId, s: SurveyId)
    requires q < |questions|
    ensures Remaining(SetDeleted(questions, q, true), answers, u, s) == Remaining(questions, answers, u, s) - {q}
  {
    var r := SetDeleted(questions, q, true);
    assert forall p :: IsLive(r, p, s) <==> IsLive(questions, p, s) && p != q;
    assert Remaining(r, answers, u, s) == Remaining(questions, answers, u, s) - {q};
  }

  /** Rows of the answer table on question `q`. */
  function AnswersOn(answers: AnswerTable, q: QuestionId): (r: set<AnswerId>)
    ensures forall a :: a in r <==> a in answers && answers[a].question == q
  {
    set a | a in answers && answers[a].question == q
  }

  /** `q.answers.filter(answer=v)`. */
  function VotesFor(answers: AnswerTable, q: QuestionId, v: AnswerValue): (r: set<AnswerId>)
    ensures r <= AnswersOn(answers, q)
    ensures forall a :: a in r <==> a in answers && answers[a].question == q && answers[a].value == v
  {
    set a | a in answers && answers[a].question == q && answers[a].value == v
  }

  /** Every answer on a question is a yes or a no, so the two counts add up to the number of answers. */
  lemma VotesPartition(answers: AnswerTable, q: QuestionId)
    ensures |VotesFor(answers, q, Yes)| + |VotesFor(answers, q, No)| == |AnswersOn(answers, q)|
  {
    var y, n := VotesFor(answers, q, Yes), VotesFor(answers, q, No);
    assert y * n == {};
    assert AnswersOn(answers, q) == y + n;
  }

  /** Rows answering any question of survey `s`, deleted questions included. */
  function SurveyAnswers(questions: seq<Question>, answers: AnswerTable, s: SurveyId): (r: set<AnswerId>)
    ensures forall a :: a in r <==> a in answers && InSurvey(questions, answers[a].question, s)
  {
    set a | a in answers && InSurvey(questions, answers[a].question, s)
  }

  /** `Answer.objects.filter(question__survey=s).values('user').distinct()`. */
  function Respondents(questions: seq<Question>, answers: AnswerTable, s: SurveyId): (r: set<UserId>)
    ensures forall a :: a in SurveyAnswers(questions, answers, s) ==> answers[a].user in r
    ensures forall u :: u in r ==> exists a :: a in SurveyAnswers(questions, answers, s) && answers[a].user == u
  {
    set a | a in SurveyAnswers(questions, answers, s) :: answers[a].user
  }

  /** The users of a set of rows are no more than the rows. */
  lemma {:induction false} UsersOfRowsBound(answers: AnswerTable, rows: set<AnswerId>)
    requires rows <= answers.Keys
    ensures |set a | a in rows :: answers[a].user| <= |rows|
    decreases |rows|
  {
    if rows != {} {
      var a :| a in rows;
      var rest := rows - {a};
      UsersOfRowsBound(answers, rest);
      assert (set b | b in rows :: answers[b].user) == (set b | b in rest :: answers[b].user) + {answers[a].user};
    }
  }

  /** `total_users` counts each respondent once: at most one per answer, and at least one when anyone answered. */
  lemma RespondentsBound(questions: seq<Question>, answers: AnswerTable, s: SurveyId)
    ensures |Respondents(questions, answers, s)| <= |SurveyAnswers(questions, answers, s)|
    ensures SurveyAnswers(questions, answers, s) != {} ==> |Respondents(questions, answers, s)| >= 1
  {
    UsersOfRowsBound(answers, SurveyAnswers(questions, answers, s));
  }

  /** Deleting or restoring a question leaves the respondents of every survey unchanged. */
  lemma RespondentsIgnoreDeletion(questions: seq<Question>, answers: AnswerTable, q: QuestionId, flag: bool, s: SurveyId)
    requires q < |questions|
    ensures Respondents(SetDeleted(questions, q, flag), answers, s) == Respondents(questions, answers, s)
  {
    var r := SetDeleted(questions, q, flag);
    assert forall p :: InSurvey(r, p, s) <==> InSurvey(questions, p, s);
    assert SurveyAnswers(r, answers, s) == SurveyAnswers(questions, answers, s);
  }

  /** One entry of `survey_results`' `data`. */
  datatype ResultRow = ResultRow(question: QuestionId, yes: nat, no: nat, total: nat)

  function RowFor(answers: AnswerTable, q: QuestionId): ResultRow {
    var yes := |VotesFor(answers, q, Yes)|;
    var no := |VotesFor(answers, q, No)|;
    ResultRow(q, yes, no, yes + no)
  }

  /** The rows `survey_results` builds for the live questions of `s` with a key below `n`, in key order. */
  function ResultRowsUpTo(questions: seq<Question>, answers: AnswerTable, s: SurveyId, n: nat): seq<ResultRow>
    requires n <= |questions|
  {
    if n == 0 then []
    else ResultRowsUpTo(questions, answers, s, n - 1)
         + (if IsLive(questions, n - 1, s) then [RowFor(answers, n - 1)] else [])
  }

  /**
   * The results table has one row per live question of the survey, in key
   * order; each row's total is its yes count plus its no count, which is the
   * number of answers on the question.
   */
  lemma {:induction false} ResultRowsSound(questions: seq<Question>, answers: AnswerTable, s: SurveyId, n: nat)
    requires n <= |questions|
    ensures forall i :: 0 <= i < |ResultRowsUpTo(questions, answers, s, n)| ==>
      var row := ResultRowsUpTo(questions, answers, s, n)[i];
      && row.question < n && IsLive(questions, row.question, s)
      && row.yes == |VotesFor(answers, row.question, Yes)|
      && row.no == |VotesFor(answers, row.question, No)|
      && row.total == row.yes + row.no == |AnswersOn(answers, row.question)|
    ensures forall i, j :: 0 <= i < j < |ResultRowsUpTo(questions, answers, s, n)| ==>
      ResultRowsUpTo(questions, answers, s, n)[i].question < ResultRowsUpTo(questions, answers, s, n)[j].question
    ensures forall q: QuestionId :: q < n && IsLive(questions, q, s) ==>
      exists i :: 0 <= i < |ResultRowsUpTo(questions, answers, s, n)| && ResultRowsUpTo(questions, answers, s, n)[i].question == q
  {
    if n > 0 {
      ResultRowsSound(questions, answers, s, n - 1);
      var prev := ResultRowsUpTo(questions, answers, s, n - 1);
      var rows := ResultRowsUpTo(questions, answers, s, n);
      VotesPartition(answers, n - 1);
      if IsLive(questions, n - 1, s) {
        assert rows == prev + [RowFor(answers, n - 1)];
        assert rows[|prev|].question == n - 1;
      } else {
        assert rows == prev;
      }
      forall q: QuestionId | q < n && IsLive(questions, q, s)
        ensures exists i :: 0 <= i < |rows| && rows[i].question == q
      {
        if q < n - 1 {
          var i :| 0 <= i < |prev| && prev[i].question == q;
          assert rows[i] == prev[i];
        } else {
          assert rows[|prev|].question == q;
        }
      }
    }
  }
}
