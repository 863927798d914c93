# wikikysely: a verified model of the survey rules and the browser logic

wikikysely is a Django application in which signed-in users answer a survey's
yes/no questions one at a time, skip questions, edit or remove their answers,
and see the tallies. Its creator (or a superuser) adds, hides and restores
questions. The browser side is plain JavaScript and small Vue apps. They draw
questions at random, post answers in the background, keep the navigation's
"unanswered" count and link in step, sort tables and switch the language prefix
of the path.

This project models that core in Dafny and proves what it promises:

- **Data model** (`survey_models.dfy`, `survey_queries.dfy`): the choice sets, the
  column widths, the defaults, `Survey.is_active` and the `(question, user)`
  uniqueness of answers, plus the queries the views run. These queries are
  live questions, answered and remaining questions, votes, respondents and
  result rows.
- **Views** (`survey_views.dfy`): the database is a `Store` class. It holds
  surveys and questions by primary key and answers in a map. Each view is a
  guarded method that returns which branch it took (in place of redirects,
  messages and pages) and states the new database. `survey_detail` is a
  function. The form rules the views rely on are functions.
- **Context processor** (`context_processors.dfy`): the navigation's unanswered
  count.
- **Browser code**:
  - the two cookie readers (`cookies.dfy`);
  - the language-prefix rewrite (`langswitch.dfy`);
  - the navigation link toggle (`answer_nav.dfy`);
  - the sortable tables as a class over an array of directions (`sort_tables.dfy`);
  - the random-draw answering page (`answer_survey_ajax.dfy`);
  - the survey page's background answer handler (`survey_detail_ajax.dfy`);
  - the single-answer form page (`answer_form_ajax.dfy`);
  - the Vue helpers and apps (`vue_common.dfy`, `survey_detail_vue.dfy`,
    `survey_answers_vue.dfy`);
  - `Array.prototype.filter`, shared by the survey page and the Vue list
    (`seqs.dfy`).

Some code appears in several files. `getCookie` (split-based) and
`updateAnswerNavLink` are the same function in static/js/answer_survey_ajax.js,
static/js/survey_detail_ajax.js and static/js/answer_form_ajax.js.
`formatDate`, `answerUrl` and the question fetch repeat across the Vue files.
Each is defined once here.

Modelling choices:

- Primary keys are indices into `seq`s, and querysets are taken in primary-key order.
- Dates are day numbers, and `today` is a parameter.
- `random.choice`, `Math.random` and the order the sort comparator produces are
  nondeterministic choices (`:|`).
- `encodeURIComponent` and `decodeURIComponent` are uninterpreted function
  parameters.
- An element the script looks up and may not find is an `Option`.
- A page reload or navigation is a `Location` or a `reloaded` flag.
- JavaScript numbers are unbounded integers.

Where the code and its documentation or tests disagree, the model follows the code:

- `answer_survey` saves a posted answer against the question it has just drawn
  at random. It does not use a posted `question_id`, although the tests at
  wikikysely_project/survey/tests/test_views.py:108-125 expect it to.
- `AnswerForm` is absent from wikikysely_project/survey/forms.py. The model takes
  the answer field to accept "yes" and "no", and also "" (a skip) for
  `answer_survey`.
- `Survey.get_main_survey` is absent from wikikysely_project/survey/models.py. The
  main survey is a parameter of the context processor.

## Model

| member | source | states |
|---|---|---|
| SurveyModels.StateCodeRoundTrip | wikikysely_project/survey/models.py:8-18 | every state is stored as its choice string, fits the 7-character column and reads back as itself |
| SurveyModels.ParseStateExact | wikikysely_project/survey/models.py:8-12 | exactly "running", "paused" and "closed" are states, each read as the state it names |
| SurveyModels.AnswerCodeRoundTrip | wikikysely_project/survey/models.py:41-47 | every answer is stored as "yes" or "no", fits the 3-character column and reads back as itself |
| SurveyModels.ActiveWindowInclusive | wikikysely_project/survey/models.py:21-23 | a running, undeleted survey is active on its first and last day and not on the day before or after |
| SurveyModels.ActiveOnlyWhenRunning | wikikysely_project/survey/models.py:21-23 | a paused, closed or deleted survey is never active |
| SurveyModels.NewSurvey | wikikysely_project/survey/models.py:18-19 | a new survey is paused and undeleted, hence inactive on every day |
| SurveyModels.NewQuestion | wikikysely_project/survey/models.py:29-34 | a new question is undeleted and belongs to the given survey and creator |
| SurveyQueries.LiveQuestions | wikikysely_project/survey/views.py:49 | exactly the survey's undeleted questions |
| SurveyQueries.AnsweredIds | wikikysely_project/survey/views.py:156 | exactly the survey's questions, deleted or not, that the user has a row for |
| SurveyQueries.Remaining | wikikysely_project/survey/views.py:156-157 | exactly the survey's undeleted questions the user has not answered, a subset of the live ones |
| SurveyQueries.UpsertSpec | wikikysely_project/survey/views.py:167 | after `update_or_create` exactly one row holds the pair, with the new value; all other rows are unchanged; pairs stay unique |
| SurveyQueries.UpsertSize | wikikysely_project/survey/views.py:167 | an upsert adds a row exactly when the pair had none |
| SurveyQueries.PairOwner | wikikysely_project/survey/models.py:50-51 | writing a pair under its own row or a new key keeps `unique_together` and touches no other pair |
| SurveyQueries.DeleteClearsPair | wikikysely_project/survey/views.py:211 | deleting a row keeps pairs unique and leaves the user with no answer to that question |
| SurveyQueries.AnswerShrinksRemaining | wikikysely_project/survey/views.py:156-167 | answering an offered question removes exactly that question from the remaining set |
| SurveyQueries.RemainingIgnoresOtherRows | wikikysely_project/survey/views.py:156-157 | a row of another user or of another survey does not change a user's remaining questions |
| SurveyQueries.SetDeleted | wikikysely_project/survey/views.py:128-129 | the soft-delete flag of one question is set and every other question is unchanged |
| SurveyQueries.DeleteRestoreRoundTrip | wikikysely_project/survey/views.py:128-145 | restoring a just-deleted question gives back the question table as it was |
| SurveyQueries.DeleteHidesQuestion | wikikysely_project/survey/views.py:157 | deleting a question removes it, and only it, from every user's remaining questions |
| SurveyQueries.VotesFor | wikikysely_project/survey/views.py:222-223 | exactly the question's rows holding the given value |
| SurveyQueries.VotesPartition | wikikysely_project/survey/views.py:222-224 | yes votes plus no votes are all the question's answers, so `total` is the number of answers |
| SurveyQueries.SurveyAnswers | wikikysely_project/survey/views.py:220 | exactly the rows answering any question of the survey, deleted questions included |
| SurveyQueries.Respondents | wikikysely_project/survey/views.py:220 | the respondents are exactly the users with a row in the survey: every such user is one, and every one has such a row |
| SurveyQueries.RespondentsBound | wikikysely_project/survey/views.py:220 | respondents are counted once each: no more than the rows, and at least one when there is any row |
| SurveyQueries.RespondentsIgnoreDeletion | wikikysely_project/survey/views.py:220 | deleting or restoring a question never changes `total_users` |
| SurveyQueries.ResultRowsSound | wikikysely_project/survey/views.py:218-224 | the result rows are exactly the live questions in key order, each with its yes and no counts and `total == yes + no` |
| SurveyViews.CleanQuestionText | wikikysely_project/survey/forms.py:29-35 | the question form is valid exactly when the stripped text is non-empty, at most 500 characters and free of NUL characters, and yields that text |
| SurveyViews.NulRejected | wikikysely_project/survey/forms.py:29-35 | a text with a NUL character anywhere is refused, since stripping never removes it |
| SurveyViews.CleanAnswerField | wikikysely_project/survey/views.py:163-166 | an empty field is a skip, "yes" and "no" are those answers, anything else is invalid |
| SurveyViews.SurveyDetail | wikikysely_project/survey/views.py:47-67 | a missing or deleted survey is not found; otherwise the page shows the live questions, `can_edit` for creator or superuser, and for a signed-in user the remaining questions and their count (all questions, no answers and count 0 for a visitor) |
| SurveyViews.Store.QuestionAdd | wikikysely_project/survey/views.py:95-115 | refused for a missing survey, a non-creator non-superuser and a closed survey; a valid POST appends one undeleted question of that survey by the requester; nothing else changes |
| SurveyViews.Store.QuestionDelete | wikikysely_project/survey/views.py:118-131 | only a live question, by creator or superuser, on a survey that is not closed, is flagged deleted; nothing else changes |
| SurveyViews.Store.QuestionRestore | wikikysely_project/survey/views.py:134-147 | only a deleted question, by creator or superuser, on a survey that is not closed, is unflagged; nothing else changes |
| SurveyViews.Store.UpdateOrCreate | wikikysely_project/survey/views.py:167 | the answer table becomes the upsert of the pair, keeping the database valid |
| SurveyViews.Store.AnswerSurvey | wikikysely_project/survey/views.py:150-172 | nothing is written unless the survey is live and active and a question remains; the offered question is drawn from the remaining ones; a posted answer is upserted against that question, a skip writes nothing |
| SurveyViews.Store.AnswerEdit | wikikysely_project/survey/views.py:181-201 | only the requester's own answer on a live question of a live survey, and only while the survey is running, gets the posted value |
| SurveyViews.Store.AnswerDelete | wikikysely_project/survey/views.py:204-213 | only the requester's own answer, and only while the survey is running, is removed, leaving no answer for that pair |
| SurveyViews.Store.SurveyResults | wikikysely_project/survey/views.py:216-233 | the loop builds exactly the result rows of the live questions, and `total_users` counts the respondents |
| SurveyViews.AnsweringEverythingEnds | wikikysely_project/survey/views.py:156-161 | answering the last remaining question leaves none, so the next visit reports no more questions |
| ContextProcessors.UnansweredCount | wikikysely_project/survey/context_processors.py:4-14 | a visitor gets no count; a user gets the number of the main survey's undeleted questions they have not answered |
| ContextProcessors.CountBound | wikikysely_project/survey/context_processors.py:13 | the count never exceeds the number of undeleted questions |
| ContextProcessors.OtherAnswersDoNotCount | wikikysely_project/survey/context_processors.py:9-12 | answers in other surveys or by other users leave the count unchanged |
| ContextProcessors.DeletedQuestionsNotCounted | wikikysely_project/survey/context_processors.py:13 | deleting an unanswered question lowers the count by one |
| ContextProcessors.AnswerLowersCount | wikikysely_project/survey/context_processors.py:9-13 | answering an offered question lowers the count by exactly one |
| ContextProcessors.CountMatchesDetail | wikikysely_project/survey/context_processors.py:9-13 | on the main survey's page the navigation count equals the page's own unanswered count |
| Text.Trim | static/js/survey_detail.js:6 | the result is the input without its leading and trailing white space, and starts and ends with a non-space |
| Text.JoinSplit | static/js/answer_survey_ajax.js:3 | joining the pieces of a split with the separator gives back the original string |
| Text.SplitPiecesFree | static/js/answer_survey_ajax.js:3 | no piece of a split contains the separator |
| Text.SplitJoin | static/js/answer_survey_ajax.js:3 | splitting and joining back with the separator gives the original string, and no piece contains the separator |
| Text.ParseIntDigits | static/js/survey_detail_ajax.js:63 | `parseInt` reads a run of digits as the number it denotes |
| Text.ParseIntNegative | static/js/survey_detail_ajax.js:63 | `parseInt` reads a minus sign and digits as the negated number |
| Text.ParseIntToString | static/js/survey_detail_ajax.js:63 | `parseInt` reads back every integer the page writes as text |
| Cookies.GetCookie | static/js/answer_survey_ajax.js:1-5 | any value returned contains no `;` |
| Cookies.SemicolonFree | static/js/answer_survey_ajax.js:4 | the first piece of a split on `;` is the text up to the first `;` |
| Cookies.SplitTwoIffOnce | static/js/answer_form_ajax.js:4-5 | a split gives two pieces exactly when the marker occurs once, the second piece being everything after it |
| Cookies.GetCookieSpec | static/js/answer_survey_ajax.js:1-5 | a value is returned exactly when `"; name="` occurs once in `"; " + cookie`, and it is the text after it up to the next `;` |
| Cookies.DuplicateCookieUnread | static/js/survey_detail_ajax.js:2-6 | a cookie that occurs twice is not read at all |
| Cookies.FirstNamed | static/js/survey_detail.js:5-9 | the index of the first trimmed piece starting with `name=`, none before it matching |
| Cookies.GetCookieLoop | static/js/survey_detail.js:1-14 | the loop returns nothing for an empty cookie string, else the decoded rest of the first trimmed piece starting with `name=`, stopping there |
| Cookies.LongerNameNoMatch | static/js/survey_detail.js:7 | a cookie whose name only starts with `name` (`csrftoken2`) does not match |
| Cookies.NamedPieceValue | static/js/survey_detail.js:7-8 | a piece `name=value` matches and yields exactly `value` |
| LangSwitch.MatchLength | static/js/langswitch.js:6 | the pattern matches four characters for `/fi/`, `/sv/`, `/en/` prefixes, three for the bare codes, and nothing otherwise |
| LangSwitch.Rewrite | static/js/langswitch.js:11-16 | the new path always starts with `/` + lang |
| LangSwitch.RewritePrefixed | static/js/langswitch.js:12-13 | `/xx/rest` with a known code becomes `/` + lang + `/rest` |
| LangSwitch.RewriteUnprefixed | static/js/langswitch.js:14-15 | a path without a known prefix gets `/` + lang prepended |
| LangSwitch.OnlyKnownPrefixesRecognised | static/js/langswitch.js:6 | `/de/x` and `/fix` are not prefixed paths and get the language prepended |
| LangSwitch.BarePrefixQuirk | static/js/langswitch.js:13 | a bare `/xx` becomes `/` + lang + its last letter |
| LangSwitch.BarePrefixNotIdempotent | static/js/langswitch.js:11-16 | `/fi` to `sv` gives `/svi`, and switching to `sv` again gives `/sv/svi` |
| LangSwitch.RewriteIdempotent | static/js/langswitch.js:11-16 | for a path starting with `/` that is not a bare prefix, rewriting twice equals rewriting once |
| LangSwitch.RewriteIntended | static/js/langswitch.js:11-16 | the corrected rewrite replaces a bare prefix like any other and always starts with `/` + lang |
| LangSwitch.RewriteIntendedIdempotent | static/js/langswitch.js:11-16 | the corrected rewrite is idempotent on every path starting with `/` |
| LangSwitch.RewriteIntendedAgrees | static/js/langswitch.js:11-16 | the corrected and the written rewrite differ only on bare prefixes |
| AnswerNav.UpdateNavLink | static/js/answer_survey_ajax.js:7-33 | the count shows the number; a span becomes an anchor for a positive count and an anchor a span for zero, carrying URL and inner HTML, otherwise the link is unchanged |
| AnswerNav.UpdateIdempotent | static/js/survey_detail_ajax.js:33-59 | applying the same count twice is the same as once |
| AnswerNav.UpdateKeepsStyle | static/js/answer_form_ajax.js:14-40 | a link with its tag's class keeps that property |
| AnswerNav.DisableThenEnable | static/js/answer_survey_ajax.js:16-32 | dropping to zero and back to a positive count restores the anchor exactly |
| AnswerNav.CountTextReadsBack | static/js/answer_survey_ajax.js:8-11 | the count text reads back as the count |
| SortTables.Label | static/js/sort_tables.js:13-14 | a label is its base text plus at most two characters, and exactly the base text when the column is unsorted |
| SortTables.LabelShowsDirection | static/js/sort_tables.js:13 | different directions give different labels |
| SortTables.Labels | static/js/sort_tables.js:11-17 | one label per header, in header order |
| SortTables.Toggled | static/js/sort_tables.js:42 | a click gives descending exactly after ascending |
| SortTables.ToggleAlternates | static/js/sort_tables.js:42 | repeated clicks alternate, starting with ascending |
| SortTables.Multiplier | static/js/sort_tables.js:22 | the multiplier is 1 or -1 |
| SortTables.Comparator | static/js/sort_tables.js:22-36 | the comparator is the key's comparison for ascending and its negation for descending |
| SortTables.DescendingReverses | static/js/sort_tables.js:22-36 | descending puts a row first exactly when ascending puts it second, ties stay ties, and for an antisymmetric key descending is ascending with the rows swapped |
| SortTables.AppendStep | static/js/sort_tables.js:38 | appending the next sorted row keeps the body as the unsorted rest followed by the rows placed so far |
| SortTables.SortableTable.constructor | static/js/sort_tables.js:1-67 | one button per header showing its trimmed text; all directions null, except the default column (index 0, descending by default) when it exists, after which labels are drawn and the body sorted |
| SortTables.SortableTable.SortByDefault | static/js/sort_tables.js:63-67 | only the default column has a direction, labels match it, the body is a permutation |
| SortTables.SortableTable.UpdateLabels | static/js/sort_tables.js:11-17 | every header and its button show the column's label |
| SortTables.SortableTable.AppendChild | static/js/sort_tables.js:38 | re-appending a row moves it to the end |
| SortTables.SortableTable.SortTable | static/js/sort_tables.js:19-39 | the body becomes a permutation of itself with nothing added or lost |
| SortTables.SortableTable.ToggleSort | static/js/sort_tables.js:41-47 | the clicked column toggles, every other column is unsorted, labels follow, rows are permuted |
| AnswerSurveyAjax.Spliced | static/js/answer_survey_ajax.js:52-53 | one element fewer, the others in their order |
| AnswerSurveyAjax.SplicedPermutation | static/js/answer_survey_ajax.js:53 | the drawn element and the rest make up the original queue |
| AnswerSurveyAjax.AnswerPayload | static/js/answer_survey_ajax.js:60-64 | nothing is sent without a current question; otherwise its id, plus an `answer` field only for a non-empty value |
| AnswerSurveyAjax.ButtonsPostValidAnswers | static/js/answer_survey_ajax.js:85-87 | the yes, no and skip buttons post forms the answering view accepts, the skip as a skip |
| AnswerSurveyAjax.ReplyAlertClass | static/js/answer_survey_ajax.js:76 | `alert-info` exactly for a skip, `alert-success` otherwise |
| AnswerSurveyAjax.AnswerPage.constructor | static/js/answer_survey_ajax.js:44-45 | the page starts with an empty queue and no current question |
| AnswerSurveyAjax.AnswerPage.ShowNext | static/js/answer_survey_ajax.js:47-58 | an empty queue reloads and keeps `current`; otherwise one question at some index is removed and becomes current, and the count shows the remaining length |
| AnswerSurveyAjax.AnswerPage.Load | static/js/answer_survey_ajax.js:89-94 | a response that is not ok, or a reply without a list, reloads and changes nothing else; otherwise one listed question is current and shown, the rest stay queued in their order, and the count shows the queue length |
| AnswerSurveyAjax.AnswerPage.ReceiveReply | static/js/answer_survey_ajax.js:72-82 | a message updates the box with the skip or success class; a reported count updates the navigation; then an empty queue reloads with that navigation, and otherwise one queued question is spliced out and shown, and the navigation shows the queue's new length |
| SurveyDetailAjax.CountOrZero | static/js/survey_detail_ajax.js:63 | text that is not a number reads as 0, a number as itself |
| SurveyDetailAjax.NextCount | static/js/survey_detail_ajax.js:400-402 | the server's count when given, else one less than shown but never negative |
| SurveyDetailAjax.CountDownFromShown | static/js/survey_detail_ajax.js:400-403 | counting down from a count the page wrote takes exactly one off, stopping at 0 |
| SurveyDetailAjax.UnreadableCountIsZero | static/js/survey_detail_ajax.js:402 | an unreadable count falls back to 0 |
| SurveyDetailAjax.DropCards | static/js/survey_detail_ajax.js:249 | the cards of the answered question go and all others stay, in page order: the in-order filter of the cards |
| SurveyDetailAjax.DropRows | static/js/survey_detail_ajax.js:249 | the rows of the answered question go and all others stay, in page order: the in-order filter of the rows |
| SurveyDetailAjax.DropKeepsOrder | static/js/survey_detail_ajax.js:249 | dropping splits over any cut of the page, so the kept cards and rows keep their relative order |
| SurveyDetailAjax.RevealFirstHidden | static/js/survey_detail_ajax.js:250-253 | only the first hidden card changes, becoming visible, so one card fewer is hidden |
| SurveyDetailAjax.Completion | static/js/survey_detail_ajax.js:405-413 | with a completion URL and no forms left, go there when the count is 0 and reload otherwise; else stay |
| SurveyDetailAjax.ToggleAfter | static/js/survey_detail_ajax.js:257-267 | for non-edit forms a skip shows the skip help and hides the thanks, yes/no the reverse; edit forms change neither |
| SurveyDetailAjax.SkipAndThanksExclusive | static/js/survey_detail_ajax.js:257-267 | after a skip or an answer exactly one of the two messages shows |
| SurveyDetailAjax.RowsAfter | static/js/survey_detail_ajax.js:268-363 | a row for the question is on top of my answers exactly after yes or no, never after a skip |
| SurveyDetailAjax.AlertAfter | static/js/survey_detail_ajax.js:254-256 | a message shows with the reply's type, `info` by default |
| SurveyDetailAjax.DetailPage.constructor | static/js/survey_detail_ajax.js:61-65 | loading normalises the navigation from the displayed count, non-numbers as 0 |
| SurveyDetailAjax.DetailPage.HandleAnswer | static/js/survey_detail_ajax.js:222-418 | failure reloads; an edit with `next` navigates; otherwise card, rows, messages and alert update, and for non-edit forms only the count and the completion decision follow |
| SurveyDetailAjax.NormaliseKeepsCount | static/js/survey_detail_ajax.js:61-65 | normalising leaves a rendered count's text as it was |
| AnswerFormAjax.NoCount | static/js/answer_form_ajax.js:66 | no plus yes is the total, and no is non-negative exactly when yes does not exceed the total |
| AnswerFormAjax.NoCountOfTally | static/js/answer_form_ajax.js:66 | for a tally whose total is yes plus no, the derived cell is the number of no answers |
| AnswerFormAjax.AlertType | static/js/answer_form_ajax.js:78 | `alert-info` exactly when skipped, `alert-success` otherwise |
| AnswerFormAjax.MessageAfter | static/js/answer_form_ajax.js:76-81 | the box gets class `alert <type> mt-2` and the message, or empty text without one |
| AnswerFormAjax.AnswerFormPage.HandleReply | static/js/answer_form_ajax.js:59-82 | failure or `success` false reloads with no partial update; otherwise the present cells, the navigation (only when a count is given) and the message box update |
| VueCommon.FormatDate | static/js/survey_detail_vue.js:11-13 | "" exactly for null or empty input, else the first ten characters (all of a shorter string) |
| VueCommon.FormatDateOfTimestamp | static/js/answers_vue.js:11-13 | a timestamp shows as its date part |
| VueCommon.FormatDateIdempotent | static/js/survey_detail_vue.js:12 | formatting a formatted date changes nothing |
| VueCommon.AnswerUrl | static/js/survey_detail_vue.js:15-18 | the substituted template followed by `?next=` and the encoded location |
| VueCommon.AnswerUrlFirstZeroOnly | static/js/answers_vue.js:15-18 | only the first `0` of the template becomes the id; later ones stay |
| VueCommon.AnswerUrlWithoutZero | static/js/survey_detail_vue.js:17 | a template without `0` is used unchanged |
| VueCommon.OrEmpty | static/js/survey_detail_vue.js:31 | a missing `questions` is an empty list |
| VueCommon.QuestionList.constructor | static/js/survey_detail_vue.js:5-6 | empty and loading before the first fetch |
| VueCommon.QuestionList.BeginFetch | static/js/answers_vue.js:21 | loading while fetching, list kept |
| VueCommon.QuestionList.Settle | static/js/answers_vue.js:22-28 | loading ends whatever the outcome; a parsed reply replaces the list, a failure keeps it |
| Seqs.Filter | static/js/survey_detail_vue.js:21 | the kept elements are exactly those of the list that pass |
| Seqs.FilterAppend | static/js/survey_detail_vue.js:20-25 | filtering distributes over concatenation |
| SurveyDetailVue.PartitionIsPermutation | static/js/survey_detail_vue.js:20-25 | the two lists together are a permutation of the questions |
| SurveyDetailVue.InExactlyOne | static/js/survey_detail_vue.js:20-25 | each question is in `userAnswers` exactly when it has an answer, else in `unansweredQuestions` |
| SurveyDetailVue.PartitionKeepsOrder | static/js/survey_detail_vue.js:20-25 | both lists keep the original order |
| SurveyAnswersVue.Rows | static/js/survey_answers_vue.js:26-36 | one row per question, in order, each reading back as that question |
| SurveyAnswersVue.RowRoundTrip | static/js/survey_answers_vue.js:27-36 | the field renaming is one-to-one in both directions |
| SurveyAnswersVue.TotalUsers | static/js/survey_answers_vue.js:37 | a missing total shows 0, a given one itself |
| SurveyAnswersVue.GuardedAnswerUrl | static/js/survey_answers_vue.js:49-53 | `#` for a visitor, the answer URL for a signed-in user |
| SurveyAnswersVue.SignedInLinkIsReal | static/js/survey_answers_vue.js:49-52 | a signed-in user's link is never `#` |
| SurveyAnswersVue.AnswersTable.constructor | static/js/survey_answers_vue.js:17-19 | no rows, zero users, loading |
| SurveyAnswersVue.AnswersTable.BeginFetch | static/js/survey_answers_vue.js:22 | loading while fetching, data kept |
| SurveyAnswersVue.AnswersTable.Settle | static/js/survey_answers_vue.js:23-46 | loading ends whatever the outcome; parsed data replaces rows and total users |
| SurveyAnswersVue.AnswersMount.constructor | static/js/survey_answers_vue.js:3 | no app mounted yet |
| SurveyAnswersVue.AnswersMount.MountAnswersApp | static/js/survey_answers_vue.js:5-65 | nothing without the root element; the cached app when there is one; else one new app, cached; at most one mount ever |
| SurveyAnswersVue.MountTwice | static/js/survey_answers_vue.js:5-8 | a second call returns the app the first call mounted, with one mount in all |

## Left out

- Django's request and response machinery (rendering, `messages`, redirects,
  `login_required`, CSRF) is not modelled. A view's `Outcome` names the branch
  it took instead.
- The GET branches that only render an empty form are not modelled.
- The views outside the named core are not part of this model. Admin, URL
  configuration, settings, migrations and the management commands are not
  part of it either.
- `AnswerForm` is not part of this model. Its field rule is an assumption of
  the model, stated by `SurveyViews.CleanAnswerField`.
- `Survey.get_main_survey` is not part of this model. The main survey is a parameter.
- `timezone.now()` is not modelled; `today` is a parameter.
- `formatPercentage` and the agree-ratio cells are left out because they use
  floating point.
- `SortTables.SortableTable.SortTable` proves only that the new body is a
  permutation. Its comparator (`Date.parse`, `parseFloat`, `localeCompare`)
  depends on floating point and locale and is not modelled.
- `SurveyDetailAjax.DetailPage.HandleAnswer` does not build the contents of the
  new my-answers row. That covers the date cell, the edit form and delete link,
  and the header, table and collapse it reveals. The model keeps only which
  question the row is for and where it goes.
- `SurveyDetailAjax.DetailPage.HandleAnswer` assumes the page has a
  `.container` for `showAlert`.
- `SurveyDetailAjax.DetailPage.HandleAnswer` assumes two things about the
  elements tagged with the question's `data-question-id`: each answer form
  sits in a card that carries the tag, and each my-answers row carries it too.
  `SurveyDetailAjax.DropCards` and `SurveyDetailAjax.DropRows` rely on this.
  The templates are not part of this model.
- The delete-answer and delete-question handlers of
  static/js/survey_detail_ajax.js are not part of this model.
- `Cookies.GetCookieLoop` does not model `decodeURIComponent` throwing on a
  malformed value.
- `AnswerSurveyAjax.AnswerPage.Load` does not represent a rejected fetch or a
  body that is not JSON. The promise chain at static/js/answer_survey_ajax.js:89-94
  has no `.catch`, so either leaves the page as it is.
- `fetch`, promises and network failures are not modelled. Each reply is a
  parameter, with `None` or `Failed` for a response that is not ok or cannot
  be parsed.
- JSON fields that are present but not numbers (which become `NaN`) are not modelled.
- History and popstate navigation, `showAnswers`/`hideAnswers` and the
  `initSortableTables` calls after `nextTick` are left out as UI plumbing.
- Submitting the language form is left out as UI plumbing.
- `SurveyViews.Store.AnswerEdit` reads the posted field with `ParseAnswer`,
  which refuses "" and shows the form again. `answer_survey` uses
  `CleanAnswerField`, which takes "" as a skip. Both views share the one
  `AnswerForm`, which is not part of this model. If that form accepts "", then
  `form.save()` at wikikysely_project/survey/views.py:189-191 would store an
  empty answer. `AnswerValue` cannot hold one, so the model does not capture it.
- JavaScript measures string lengths and `slice`, `substring` and `trim`
  indices in UTF-16 code units, while a Dafny `string` counts Unicode scalar
  values. The two differ only for characters outside the Basic Multilingual
  Plane: `VueCommon.FormatDate`'s ten characters and the cookie and text
  indices assume there are none.
- JavaScript numbers are unbounded integers here; overflow to floating point
  is not modelled.

## Findings

| source | as written | input that shows it | evidently intended | confidence | as-written member | corrected member |
|---|---|---|---|---|---|---|
| static/js/langswitch.js:13 | keeps `path.slice(match[0].length - 1)` after a match, which for a bare code keeps its last letter | path `/fi`, language `sv`: the result is `/svi`, and switching to `sv` again gives `/sv/svi` | a bare `/fi` becomes `/sv`, and switching twice changes nothing | not executed | LangSwitch.BarePrefixNotIdempotent | LangSwitch.RewriteIntendedIdempotent |
