# Personalized exam system — verified model of its core

The application is a Streamlit dashboard. A student logs in with an identifier found in the
attempt log. The student gets topic recommendations from a precomputed association-rule table.
The student then takes a five-question exam biased toward weak topics, and the submitted answers
are appended to the log. This project models that logic in Dafny:

- `Table` (`table.dfy`): the attempt row and the rule row, `unique()` on a column, and the literal
  substring test used to match rules.
- `Dashboard` (`dashboard.dfy`): the student's rows, attempt count and total score.
- `LoginGate` (`login.dfy`): the login decision (empty, unknown or known identifier).
- `Recommend` (`recommend.dfy`): `get_recommendations`. It is a method with the source's nested
  loops, building a set and returning it as a list.
- `ExamSelect` (`exam_select.dfy`): the topic fallback, the candidate rows, and the draw without
  replacement. The draw is modelled by a sequence of choices, and a lemma shows that every
  admissible sample is reachable. Also the "Exam Type" banner.
- `ExamSession` (`exam_session.dfy`): a `Session` class holding the attempt table and the answer
  map. It records answers in place and submits, appending the new rows. The submit loop is the
  method `ScoreExam`; lemmas relate its result to the dashboard and the resolver.
- `Scenarios` (`scenarios.dfy`): concrete tables. They cover a student weak in Algebra (S12), an unknown
  identifier, the substring fragility of rule matching, and the two failing inputs listed under
  Findings.

A question is identified by its row index in the table. That index is the pandas label that also
keys the answer map. The randomness of `DataFrame.sample` and of `random.randint` is passed in as
parameters. The sample is a sequence of choices, and `time_spent` is a sequence of integers in
[15, 60].

Where the code's evident intent and its behaviour differ, the model follows the code and adds the
evidently intended version beside it (see Findings):
- Line 280 clamps the sample size by the size of the whole table (`min(5, len(df))`), so a small
  candidate pool makes the draw fail. It evidently means to clamp by the candidate rows; that
  version is `SelectExamClamped`.
- The ternary at line 278 evidently means to say "Focused on weak areas" only when something was
  recommended, but it tests `recs` after the fallback of line 276, on a numpy array. That test
  fails for two or more topics. The intended banner is `ExamKindIntended`.

## Model

| member | source | states |
|---|---|---|
| `Table.Unique` | app.py:141-144 | `unique()` yields a duplicate-free list with exactly the values of the column, never longer than it |
| `Table.AllTopics` | app.py:276 | the fallback topic list holds each topic occurring in the table exactly once, and is non-empty for a non-empty table |
| `Table.ContainsIff` | app.py:148 | the rule match holds exactly when the pattern occurs at some offset of the antecedents text |
| `Dashboard.StudentRows` | app.py:161 | the student's rows are exactly the table rows carrying that identifier, each as many times as it occurs in the table, so `len(student_df)` counts every such row |
| `Dashboard.StudentRowsAppend` | app.py:161 | selecting a student's rows distributes over appending rows to the table |
| `Dashboard.ScoreSumAppend` | app.py:163 | the score sum of appended tables is the sum of the score sums |
| `Dashboard.TotalScoreBounds` | app.py:163-165 | with 0/1 scores the total score lies between 0 and the attempt count |
| `LoginGate.Login` | app.py:113-126 | an empty identifier stops the page; an identifier in no row is rejected; otherwise the session proceeds as that student, who has at least one attempt |
| `LoginGate.LoggedInTableNonEmpty` | app.py:122-126 | after a successful login the table and its topic list are non-empty |
| `Recommend.WrongAnswerTopics` | app.py:141-143 | a topic is listed exactly when some row of the student has `is_correct == 0` on it |
| `Recommend.WeakTopics` | app.py:141-144 | the weak topics are duplicate-free and are exactly the topics of the student's wrong answers |
| `Recommend.ListFromSet` | app.py:152 | `list(set)` holds each element of the set exactly once |
| `Recommend.GetRecommendations` | app.py:140-152 | a topic is returned exactly when the student answered it wrongly at least once and some rule's antecedents contain `"Topic_" + topic`; no topic is returned twice |
| `ExamSelect.ExamTopics` | app.py:274-276 | non-empty recommendations are kept; empty ones are replaced by exactly the topics occurring in the table |
| `ExamSelect.PoolPrefix` | app.py:280 | the candidate indices among the first n rows are exactly those whose topic is listed, in increasing order |
| `ExamSelect.Pool` | app.py:280 | the candidate rows are exactly the rows whose topic is listed, each once |
| `ExamSelect.SampleBy` | app.py:280 | a draw of k rows without replacement has exactly k elements, all from the pool, with no repeats |
| `ExamSelect.SampleByReachesEverySelection` | app.py:280 | every repetition-free selection of k pool rows is the outcome of some sequence of choices |
| `ExamSelect.SelectExam` | app.py:280 | the draw fails exactly when fewer candidate rows exist than `min(5, len(df))`; otherwise it yields that many distinct rows, all on exam topics |
| `ExamSelect.SelectExamFallbackSucceeds` | app.py:275-280 | with no recommendation every row is a candidate, so the draw never fails |
| `ExamSelect.SelectExamReachesEveryDraw` | app.py:280 | every admissible set of `min(5, len(df))` distinct candidate rows is a possible exam |
| `ExamSelect.SelectExamClamped` | app.py:280 | with the size clamped by the pool, the draw yields `min(5, pool size)` distinct rows on exam topics, and at least one when any row matches |
| `ExamSelect.ExamKindAsWritten` | app.py:275-278 | a non-empty recommendation shows "Focused"; on the fallback path the banner fails exactly when the table has two different topics, and otherwise says "General assessment" only when every topic is the empty string |
| `ExamSelect.ExamKindIntended` | app.py:278 | the banner says "Focused on weak areas" exactly when something was recommended, and never fails |
| `ExamSelect.ExamKindAgreesWhenRecommended` | app.py:278 | when something was recommended, the banner as written and the intended banner agree |
| `ExamSession.ChosenAnswer` | app.py:300-306 | the recorded answer is one of the four options, and it is correct exactly for the last option or a filler equal to the correct answer |
| `ExamSession.CountCorrect` | app.py:313-319 | `correct_count` is at most the number of questions; it equals it exactly when all answers are correct, and it is 0 exactly when none is |
| `ExamSession.ScoreExam` | app.py:312-332 | the submit loop returns `correct_count` and one new row per question, in question order |
| `ExamSession.ExamScore` | app.py:337 | the percentage lies in [0, 100]; it is 100 exactly when all answers are correct and 0 exactly when none is |
| `ExamSession.NewRowsContents` | app.py:321-332 | each new row copies the student and the question's fields and records the given answer; `is_correct == score`, which is 1 exactly for a correct answer, else 0; `time_spent` is in [15, 60] |
| `ExamSession.CountCorrectIsScoreSum` | app.py:317-330 | `correct_count` equals the sum of the scores of the new rows |
| `ExamSession.NewRowsOwnership` | app.py:322 | every new row carries the logged-in student's identifier |
| `ExamSession.SubmissionAppends` | app.py:334 | the new table is one row per question longer, starts with the old table unchanged, and keeps 0/1 scores 0/1 |
| `ExamSession.SubmissionUpdatesDashboard` | app.py:312-334 | the student's attempt count grows by the number of questions and the total score by `correct_count` |
| `ExamSession.SubmissionLeavesOthers` | app.py:334 | every other student's rows are unchanged |
| `ExamSession.WrongAnswerMakesTopicWeak` | app.py:321-334 | the topic of a wrongly answered question is a weak topic of the student in the new table |
| `ExamSession.Session.constructor` | app.py:282-283 | a new sitting has an empty answer map over the given table and questions |
| `ExamSession.Session.RecordAnswer` | app.py:299-306 | the chosen option is stored under the question's row index; nothing else changes |
| `ExamSession.Session.AnswerAll` | app.py:287-306 | after rendering, every question has its chosen option recorded; other keys keep their values, and no key other than the questions' row indices is added |
| `ExamSession.Session.Submit` | app.py:311-337 | the table becomes the old table followed by the new rows; `correct_count` is returned; answers are unchanged |
| `Scenarios.S12IsRecommendedAlgebra` | app.py:140-152 | a student wrong twice on Algebra and right on Geometry, with a rule naming Topic_Algebra, is recommended exactly Algebra |
| `Scenarios.S7HasNoWeakTopic` | app.py:141-146 | a student with no wrong answer has no weak topic, hence no recommendation |
| `Scenarios.UnknownStudentRejected` | app.py:122-124 | "S999", absent from the table, is rejected |
| `Scenarios.EmptyIdentifierStops` | app.py:113-120 | the empty identifier stops the page |
| `Scenarios.KnownStudentLogsIn` | app.py:122-126 | "S12", present in the table, logs in |
| `Scenarios.SubstringMatchesLongerTopic` | app.py:148 | a rule on `Topic_MathAdvanced` also matches the topic "Math" |
| `Scenarios.FallbackBannerRaises` | app.py:275-278 | with no recommendation and two topics the banner fails; the intended banner says "General assessment" |
| `Scenarios.FocusedDrawRaises` | app.py:280 | two Algebra candidates in a five-row table make the draw fail; the clamped draw yields two questions |

## Left out

- Page configuration, CSS, the sidebar, radio, markdown, metric and dataframe rendering, balloons, and the navigation selector. These are display only.
- Reading and writing the CSV files (`read_csv`, `to_csv`). Persistence is modelled as assigning the new table; load or write failures are not modelled.
- The Analytics page and its matplotlib charts. They plot floating-point means.
- Floating-point metrics: accuracy, average time, per-topic accuracy and its rounding, error rates, most and least difficult topic, and per-topic accuracy on the recommendations page. `ExamScore` computes the percentage over exact reals, not IEEE doubles.
- `DataFrame.sample` and `random.randint` randomness. The draw and the times are parameters; the draw covers every order in which `sample` can return rows.
- Regular-expression semantics and NaN handling of `str.contains`. Topic names are taken to contain no regex metacharacters; the match is a literal substring test.
- Column types: every descriptive field is a string and `is_correct`, `score`, `time_spent` are integers, as the log stores them; numeric identifiers are not modelled.
- Streamlit reruns: questions re-sampled on the submit click, stale keys kept in the session answer map across reruns, and widget state. The widget default is the choice index 0.
- Concurrent submissions from several sessions overwriting the same file. This is host and concurrency behaviour.
- `ExamSelect.ExamKindAsWritten`: requires a non-empty table, which the login gate guarantees; the truth value of an empty numpy array is not modelled.
- `ExamSession.ExamScore`: requires at least one question. This always holds after login because the table is non-empty, so the division by zero is not modelled.

## Findings

| source | as written | input that shows it | evidently intended | confidence | as-written member | corrected member |
|---|---|---|---|---|---|---|
| app.py:275-278 | after the fallback `recs` is a numpy array of topics, and `if recs` raises "truth value of an array ... is ambiguous" when it has two or more elements | a student with no recommendation in a table with topics Algebra and Geometry | decide the banner from the recommendation list: "Focused on weak areas" exactly when something was recommended | high (not executed) | `ExamSelect.ExamKindAsWritten` (`Scenarios.FallbackBannerRaises`) | `ExamSelect.ExamKindIntended` |
| app.py:280 | the sample size is `min(5, len(df))`, the size of the whole table, so `sample` raises when the candidate pool is smaller | S12 weak only in Algebra (2 rows) in a 5-row table: 5 rows requested from a pool of 2 | clamp by the candidate pool: `min(5, len(pool))` | high (not executed) | `ExamSelect.SelectExam` (`Scenarios.FocusedDrawRaises`) | `ExamSelect.SelectExamClamped` |
