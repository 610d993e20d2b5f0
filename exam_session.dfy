/** One exam sitting (app.py:282-343): the answer chosen for each drawn
    question is recorded in the session's answer map, and submitting scores
    the answers, appends one attempt row per question to the table and
    reports the percentage score. */
module ExamSession {
  import opened Table
  import opened Dashboard
  import opened Recommend

  /** The three filler options shown before the row's correct answer (line 302). */
  const Fillers: seq<string> := ["Option A", "Option B", "Option C"]

  /** Bounds of `random.randint(15, 60)` for the recorded `time_spent` (line 331). */
  const MinTimeSpent: int := 15
  const MaxTimeSpent: int := 60

  /** The options of the question drawn from row `q`, in display order. */
  function Options(q: Attempt): seq<string>
  {
    Fillers + [q.correctAnswer]
  }

  /** The answer recorded when the student selects option `choice` (line 306). */
  function ChosenAnswer(q: Attempt, choice: nat): (a: string)
    requires choice < |Options(q)|
    ensures a in Options(q)
    ensures a == q.correctAnswer <==> choice == 3 || (choice < 3 && Fillers[choice] == q.correctAnswer)
  {
    Options(q)[choice]
  }

  /** Every drawn question is a row of the table and has a recorded answer. */
  predicate Answered(table: seq<Attempt>, questions: seq<nat>, answers: map<nat, string>)
  {
    forall k :: 0 <= k < |questions| ==> questions[k] < |table| && questions[k] in answers
  }

  /** Question `k` was answered with the row's correct answer (line 317). */
  predicate AnsweredCorrectly(table: seq<Attempt>, questions: seq<nat>, answers: map<nat, string>, k: int)
    requires Answered(table, questions, answers)
  {
    0 <= k < |questions| && answers[questions[k]] == table[questions[k]].correctAnswer
  }

  predicate TimesInRange(times: seq<int>)
  {
    forall k :: 0 <= k < |times| ==> MinTimeSpent <= times[k] <= MaxTimeSpent
  }

  /** The attempt row written for one question (lines 321-332). */
  function NewRow(student: string, q: Attempt, answer: string, time: int): Attempt
  {
    var correct := if answer == q.correctAnswer then 1 else 0;
    Attempt(student, q.questionId, q.topic, q.difficulty, q.questionType,
            answer, q.correctAnswer, correct, correct, time)
  }

  /** `new_rows`: one row per question, in question order. */
  function NewRows(student: string, table: seq<Attempt>, questions: seq<nat>,
                   answers: map<nat, string>, times: seq<int>): seq<Attempt>
    requires Answered(table, questions, answers) && |times| == |questions|
  {
    seq(|questions|, k requires 0 <= k < |questions| =>
      NewRow(student, table[questions[k]], answers[questions[k]], times[k]))
  }

  /** `correct_count`: how many questions were answered correctly. */
  function CountCorrect(table: seq<Attempt>, questions: seq<nat>, answers: map<nat, string>): (r: nat)
    requires Answered(table, questions, answers)
    ensures r <= |questions|
    ensures r == |questions| <==> forall k :: 0 <= k < |questions| ==> AnsweredCorrectly(table, questions, answers, k)
    ensures r == 0 <==> forall k :: 0 <= k < |questions| ==> !AnsweredCorrectly(table, questions, answers, k)
  {
    if questions == [] then 0
    else
      var n := |questions| - 1;
      var prefix := questions[..n];
      assert forall k :: 0 <= k < n ==>
        (AnsweredCorrectly(table, prefix, answers, k) <==> AnsweredCorrectly(table, questions, answers, k));
      CountCorrect(table, prefix, answers) + (if AnsweredCorrectly(table, questions, answers, n) then 1 else 0)
  }

  /** The submit loop (lines 312-332): count the correct answers and build
      the new rows. */
  method ScoreExam(student: string, table: seq<Attempt>, questions: seq<nat>,
                   answers: map<nat, string>, times: seq<int>)
    returns (correctCount: nat, newRows: seq<Attempt>)
    requires Answered(table, questions, answers) && |times| == |questions|
    ensures correctCount == CountCorrect(table, questions, answers)
    ensures newRows == NewRows(student, table, questions, answers, times)
  {
    newRows := [];
    correctCount := 0;
    for k := 0 to |questions|
      invariant correctCount == CountCorrect(table, questions[..k], answers)
      invariant |newRows| == k
      invariant forall j :: 0 <= j < k ==>
        newRows[j] == NewRow(student, table[questions[j]], answers[questions[j]], times[j])
    {
      var idx := questions[k];
      var userAnswer := answers[idx];
      var correct := userAnswer == table[idx].correctAnswer;
      assert questions[..k + 1][..k] == questions[..k];
      if correct {
        correctCount := correctCount + 1;
      }
      newRows := newRows + [NewRow(student, table[idx], userAnswer, times[k])];
    }
    assert questions[..|questions|] == questions;
  }

  /** `exam_score` (line 337): the share of correct answers as a percentage. */
  function ExamScore(correctCount: nat, questionCount: nat): (r: real)
    requires 0 < questionCount && correctCount <= questionCount
    ensures 0.0 <= r <= 100.0
    ensures r == 100.0 <==> correctCount == questionCount
    ensures r == 0.0 <==> correctCount == 0
  {
    var share := correctCount as real / questionCount as real;
    assert share <= 1.0;
    assert share == 1.0 ==> correctCount == questionCount;
    share * 100.0
  }

  /** Each new row copies the student and the question's descriptive fields,
      records the given answer, has `is_correct == score`, 1 exactly when the
      answer is the correct one, and a `time_spent` within [15, 60]. */
  lemma NewRowsContents(student: string, table: seq<Attempt>, questions: seq<nat>,
                        answers: map<nat, string>, times: seq<int>, k: int)
    requires Answered(table, questions, answers) && |times| == |questions| && TimesInRange(times)
    requires 0 <= k < |questions|
    ensures var rows := NewRows(student, table, questions, answers, times);
      var q := table[questions[k]];
      && |rows| == |questions|
      && rows[k].studentId == student
      && rows[k].questionId == q.questionId && rows[k].topic == q.topic
      && rows[k].difficulty == q.difficulty && rows[k].questionType == q.questionType
      && rows[k].correctAnswer == q.correctAnswer
      && rows[k].studentAnswer == answers[questions[k]]
      && rows[k].isCorrect == rows[k].score
      && (rows[k].isCorrect == 0 || rows[k].isCorrect == 1)
      && (rows[k].isCorrect == 1 <==> AnsweredCorrectly(table, questions, answers, k))
      && MinTimeSpent <= rows[k].timeSpent <= MaxTimeSpent
  {
  }

  /** `correct_count` is the sum of the scores of the rows the submission writes. */
  lemma {:induction false} CountCorrectIsScoreSum(student: string, table: seq<Attempt>, questions: seq<nat>,
                                                  answers: map<nat, string>, times: seq<int>)
    requires Answered(table, questions, answers) && |times| == |questions|
    ensures CountCorrect(table, questions, answers) == ScoreSum(NewRows(student, table, questions, answers, times))
    decreases |questions|
  {
    if questions != [] {
      var n := |questions| - 1;
      var rows := NewRows(student, table, questions, answers, times);
      CountCorrectIsScoreSum(student, table, questions[..n], answers, times[..n]);
      assert rows[..n] == NewRows(student, table, questions[..n], answers, times[..n]);
    }
  }

  /** The rows a submission writes all belong to the submitting student. */
  lemma NewRowsOwnership(student: string, table: seq<Attempt>, questions: seq<nat>,
                         answers: map<nat, string>, times: seq<int>)
    requires Answered(table, questions, answers) && |times| == |questions|
    ensures forall a :: a in NewRows(student, table, questions, answers, times) ==> a.studentId == student
  {
    var rows := NewRows(student, table, questions, answers, times);
    forall a | a in rows ensures a.studentId == student {
      var k :| 0 <= k < |rows| && rows[k] == a;
    }
  }

  lemma {:induction false} OwnRows(student: string, rows: seq<Attempt>)
    requires forall a :: a in rows ==> a.studentId == student
    ensures StudentRows(student, rows) == rows
  {
    if rows != [] {
      assert rows == rows[..|rows| - 1] + [rows[|rows| - 1]];
      OwnRows(student, rows[..|rows| - 1]);
    }
  }

  lemma {:induction false} ForeignRows(other: string, rows: seq<Attempt>)
    requires forall a :: a in rows ==> a.studentId != other
    ensures StudentRows(other, rows) == []
  {
    if rows != [] {
      assert rows[|rows| - 1] in rows;
      ForeignRows(other, rows[..|rows| - 1]);
    }
  }

  /** Line 334: after a submission the table is the old table followed by the
      new rows: it grows by one row per question and no existing row changes. */
  lemma SubmissionAppends(student: string, table: seq<Attempt>, questions: seq<nat>,
                          answers: map<nat, string>, times: seq<int>)
    requires Answered(table, questions, answers) && |times| == |questions|
    ensures var after := table + NewRows(student, table, questions, answers, times);
      && |after| == |table| + |questions|
      && after[..|table|] == table
      && (BinaryScores(table) ==> BinaryScores(after))
  {
    var after := table + NewRows(student, table, questions, answers, times);
    assert after[..|table|] == table;
  }

  /** On the dashboard, the submitting student's attempt count grows by the
      number of questions and their total score by `correct_count`. */
  lemma SubmissionUpdatesDashboard(student: string, table: seq<Attempt>, questions: seq<nat>,
                                   answers: map<nat, string>, times: seq<int>)
    requires Answered(table, questions, answers) && |times| == |questions|
    ensures var after := table + NewRows(student, table, questions, answers, times);
      && TotalAttempts(student, after) == TotalAttempts(student, table) + |questions|
      && TotalScore(student, after) == TotalScore(student, table) + CountCorrect(table, questions, answers)
  {
    var rows := NewRows(student, table, questions, answers, times);
    StudentRowsAppend(student, table, rows);
    NewRowsOwnership(student, table, questions, answers, times);
    OwnRows(student, rows);
    ScoreSumAppend(StudentRows(student, table), rows);
    CountCorrectIsScoreSum(student, table, questions, answers, times);
  }

  /** A submission leaves every other student's rows as they were. */
  lemma SubmissionLeavesOthers(student: string, other: string, table: seq<Attempt>, questions: seq<nat>,
                               answers: map<nat, string>, times: seq<int>)
    requires Answered(table, questions, answers) && |times| == |questions|
    requires other != student
    ensures StudentRows(other, table + NewRows(student, table, questions, answers, times)) == StudentRows(other, table)
  {
    var rows := NewRows(student, table, questions, answers, times);
    StudentRowsAppend(other, table, rows);
    NewRowsOwnership(student, table, questions, answers, times);
    ForeignRows(other, rows);
    assert StudentRows(other, table) + [] == StudentRows(other, table);
  }

  /** A question answered wrongly makes its topic a weak topic of the student
      in the table after submission, so the resolver can recommend it. */
  lemma WrongAnswerMakesTopicWeak(student: string, table: seq<Attempt>, questions: seq<nat>,
                                  answers: map<nat, string>, times: seq<int>, k: int)
    requires Answered(table, questions, answers) && |times| == |questions|
    requires 0 <= k < |questions| && !AnsweredCorrectly(table, questions, answers, k)
    ensures table[questions[k]].topic in WeakTopics(student, table + NewRows(student, table, questions, answers, times))
  {
    var after := table + NewRows(student, table, questions, answers, times);
    assert IsWrongAnswer(student, after, |table| + k);
  }

  /** The in-memory state of an exam sitting: the attempt table, the answer
      map of the session state and the questions drawn for this student. */
  class Session {
    var table: seq<Attempt>
    var answers: map<nat, string>
    const student: string
    const questions: seq<nat>

    ghost predicate Valid()
      reads this
    {
      NoDuplicates(questions) && forall k :: 0 <= k < |questions| ==> questions[k] < |table|
    }

    /** A fresh sitting: the answer map starts empty (line 283). */
    constructor (student: string, table: seq<Attempt>, questions: seq<nat>)
      requires NoDuplicates(questions)
      requires forall k :: 0 <= k < |questions| ==> questions[k] < |table|
      ensures Valid()
      ensures this.student == student && this.table == table && this.questions == questions
      ensures answers == map[]
    {
      this.student := student;
      this.table := table;
      this.questions := questions;
      answers := map[];
    }

    /** Line 306: store the option selected for the `k`-th question under its row index. */
    method RecordAnswer(k: nat, choice: nat)
      requires Valid() && k < |questions| && choice < 4
      modifies this
      ensures Valid() && table == old(table)
      ensures answers == old(answers)[questions[k] := ChosenAnswer(table[questions[k]], choice)]
    {
      var idx := questions[k];
      answers := answers[idx := ChosenAnswer(table[idx], choice)];
    }

    /** Lines 287-306: show every question and record the option selected for it. */
    method AnswerAll(choices: seq<nat>)
      requires Valid() && |choices| == |questions|
      requires forall k :: 0 <= k < |choices| ==> choices[k] < 4
      modifies this
      ensures Valid() && table == old(table)
      ensures Answered(table, questions, answers)
      ensures forall k :: 0 <= k < |questions| ==>
        answers[questions[k]] == ChosenAnswer(table[questions[k]], choices[k])
      ensures forall idx :: idx in old(answers) && idx !in questions ==>
        idx in answers && answers[idx] == old(answers)[idx]
      ensures answers.Keys == old(answers).Keys + set k | 0 <= k < |questions| :: questions[k]
    {
      for k := 0 to |questions|
        invariant Valid() && table == old(table)
        invariant answers.Keys == old(answers).Keys + set j | 0 <= j < k :: questions[j]
        invariant forall j :: 0 <= j < k ==>
          questions[j] in answers && answers[questions[j]] == ChosenAnswer(table[questions[j]], choices[j])
        invariant forall idx :: idx in old(answers) && idx !in questions ==>
          idx in answers && answers[idx] == old(answers)[idx]
      {
        RecordAnswer(k, choices[k]);
      }
    }

    /** Lines 311-337: score the answers, append the new rows to the table
        (the table keeps its old rows, line 334) and return `correct_count`. */
    method Submit(times: seq<int>) returns (correctCount: nat)
      requires Valid() && Answered(table, questions, answers)
      requires |times| == |questions| && TimesInRange(times)
      modifies this
      ensures Valid() && answers == old(answers)
      ensures table == old(table) + NewRows(student, old(table), questions, answers, times)
      ensures correctCount == CountCorrect(old(table), questions, answers)
    {
      var newRows;
      correctCount, newRows := ScoreExam(student, table, questions, answers, times);
      table := table + newRows;
    }
  }
}
