/** The integer aggregates of the dashboard page: how many attempts the
    logged-in student has and the sum of their scores (app.py:161-165). */
module Dashboard {
  import opened Table

  /** `df[df["student_id"] == sid]`: the student's rows, in table order. */
  function StudentRows(sid: string, df: seq<Attempt>): (r: seq<Attempt>)
    ensures |r| <= |df|
    ensures forall a :: a in r <==> a in df && a.studentId == sid
    ensures forall a :: multiset(r)[a] == if a.studentId == sid then multiset(df)[a] else 0
  {
    if df == [] then []
    else
      var last := df[|df| - 1];
      assert df == df[..|df| - 1] + [last];
      StudentRows(sid, df[..|df| - 1]) + (if last.studentId == sid then [last] else [])
  }

  /** Sum of the `score` column. */
  function ScoreSum(rows: seq<Attempt>): int
  {
    if rows == [] then 0 else ScoreSum(rows[..|rows| - 1]) + rows[|rows| - 1].score
  }

  /** `len(student_df)`. */
  function TotalAttempts(sid: string, df: seq<Attempt>): nat
  {
    |StudentRows(sid, df)|
  }

  /** `student_df["score"].sum()`. */
  function TotalScore(sid: string, df: seq<Attempt>): int
  {
    ScoreSum(StudentRows(sid, df))
  }

  /** Every score stored in the rows is 0 or 1 (true of every row the exam writes). */
  predicate BinaryScores(rows: seq<Attempt>)
  {
    forall i :: 0 <= i < |rows| ==> rows[i].score == 0 || rows[i].score == 1
  }

  /** Filtering by student distributes over concatenation of tables. */
  lemma {:induction false} StudentRowsAppend(sid: string, a: seq<Attempt>, b: seq<Attempt>)
    ensures StudentRows(sid, a + b) == StudentRows(sid, a) + StudentRows(sid, b)
    decreases |b|
  {
    if b != [] {
      var last := b[|b| - 1];
      assert (a + b)[..|a + b| - 1] == a + b[..|b| - 1];
      StudentRowsAppend(sid, a, b[..|b| - 1]);
    } else {
      assert a + b == a;
    }
  }

  lemma {:induction false} ScoreSumAppend(a: seq<Attempt>, b: seq<Attempt>)
    ensures ScoreSum(a + b) == ScoreSum(a) + ScoreSum(b)
    decreases |b|
  {
    if b != [] {
      assert (a + b)[..|a + b| - 1] == a + b[..|b| - 1];
      ScoreSumAppend(a, b[..|b| - 1]);
    } else {
      assert a + b == a;
    }
  }

  /** With 0/1 scores, the total score lies between 0 and the number of attempts. */
  lemma {:induction false} TotalScoreBounds(sid: string, df: seq<Attempt>)
    requires BinaryScores(df)
    ensures 0 <= TotalScore(sid, df) <= TotalAttempts(sid, df)
  {
    BinaryScoreSumBounds(StudentRows(sid, df));
  }

  lemma {:induction false} BinaryScoreSumBounds(rows: seq<Attempt>)
    requires forall a :: a in rows ==> a.score == 0 || a.score == 1
    ensures 0 <= ScoreSum(rows) <= |rows|
  {
    if rows != [] {
      assert rows[|rows| - 1] in rows;
      BinaryScoreSumBounds(rows[..|rows| - 1]);
    }
  }
}
