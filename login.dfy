/** The login gate of the sidebar (app.py:111-126): an empty identifier
    stops the page, an identifier absent from the `student_id` column is
    rejected, any other identifier becomes the current student. */
module LoginGate {
  import opened Table
  import opened Dashboard

  datatype LoginResult =
    | MissingId              // nothing typed yet: the welcome screen, then stop
    | InvalidId              // "Invalid Student ID", then stop
    | LoggedIn(student: string)

  /** `df["student_id"].values`. */
  function StudentIdColumn(df: seq<Attempt>): (r: seq<string>)
    ensures |r| == |df|
    ensures forall i :: 0 <= i < |df| ==> r[i] == df[i].studentId
  {
    seq(|df|, i requires 0 <= i < |df| => df[i].studentId)
  }

  function Login(input: string, df: seq<Attempt>): (r: LoginResult)
    ensures r == MissingId <==> input == []
    ensures r == InvalidId <==> input != [] && forall i :: 0 <= i < |df| ==> df[i].studentId != input
    ensures r.LoggedIn? ==> r.student == input && TotalAttempts(input, df) > 0
  {
    if input == [] then MissingId
    else if input !in StudentIdColumn(df) then InvalidId
    else
      var i :| 0 <= i < |df| && StudentIdColumn(df)[i] == input;
      assert df[i] in StudentRows(input, df);
      LoggedIn(input)
  }

  /** A successful login guarantees a non-empty table, hence at least one
      topic and an exam of at least one question. */
  lemma LoggedInTableNonEmpty(input: string, df: seq<Attempt>)
    requires Login(input, df).LoggedIn?
    ensures |df| > 0 && |AllTopics(df)| > 0
  {
    assert TotalAttempts(input, df) > 0;
  }
}
