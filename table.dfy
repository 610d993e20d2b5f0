/** The two tables the exam system reads: the attempt log (one row per answer
    a student gave) and the association-rule table, of which only the
    `antecedents` column is consulted. Also the column-level helpers the
    application applies to them: `unique()` on a column and the literal
    substring test used for rule matching. */
module Table {

  /** One row of the attempt log. `isCorrect` and `score` are the 0/1
      integers of the stored file; `timeSpent` is in seconds. */
  datatype Attempt = Attempt(
    studentId: string,
    questionId: string,
    topic: string,
    difficulty: string,
    questionType: string,
    studentAnswer: string,
    correctAnswer: string,
    isCorrect: int,
    score: int,
    timeSpent: int)

  /** One row of the rule table; `antecedents` is the textual form of the
      rule's left-hand side, e.g. "frozenset({'Topic_Algebra'})". */
  datatype Rule = Rule(antecedents: string)

  datatype Result<+T, +E> = Ok(value: T) | Err(error: E)

  predicate NoDuplicates<T(==)>(s: seq<T>)
  {
    forall i, j :: 0 <= i < j < |s| ==> s[i] != s[j]
  }

  /** `Series.unique()`: the distinct values of `s`, in order of first appearance. */
  function Unique<T(==,!new)>(s: seq<T>): (r: seq<T>)
    ensures NoDuplicates(r)
    ensures forall x :: x in r <==> x in s
    ensures |r| <= |s|
  {
    if s == [] then []
    else
      var rest := Unique(s[..|s| - 1]);
      var last := s[|s| - 1];
      assert forall x :: x in s <==> x in s[..|s| - 1] || x == last by {
        assert s == s[..|s| - 1] + [last];
      }
      if last in rest then rest else rest + [last]
  }

  /** The `topic` column of a table. */
  function TopicColumn(df: seq<Attempt>): (r: seq<string>)
    ensures |r| == |df|
    ensures forall i :: 0 <= i < |df| ==> r[i] == df[i].topic
  {
    seq(|df|, i requires 0 <= i < |df| => df[i].topic)
  }

  /** `df["topic"].unique()`: every topic occurring in the table, once. */
  function AllTopics(df: seq<Attempt>): (r: seq<string>)
    ensures NoDuplicates(r)
    ensures forall t :: t in r <==> exists i :: 0 <= i < |df| && df[i].topic == t
    ensures |df| > 0 ==> |r| > 0
  {
    var col := TopicColumn(df);
    assert forall t :: t in col <==> exists i :: 0 <= i < |df| && df[i].topic == t by {
      forall t | t in col ensures exists i :: 0 <= i < |df| && df[i].topic == t {
        var i :| 0 <= i < |col| && col[i] == t;
        assert df[i].topic == t;
      }
    }
    assert |df| > 0 ==> col[0] in col;
    Unique(col)
  }

  /** Literal, case-sensitive substring test (`str.contains` on a pattern
      without regular-expression metacharacters). */
  predicate Contains(text: string, pattern: string)
    decreases |text|
  {
    |pattern| <= |text| && (text[..|pattern|] == pattern || Contains(text[1..], pattern))
  }

  /** The pattern occurs in the text starting at offset `k`. */
  predicate OccursAt(text: string, pattern: string, k: int)
  {
    0 <= k && k + |pattern| <= |text| && text[k..k + |pattern|] == pattern
  }

  /** `Contains` holds exactly when the pattern occurs at some offset of the text. */
  lemma {:induction false} ContainsIff(text: string, pattern: string)
    ensures Contains(text, pattern) <==> exists k :: OccursAt(text, pattern, k)
    decreases |text|
  {
    if |pattern| <= |text| {
      if text[..|pattern|] == pattern {
        assert OccursAt(text, pattern, 0);
      } else {
        ContainsIff(text[1..], pattern);
        if Contains(text[1..], pattern) {
          var k :| OccursAt(text[1..], pattern, k);
          assert text[1..][k..k + |pattern|] == text[k + 1..k + 1 + |pattern|];
          assert OccursAt(text, pattern, k + 1);
        }
        if exists k :: OccursAt(text, pattern, k) {
          var k :| OccursAt(text, pattern, k);
          assert k != 0;
          assert text[1..][k - 1..k - 1 + |pattern|] == text[k..k + |pattern|];
          assert OccursAt(text[1..], pattern, k - 1);
        }
      }
    }
  }

  /** A pattern placed between two strings occurs right after the first one. */
  lemma ContainsInfix(before: string, pattern: string, after: string)
    ensures Contains(before + pattern + after, pattern)
  {
    var text := before + pattern + after;
    assert text[|before|..|before| + |pattern|] == pattern;
    assert OccursAt(text, pattern, |before|);
    ContainsIff(text, pattern);
  }
}
