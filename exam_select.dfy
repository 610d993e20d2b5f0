/** Choosing the questions of an exam (app.py:274-280): fall back to every
    topic when there is no recommendation, keep the rows of the chosen
    topics, and draw `min(5, len(df))` of them without replacement.

    A question is identified by its row index in the table (the pandas
    index label `idx` that also keys the answer map). The random draw of
    `DataFrame.sample` is modelled by a sequence of choices: at each step
    the next choice, taken modulo the number of rows still available,
    picks one of them. */
module ExamSelect {
  import opened Table

  const ExamSize: nat := 5

  function Min(a: int, b: int): int
  {
    if a <= b then a else b
  }

  /** Lines 275-276: the recommended topics, or every topic of the table
      when there is none. */
  function ExamTopics(recs: seq<string>, df: seq<Attempt>): (r: seq<string>)
    ensures recs != [] ==> r == recs
    ensures recs == [] ==> forall t :: t in r <==> exists i :: 0 <= i < |df| && df[i].topic == t
  {
    if recs == [] then AllTopics(df) else recs
  }

  /** `df[df["topic"].isin(topics)]` restricted to the first `n` rows: the
      indices of the rows whose topic is listed, in increasing order. */
  function PoolPrefix(topics: seq<string>, df: seq<Attempt>, n: nat): (r: seq<nat>)
    requires n <= |df|
    ensures forall i: nat :: i in r <==> i < n && df[i].topic in topics
    ensures forall a, b :: 0 <= a < b < |r| ==> r[a] < r[b]
    ensures forall a :: 0 <= a < |r| ==> r[a] < n
    ensures |r| <= n
  {
    if n == 0 then []
    else
      var r := PoolPrefix(topics, df, n - 1);
      if df[n - 1].topic in topics then r + [n - 1] else r
  }

  /** The candidate rows of the exam: every row whose topic is in `topics`. */
  function Pool(topics: seq<string>, df: seq<Attempt>): (r: seq<nat>)
    ensures NoDuplicates(r)
    ensures forall i: nat :: i in r <==> i < |df| && df[i].topic in topics
  {
    PoolPrefix(topics, df, |df|)
  }

  /** `pool` with its element at position `p` taken out. */
  function RemoveAt(pool: seq<nat>, p: nat): (r: seq<nat>)
    requires p < |pool|
    ensures |r| == |pool| - 1
    ensures forall x :: x in r ==> x in pool
    ensures NoDuplicates(pool) ==> NoDuplicates(r) && pool[p] !in r
    ensures forall x :: x in pool && x != pool[p] ==> x in r
  {
    var r := pool[..p] + pool[p + 1..];
    assert forall a :: 0 <= a < |r| ==> r[a] == pool[if a < p then a else a + 1];
    assert forall x :: x in pool && x != pool[p] ==> x in r by {
      forall x | x in pool && x != pool[p] ensures x in r {
        var b :| 0 <= b < |pool| && pool[b] == x;
        assert r[if b < p then b else b - 1] == x;
      }
    }
    r
  }

  /** Sampling `k` elements of `pool` without replacement, steered by `choices`. */
  function SampleBy(pool: seq<nat>, k: nat, choices: seq<nat>): (r: seq<nat>)
    requires k <= |pool|
    ensures |r| == k
    ensures forall x :: x in r ==> x in pool
    ensures NoDuplicates(pool) ==> NoDuplicates(r)
    decreases k
  {
    if k == 0 then []
    else
      var c := if choices == [] then 0 else choices[0];
      var p := c % |pool|;
      var rest := RemoveAt(pool, p);
      [pool[p]] + SampleBy(rest, k - 1, if choices == [] then [] else choices[1..])
  }

  datatype ExamError =
    | AmbiguousTruthValue   // `if recs` on a numpy array of two or more topics
    | SampleLargerThanPool  // `sample(n)` with n above the number of candidate rows

  /** The wording of the "Exam Type" banner of line 278. */
  datatype ExamKind = FocusedOnWeakAreas | GeneralAssessment

  lemma SmallModulus(p: int, n: int)
    requires 0 <= p < n
    ensures p % n == p
  {
  }

  /** Removing the first pick of a selection from the pool leaves a pool the
      rest of the selection is drawn from. */
  lemma SelectionTail(pool: seq<nat>, s: seq<nat>, p: nat)
    requires NoDuplicates(pool) && NoDuplicates(s) && s != []
    requires forall x :: x in s ==> x in pool
    requires p < |pool| && pool[p] == s[0]
    ensures NoDuplicates(s[1..])
    ensures forall x :: x in s[1..] ==> x in RemoveAt(pool, p)
  {
    var rest := RemoveAt(pool, p);
    forall x | x in s[1..] ensures x in rest {
      var b :| 1 <= b < |s| && s[b] == x;
      assert s[b] != s[0];
    }
    forall a, b | 0 <= a < b < |s[1..]| ensures s[1..][a] != s[1..][b] {
      assert s[1..][a] == s[a + 1] && s[1..][b] == s[b + 1];
    }
  }

  /** Every duplicate-free selection of rows from a duplicate-free pool is the
      outcome of some sequence of choices: the model of the draw excludes no
      sample that `DataFrame.sample` can return. */
  lemma {:induction false} SampleByReachesEverySelection(pool: seq<nat>, s: seq<nat>)
    returns (choices: seq<nat>)
    requires NoDuplicates(pool) && NoDuplicates(s)
    requires |s| <= |pool|
    requires forall x :: x in s ==> x in pool
    ensures SampleBy(pool, |s|, choices) == s
    decreases |s|
  {
    if s == [] {
      choices := [];
    } else {
      assert s[0] in s;
      var p :| 0 <= p < |pool| && pool[p] == s[0];
      var rest := RemoveAt(pool, p);
      SelectionTail(pool, s, p);
      var tail := SampleByReachesEverySelection(rest, s[1..]);
      choices := [p] + tail;
      assert choices[0] == p && choices[1..] == tail;
      SmallModulus(p, |pool|);
      assert SampleBy(pool, |s|, choices) == [s[0]] + s[1..];
      assert [s[0]] + s[1..] == s;
    }
  }

  /** A row drawn by the exam: an index of the table, duplicate-free, on one
      of the exam topics. */
  predicate IsExamDraw(qs: seq<nat>, topics: seq<string>, df: seq<Attempt>)
  {
    NoDuplicates(qs) && forall k :: 0 <= k < |qs| ==> qs[k] < |df| && df[qs[k]].topic in topics
  }

  /** The number of questions asked for at line 280: `min(5, len(df))`. */
  function SampleCount(df: seq<Attempt>): nat
  {
    Min(ExamSize, |df|)
  }

  /** Line 280 as written: the sample size is clamped by the size of the whole
      table, so pandas raises when the candidate rows are fewer. */
  function SelectExam(recs: seq<string>, df: seq<Attempt>, choices: seq<nat>): (r: Result<seq<nat>, ExamError>)
    ensures r.Err? <==> |Pool(ExamTopics(recs, df), df)| < Min(ExamSize, |df|)
    ensures r.Err? ==> r.error == SampleLargerThanPool
    ensures r.Ok? ==> |r.value| == Min(ExamSize, |df|) && IsExamDraw(r.value, ExamTopics(recs, df), df)
  {
    var topics := ExamTopics(recs, df);
    var pool := Pool(topics, df);
    if |pool| < SampleCount(df) then Err(SampleLargerThanPool)
    else
      var qs := SampleBy(pool, SampleCount(df), choices);
      assert forall k :: 0 <= k < |qs| ==> qs[k] in pool;
      Ok(qs)
  }

  /** When every row is a candidate the pool is the whole table. */
  lemma {:induction false} PoolPrefixAllRows(topics: seq<string>, df: seq<Attempt>, n: nat)
    requires n <= |df|
    requires forall i :: 0 <= i < |df| ==> df[i].topic in topics
    ensures |PoolPrefix(topics, df, n)| == n
  {
    if n > 0 {
      PoolPrefixAllRows(topics, df, n - 1);
    }
  }

  /** With no recommendation the draw never fails: every row is a candidate. */
  lemma SelectExamFallbackSucceeds(df: seq<Attempt>, choices: seq<nat>)
    ensures SelectExam([], df, choices).Ok?
  {
    var topics := ExamTopics([], df);
    forall i | 0 <= i < |df| ensures df[i].topic in topics {
    }
    PoolPrefixAllRows(topics, df, |df|);
  }

  /** Every admissible draw of `min(5, len(df))` candidate rows is a possible
      outcome of `SelectExam`. */
  lemma SelectExamReachesEveryDraw(recs: seq<string>, df: seq<Attempt>, qs: seq<nat>)
    requires IsExamDraw(qs, ExamTopics(recs, df), df)
    requires |qs| == Min(ExamSize, |df|)
    ensures exists choices :: SelectExam(recs, df, choices) == Ok(qs)
  {
    var pool := Pool(ExamTopics(recs, df), df);
    assert forall x :: x in qs ==> x in pool;
    assert |qs| <= |pool| by {
      SelectionFitsPool(pool, qs);
    }
    var choices := SampleByReachesEverySelection(pool, qs);
    assert SelectExam(recs, df, choices) == Ok(qs);
  }

  /** A duplicate-free sequence drawn from `pool` is no longer than `pool`. */
  lemma {:induction false} SelectionFitsPool(pool: seq<nat>, s: seq<nat>)
    requires NoDuplicates(s)
    requires forall x :: x in s ==> x in pool
    ensures |s| <= |pool|
    decreases |s|
  {
    if s != [] {
      assert s[0] in s;
      var p :| 0 <= p < |pool| && pool[p] == s[0];
      var rest := pool[..p] + pool[p + 1..];
      forall x | x in s[1..] ensures x in rest {
        var b :| 1 <= b < |s| && s[b] == x;
        assert s[b] != s[0];
        assert x in s;
        var c :| 0 <= c < |pool| && pool[c] == x;
        assert c != p;
        assert rest[if c < p then c else c - 1] == x;
      }
      assert NoDuplicates(s[1..]) by {
        forall a, b | 0 <= a < b < |s[1..]| ensures s[1..][a] != s[1..][b] {
          assert s[1..][a] == s[a + 1] && s[1..][b] == s[b + 1];
        }
      }
      SelectionFitsPool(rest, s[1..]);
    }
  }

  /** Line 280 as evidently intended: clamp the sample size by the number of
      candidate rows, so the draw never fails. */
  function SelectExamClamped(recs: seq<string>, df: seq<Attempt>, choices: seq<nat>): (r: seq<nat>)
    ensures |r| == Min(ExamSize, |Pool(ExamTopics(recs, df), df)|)
    ensures IsExamDraw(r, ExamTopics(recs, df), df)
    ensures (exists i :: 0 <= i < |df| && df[i].topic in ExamTopics(recs, df)) ==> |r| > 0
  {
    var topics := ExamTopics(recs, df);
    var pool := Pool(topics, df);
    var qs := SampleBy(pool, Min(ExamSize, |pool|), choices);
    assert forall k :: 0 <= k < |qs| ==> qs[k] in pool;
    assert (exists i :: 0 <= i < |df| && df[i].topic in topics) ==> |pool| > 0 by {
      if exists i :: 0 <= i < |df| && df[i].topic in topics {
        var i :| 0 <= i < |df| && df[i].topic in topics;
        assert i in pool;
      }
    }
    qs
  }

  /** Line 278 as written. After the fallback of line 276 `recs` is a numpy
      array, whose truth value is an error when it holds two or more topics
      and is that of its one topic (an empty string is false) when it holds
      one. A non-empty recommendation list is simply true. The table is
      non-empty once a student has logged in. */
  function ExamKindAsWritten(recs: seq<string>, df: seq<Attempt>): (r: Result<ExamKind, ExamError>)
    requires |df| > 0
    ensures recs != [] ==> r == Ok(FocusedOnWeakAreas)
    ensures recs == [] && r.Err? <==> recs == [] && exists i, j :: 0 <= i < |df| && 0 <= j < |df| && df[i].topic != df[j].topic
    ensures r.Err? ==> r.error == AmbiguousTruthValue
    ensures recs == [] && r.Ok? ==> (r.value == GeneralAssessment <==> forall i :: 0 <= i < |df| ==> df[i].topic == "")
  {
    if recs != [] then Ok(FocusedOnWeakAreas)
    else
      var topics := AllTopics(df);
      if |topics| >= 2 then
        assert topics[0] != topics[1];
        assert topics[0] in topics && topics[1] in topics;
        Err(AmbiguousTruthValue)
      else
        assert forall i :: 0 <= i < |df| ==> df[i].topic == topics[0] by {
          forall i | 0 <= i < |df| ensures df[i].topic == topics[0] {
            assert df[i].topic in topics;
          }
        }
        if topics[0] != "" then Ok(FocusedOnWeakAreas) else Ok(GeneralAssessment)
  }

  /** Line 278 as evidently intended: the exam is focused exactly when the
      resolver recommended something, and the banner never fails. */
  function ExamKindIntended(recs: seq<string>): (r: ExamKind)
    ensures r == FocusedOnWeakAreas <==> recs != []
    ensures r == GeneralAssessment <==> recs == []
  {
    if recs != [] then FocusedOnWeakAreas else GeneralAssessment
  }

  /** When something was recommended, the banner as written and as intended agree. */
  lemma ExamKindAgreesWhenRecommended(recs: seq<string>, df: seq<Attempt>)
    requires |df| > 0 && recs != []
    ensures ExamKindAsWritten(recs, df) == Ok(ExamKindIntended(recs))
  {
  }
}
