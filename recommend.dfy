/** The recommendation resolver `get_recommendations` (app.py:140-152): the
    topics a student answered wrongly at least once that some association
    rule names in its antecedents. */
module Recommend {
  import opened Table

  /** Row `i` is a wrong answer (`is_correct == 0`) by student `sid`. */
  predicate IsWrongAnswer(sid: string, df: seq<Attempt>, i: int)
  {
    0 <= i < |df| && df[i].studentId == sid && df[i].isCorrect == 0
  }

  /** The `topic` column of the student's wrong answers, in table order. */
  function WrongAnswerTopics(sid: string, df: seq<Attempt>): (r: seq<string>)
    ensures forall t :: t in r <==> exists i :: IsWrongAnswer(sid, df, i) && df[i].topic == t
  {
    if df == [] then []
    else
      var n := |df| - 1;
      var prefix := WrongAnswerTopics(sid, df[..n]);
      assert forall i :: IsWrongAnswer(sid, df[..n], i) <==> IsWrongAnswer(sid, df, i) && i < n;
      prefix + (if IsWrongAnswer(sid, df, n) then [df[n].topic] else [])
  }

  /** `weak_topics`: the distinct topics the student answered wrongly at least
      once (lines 141-144). */
  function WeakTopics(sid: string, df: seq<Attempt>): (r: seq<string>)
    ensures NoDuplicates(r)
    ensures forall t :: t in r <==> exists i :: IsWrongAnswer(sid, df, i) && df[i].topic == t
  {
    Unique(WrongAnswerTopics(sid, df))
  }

  /** The pattern looked up in the `antecedents` column for a topic. */
  function TopicToken(topic: string): string
  {
    "Topic_" + topic
  }

  /** Some rule's antecedents contain `"Topic_" + topic` (line 148). */
  predicate HasRuleFor(topic: string, rules: seq<Rule>)
  {
    exists j :: 0 <= j < |rules| && Contains(rules[j].antecedents, TopicToken(topic))
  }

  /** `list(recommendations)`: the elements of a set as a list, in no particular order. */
  method ListFromSet(s: set<string>) returns (r: seq<string>)
    ensures NoDuplicates(r)
    ensures forall x :: x in r <==> x in s
    ensures |r| == |s|
  {
    r := [];
    var rest := s;
    while rest != {}
      invariant NoDuplicates(r)
      invariant rest <= s
      invariant forall x :: x in r <==> x in s && x !in rest
      invariant |r| + |rest| == |s|
      decreases |rest|
    {
      var x :| x in rest;
      r := r + [x];
      rest := rest - {x};
    }
  }

  method GetRecommendations(sid: string, df: seq<Attempt>, rules: seq<Rule>) returns (recs: seq<string>)
    ensures NoDuplicates(recs)
    ensures forall t :: t in recs <==>
      (exists i :: IsWrongAnswer(sid, df, i) && df[i].topic == t) && HasRuleFor(t, rules)
  {
    var weakTopics := WeakTopics(sid, df);
    var recommendations: set<string> := {};
    for k := 0 to |weakTopics|
      invariant forall t :: t in recommendations <==> t in weakTopics[..k] && HasRuleFor(t, rules)
    {
      var topic := weakTopics[k];
      var pattern := TopicToken(topic);
      for j := 0 to |rules|
        invariant forall t :: t in recommendations <==>
          (t in weakTopics[..k] && HasRuleFor(t, rules)) ||
          (t == topic && exists j' :: 0 <= j' < j && Contains(rules[j'].antecedents, pattern))
      {
        if Contains(rules[j].antecedents, pattern) {
          recommendations := recommendations + {topic};
        }
      }
      assert weakTopics[..k + 1] == weakTopics[..k] + [topic];
    }
    assert weakTopics[..|weakTopics|] == weakTopics;
    recs := ListFromSet(recommendations);
  }
}
