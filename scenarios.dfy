/** Concrete tables that exercise the model: a
    student weak in Algebra, an unknown identifier, and the inputs on which
    lines 278 and 280 of app.py fail. */
module Scenarios {
  import opened Table
  import opened LoginGate
  import opened Recommend
  import opened ExamSelect

  function Row(sid: string, topic: string, isCorrect: int): Attempt
  {
    Attempt(sid, "Q_" + topic, topic, "Easy", "MCQ", "x", "x", isCorrect, isCorrect, 30)
  }

  /** S12 answered both Algebra questions wrongly and both Geometry questions
      correctly; S7 answered one Geometry question correctly. */
  function SampleTable(): seq<Attempt>
  {
    [Row("S12", "Algebra", 0), Row("S12", "Algebra", 0),
     Row("S12", "Geometry", 1), Row("S12", "Geometry", 1),
     Row("S7", "Geometry", 1)]
  }

  function SampleRules(): seq<Rule>
  {
    [Rule("frozenset({'Topic_Algebra'})")]
  }

  lemma AlgebraHasRule()
    ensures HasRuleFor("Algebra", SampleRules())
  {
    ContainsInfix("frozenset({'", TopicToken("Algebra"), "'})");
    assert SampleRules()[0].antecedents == "frozenset({'" + TopicToken("Algebra") + "'})";
  }

  /** The resolver recommends exactly Algebra to S12. */
  lemma S12IsRecommendedAlgebra(t: string)
    ensures ((exists i :: IsWrongAnswer("S12", SampleTable(), i) && SampleTable()[i].topic == t)
             && HasRuleFor(t, SampleRules())) <==> t == "Algebra"
  {
    var df := SampleTable();
    if t == "Algebra" {
      assert IsWrongAnswer("S12", df, 0) && df[0].topic == t;
      AlgebraHasRule();
    }
  }

  /** S7 never answered wrongly, so the resolver recommends nothing. */
  lemma S7HasNoWeakTopic(t: string)
    ensures !exists i :: IsWrongAnswer("S7", SampleTable(), i) && SampleTable()[i].topic == t
  {
  }

  /** An identifier absent from the table is rejected. */
  lemma UnknownStudentRejected()
    ensures Login("S999", SampleTable()) == InvalidId
  {
    var df := SampleTable();
    assert forall i :: 0 <= i < |df| ==> df[i].studentId == "S12" || df[i].studentId == "S7";
    assert "S999" != "S12" && "S999" != "S7";
  }

  /** An empty identifier stops the page before any lookup. */
  lemma EmptyIdentifierStops()
    ensures Login("", SampleTable()) == MissingId
  {
  }

  /** An identifier present in the table logs in. */
  lemma KnownStudentLogsIn()
    ensures Login("S12", SampleTable()) == LoggedIn("S12")
  {
    assert SampleTable()[0].studentId == "S12";
  }

  /** Matching is by substring, so a rule about "MathAdvanced" also counts as
      a rule about "Math". */
  lemma SubstringMatchesLongerTopic()
    ensures HasRuleFor("Math", [Rule("frozenset({'" + TopicToken("Math") + "Advanced'})")])
  {
    var rules := [Rule("frozenset({'" + TopicToken("Math") + "Advanced'})")];
    ContainsInfix("frozenset({'", TopicToken("Math"), "Advanced'})");
    assert Contains(rules[0].antecedents, TopicToken("Math"));
  }

  /** Line 278 as written: S7 has no recommendation, the fallback yields the
      two topics Algebra and Geometry, and testing that array for truth raises. */
  lemma FallbackBannerRaises()
    ensures ExamKindAsWritten([], SampleTable()) == Err(AmbiguousTruthValue)
    ensures ExamKindIntended([]) == GeneralAssessment
  {
    var df := SampleTable();
    assert df[0].topic != df[2].topic;
  }

  /** Line 280 as written: S12's exam is restricted to the two Algebra rows
      but asks for min(5, 5) = 5 of them, so the draw fails; clamping by the
      candidate rows yields a two-question exam. */
  lemma FocusedDrawRaises(choices: seq<nat>)
    ensures SelectExam(["Algebra"], SampleTable(), choices) == Err(SampleLargerThanPool)
    ensures |SelectExamClamped(["Algebra"], SampleTable(), choices)| == 2
  {
    var df := SampleTable();
    var pool := Pool(["Algebra"], df);
    SelectionFitsPool([0, 1], pool);
    SelectionFitsPool(pool, [0, 1]);
  }
}
