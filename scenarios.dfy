/** Two complete matches run through the tick engine on concrete rows: a 1-0 win
    and a 3-3 draw, three questions of five seconds each. */
module MatchScenarios {
  import opened MatchTypes
  import opened MatchStore
  import opened Scoring
  import opened MatchEngine

  const NoFaults := Faults({}, {}, {})

  /** Match 0 between "p1" and "p2", started at time 0 on question 0. */
  function Started(): Match
  {
    Match("p1", Some("p2"), Active, "general", 0.0, None, 0, Some(0), 5, 3, 0, Some(0), None)
  }

  /** Its three questions, each with correct option "a". */
  function ThreeQuestions(): seq<QuestionRow>
  {
    [QuestionRow(0, 0, 0, "q0", [], "a"), QuestionRow(1, 0, 1, "q1", [], "a"), QuestionRow(2, 0, 2, "q2", [], "a")]
  }

  lemma ThreeQuestionsRows()
    ensures QuestionsFor(ThreeQuestions(), 0) == ThreeQuestions()
  {
    QuestionsForAllOf(ThreeQuestions(), 0);
  }

  lemma ThreeQuestionsKey()
    ensures CorrectOptionMap(ThreeQuestions()) == Key
  {
    var qs := ThreeQuestions();
    assert qs[..2] == [qs[0], qs[1]] && qs[..2][..1] == [qs[0]] && [qs[0]][..0] == [];
  }

  function OneNilAnswers(): seq<AnswerRow>
  {
    [AnswerRow(0, "p1", 0, "a")]
  }

  function DrawAnswers(): seq<AnswerRow>
  {
    [AnswerRow(0, "p1", 0, "a"), AnswerRow(0, "p2", 0, "a"), AnswerRow(0, "p1", 1, "a"),
     AnswerRow(0, "p2", 1, "a"), AnswerRow(0, "p1", 2, "a"), AnswerRow(0, "p2", 2, "a")]
  }

  /** Started, then moved on three times: the index has reached `total_questions`. */
  function AtTotal(): Match
  {
    Started().(currentQuestionIndex := 3, questionStartTime := Some(15000))
  }

  const Key := map[0 := "a", 1 := "a", 2 := "a"]

  lemma OneNilScores()
    ensures CountCorrect(OneNilAnswers(), Key, "p1") == 1
    ensures CountCorrect(OneNilAnswers(), Key, "p2") == 0
  {
    assert OneNilAnswers()[..0] == [];
  }

  lemma DrawScores(p: UserId)
    requires p == "p1" || p == "p2"
    ensures CountCorrect(DrawAnswers(), Key, p) == 3
  {
    var ans := DrawAnswers();
    assert ans[..1][..0] == [] && ans[..2][..1] == ans[..1] && ans[..3][..2] == ans[..2];
    assert ans[..4][..3] == ans[..3] && ans[..5][..4] == ans[..4] && ans[..6] == ans && ans[..6][..5] == ans[..5];
    assert CountCorrect(ans[..2], Key, p) == 1;
    assert CountCorrect(ans[..4], Key, p) == 2;
  }

  /** With deadlines of five seconds and no failed write, each deadline moves the
      started match on by one question; a tick before a deadline changes nothing. */
  lemma ScenarioTicks(ans: seq<AnswerRow>)
    ensures var qs := ThreeQuestions();
      var m1 := AfterTick(0, Started(), qs, ans, 5000, NoFaults);
      var m2 := AfterTick(0, m1, qs, ans, 10000, NoFaults);
      && AfterTick(0, Started(), qs, ans, 4999, NoFaults) == Started()
      && m1 == Started().(currentQuestionIndex := 1, questionStartTime := Some(5000))
      && m2 == Started().(currentQuestionIndex := 2, questionStartTime := Some(10000))
      && AfterTick(0, m2, qs, ans, 15000, NoFaults) == AtTotal()
  {
  }

  /** The plan for an active match between two named players, from the scores
      over its rows. */
  lemma PlanFromScores(m: Match, qs: seq<QuestionRow>, ans: seq<AnswerRow>, key: map<QuestionId, string>, s1: nat, s2: nat)
    requires m.status == Active && HasBothPlayers(m) && m.player1Id != m.player2Id.value
    requires QuestionsFor(qs, 0) == qs && AnswersFor(ans, 0) == ans && CorrectOptionMap(qs) == key
    requires CountCorrect(ans, key, m.player1Id) == s1 && CountCorrect(ans, key, m.player2Id.value) == s2
    ensures FinishPlanOf(0, m, qs, ans) == Settle(m.player1Id, m.player2Id.value, s1, s2, DecideWinner(m.player1Id, m.player2Id.value, s1, s2))
  {
  }

  lemma OneNilPlan()
    ensures FinishPlanOf(0, AtTotal(), ThreeQuestions(), OneNilAnswers()) == Settle("p1", "p2", 1, 0, Some("p1"))
  {
    ThreeQuestionsRows();
    ThreeQuestionsKey();
    AnswersForAllOf(OneNilAnswers(), 0);
    OneNilScores();
    PlanFromScores(AtTotal(), ThreeQuestions(), OneNilAnswers(), Key, 1, 0);
  }

  lemma DrawPlan()
    ensures FinishPlanOf(0, AtTotal(), ThreeQuestions(), DrawAnswers()) == Settle("p1", "p2", 3, 3, None)
  {
    ThreeQuestionsRows();
    ThreeQuestionsKey();
    AnswersForAllOf(DrawAnswers(), 0);
    DrawScores("p1");
    DrawScores("p2");
    PlanFromScores(AtTotal(), ThreeQuestions(), DrawAnswers(), Key, 3, 3);
  }

  /** Player 1 answers the first question correctly and player 2 never answers:
      after the three question deadlines (the index reaching 3), the next
      deadline settles the match 1-0 for player 1, which adds 1 played / 1 win to
      player 1's counters and 1 played / 1 loss to player 2's. */
  lemma ScenarioOneNil(stats: map<UserId, Stats>)
    ensures var qs := ThreeQuestions();
      var after := StatsAfterFinish(stats, 0, AtTotal(), qs, OneNilAnswers(), NoFaults);
      && FinishPlanOf(0, AtTotal(), qs, OneNilAnswers()) == Settle("p1", "p2", 1, 0, Some("p1"))
      && AfterTick(0, AtTotal(), qs, OneNilAnswers(), 20000, NoFaults)
         == AtTotal().(status := Finished, winnerId := Some("p1"), finishedAt := Some(20000))
      && StatsOf(after, "p1") == AddStats(StatsOf(stats, "p1"), Stats(1, 1, 0))
      && StatsOf(after, "p2") == AddStats(StatsOf(stats, "p2"), Stats(1, 0, 1))
  {
    OneNilPlan();
    assert Due(AtTotal(), 20000) && !Advances(AtTotal());
    SettlementStatsOfMatch(stats, 0, AtTotal(), ThreeQuestions(), OneNilAnswers(), NoFaults);
  }

  /** Both players answer all three questions correctly: 3-3, no winner, and each
      player's counters gain one match played and nothing else. */
  lemma ScenarioDraw(stats: map<UserId, Stats>)
    ensures var qs := ThreeQuestions();
      var after := StatsAfterFinish(stats, 0, AtTotal(), qs, DrawAnswers(), NoFaults);
      && FinishPlanOf(0, AtTotal(), qs, DrawAnswers()) == Settle("p1", "p2", 3, 3, None)
      && AfterTick(0, AtTotal(), qs, DrawAnswers(), 20000, NoFaults) == AtTotal().(status := Finished, finishedAt := Some(20000))
      && StatsOf(after, "p1") == AddStats(StatsOf(stats, "p1"), Stats(1, 0, 0))
      && StatsOf(after, "p2") == AddStats(StatsOf(stats, "p2"), Stats(1, 0, 0))
  {
    DrawPlan();
    assert Due(AtTotal(), 20000) && !Advances(AtTotal());
    SettlementStatsOfMatch(stats, 0, AtTotal(), ThreeQuestions(), DrawAnswers(), NoFaults);
  }
}
