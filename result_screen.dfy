/** The result screen's own recount of a finished match: one breakdown entry per
    question, judged by the player's FIRST answer to it, the two scores, and the
    winner / draw flags read from the match row. */
module ResultScreen {
  import opened MatchTypes
  import opened MatchStore
  import opened QuestionRows
  import opened Scoring
  import opened MatchEngine

  /** `{ text, correct }`; `correct` is `None` for an unanswered question. */
  datatype BreakdownEntry = BreakdownEntry(text: string, correct: Option<bool>)

  predicate AnswersTo(a: AnswerRow, qid: QuestionId, pid: Option<UserId>)
  {
    a.questionId == qid && Some(a.playerId) == pid
  }

  /** `answers.find(a => a.question_id === qid && a.player_id === pid)`. */
  function FindAnswer(answers: seq<AnswerRow>, qid: QuestionId, pid: Option<UserId>): (r: Option<AnswerRow>)
    ensures r.Some? ==> r.value in answers && AnswersTo(r.value, qid, pid)
    ensures r.None? <==> forall a :: a in answers ==> !AnswersTo(a, qid, pid)
    decreases |answers|
  {
    if answers == [] then None
    else if AnswersTo(answers[0], qid, pid) then Some(answers[0])
    else FindAnswer(answers[1..], qid, pid)
  }

  /** `find` returns the first matching row. */
  lemma {:induction false} FindAnswerIsFirst(answers: seq<AnswerRow>, qid: QuestionId, pid: Option<UserId>, k: nat)
    requires k < |answers| && AnswersTo(answers[k], qid, pid)
    requires forall j :: 0 <= j < k ==> !AnswersTo(answers[j], qid, pid)
    ensures FindAnswer(answers, qid, pid) == Some(answers[k])
    decreases k
  {
    if k > 0 {
      FindAnswerIsFirst(answers[1..], qid, pid, k - 1);
    }
  }

  /** A row appended after the existing ones is found only if none was before. */
  lemma {:induction false} FindAnswerAppend(answers: seq<AnswerRow>, a: AnswerRow, qid: QuestionId, pid: Option<UserId>)
    ensures FindAnswer(answers + [a], qid, pid) ==
      if FindAnswer(answers, qid, pid).Some? then FindAnswer(answers, qid, pid)
      else if AnswersTo(a, qid, pid) then Some(a)
      else None
    decreases |answers|
  {
    if answers != [] {
      assert (answers + [a])[1..] == answers[1..] + [a];
      FindAnswerAppend(answers[1..], a, qid, pid);
    }
  }

  /** `isCorrect` of a question: `None` without an answer, else whether the first
      answer's `user_answer` equals `String(correct_option)`. */
  function Judge(q: QuestionRow, answers: seq<AnswerRow>, pid: Option<UserId>): Option<bool>
  {
    match FindAnswer(answers, q.id, pid)
    case None => None
    case Some(a) => Some(a.userAnswer == q.correctOption)
  }

  /** The entry of a question with no answer by the player is `None`; otherwise it
      tells whether the player's first answer to it is correct. */
  lemma JudgeLaw(q: QuestionRow, answers: seq<AnswerRow>, pid: Option<UserId>, k: nat)
    requires k < |answers| && AnswersTo(answers[k], q.id, pid)
    requires forall j :: 0 <= j < k ==> !AnswersTo(answers[j], q.id, pid)
    ensures Judge(q, answers, pid) == Some(answers[k].userAnswer == q.correctOption)
  {
    FindAnswerIsFirst(answers, q.id, pid, k);
  }

  lemma JudgeNoneIffUnanswered(q: QuestionRow, answers: seq<AnswerRow>, pid: Option<UserId>)
    ensures Judge(q, answers, pid).None? <==> forall j :: 0 <= j < |answers| ==> !AnswersTo(answers[j], q.id, pid)
  {
    if Judge(q, answers, pid).Some? {
      var a := FindAnswer(answers, q.id, pid).value;
      var j :| 0 <= j < |answers| && answers[j] == a;
    }
  }

  /** The breakdown `bk`, one entry per question, in the order of `qs`. */
  function Breakdown(qs: seq<QuestionRow>, answers: seq<AnswerRow>, me: UserId): (bk: seq<BreakdownEntry>)
    decreases |qs|
  {
    if qs == [] then []
    else
      var q := qs[|qs| - 1];
      Breakdown(qs[..|qs| - 1], answers, me) + [BreakdownEntry(q.questionText, Judge(q, answers, Some(me)))]
  }

  /** The breakdown has exactly one entry per question, in question order, with
      that question's text and verdict. */
  lemma {:induction false} BreakdownShape(qs: seq<QuestionRow>, answers: seq<AnswerRow>, me: UserId)
    ensures |Breakdown(qs, answers, me)| == |qs|
    ensures forall i :: 0 <= i < |qs| ==>
      Breakdown(qs, answers, me)[i] == BreakdownEntry(qs[i].questionText, Judge(qs[i], answers, Some(me)))
    decreases |qs|
  {
    if qs != [] {
      BreakdownShape(qs[..|qs| - 1], answers, me);
    }
  }

  /** The number of questions whose verdict for `pid` is `true`. */
  function ClientScore(qs: seq<QuestionRow>, answers: seq<AnswerRow>, pid: Option<UserId>): (n: nat)
    ensures n <= |qs|
    decreases |qs|
  {
    if qs == [] then 0
    else
      ClientScore(qs[..|qs| - 1], answers, pid) + (if Judge(qs[|qs| - 1], answers, pid) == Some(true) then 1 else 0)
  }

  /** The entries of a breakdown marked correct. */
  function CountCorrectEntries(bk: seq<BreakdownEntry>): nat
    decreases |bk|
  {
    if bk == [] then 0
    else CountCorrectEntries(bk[..|bk| - 1]) + (if bk[|bk| - 1].correct == Some(true) then 1 else 0)
  }

  /** `myScore` is the number of breakdown entries marked correct. */
  lemma {:induction false} ScoreCountsCorrectEntries(qs: seq<QuestionRow>, answers: seq<AnswerRow>, me: UserId)
    ensures ClientScore(qs, answers, Some(me)) == CountCorrectEntries(Breakdown(qs, answers, me))
    decreases |qs|
  {
    if qs != [] {
      var bk := Breakdown(qs, answers, me);
      assert bk[..|bk| - 1] == Breakdown(qs[..|qs| - 1], answers, me);
      ScoreCountsCorrectEntries(qs[..|qs| - 1], answers, me);
    }
  }

  /** `oppId`: the other participant when the viewer is player 1, else player 1. */
  function Opponent(m: Match, myId: UserId): Option<UserId>
  {
    if m.player1Id == myId then m.player2Id else Some(m.player1Id)
  }

  lemma OpponentIsOtherParticipant(m: Match, myId: UserId)
    requires Joined(m) && IsParticipant(m, myId)
    ensures Opponent(m, myId).Some? && IsParticipant(m, Opponent(m, myId).value) && Opponent(m, myId).value != myId
  {
  }

  /** The scoring loop of the result screen's `load`. */
  method LoadScores(questions: seq<QuestionRow>, answers: seq<AnswerRow>, myId: UserId, m: Match)
    returns (me: nat, opp: nat, bk: seq<BreakdownEntry>)
    ensures bk == Breakdown(questions, answers, myId)
    ensures me == ClientScore(questions, answers, Some(myId))
    ensures opp == ClientScore(questions, answers, Opponent(m, myId))
  {
    var oppId := Opponent(m, myId);
    me, opp, bk := 0, 0, [];
    for i := 0 to |questions|
      invariant bk == Breakdown(questions[..i], answers, myId)
      invariant me == ClientScore(questions[..i], answers, Some(myId))
      invariant opp == ClientScore(questions[..i], answers, oppId)
    {
      assert questions[..i + 1][..i] == questions[..i];
      var q := questions[i];
      var myAns := FindAnswer(answers, q.id, Some(myId));
      var isCorrect := if myAns.Some? then Some(myAns.value.userAnswer == q.correctOption) else None;
      if isCorrect == Some(true) {
        me := me + 1;
      }
      var oppAns := FindAnswer(answers, q.id, oppId);
      if oppAns.Some? && oppAns.value.userAnswer == q.correctOption {
        opp := opp + 1;
      }
      bk := bk + [BreakdownEntry(q.questionText, isCorrect)];
    }
    assert questions[..|questions|] == questions;
  }

  /** A second answer by a player to a question they already answered never
      changes any score the screen shows. */
  lemma {:induction false} DuplicateAnswerIgnored(qs: seq<QuestionRow>, answers: seq<AnswerRow>, a: AnswerRow, pid: Option<UserId>)
    requires FindAnswer(answers, a.questionId, Some(a.playerId)).Some?
    ensures ClientScore(qs, answers + [a], pid) == ClientScore(qs, answers, pid)
    decreases |qs|
  {
    if qs != [] {
      var q := qs[|qs| - 1];
      FindAnswerAppend(answers, a, q.id, pid);
      DuplicateAnswerIgnored(qs[..|qs| - 1], answers, a, pid);
    }
  }

  /** `isWinner`: the match row names the viewer as winner. */
  function IsWinner(matchData: Option<Match>, myId: UserId): bool
  {
    matchData.Some? && matchData.value.winnerId == Some(myId)
  }

  /** `isDraw`: the match row has no winner. */
  function IsDraw(matchData: Option<Match>): bool
  {
    matchData.Some? && matchData.value.winnerId.None?
  }

  lemma WinnerAndDrawExclusive(matchData: Option<Match>, myId: UserId)
    ensures !(IsWinner(matchData, myId) && IsDraw(matchData))
  {
  }

  /** At most one answer per player and question. */
  predicate OneAnswerPerQuestion(answers: seq<AnswerRow>)
  {
    forall i, j :: 0 <= i < j < |answers| ==>
      !(answers[i].playerId == answers[j].playerId && answers[i].questionId == answers[j].questionId)
  }

  /** The questions among `qs` that answer `a` answers correctly. */
  function CorrectlyAnswered(qs: seq<QuestionRow>, a: AnswerRow): nat
    decreases |qs|
  {
    if qs == [] then 0
    else
      var q := qs[|qs| - 1];
      CorrectlyAnswered(qs[..|qs| - 1], a) + (if q.id == a.questionId && a.userAnswer == q.correctOption then 1 else 0)
  }

  lemma {:induction false} CorrectlyAnsweredIsCredit(qs: seq<QuestionRow>, a: AnswerRow)
    requires DistinctIds(qs)
    ensures CorrectlyAnswered(qs, a) == if Credited(a, CorrectOptionMap(qs)) then 1 else 0
    decreases |qs|
  {
    if qs != [] {
      var init := qs[..|qs| - 1];
      var q := qs[|qs| - 1];
      assert DistinctIds(init);
      CorrectlyAnsweredIsCredit(init, a);
      if q.id == a.questionId {
        assert a.questionId !in CorrectOptionMap(init);
      }
    }
  }

  /** A player's first answer to a question, appended, adds one to their screen
      score per question it answers correctly. */
  lemma {:induction false} FirstAnswerStep(qs: seq<QuestionRow>, answers: seq<AnswerRow>, a: AnswerRow)
    requires FindAnswer(answers, a.questionId, Some(a.playerId)).None?
    ensures ClientScore(qs, answers + [a], Some(a.playerId)) == ClientScore(qs, answers, Some(a.playerId)) + CorrectlyAnswered(qs, a)
    decreases |qs|
  {
    if qs != [] {
      var q := qs[|qs| - 1];
      FindAnswerAppend(answers, a, q.id, Some(a.playerId));
      FirstAnswerStep(qs[..|qs| - 1], answers, a);
    }
  }

  /** Another player's answer leaves a player's screen score alone. */
  lemma {:induction false} OtherPlayersAnswerIgnored(qs: seq<QuestionRow>, answers: seq<AnswerRow>, a: AnswerRow, p: UserId)
    requires a.playerId != p
    ensures ClientScore(qs, answers + [a], Some(p)) == ClientScore(qs, answers, Some(p))
    decreases |qs|
  {
    if qs != [] {
      var q := qs[|qs| - 1];
      FindAnswerAppend(answers, a, q.id, Some(p));
      OtherPlayersAnswerIgnored(qs[..|qs| - 1], answers, a, p);
    }
  }

  /** With distinct question ids and at most one answer per player and
      question, the screen's first-answer score equals the engine's count of
      correct answer rows. */
  lemma {:induction false} ScreenAgreesWithEngine(qs: seq<QuestionRow>, answers: seq<AnswerRow>, p: UserId)
    requires DistinctIds(qs) && OneAnswerPerQuestion(answers)
    ensures ClientScore(qs, answers, Some(p)) == CountCorrect(answers, CorrectOptionMap(qs), p)
    decreases |answers|
  {
    if answers == [] {
      ClientScoreOfNoAnswers(qs, Some(p));
    } else {
      var init := answers[..|answers| - 1];
      var a := answers[|answers| - 1];
      assert answers == init + [a];
      assert OneAnswerPerQuestion(init);
      ScreenAgreesWithEngine(qs, init, p);
      if a.playerId == p {
        assert FindAnswer(init, a.questionId, Some(p)).None? by {
          forall x | x in init ensures !AnswersTo(x, a.questionId, Some(p)) {
            var k :| 0 <= k < |init| && init[k] == x;
            assert !(answers[k].playerId == answers[|answers| - 1].playerId && answers[k].questionId == answers[|answers| - 1].questionId);
          }
        }
        FirstAnswerStep(qs, init, a);
        CorrectlyAnsweredIsCredit(qs, a);
      } else {
        OtherPlayersAnswerIgnored(qs, init, a, p);
      }
    }
  }

  lemma {:induction false} ClientScoreOfNoAnswers(qs: seq<QuestionRow>, pid: Option<UserId>)
    ensures ClientScore(qs, [], pid) == 0
    decreases |qs|
  {
    if qs != [] {
      ClientScoreOfNoAnswers(qs[..|qs| - 1], pid);
    }
  }

  /** Duplicates make the two counts differ: two correct answers by one player to
      the one question score 2 in the engine and 1 on the screen, and a wrong
      first answer followed by a correct one scores 1 in the engine and 0 on the
      screen. */
  lemma DuplicatesSplitTheCounts()
    ensures var qs := [QuestionRow(0, 0, 0, "q", [], "1")];
      var twice := [AnswerRow(0, "p", 0, "1"), AnswerRow(0, "p", 0, "1")];
      var corrected := [AnswerRow(0, "p", 0, "2"), AnswerRow(0, "p", 0, "1")];
      && CountCorrect(twice, CorrectOptionMap(qs), "p") == 2 && ClientScore(qs, twice, Some("p")) == 1
      && CountCorrect(corrected, CorrectOptionMap(qs), "p") == 1 && ClientScore(qs, corrected, Some("p")) == 0
  {
    var qs := [QuestionRow(0, 0, 0, "q", [], "1")];
    var twice := [AnswerRow(0, "p", 0, "1"), AnswerRow(0, "p", 0, "1")];
    var corrected := [AnswerRow(0, "p", 0, "2"), AnswerRow(0, "p", 0, "1")];
    var key := CorrectOptionMap(qs);
    assert qs[..0] == [];
    assert key == map[0 := "1"];
    assert twice[..1] == [twice[0]] && [twice[0]][..0] == [];
    assert corrected[..1] == [corrected[0]] && [corrected[0]][..0] == [];
    assert "2" != "1";
    assert FindAnswer(twice, 0, Some("p")) == Some(twice[0]);
    assert FindAnswer(corrected, 0, Some("p")) == Some(corrected[0]);
  }

  /** Once the engine settles a match whose question ids are distinct and whose
      players answered each question at most once, the result screen of either
      participant, recounting over the rows in index order, shows "won" exactly
      when its own score is higher and "draw" exactly when the scores are equal. */
  lemma ScreenShowsSettledResult(id: MatchId, m: Match, qs: seq<QuestionRow>, ans: seq<AnswerRow>, now: int, faults: Faults, viewer: UserId)
    requires Settles(id, m, qs, ans, faults) && Joined(m) && IsParticipant(m, viewer)
    requires DistinctIds(QuestionsFor(qs, id)) && OneAnswerPerQuestion(AnswersFor(ans, id))
    ensures var r := MatchAfterFinish(id, m, qs, ans, now, faults);
      var rows := SortByIndex(QuestionsFor(qs, id));
      var mine := ClientScore(rows, AnswersFor(ans, id), Some(viewer));
      var theirs := ClientScore(rows, AnswersFor(ans, id), Opponent(r, viewer));
      && (IsWinner(Some(r), viewer) <==> mine > theirs)
      && (IsDraw(Some(r)) <==> mine == theirs)
  {
    var rows := QuestionsFor(qs, id);
    var sorted := SortByIndex(rows);
    var own := AnswersFor(ans, id);
    SortKeepsDistinct(rows);
    forall x ensures x in rows <==> x in sorted {
      assert x in rows <==> x in multiset(rows);
    }
    SameRowsSameKey(rows, sorted);
    ScreenAgreesWithEngine(sorted, own, m.player1Id);
    ScreenAgreesWithEngine(sorted, own, m.player2Id.value);
    SettlementWinner(id, m, qs, ans, now, faults);
  }
}
