/** Settlement arithmetic of the match engine: the question -> correct option
    map, the per-player count of correct answer rows, the winner law and the
    statistics increments issued for a settled match. */
module Scoring {
  import opened MatchTypes
  import opened MatchStore

  /** The ids of a batch of question rows. */
  function IdsOf(qs: seq<QuestionRow>): set<QuestionId>
  {
    set q | q in qs :: q.id
  }

  /** `correctOptionMap`: question id -> correct option, filled row by row, so a
      later row with the same id overrides an earlier one. */
  function CorrectOptionMap(qs: seq<QuestionRow>): (key: map<QuestionId, string>)
    ensures key.Keys == IdsOf(qs)
    ensures forall k :: k in key ==> exists q :: q in qs && q.id == k && q.correctOption == key[k]
    decreases |qs|
  {
    if qs == [] then map[]
    else
      var init := qs[..|qs| - 1];
      var last := qs[|qs| - 1];
      assert qs == init + [last];
      CorrectOptionMap(init)[last.id := last.correctOption]
  }

  /** With distinct ids, every question row's own correct option is in the map. */
  lemma {:induction false} CorrectOptionMapOfDistinct(qs: seq<QuestionRow>, i: nat)
    requires DistinctIds(qs) && i < |qs|
    ensures qs[i].id in CorrectOptionMap(qs) && CorrectOptionMap(qs)[qs[i].id] == qs[i].correctOption
    decreases |qs|
  {
    var init := qs[..|qs| - 1];
    if i < |qs| - 1 {
      assert DistinctIds(init);
      CorrectOptionMapOfDistinct(init, i);
      assert qs[|qs| - 1].id != qs[i].id;
    }
  }

  /** The answer names a known question and gives its correct option. */
  predicate Credited(a: AnswerRow, key: map<QuestionId, string>)
  {
    a.questionId in key && a.userAnswer == key[a.questionId]
  }

  /** The number of answer rows by `player` that are credited. */
  function CountCorrect(ans: seq<AnswerRow>, key: map<QuestionId, string>, player: UserId): (n: nat)
    ensures n <= |ans|
    decreases |ans|
  {
    if ans == [] then 0
    else
      var last := ans[|ans| - 1];
      CountCorrect(ans[..|ans| - 1], key, player) + (if last.playerId == player && Credited(last, key) then 1 else 0)
  }

  /** The indices of the answer rows `CountCorrect` counts. */
  ghost function CreditedRows(ans: seq<AnswerRow>, key: map<QuestionId, string>, player: UserId): set<nat>
  {
    set i: nat | i < |ans| && ans[i].playerId == player && Credited(ans[i], key)
  }

  /** A player's score is exactly the number of answer rows by that player whose
      question is known and whose answer is that question's correct option. */
  lemma {:induction false} CountCorrectIsRowCount(ans: seq<AnswerRow>, key: map<QuestionId, string>, player: UserId)
    ensures CountCorrect(ans, key, player) == |CreditedRows(ans, key, player)|
    decreases |ans|
  {
    if ans != [] {
      CountCorrectIsRowCount(ans[..|ans| - 1], key, player);
      CreditedRowsStep(ans, key, player);
    }
  }

  /** The last row is counted exactly when it is credited to `player`. */
  lemma CreditedRowsStep(ans: seq<AnswerRow>, key: map<QuestionId, string>, player: UserId)
    requires ans != []
    ensures var last := ans[|ans| - 1];
      |CreditedRows(ans, key, player)| ==
        |CreditedRows(ans[..|ans| - 1], key, player)| + (if last.playerId == player && Credited(last, key) then 1 else 0)
  {
    var init := ans[..|ans| - 1];
    var last := ans[|ans| - 1];
    var before := CreditedRows(init, key, player);
    var after := CreditedRows(ans, key, player);
    if last.playerId == player && Credited(last, key) {
      assert after == before + {|ans| - 1};
    } else {
      assert after == before;
    }
  }

  /** Counting over two batches of rows adds up. */
  lemma {:induction false} CountCorrectAppend(s: seq<AnswerRow>, t: seq<AnswerRow>, key: map<QuestionId, string>, player: UserId)
    ensures CountCorrect(s + t, key, player) == CountCorrect(s, key, player) + CountCorrect(t, key, player)
    decreases |t|
  {
    if t == [] {
      assert s + t == s;
    } else {
      var init := t[..|t| - 1];
      assert (s + t)[..|s + t| - 1] == s + init;
      CountCorrectAppend(s, init, key, player);
    }
  }

  /** More answer rows never lower a score. */
  lemma CountCorrectMonotone(s: seq<AnswerRow>, t: seq<AnswerRow>, key: map<QuestionId, string>, player: UserId)
    ensures CountCorrect(s, key, player) <= CountCorrect(s + t, key, player)
  {
    CountCorrectAppend(s, t, key, player);
  }

  /** An answer row by someone else, for an unknown question, or with a wrong
      option adds nothing, wherever it stands among the rows. */
  lemma UncreditedRowAddsNothing(s: seq<AnswerRow>, a: AnswerRow, t: seq<AnswerRow>, key: map<QuestionId, string>, player: UserId)
    requires a.playerId != player || !Credited(a, key)
    ensures CountCorrect(s + [a] + t, key, player) == CountCorrect(s + t, key, player)
  {
    CountCorrectAppend(s + [a], t, key, player);
    CountCorrectAppend(s, [a], key, player);
    CountCorrectAppend(s, t, key, player);
    assert [a][..0] == [];
  }

  /** `player`'s own rows of `ans`: `CountCorrect` of one player is not
      affected by removing any other player's rows (non-participants included). */
  function RowsBy(ans: seq<AnswerRow>, player: UserId): (r: seq<AnswerRow>)
    ensures forall a :: a in r <==> a in ans && a.playerId == player
    decreases |ans|
  {
    if ans == [] then []
    else
      var init := ans[..|ans| - 1];
      var last := ans[|ans| - 1];
      assert ans == init + [last];
      RowsBy(init, player) + (if last.playerId == player then [last] else [])
  }

  lemma {:induction false} CountCorrectOnlyOwnRows(ans: seq<AnswerRow>, key: map<QuestionId, string>, player: UserId)
    ensures CountCorrect(RowsBy(ans, player), key, player) == CountCorrect(ans, key, player)
    decreases |ans|
  {
    if ans != [] {
      var init := ans[..|ans| - 1];
      var last := ans[|ans| - 1];
      var tail := if last.playerId == player then [last] else [];
      assert RowsBy(ans, player) == RowsBy(init, player) + tail;
      CountCorrectOnlyOwnRows(init, key, player);
      CountCorrectAppend(RowsBy(init, player), tail, key, player);
      if last.playerId == player {
        assert [last][..0] == [];
      }
    }
  }

  /** The `correctOptionMap` loop. */
  method BuildCorrectOptionMap(qs: seq<QuestionRow>) returns (key: map<QuestionId, string>)
    ensures key == CorrectOptionMap(qs)
  {
    key := map[];
    for i := 0 to |qs|
      invariant key == CorrectOptionMap(qs[..i])
    {
      assert qs[..i + 1][..i] == qs[..i];
      key := key[qs[i].id := qs[i].correctOption];
    }
    assert qs[..|qs|] == qs;
  }

  /** The scoring loop: a credited row is player 1's if it is theirs, else
      player 2's if it is theirs, so player 2 scores nothing when the ids coincide. */
  method TallyScores(ans: seq<AnswerRow>, key: map<QuestionId, string>, p1: UserId, p2: UserId) returns (s1: nat, s2: nat)
    ensures s1 == CountCorrect(ans, key, p1)
    ensures s2 == if p1 == p2 then 0 else CountCorrect(ans, key, p2)
  {
    s1, s2 := 0, 0;
    for i := 0 to |ans|
      invariant s1 == CountCorrect(ans[..i], key, p1)
      invariant s2 == if p1 == p2 then 0 else CountCorrect(ans[..i], key, p2)
    {
      assert ans[..i + 1][..i] == ans[..i];
      var a := ans[i];
      if a.questionId in key && a.userAnswer == key[a.questionId] {
        if a.playerId == p1 {
          s1 := s1 + 1;
        } else if a.playerId == p2 {
          s2 := s2 + 1;
        }
      }
    }
    assert ans[..|ans|] == ans;
  }

  /** The winner law: the strictly higher score wins; equal scores, 0-0
      included, are a draw (`None`). */
  function DecideWinner(p1: UserId, p2: UserId, s1: int, s2: int): (w: Option<UserId>)
    ensures w == None <==> s1 == s2
    ensures s1 > s2 ==> w == Some(p1)
    ensures s2 > s1 ==> w == Some(p2)
  {
    if s1 > s2 then Some(p1)
    else if s2 > s1 then Some(p2)
    else None
  }

  /** Listing the players the other way round names the same winner. */
  lemma DecideWinnerSymmetric(p1: UserId, p2: UserId, s1: int, s2: int)
    ensures DecideWinner(p2, p1, s2, s1) == DecideWinner(p1, p2, s1, s2)
  {
  }

  /** One `increment_player_stats` call. */
  datatype StatsCall = StatsCall(user: UserId, played: nat, wins: nat, losses: nat)

  /** The calls pushed onto `statsUpdates` for a settled match. */
  function StatsCalls(winner: Option<UserId>, p1: UserId, p2: UserId): (r: seq<StatsCall>)
    ensures |r| == 2
    ensures (winner.None? || winner.value == p1 || winner.value == p2) ==> {r[0].user, r[1].user} == {p1, p2}
    ensures forall c :: c in r ==> c.played == 1 && c.wins + c.losses == (if winner.Some? then 1 else 0)
    ensures p1 != p2 ==> forall c :: c in r ==> (c.wins == 1 <==> winner == Some(c.user))
  {
    match winner
    case Some(w) =>
      var loser := if w == p1 then p2 else p1;
      [StatsCall(w, 1, 1, 0), StatsCall(loser, 1, 0, 1)]
    case None =>
      [StatsCall(p1, 1, 0, 0), StatsCall(p2, 1, 0, 0)]
  }

  /** The counters after the given calls have been applied one after another. */
  function ApplyCalls(stats: map<UserId, Stats>, calls: seq<StatsCall>): map<UserId, Stats>
    decreases |calls|
  {
    if calls == [] then stats
    else
      var c := calls[|calls| - 1];
      Incremented(ApplyCalls(stats, calls[..|calls| - 1]), c.user, c.played, c.wins, c.losses)
  }

  /** A settlement issues exactly two calls, one per participant, each adding
      one played match; the participant with the higher score gets the win and
      the other the loss, and a draw adds neither. */
  lemma StatsCallsLaw(p1: UserId, p2: UserId, s1: int, s2: int)
    requires p1 != p2
    ensures var calls := StatsCalls(DecideWinner(p1, p2, s1, s2), p1, p2);
      && |calls| == 2
      && {calls[0].user, calls[1].user} == {p1, p2}
      && (forall c :: c in calls ==> c.played == 1)
      && (forall c :: c in calls && c.user == p1 ==> c.wins == (if s1 > s2 then 1 else 0) && c.losses == (if s1 < s2 then 1 else 0))
      && (forall c :: c in calls && c.user == p2 ==> c.wins == (if s2 > s1 then 1 else 0) && c.losses == (if s2 < s1 then 1 else 0))
  {
  }

  /** The change to a participant's counters when both calls of a settlement succeed. */
  function Outcome(mine: int, theirs: int): Stats
  {
    Stats(1, if mine > theirs then 1 else 0, if mine < theirs then 1 else 0)
  }

  function AddStats(a: Stats, b: Stats): Stats
  {
    Stats(a.matchesPlayed + b.matchesPlayed, a.wins + b.wins, a.losses + b.losses)
  }

  /** Two calls for two different users each move only their own user's counters. */
  lemma ApplyTwoCalls(stats: map<UserId, Stats>, c0: StatsCall, c1: StatsCall)
    requires c0.user != c1.user
    ensures var after := ApplyCalls(stats, [c0, c1]);
      && StatsOf(after, c0.user) == AddStats(StatsOf(stats, c0.user), Stats(c0.played, c0.wins, c0.losses))
      && StatsOf(after, c1.user) == AddStats(StatsOf(stats, c1.user), Stats(c1.played, c1.wins, c1.losses))
      && forall u :: u != c0.user && u != c1.user ==> StatsOf(after, u) == StatsOf(stats, u)
  {
    assert [c0, c1][..1] == [c0];
    assert [c0][..0] == [];
    var mid := Incremented(stats, c0.user, c0.played, c0.wins, c0.losses);
    assert ApplyCalls(stats, [c0]) == mid;
    assert ApplyCalls(stats, [c0, c1]) == Incremented(mid, c1.user, c1.played, c1.wins, c1.losses);
  }

  /** After a fully applied settlement each participant has gained one played
      match and their own win or loss, and nobody else's counters moved. */
  lemma SettlementStats(stats: map<UserId, Stats>, p1: UserId, p2: UserId, s1: int, s2: int)
    requires p1 != p2
    ensures var after := ApplyCalls(stats, StatsCalls(DecideWinner(p1, p2, s1, s2), p1, p2));
      && StatsOf(after, p1) == AddStats(StatsOf(stats, p1), Outcome(s1, s2))
      && StatsOf(after, p2) == AddStats(StatsOf(stats, p2), Outcome(s2, s1))
      && forall u :: u != p1 && u != p2 ==> StatsOf(after, u) == StatsOf(stats, u)
  {
    if s1 > s2 {
      ApplyTwoCalls(stats, StatsCall(p1, 1, 1, 0), StatsCall(p2, 1, 0, 1));
    } else if s2 > s1 {
      ApplyTwoCalls(stats, StatsCall(p2, 1, 1, 0), StatsCall(p1, 1, 0, 1));
    } else {
      ApplyTwoCalls(stats, StatsCall(p1, 1, 0, 0), StatsCall(p2, 1, 0, 0));
    }
  }

  /** Calls for other users leave a user's counters alone. */
  lemma {:induction false} ApplyCallsOtherUser(stats: map<UserId, Stats>, calls: seq<StatsCall>, u: UserId)
    requires forall c :: c in calls ==> c.user != u
    ensures StatsOf(ApplyCalls(stats, calls), u) == StatsOf(stats, u)
    decreases |calls|
  {
    if calls != [] {
      var init := calls[..|calls| - 1];
      assert forall c :: c in init ==> c in calls;
      ApplyCallsOtherUser(stats, init, u);
      assert calls[|calls| - 1] in calls;
    }
  }

  /** With distinct ids the correct-option map depends only on which rows there
      are, not on their order. */
  lemma SameRowsSameKey(qs: seq<QuestionRow>, qs2: seq<QuestionRow>)
    requires DistinctIds(qs) && DistinctIds(qs2)
    requires forall x :: x in qs <==> x in qs2
    ensures CorrectOptionMap(qs) == CorrectOptionMap(qs2)
  {
    assert IdsOf(qs) == IdsOf(qs2);
    forall k | k in CorrectOptionMap(qs) ensures CorrectOptionMap(qs2)[k] == CorrectOptionMap(qs)[k] {
      var q :| q in qs && q.id == k;
      var i :| 0 <= i < |qs| && qs[i] == q;
      var j :| 0 <= j < |qs2| && qs2[j] == q;
      CorrectOptionMapOfDistinct(qs, i);
      CorrectOptionMapOfDistinct(qs2, j);
    }
  }
}
