/** The tick-driven match engine: settlement of a match (`finishMatch`), the
    per-match step (`advanceMatch`), one scan over all active matches
    (`processActiveMatches`) and the idempotent start guard (`startGameEngine`).
    Every write of the engine is conditional on the match still being active. */
module MatchEngine {
  import opened MatchTypes
  import opened MatchStore
  import opened Scoring

  /** Why `finishMatch` returned before writing anything. */
  datatype SkipReason = NotFound | AlreadyFinished | NotActive | MissingPlayers

  /** What `finishMatch` decided from what it read: skip, or settle with these
      players, scores and winner. */
  datatype FinishPlan =
    | Skip(reason: SkipReason)
    | Settle(player1: UserId, player2: UserId, score1: nat, score2: nat, winner: Option<UserId>)

  datatype FinishOutcome = Skipped(reason: SkipReason) | WriteFailed | RaceLost | Settled(winner: Option<UserId>)

  /** Store errors during a tick: failed advance writes, failed terminal writes
      and failed statistics calls (match, user).  The engine ignores the first,
      returns on the second and only logs the third. */
  datatype Faults = Faults(advanceWrite: set<MatchId>, finishWrite: set<MatchId>, statsCall: set<(MatchId, UserId)>)

  /** One tick of a run: its clock, the answer table as it stands then (answers
      keep arriving between ticks), and which of its writes fail. */
  datatype TickInput = TickInput(now: int, answers: seq<AnswerRow>, faults: Faults)

  /** `!match.player1_id || !match.player2_id` is false: both ids present and non-empty. */
  predicate HasBothPlayers(m: Match)
  {
    m.player1Id != "" && m.player2Id.Some? && m.player2Id.value != ""
  }

  /** The decision `finishMatch` takes for match `m`, given that match's question
      and answer rows. */
  function PlanFinish(m: Match, qs: seq<QuestionRow>, ans: seq<AnswerRow>): (plan: FinishPlan)
    ensures plan.Skip? <==> m.status != Active || !HasBothPlayers(m)
    ensures plan.Skip? && m.status == Finished ==> plan.reason == AlreadyFinished
    ensures plan.Settle? ==> plan.player1 == m.player1Id && m.player2Id == Some(plan.player2)
    ensures plan.Settle? ==> (plan.winner == None <==> plan.score1 == plan.score2)
    ensures plan.Settle? && plan.winner.Some? ==> IsParticipant(m, plan.winner.value)
  {
    if m.status == Finished then Skip(AlreadyFinished)
    else if m.status != Active then Skip(NotActive)
    else if !HasBothPlayers(m) then Skip(MissingPlayers)
    else
      var p1, p2 := m.player1Id, m.player2Id.value;
      var key := CorrectOptionMap(qs);
      var s1 := CountCorrect(ans, key, p1);
      var s2 := if p1 == p2 then 0 else CountCorrect(ans, key, p2);
      Settle(p1, p2, s1, s2, DecideWinner(p1, p2, s1, s2))
  }

  /** A settlement plan belongs to the match it is committed to. */
  predicate PlanFits(plan: FinishPlan, m: Match)
  {
    plan.Settle? ==>
      && plan.player1 == m.player1Id && m.player2Id == Some(plan.player2)
      && (plan.winner.Some? ==> IsParticipant(m, plan.winner.value))
  }

  /** The terminal write: `status = 'finished', winner_id, finished_at = now`. */
  function Finalize(m: Match, winner: Option<UserId>, now: int): Match
  {
    m.(status := Finished, winnerId := winner, finishedAt := Some(now))
  }

  /** The statistics calls of a settlement that do not fail. */
  function Surviving(calls: seq<StatsCall>, id: MatchId, faults: Faults): (r: seq<StatsCall>)
    ensures forall c :: c in r ==> c in calls
    decreases |calls|
  {
    if calls == [] then []
    else
      var c := calls[|calls| - 1];
      Surviving(calls[..|calls| - 1], id, faults) + (if (id, c.user) in faults.statsCall then [] else [c])
  }

  /** A call is applied exactly when it was issued and does not fail. */
  lemma {:induction false} SurvivingMembers(calls: seq<StatsCall>, id: MatchId, faults: Faults)
    ensures forall c :: c in Surviving(calls, id, faults) <==> c in calls && (id, c.user) !in faults.statsCall
    decreases |calls|
  {
    if calls != [] {
      var init := calls[..|calls| - 1];
      SurvivingMembers(init, id, faults);
      assert calls == init + [calls[|calls| - 1]];
    }
  }

  /** The counters after a settlement's surviving calls. */
  function SettledStats(stats: map<UserId, Stats>, id: MatchId, plan: FinishPlan, faults: Faults): map<UserId, Stats>
    requires plan.Settle?
  {
    ApplyCalls(stats, Surviving(StatsCalls(plan.winner, plan.player1, plan.player2), id, faults))
  }

  /** `finishMatch` of match `id` against the whole question and answer tables. */
  function FinishPlanOf(id: MatchId, m: Match, qs: seq<QuestionRow>, ans: seq<AnswerRow>): FinishPlan
  {
    PlanFinish(m, QuestionsFor(qs, id), AnswersFor(ans, id))
  }

  /** `finishMatch` of an existing match reaches and wins its terminal write. */
  predicate Settles(id: MatchId, m: Match, qs: seq<QuestionRow>, ans: seq<AnswerRow>, faults: Faults)
  {
    FinishPlanOf(id, m, qs, ans).Settle? && id !in faults.finishWrite
  }

  function MatchAfterFinish(id: MatchId, m: Match, qs: seq<QuestionRow>, ans: seq<AnswerRow>, now: int, faults: Faults): Match
  {
    if Settles(id, m, qs, ans, faults) then Finalize(m, FinishPlanOf(id, m, qs, ans).winner, now) else m
  }

  function StatsAfterFinish(stats: map<UserId, Stats>, id: MatchId, m: Match, qs: seq<QuestionRow>, ans: seq<AnswerRow>, faults: Faults): map<UserId, Stats>
  {
    if Settles(id, m, qs, ans, faults) then SettledStats(stats, id, FinishPlanOf(id, m, qs, ans), faults) else stats
  }

  /** The question deadline has passed: active, a live question, and at least
      `question_duration_seconds` elapsed (all times in milliseconds). */
  function Due(m: Match, now: int): (r: bool)
    ensures r <==> m.status == Active && m.questionStartTime.Some?
                   && (now - m.questionStartTime.value) as real / 1000.0 >= m.questionDurationSeconds as real
  {
    m.status == Active && m.questionStartTime.Some?
    && now - m.questionStartTime.value >= m.questionDurationSeconds * 1000
  }

  /** The advance write: the next index and a fresh question start, nothing else. */
  function Advanced(m: Match, index: int, now: int): Match
  {
    m.(currentQuestionIndex := index, questionStartTime := Some(now))
  }

  /** `advanceMatch` advances while the index is below `total_questions`. */
  predicate Advances(m: Match)
  {
    m.currentQuestionIndex < m.totalQuestions
  }

  /** A match after one tick. */
  function AfterTick(id: MatchId, m: Match, qs: seq<QuestionRow>, ans: seq<AnswerRow>, now: int, faults: Faults): (r: Match)
    ensures r != m ==> Due(m, now)
    ensures r.(currentQuestionIndex := m.currentQuestionIndex, questionStartTime := m.questionStartTime,
               status := m.status, winnerId := m.winnerId, finishedAt := m.finishedAt) == m
    ensures r.currentQuestionIndex != m.currentQuestionIndex ==>
      Advances(m) && r.currentQuestionIndex == m.currentQuestionIndex + 1 && r.questionStartTime == Some(now) && r.status == Active
    ensures r.status != m.status ==> m.status == Active && r.status == Finished && r.finishedAt == Some(now)
  {
    if !Due(m, now) then m
    else if Advances(m) then (if id in faults.advanceWrite then m else Advanced(m, m.currentQuestionIndex + 1, now))
    else MatchAfterFinish(id, m, qs, ans, now, faults)
  }

  /** The counters after one tick has visited match ids `0 .. n - 1` in order. */
  function TickStats(stats: map<UserId, Stats>, matches: map<MatchId, Match>, qs: seq<QuestionRow>, ans: seq<AnswerRow>, now: int, faults: Faults, n: nat): map<UserId, Stats>
    decreases n
  {
    if n == 0 then stats
    else
      var before := TickStats(stats, matches, qs, ans, now, faults, n - 1);
      var id := n - 1;
      if id in matches && Due(matches[id], now) && !Advances(matches[id])
      then StatsAfterFinish(before, id, matches[id], qs, ans, faults)
      else before
  }

  /** The reads and the scoring of `finishMatch`, up to the terminal write. */
  method PrepareFinish(store: MatchStore.Store, id: MatchId) returns (plan: FinishPlan)
    ensures plan == if id in store.matches then FinishPlanOf(id, store.matches[id], store.questions, store.answers) else Skip(NotFound)
  {
    if id !in store.matches {
      return Skip(NotFound);
    }
    var m := store.matches[id];
    if m.status == Finished {
      return Skip(AlreadyFinished);
    }
    if m.status != Active {
      return Skip(NotActive);
    }
    if !HasBothPlayers(m) {
      return Skip(MissingPlayers);
    }
    var qs := QuestionsFor(store.questions, id);
    var key := BuildCorrectOptionMap(qs);
    var ans := AnswersFor(store.answers, id);
    var p1, p2 := m.player1Id, m.player2Id.value;
    var s1, s2 := TallyScores(ans, key, p1, p2);
    plan := Settle(p1, p2, s1, s2, DecideWinner(p1, p2, s1, s2));
  }

  /** The terminal write of `finishMatch` and, only if it changed a row, the
      statistics calls; a failed call is only logged. */
  method CommitFinish(store: MatchStore.Store, id: MatchId, plan: FinishPlan, now: int, faults: Faults) returns (outcome: FinishOutcome)
    requires store.Valid()
    requires id in store.matches ==> PlanFits(plan, store.matches[id])
    modifies store
    ensures store.Valid()
    ensures outcome ==
      if plan.Skip? then Skipped(plan.reason)
      else if id in faults.finishWrite then WriteFailed
      else if !RowSelected(old(store.matches), id, Some(Active)) then RaceLost
      else Settled(plan.winner)
    ensures store.matches ==
      if outcome.Settled? then old(store.matches)[id := Finalize(old(store.matches)[id], plan.winner, now)]
      else old(store.matches)
    ensures store.stats == if outcome.Settled? then SettledStats(old(store.stats), id, plan, faults) else old(store.stats)
    ensures store.questions == old(store.questions) && store.answers == old(store.answers)
    ensures store.nextMatchId == old(store.nextMatchId) && store.nextQuestionId == old(store.nextQuestionId)
  {
    if plan.Skip? {
      return Skipped(plan.reason);
    }
    if id in faults.finishWrite {
      return WriteFailed;
    }
    var winner := plan.winner;
    var rows := store.UpdateMatch(id, Some(Active), m => Finalize(m, winner, now));
    if rows == 0 {
      return RaceLost;
    }
    IssueStatsCalls(store, id, StatsCalls(winner, plan.player1, plan.player2), faults);
    outcome := Settled(winner);
  }

  /** `Promise.all` over the settlement's statistics calls: each call that does
      not fail is applied, in order, and a failed one is only logged. */
  method IssueStatsCalls(store: MatchStore.Store, id: MatchId, calls: seq<StatsCall>, faults: Faults)
    requires store.Valid()
    modifies store
    ensures store.Valid()
    ensures store.stats == ApplyCalls(old(store.stats), Surviving(calls, id, faults))
    ensures store.matches == old(store.matches) && store.questions == old(store.questions) && store.answers == old(store.answers)
    ensures store.nextMatchId == old(store.nextMatchId) && store.nextQuestionId == old(store.nextQuestionId)
  {
    for i := 0 to |calls|
      invariant store.Valid()
      invariant store.matches == old(store.matches)
      invariant store.questions == old(store.questions) && store.answers == old(store.answers)
      invariant store.nextMatchId == old(store.nextMatchId) && store.nextQuestionId == old(store.nextQuestionId)
      invariant store.stats == ApplyCalls(old(store.stats), Surviving(calls[..i], id, faults))
    {
      assert calls[..i + 1][..i] == calls[..i];
      ghost var done := Surviving(calls[..i], id, faults);
      if (id, calls[i].user) !in faults.statsCall {
        store.IncrementPlayerStats(calls[i].user, calls[i].played, calls[i].wins, calls[i].losses);
        assert (done + [calls[i]])[..|done|] == done;
      } else {
        assert done + [] == done;
      }
    }
    assert calls[..|calls|] == calls;
  }

  /** `finishMatch`. */
  method FinishMatch(store: MatchStore.Store, id: MatchId, now: int, faults: Faults) returns (outcome: FinishOutcome)
    requires store.Valid()
    modifies store
    ensures store.Valid()
    ensures id !in old(store.matches) ==> outcome == Skipped(NotFound) && store.matches == old(store.matches) && store.stats == old(store.stats)
    ensures id in old(store.matches) ==>
      && store.matches == old(store.matches)[id := MatchAfterFinish(id, old(store.matches)[id], old(store.questions), old(store.answers), now, faults)]
      && store.stats == StatsAfterFinish(old(store.stats), id, old(store.matches)[id], old(store.questions), old(store.answers), faults)
      && (outcome.Settled? <==> Settles(id, old(store.matches)[id], old(store.questions), old(store.answers), faults))
    ensures store.questions == old(store.questions) && store.answers == old(store.answers)
    ensures store.nextMatchId == old(store.nextMatchId) && store.nextQuestionId == old(store.nextQuestionId)
  {
    var plan := PrepareFinish(store, id);
    outcome := CommitFinish(store, id, plan, now, faults);
  }

  /** `advanceMatch` on the row `snap` the scan read for match `id`; the advance
      is computed from the snapshot and written only while the match is active. */
  method AdvanceMatch(store: MatchStore.Store, id: MatchId, snap: Match, now: int, faults: Faults)
    requires store.Valid()
    requires 0 <= snap.currentQuestionIndex
    requires id in store.matches ==> store.matches[id].totalQuestions == snap.totalQuestions
    modifies store
    ensures store.Valid()
    ensures Advances(snap) ==>
      && store.stats == old(store.stats)
      && store.matches ==
           if id !in faults.advanceWrite && RowSelected(old(store.matches), id, Some(Active))
           then old(store.matches)[id := Advanced(old(store.matches)[id], snap.currentQuestionIndex + 1, now)]
           else old(store.matches)
    ensures !Advances(snap) && id in old(store.matches) ==>
      && store.matches == old(store.matches)[id := MatchAfterFinish(id, old(store.matches)[id], old(store.questions), old(store.answers), now, faults)]
      && store.stats == StatsAfterFinish(old(store.stats), id, old(store.matches)[id], old(store.questions), old(store.answers), faults)
    ensures !Advances(snap) && id !in old(store.matches) ==> store.matches == old(store.matches) && store.stats == old(store.stats)
    ensures store.questions == old(store.questions) && store.answers == old(store.answers)
    ensures store.nextMatchId == old(store.nextMatchId) && store.nextQuestionId == old(store.nextQuestionId)
  {
    if snap.currentQuestionIndex < snap.totalQuestions {
      if id !in faults.advanceWrite {
        var index := snap.currentQuestionIndex + 1;
        var _ := store.UpdateMatch(id, Some(Active), m => Advanced(m, index, now));
      }
    } else {
      var _ := FinishMatch(store, id, now, faults);
    }
  }

  /** The body of the scan for one match row `snap` read as active: skip it when
      no question is live, else advance or finish it once its deadline passed. */
  method VisitMatch(store: MatchStore.Store, id: MatchId, snap: Match, now: int, faults: Faults)
    requires store.Valid()
    requires id in store.matches && store.matches[id] == snap
    modifies store
    ensures store.Valid()
    ensures store.matches == old(store.matches)[id := AfterTick(id, snap, old(store.questions), old(store.answers), now, faults)]
    ensures store.stats ==
      if Due(snap, now) && !Advances(snap) then StatsAfterFinish(old(store.stats), id, snap, old(store.questions), old(store.answers), faults)
      else old(store.stats)
    ensures store.questions == old(store.questions) && store.answers == old(store.answers)
    ensures store.nextMatchId == old(store.nextMatchId) && store.nextQuestionId == old(store.nextQuestionId)
  {
    if snap.status != Active || snap.questionStartTime.None? {
      assert old(store.matches)[id := snap] == old(store.matches);
      return;
    }
    var elapsed := now - snap.questionStartTime.value;
    if elapsed >= snap.questionDurationSeconds * 1000 {
      AdvanceMatch(store, id, snap, now, faults);
    } else {
      assert old(store.matches)[id := snap] == old(store.matches);
    }
  }

  /** The matches after a tick has visited ids `0 .. id - 1` of `snapshot`. */
  ghost predicate TickedUpTo(current: map<MatchId, Match>, snapshot: map<MatchId, Match>, qs: seq<QuestionRow>, ans: seq<AnswerRow>, now: int, faults: Faults, id: nat)
  {
    && current.Keys == snapshot.Keys
    && forall j :: j in snapshot ==>
         current[j] == if j < id then AfterTick(j, snapshot[j], qs, ans, now, faults) else snapshot[j]
  }

  /** Visiting id `id` extends the tick by one id. */
  lemma TickStep(before: map<MatchId, Match>, after: map<MatchId, Match>, snapshot: map<MatchId, Match>, qs: seq<QuestionRow>, ans: seq<AnswerRow>, now: int, faults: Faults, id: nat)
    requires TickedUpTo(before, snapshot, qs, ans, now, faults, id)
    requires after == if id in snapshot && snapshot[id].status == Active then before[id := AfterTick(id, snapshot[id], qs, ans, now, faults)] else before
    ensures TickedUpTo(after, snapshot, qs, ans, now, faults, id + 1)
  {
    if id in snapshot && snapshot[id].status != Active {
      assert !Due(snapshot[id], now);
      assert AfterTick(id, snapshot[id], qs, ans, now, faults) == snapshot[id];
    }
    forall j | j in snapshot
      ensures after[j] == if j < id + 1 then AfterTick(j, snapshot[j], qs, ans, now, faults) else snapshot[j]
    {
      if j != id {
        assert after[j] == before[j];
      }
    }
  }

  /** `processActiveMatches`: one tick over the active matches, by ascending id. */
  method ProcessActiveMatches(store: MatchStore.Store, now: int, faults: Faults)
    requires store.Valid()
    modifies store
    ensures store.Valid()
    ensures store.matches == map id | id in old(store.matches) :: AfterTick(id, old(store.matches)[id], old(store.questions), old(store.answers), now, faults)
    ensures store.stats == TickStats(old(store.stats), old(store.matches), old(store.questions), old(store.answers), now, faults, old(store.nextMatchId))
    ensures store.questions == old(store.questions) && store.answers == old(store.answers)
    ensures store.nextMatchId == old(store.nextMatchId) && store.nextQuestionId == old(store.nextQuestionId)
  {
    var snapshot := store.matches;
    ghost var qs, ans := store.questions, store.answers;
    var n := store.nextMatchId;
    for id := 0 to n
      invariant store.Valid()
      invariant store.questions == qs && store.answers == ans
      invariant store.nextMatchId == n && store.nextQuestionId == old(store.nextQuestionId)
      invariant TickedUpTo(store.matches, snapshot, qs, ans, now, faults, id)
      invariant store.stats == TickStats(old(store.stats), snapshot, qs, ans, now, faults, id)
    {
      ghost var before := store.matches;
      if id in snapshot && snapshot[id].status == Active {
        VisitMatch(store, id, snapshot[id], now, faults);
      }
      TickStep(before, store.matches, snapshot, qs, ans, now, faults, id);
    }
    TickDone(store.matches, snapshot, qs, ans, now, faults, n);
  }

  lemma TickDone(current: map<MatchId, Match>, snapshot: map<MatchId, Match>, qs: seq<QuestionRow>, ans: seq<AnswerRow>, now: int, faults: Faults, n: nat)
    requires TickedUpTo(current, snapshot, qs, ans, now, faults, n)
    requires forall id :: id in snapshot ==> id < n
    ensures current == map id | id in snapshot :: AfterTick(id, snapshot[id], qs, ans, now, faults)
  {
  }

  /** Two actors, whose writes fail independently, both read the match as
      active before either writes, then both commit: at most one of them
      settles (the second only when the first's terminal write fails), and the
      store ends as after one finish by whichever actor settled. */
  method RacingFinishes(store: MatchStore.Store, id: MatchId, now: int, f1: Faults, f2: Faults) returns (first: FinishOutcome, second: FinishOutcome)
    requires store.Valid()
    modifies store
    ensures store.Valid()
    ensures !(first.Settled? && second.Settled?)
    ensures id in old(store.matches) ==>
      var m := old(store.matches)[id];
      var f := if first.Settled? then f1 else f2;
      && (first.Settled? <==> Settles(id, m, old(store.questions), old(store.answers), f1))
      && (second.Settled? <==> !first.Settled? && Settles(id, m, old(store.questions), old(store.answers), f2))
      && store.matches == old(store.matches)[id := MatchAfterFinish(id, m, old(store.questions), old(store.answers), now, f)]
      && store.stats == StatsAfterFinish(old(store.stats), id, m, old(store.questions), old(store.answers), f)
  {
    var plan1 := PrepareFinish(store, id);
    var plan2 := PrepareFinish(store, id);
    first := CommitFinish(store, id, plan1, now, f1);
    second := CommitFinish(store, id, plan2, now, f2);
  }

  /** A tick leaves a match alone unless it is active with a live question
      whose deadline has passed. */
  lemma TickLeavesUndueMatches(id: MatchId, m: Match, qs: seq<QuestionRow>, ans: seq<AnswerRow>, now: int, faults: Faults)
    requires AfterTick(id, m, qs, ans, now, faults) != m
    ensures m.status == Active && m.questionStartTime.Some?
    ensures now - m.questionStartTime.value >= m.questionDurationSeconds * 1000
  {
  }

  /** Re-running the tick on a match that is no longer active (finished
      included) changes nothing and moves no statistics. */
  lemma TickIgnoresInactive(id: MatchId, m: Match, qs: seq<QuestionRow>, ans: seq<AnswerRow>, now: int, faults: Faults, stats: map<UserId, Stats>)
    requires m.status != Active
    ensures AfterTick(id, m, qs, ans, now, faults) == m
    ensures StatsAfterFinish(stats, id, m, qs, ans, faults) == stats
  {
  }

  /** A tick keeps a stored match's invariant; in particular the question index
      of an active match moves by at most one and never passes `total_questions`. */
  lemma TickKeepsInvariant(id: MatchId, m: Match, qs: seq<QuestionRow>, ans: seq<AnswerRow>, now: int, faults: Faults)
    requires MatchInvariant(m)
    ensures MatchInvariant(AfterTick(id, m, qs, ans, now, faults))
    ensures m.status == Active ==>
      var r := AfterTick(id, m, qs, ans, now, faults);
      && m.currentQuestionIndex <= r.currentQuestionIndex <= m.currentQuestionIndex + 1
      && 0 <= r.currentQuestionIndex <= m.totalQuestions
  {
    var r := AfterTick(id, m, qs, ans, now, faults);
    if Due(m, now) && !Advances(m) && Settles(id, m, qs, ans, faults) {
      var plan := FinishPlanOf(id, m, qs, ans);
      assert r == Finalize(m, plan.winner, now);
    }
  }

  /** As written, the deadline of the last question (index `total - 1`) advances
      the index to `total_questions` instead of finishing the match ... */
  lemma LastQuestionAdvancesPastEnd(id: MatchId, m: Match, qs: seq<QuestionRow>, ans: seq<AnswerRow>, now: int, faults: Faults)
    requires Due(m, now) && m.currentQuestionIndex == m.totalQuestions - 1 && id !in faults.advanceWrite
    ensures AfterTick(id, m, qs, ans, now, faults).status == Active
    ensures AfterTick(id, m, qs, ans, now, faults).currentQuestionIndex == m.totalQuestions
  {
  }

  /** ... and only the deadline at index `total_questions` settles it. */
  lemma IndexAtTotalSettles(id: MatchId, m: Match, qs: seq<QuestionRow>, ans: seq<AnswerRow>, now: int, faults: Faults)
    requires Due(m, now) && m.currentQuestionIndex == m.totalQuestions
    requires HasBothPlayers(m) && id !in faults.finishWrite
    ensures AfterTick(id, m, qs, ans, now, faults).status == Finished
  {
  }

  /** Answers settle a match: the recorded winner is the participant with the
      strictly higher score, counted over that match's own rows, or nobody on a tie. */
  lemma SettlementWinner(id: MatchId, m: Match, qs: seq<QuestionRow>, ans: seq<AnswerRow>, now: int, faults: Faults)
    requires Settles(id, m, qs, ans, faults) && Joined(m)
    ensures var key := CorrectOptionMap(QuestionsFor(qs, id));
      var s1 := CountCorrect(AnswersFor(ans, id), key, m.player1Id);
      var s2 := CountCorrect(AnswersFor(ans, id), key, m.player2Id.value);
      var r := MatchAfterFinish(id, m, qs, ans, now, faults);
      && r.status == Finished && r.finishedAt == Some(now)
      && (s1 > s2 ==> r.winnerId == Some(m.player1Id))
      && (s2 > s1 ==> r.winnerId == m.player2Id)
      && (s1 == s2 ==> r.winnerId == None)
  {
  }

  /** How many of the ticks of `run` settle match `m`. */
  function SettlementsDuring(id: MatchId, m: Match, qs: seq<QuestionRow>, run: seq<TickInput>): nat
    decreases |run|
  {
    if run == [] then 0
    else
      var t := run[0];
      (if Due(m, t.now) && !Advances(m) && Settles(id, m, qs, t.answers, t.faults) then 1 else 0)
      + SettlementsDuring(id, AfterTick(id, m, qs, t.answers, t.now, t.faults), qs, run[1..])
  }

  /** A match that is no longer active is never settled again. */
  lemma {:induction false} InactiveNeverSettles(id: MatchId, m: Match, qs: seq<QuestionRow>, run: seq<TickInput>)
    requires m.status != Active
    ensures SettlementsDuring(id, m, qs, run) == 0
    decreases |run|
  {
    if run != [] {
      InactiveNeverSettles(id, m, qs, run[1..]);
    }
  }

  /** However many ticks run, with whatever answers and failures each one sees,
      a match is settled at most once. */
  lemma {:induction false} SettledAtMostOnce(id: MatchId, m: Match, qs: seq<QuestionRow>, run: seq<TickInput>)
    ensures SettlementsDuring(id, m, qs, run) <= 1
    decreases |run|
  {
    if run != [] {
      var t := run[0];
      var next := AfterTick(id, m, qs, t.answers, t.now, t.faults);
      if Due(m, t.now) && !Advances(m) && Settles(id, m, qs, t.answers, t.faults) {
        assert next.status == Finished;
        InactiveNeverSettles(id, next, qs, run[1..]);
      } else {
        SettledAtMostOnce(id, next, qs, run[1..]);
      }
    }
  }

  /** A tick moves the counters only of participants of matches it settles. */
  lemma {:induction false} TickStatsOnlyParticipants(stats: map<UserId, Stats>, matches: map<MatchId, Match>, qs: seq<QuestionRow>, ans: seq<AnswerRow>, now: int, faults: Faults, n: nat, u: UserId)
    requires forall id :: id in matches && id < n && Due(matches[id], now) ==> !IsParticipant(matches[id], u)
    ensures StatsOf(TickStats(stats, matches, qs, ans, now, faults, n), u) == StatsOf(stats, u)
    decreases n
  {
    if n > 0 {
      TickStatsOnlyParticipants(stats, matches, qs, ans, now, faults, n - 1, u);
      TickStatsStep(stats, matches, qs, ans, now, faults, n, u);
    }
  }

  /** One more visited id keeps a non-participant's counters. */
  lemma TickStatsStep(stats: map<UserId, Stats>, matches: map<MatchId, Match>, qs: seq<QuestionRow>, ans: seq<AnswerRow>, now: int, faults: Faults, n: nat, u: UserId)
    requires n > 0
    requires StatsOf(TickStats(stats, matches, qs, ans, now, faults, n - 1), u) == StatsOf(stats, u)
    requires n - 1 in matches && Due(matches[n - 1], now) ==> !IsParticipant(matches[n - 1], u)
    ensures StatsOf(TickStats(stats, matches, qs, ans, now, faults, n), u) == StatsOf(stats, u)
  {
    var id := n - 1;
    var before := TickStats(stats, matches, qs, ans, now, faults, id);
    if id in matches && Due(matches[id], now) && !Advances(matches[id]) {
      SettlementLeavesOthers(before, id, matches[id], qs, ans, faults, u);
    }
  }

  /** A settlement moves only its participants' counters. */
  lemma SettlementLeavesOthers(stats: map<UserId, Stats>, id: MatchId, m: Match, qs: seq<QuestionRow>, ans: seq<AnswerRow>, faults: Faults, u: UserId)
    requires !IsParticipant(m, u)
    ensures StatsOf(StatsAfterFinish(stats, id, m, qs, ans, faults), u) == StatsOf(stats, u)
  {
    if Settles(id, m, qs, ans, faults) {
      var plan := FinishPlanOf(id, m, qs, ans);
      var calls := StatsCalls(plan.winner, plan.player1, plan.player2);
      assert forall c :: c in calls ==> c.user != u;
      ApplyCallsOtherUser(stats, Surviving(calls, id, faults), u);
    }
  }

  /** When no statistics call fails, a settlement gives each participant one
      played match and their own win or loss (none on a draw). */
  lemma SettlementStatsOfMatch(stats: map<UserId, Stats>, id: MatchId, m: Match, qs: seq<QuestionRow>, ans: seq<AnswerRow>, faults: Faults)
    requires Settles(id, m, qs, ans, faults) && Joined(m)
    requires (id, m.player1Id) !in faults.statsCall && (id, m.player2Id.value) !in faults.statsCall
    ensures var plan := FinishPlanOf(id, m, qs, ans);
      var after := StatsAfterFinish(stats, id, m, qs, ans, faults);
      && StatsOf(after, m.player1Id) == AddStats(StatsOf(stats, m.player1Id), Outcome(plan.score1, plan.score2))
      && StatsOf(after, m.player2Id.value) == AddStats(StatsOf(stats, m.player2Id.value), Outcome(plan.score2, plan.score1))
      && forall u :: !IsParticipant(m, u) ==> StatsOf(after, u) == StatsOf(stats, u)
  {
    var plan := FinishPlanOf(id, m, qs, ans);
    var calls := StatsCalls(plan.winner, plan.player1, plan.player2);
    SurvivingAll(calls, id, faults);
    SettlementStats(stats, plan.player1, plan.player2, plan.score1, plan.score2);
  }

  lemma {:induction false} SurvivingAll(calls: seq<StatsCall>, id: MatchId, faults: Faults)
    requires forall c :: c in calls ==> (id, c.user) !in faults.statsCall
    ensures Surviving(calls, id, faults) == calls
    decreases |calls|
  {
    if calls != [] {
      var init := calls[..|calls| - 1];
      var last := calls[|calls| - 1];
      forall c | c in init ensures (id, c.user) !in faults.statsCall {
        var k :| 0 <= k < |init| && init[k] == c;
        assert calls[k] == c;
      }
      SurvivingAll(init, id, faults);
      assert last in calls;
      assert Surviving(calls, id, faults) == init + [last];
      assert init + [last] == calls;
    }
  }

  /** The module-level `engineInterval`: set once the one-second tick loop is scheduled. */
  class GameEngine {
    var engineInterval: bool
    ghost var scheduledLoops: nat

    /** At most one tick loop is ever scheduled. */
    ghost predicate Valid()
      reads this
    {
      scheduledLoops == if engineInterval then 1 else 0
    }

    constructor ()
      ensures Valid() && !engineInterval
    {
      engineInterval, scheduledLoops := false, 0;
    }

    /** `startGameEngine`: a second call is a no-op. */
    method StartGameEngine()
      requires Valid()
      modifies this
      ensures Valid() && engineInterval
      ensures old(engineInterval) ==> scheduledLoops == old(scheduledLoops)
      ensures !old(engineInterval) ==> scheduledLoops == old(scheduledLoops) + 1
    {
      if engineInterval {
        return;
      }
      engineInterval := true;
      scheduledLoops := scheduledLoops + 1;
    }
  }
}
