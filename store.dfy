/** The persistent store the engine and the handlers talk to: the four tables,
    the selects they issue, inserts, single-row updates (optionally conditional on
    the current status, returning how many rows they changed) and the atomic
    statistics increment. */
module MatchStore {
  import opened MatchTypes

  /** `select ... from match_questions where match_id = id`, in table order. */
  function QuestionsFor(rows: seq<QuestionRow>, id: MatchId): (r: seq<QuestionRow>)
    ensures forall q :: q in r <==> q in rows && q.matchId == id
    ensures |r| <= |rows|
    decreases |rows|
  {
    if rows == [] then []
    else
      var rest := QuestionsFor(rows[..|rows| - 1], id);
      var last := rows[|rows| - 1];
      assert rows == rows[..|rows| - 1] + [last];
      if last.matchId == id then rest + [last] else rest
  }

  /** `select ... from match_answers where match_id = id`, in table order. */
  function AnswersFor(rows: seq<AnswerRow>, id: MatchId): (r: seq<AnswerRow>)
    ensures forall a :: a in r <==> a in rows && a.matchId == id
    ensures |r| <= |rows|
    decreases |rows|
  {
    if rows == [] then []
    else
      var rest := AnswersFor(rows[..|rows| - 1], id);
      var last := rows[|rows| - 1];
      assert rows == rows[..|rows| - 1] + [last];
      if last.matchId == id then rest + [last] else rest
  }

  /** The question select keeps every row of the match as often as the table
      holds it, and no other row. */
  lemma {:induction false} QuestionsForCounts(rows: seq<QuestionRow>, id: MatchId)
    ensures forall q :: multiset(QuestionsFor(rows, id))[q] == if q.matchId == id then multiset(rows)[q] else 0
    decreases |rows|
  {
    if rows != [] {
      var init := rows[..|rows| - 1];
      QuestionsForCounts(init, id);
      assert rows == init + [rows[|rows| - 1]];
    }
  }

  /** The answer select keeps every row of the match as often as the table
      holds it, repeats included, and no other row. */
  lemma {:induction false} AnswersForCounts(rows: seq<AnswerRow>, id: MatchId)
    ensures forall a :: multiset(AnswersFor(rows, id))[a] == if a.matchId == id then multiset(rows)[a] else 0
    decreases |rows|
  {
    if rows != [] {
      var init := rows[..|rows| - 1];
      AnswersForCounts(init, id);
      assert rows == init + [rows[|rows| - 1]];
    }
  }

  /** Selecting from two batches selects from each in turn. */
  lemma {:induction false} QuestionsForAppend(s: seq<QuestionRow>, t: seq<QuestionRow>, id: MatchId)
    ensures QuestionsFor(s + t, id) == QuestionsFor(s, id) + QuestionsFor(t, id)
    decreases |t|
  {
    if t == [] {
      assert s + t == s;
    } else {
      var init := t[..|t| - 1];
      assert (s + t)[..|s + t| - 1] == s + init;
      QuestionsForAppend(s, init, id);
    }
  }

  /** Question rows that all belong to match `id` are all selected for it. */
  lemma {:induction false} QuestionsForAllOf(rows: seq<QuestionRow>, id: MatchId)
    requires forall i :: 0 <= i < |rows| ==> rows[i].matchId == id
    ensures QuestionsFor(rows, id) == rows
    decreases |rows|
  {
    if rows != [] {
      QuestionsForAllOf(rows[..|rows| - 1], id);
      assert rows[..|rows| - 1] + [rows[|rows| - 1]] == rows;
    }
  }

  /** Question rows of earlier match ids are never selected for `id`. */
  lemma {:induction false} QuestionsForNoneOf(rows: seq<QuestionRow>, id: MatchId)
    requires forall i :: 0 <= i < |rows| ==> rows[i].matchId < id
    ensures QuestionsFor(rows, id) == []
    decreases |rows|
  {
    if rows != [] {
      QuestionsForNoneOf(rows[..|rows| - 1], id);
    }
  }

  /** Answer rows that all belong to match `id` are all selected for it. */
  lemma {:induction false} AnswersForAllOf(rows: seq<AnswerRow>, id: MatchId)
    requires forall i :: 0 <= i < |rows| ==> rows[i].matchId == id
    ensures AnswersFor(rows, id) == rows
    decreases |rows|
  {
    if rows != [] {
      AnswersForAllOf(rows[..|rows| - 1], id);
      assert rows[..|rows| - 1] + [rows[|rows| - 1]] == rows;
    }
  }

  /** The counters after `increment_player_stats(user, played, wins, losses)`. */
  function Incremented(stats: map<UserId, Stats>, user: UserId, played: int, wins: int, losses: int): (r: map<UserId, Stats>)
    ensures r.Keys == stats.Keys + {user}
    ensures StatsOf(r, user).matchesPlayed == StatsOf(stats, user).matchesPlayed + played
    ensures StatsOf(r, user).wins == StatsOf(stats, user).wins + wins
    ensures StatsOf(r, user).losses == StatsOf(stats, user).losses + losses
    ensures forall u :: u != user ==> StatsOf(r, u) == StatsOf(stats, u)
  {
    var s := StatsOf(stats, user);
    stats[user := Stats(s.matchesPlayed + played, s.wins + wins, s.losses + losses)]
  }

  /** Does `update ... where id = id [and status = whereStatus]` select the row? */
  predicate RowSelected(matches: map<MatchId, Match>, id: MatchId, whereStatus: Option<Status>)
  {
    id in matches && (whereStatus.None? || matches[id].status == whereStatus.value)
  }

  class Store {
    var matches: map<MatchId, Match>
    var questions: seq<QuestionRow>
    var answers: seq<AnswerRow>
    var stats: map<UserId, Stats>
    var nextMatchId: nat
    var nextQuestionId: nat

    /** Ids come from the two counters, question ids are distinct, every question
        belongs to an existing match id, and every match keeps its invariant. */
    ghost predicate Valid()
      reads this
    {
      && (forall id :: id in matches ==> id < nextMatchId && MatchInvariant(matches[id]))
      && (forall i :: 0 <= i < |questions| ==> questions[i].id < nextQuestionId && questions[i].matchId < nextMatchId)
      && DistinctIds(questions)
    }

    constructor ()
      ensures Valid()
      ensures matches == map[] && questions == [] && answers == [] && stats == map[]
    {
      matches, questions, answers, stats := map[], [], [], map[];
      nextMatchId, nextQuestionId := 0, 0;
    }

    /** `insert into matches`, returning the new row's id. */
    method InsertMatch(m: Match) returns (id: MatchId)
      requires Valid() && MatchInvariant(m)
      modifies this
      ensures Valid()
      ensures id == old(nextMatchId) && id !in old(matches)
      ensures matches == old(matches)[id := m] && nextMatchId == old(nextMatchId) + 1
      ensures questions == old(questions) && answers == old(answers) && stats == old(stats)
      ensures nextQuestionId == old(nextQuestionId)
    {
      id := nextMatchId;
      matches := matches[id := m];
      nextMatchId := nextMatchId + 1;
    }

    /** One batch `insert into match_questions`; the rows carry the next free ids. */
    method InsertQuestions(rows: seq<QuestionRow>)
      requires Valid()
      requires forall i :: 0 <= i < |rows| ==> rows[i].id == nextQuestionId + i && rows[i].matchId < nextMatchId
      modifies this
      ensures Valid()
      ensures questions == old(questions) + rows && nextQuestionId == old(nextQuestionId) + |rows|
      ensures matches == old(matches) && answers == old(answers) && stats == old(stats)
      ensures nextMatchId == old(nextMatchId)
    {
      questions := questions + rows;
      nextQuestionId := nextQuestionId + |rows|;
    }

    /** `update matches set patch(row) where id = id [and status = whereStatus]`;
        `rows` is the number of rows the update changed (0 or 1). */
    method UpdateMatch(id: MatchId, whereStatus: Option<Status>, patch: Match -> Match) returns (rows: nat)
      requires Valid()
      requires RowSelected(matches, id, whereStatus) ==> MatchInvariant(patch(matches[id]))
      modifies this
      ensures Valid()
      ensures rows == (if RowSelected(old(matches), id, whereStatus) then 1 else 0)
      ensures matches == if rows == 1 then old(matches)[id := patch(old(matches)[id])] else old(matches)
      ensures questions == old(questions) && answers == old(answers) && stats == old(stats)
      ensures nextMatchId == old(nextMatchId) && nextQuestionId == old(nextQuestionId)
    {
      if RowSelected(matches, id, whereStatus) {
        matches := matches[id := patch(matches[id])];
        rows := 1;
      } else {
        rows := 0;
      }
    }

    /** The atomic `increment_player_stats` procedure. */
    method IncrementPlayerStats(user: UserId, played: int, wins: int, losses: int)
      requires Valid()
      modifies this
      ensures Valid()
      ensures stats == Incremented(old(stats), user, played, wins, losses)
      ensures matches == old(matches) && questions == old(questions) && answers == old(answers)
      ensures nextMatchId == old(nextMatchId) && nextQuestionId == old(nextQuestionId)
    {
      stats := Incremented(stats, user, played, wins, losses);
    }
  }

  /** The rows of one match keep the table's distinct ids. */
  lemma {:induction false} QuestionsForKeepsDistinct(rows: seq<QuestionRow>, id: MatchId)
    requires DistinctIds(rows)
    ensures DistinctIds(QuestionsFor(rows, id))
    decreases |rows|
  {
    if rows != [] {
      var init := rows[..|rows| - 1];
      var last := rows[|rows| - 1];
      assert DistinctIds(init);
      QuestionsForKeepsDistinct(init, id);
      forall q | q in QuestionsFor(init, id)
        ensures q.id != last.id
      {
        var i :| 0 <= i < |init| && init[i] == q;
        assert rows[i] == q;
      }
    }
  }

  /** Every match of a valid store has distinct question ids. */
  lemma StoredQuestionsDistinct(store: Store, id: MatchId)
    requires store.Valid()
    ensures DistinctIds(QuestionsFor(store.questions, id))
  {
    QuestionsForKeepsDistinct(store.questions, id);
  }
}
