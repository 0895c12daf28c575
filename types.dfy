/** The rows of the match store: matches, match_questions, match_answers and the
    per-player statistics, with the invariant every stored match keeps. */
module MatchTypes {

  datatype Option<+T> = None | Some(value: T)

  type UserId = string
  type MatchId = nat
  type QuestionId = nat

  /** The backend's match status; it has no `starting` state. */
  datatype Status = Waiting | Ready | Active | Finished | Cancelled

  /** A row of `matches`.  Timestamps are integer milliseconds. */
  datatype Match = Match(
    player1Id: UserId,
    player2Id: Option<UserId>,
    status: Status,
    category: string,
    stakeAmount: real,
    winnerId: Option<UserId>,
    currentQuestionIndex: int,
    questionStartTime: Option<int>,
    questionDurationSeconds: int,
    totalQuestions: int,
    createdAt: int,
    startedAt: Option<int>,
    finishedAt: Option<int>)

  datatype QuestionOption = QuestionOption(index: int, option: string)

  /** A row of `match_questions`. */
  datatype QuestionRow = QuestionRow(
    id: QuestionId,
    matchId: MatchId,
    questionIndex: int,
    questionText: string,
    options: seq<QuestionOption>,
    correctOption: string)

  /** What a client is shown of a question: everything but the correct option. */
  datatype PublicQuestion = PublicQuestion(
    id: QuestionId,
    questionIndex: int,
    questionText: string,
    options: seq<QuestionOption>)

  /** A row of `match_answers`. */
  datatype AnswerRow = AnswerRow(
    matchId: MatchId,
    playerId: UserId,
    questionId: QuestionId,
    userAnswer: string)

  /** One item of a generated question batch. */
  datatype Question = Question(question: string, options: seq<QuestionOption>, answer: string)

  datatype Stats = Stats(matchesPlayed: int, wins: int, losses: int)

  /** The `{ status: "SUCCESS", data }` / `{ status: "FAILED", error }` reply of a handler. */
  datatype Response<T> = Success(data: T) | Failed(error: string)

  /** A player's counters; a player without a row has all counters at zero. */
  function StatsOf(stats: map<UserId, Stats>, user: UserId): Stats
  {
    if user in stats then stats[user] else Stats(0, 0, 0)
  }

  /** The second player has joined, and is not the creator. */
  predicate Joined(m: Match)
  {
    m.player2Id.Some? && m.player2Id.value != m.player1Id
  }

  predicate IsParticipant(m: Match, user: UserId)
  {
    user == m.player1Id || m.player2Id == Some(user)
  }

  /** The invariant of a stored match: a second player exactly from `ready` on,
      a live question while active, a bounded question index once started, and a
      winner only when finished, and then one of the two participants. */
  predicate MatchInvariant(m: Match)
  {
    && (m.status == Waiting ==> m.player2Id.None?)
    && (m.status in {Ready, Active, Finished} ==> Joined(m))
    && (m.status == Active ==> m.questionStartTime.Some?)
    && (m.status in {Active, Finished} ==> 0 <= m.currentQuestionIndex <= m.totalQuestions)
    && (m.winnerId.Some? ==> m.status == Finished && IsParticipant(m, m.winnerId.value))
  }

  /** No two question rows share an id (the table's primary key). */
  predicate DistinctIds(qs: seq<QuestionRow>)
  {
    forall i, j :: 0 <= i < j < |qs| ==> qs[i].id != qs[j].id
  }
}
