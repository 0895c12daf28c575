/** The request handlers that create a match, let a second player join it
    (`waiting -> ready`) and let its creator start it (`ready -> active`). Each is
    a chain of guards followed by writes to the store. */
module MatchHandlers {
  import opened MatchTypes
  import opened MatchStore
  import opened QuestionRows

  const FailedToCreateRoom := "Failed to Create Room"
  const QuestionInsertFailed := "Something went wrong on our servers"
  const InternalServerError := "Internal Server Error"
  const MatchNotFound := "Match not found"
  const UserAlreadyInRoom := "User already in Room"
  const MatchInProgress := "Match is in Progress"
  const FailedToJoinRoom := "Failed to join room"
  const JoinedRoom := "JOINED ROOM"
  const NotAuthorizedToStart := "User not authorized to start match"
  const NotReadyToStart := "Match not ready to start or already in progress"
  const StartingMatchFailed := "Starting Match Failed"
  const FailedToStartMatch := "Failed to start match"

  /** The row `createMatch` inserts; status, second player, winner, index and
      timestamps take the table's defaults. */
  function NewMatch(caller: UserId, timePerQuestion: int, category: string, totalQuestions: int, stakeAmount: real, now: int): (m: Match)
    ensures MatchInvariant(m)
  {
    Match(caller, None, Waiting, category, stakeAmount, None, 0, None, timePerQuestion, totalQuestions, now, None, None)
  }

  /** `createMatch`. `matchInsertOk` and `questionsInsertOk` are the outcomes of
      the two inserts; `generated` is the generator's batch, `None` when it throws. */
  method CreateMatch(store: MatchStore.Store, caller: UserId, timePerQuestion: int, category: string, totalQuestions: int,
                     stakeAmount: real, now: int, matchInsertOk: bool, generated: Option<seq<Question>>, questionsInsertOk: bool)
    returns (r: Response<(MatchId, Match)>)
    requires store.Valid()
    modifies store
    ensures store.Valid()
    ensures !matchInsertOk ==>
      r == Failed(FailedToCreateRoom) && store.matches == old(store.matches) && store.questions == old(store.questions)
    ensures matchInsertOk ==>
      var id := old(store.nextMatchId);
      && id !in old(store.matches)
      && store.matches == old(store.matches)[id := NewMatch(caller, timePerQuestion, category, totalQuestions, stakeAmount, now)]
      && (generated.None? ==> r == Failed(InternalServerError) && store.questions == old(store.questions))
      && (generated.Some? && !questionsInsertOk ==> r == Failed(QuestionInsertFailed) && store.questions == old(store.questions))
      && (generated.Some? && questionsInsertOk ==>
            && r == Success((id, store.matches[id]))
            && store.questions == old(store.questions) + NumberQuestions(id, old(store.nextQuestionId), generated.value))
    ensures store.answers == old(store.answers) && store.stats == old(store.stats)
  {
    if !matchInsertOk {
      return Failed(FailedToCreateRoom);
    }
    var m := NewMatch(caller, timePerQuestion, category, totalQuestions, stakeAmount, now);
    var id := store.InsertMatch(m);
    if generated.None? {
      return Failed(InternalServerError);
    }
    var rows := NumberQuestions(id, store.nextQuestionId, generated.value);
    if !questionsInsertOk {
      return Failed(QuestionInsertFailed);
    }
    store.InsertQuestions(rows);
    r := Success((id, m));
  }

  /** `joinMatch`: rejected, in this order, when the match is missing, when the
      caller created it, and when it is not waiting; otherwise the single write
      sets the second player and `ready`. */
  method JoinMatch(store: MatchStore.Store, id: MatchId, caller: UserId, writeOk: bool) returns (r: Response<string>)
    requires store.Valid()
    modifies store
    ensures store.Valid()
    ensures id !in old(store.matches) ==> r == Failed(MatchNotFound)
    ensures id in old(store.matches) ==>
      var m := old(store.matches)[id];
      && (m.player1Id == caller ==> r == Failed(UserAlreadyInRoom))
      && (m.player1Id != caller && m.status != Waiting ==> r == Failed(MatchInProgress))
      && (m.player1Id != caller && m.status == Waiting && !writeOk ==> r == Failed(FailedToJoinRoom))
      && (m.player1Id != caller && m.status == Waiting && writeOk ==> r == Success(JoinedRoom))
    ensures store.matches ==
      if r.Success? then old(store.matches)[id := old(store.matches)[id].(player2Id := Some(caller), status := Ready)]
      else old(store.matches)
    ensures store.questions == old(store.questions) && store.answers == old(store.answers) && store.stats == old(store.stats)
    ensures store.nextMatchId == old(store.nextMatchId) && store.nextQuestionId == old(store.nextQuestionId)
  {
    if id !in store.matches {
      return Failed(MatchNotFound);
    }
    var m := store.matches[id];
    if m.player1Id == caller {
      return Failed(UserAlreadyInRoom);
    }
    if m.status != Waiting {
      return Failed(MatchInProgress);
    }
    if !writeOk {
      return Failed(FailedToJoinRoom);
    }
    var _ := store.UpdateMatch(id, None, (row: Match) => row.(player2Id := Some(caller), status := Ready));
    r := Success(JoinedRoom);
  }

  /** `startMatch`: rejected, in this order, when the match is missing, when the
      caller is not its creator, when it is not ready, and when the number of its
      question rows is not `total_questions`; otherwise the single write makes it
      active on question 0, and the players get its questions by ascending index
      without their correct options. */
  method StartMatch(store: MatchStore.Store, id: MatchId, caller: UserId, now: int, writeOk: bool) returns (r: Response<seq<PublicQuestion>>)
    requires store.Valid()
    modifies store
    ensures store.Valid()
    ensures id !in old(store.matches) ==> r == Failed(MatchNotFound)
    ensures id in old(store.matches) ==>
      var m := old(store.matches)[id];
      var rows := QuestionsFor(old(store.questions), id);
      && (m.player1Id != caller ==> r == Failed(NotAuthorizedToStart))
      && (m.player1Id == caller && m.status != Ready ==> r == Failed(NotReadyToStart))
      && (m.player1Id == caller && m.status == Ready && |rows| != m.totalQuestions ==> r == Failed(StartingMatchFailed))
      && (m.player1Id == caller && m.status == Ready && |rows| == m.totalQuestions ==>
            r == (if writeOk then Success(PublicView(SortByIndex(rows))) else Failed(FailedToStartMatch)))
    ensures store.matches ==
      if r.Success? then old(store.matches)[id := old(store.matches)[id].(status := Active, currentQuestionIndex := 0,
                                                                         questionStartTime := Some(now), startedAt := Some(now))]
      else old(store.matches)
    ensures store.questions == old(store.questions) && store.answers == old(store.answers) && store.stats == old(store.stats)
    ensures store.nextMatchId == old(store.nextMatchId) && store.nextQuestionId == old(store.nextQuestionId)
  {
    if id !in store.matches {
      return Failed(MatchNotFound);
    }
    var m := store.matches[id];
    if m.player1Id != caller {
      return Failed(NotAuthorizedToStart);
    }
    if m.status != Ready {
      return Failed(NotReadyToStart);
    }
    var queData := SortByIndex(QuestionsFor(store.questions, id));
    if |queData| != m.totalQuestions {
      return Failed(StartingMatchFailed);
    }
    if !writeOk {
      return Failed(FailedToStartMatch);
    }
    var _ := store.UpdateMatch(id, None, (row: Match) => row.(status := Active, currentQuestionIndex := 0,
                                                     questionStartTime := Some(now), startedAt := Some(now)));
    r := Success(PublicView(queData));
  }

  /** A match created with a full batch of `total_questions` questions and
      joined can be started, and its players are shown the generated questions
      in generation order. */
  method CreateJoinStart(store: MatchStore.Store, creator: UserId, opponent: UserId, timePerQuestion: int, category: string,
                         stakeAmount: real, generated: seq<Question>, now: int)
    returns (r: Response<seq<PublicQuestion>>)
    requires store.Valid() && creator != opponent
    modifies store
    ensures store.Valid()
    ensures r.Success? && r.data == Shown(old(store.nextQuestionId), generated)
  {
    var created := CreateMatch(store, creator, timePerQuestion, category, |generated|, stakeAmount, now, true, Some(generated), true);
    var id := created.data.0;
    ghost var first := old(store.nextQuestionId);
    NewQuestionsAreTheBatch(old(store.questions), id, first, generated);
    var joined := JoinMatch(store, id, opponent, true);
    r := StartMatch(store, id, creator, now, true);
    NumberedThenSortedIsGenerated(id, first, generated);
  }

  /** The rows of a fresh match id are exactly the batch inserted for it. */
  lemma NewQuestionsAreTheBatch(before: seq<QuestionRow>, id: MatchId, first: QuestionId, generated: seq<Question>)
    requires forall i :: 0 <= i < |before| ==> before[i].matchId < id
    ensures QuestionsFor(before + NumberQuestions(id, first, generated), id) == NumberQuestions(id, first, generated)
  {
    QuestionsForAppend(before, NumberQuestions(id, first, generated), id);
    QuestionsForNoneOf(before, id);
    QuestionsForAllOf(NumberQuestions(id, first, generated), id);
  }
}
