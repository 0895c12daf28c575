# Match lifecycle of a 1v1 timed quiz

A model of the tryhard 1v1 quiz backend's match lifecycle, with proofs about it.

- **Request handlers.** `createMatch` inserts a match and numbers its generated questions. `joinMatch` moves a match from `waiting` to `ready`. `startMatch` moves it from `ready` to `active` and hands the players their questions without the answers.
- **Game engine.** A one-second tick scans the active matches. When a question's deadline has passed, the tick either moves the match to the next question or settles it.
- **Settlement.** It counts each participant's correct answer rows and picks the winner (nobody on a tie). It finishes the match with a write that is conditional on the match still being `active`. Only if that write changed a row does it issue one `increment_player_stats` call per participant.
- **Result screen.** The client recounts the scores itself, judging each question by the player's *first* answer to it, and reads "won" or "draw" from the match row.

The tables form one store, `MatchStore.Store`:
- `matches` is a map from match id to match row.
- `questions` and `answers` are sequences of rows, in table order.
- `stats` maps a user id to that user's `matches_played`, `wins` and `losses`.
- Two counters hand out fresh ids.

A conditional `update` is `UpdateMatch`, which returns the number of rows it changed (0 or 1). Writes that can fail in the source take explicit parameters saying whether they fail: `writeOk`, `matchInsertOk` and `questionsInsertOk` for the handlers, and a `Faults` value for the engine. The engine's `Faults` says which advance writes, terminal writes and statistics calls fail. The clock is a parameter `now` in integer milliseconds. A deadline has passed when `now - question_start_time >= question_duration_seconds * 1000`.

Modules:
- `MatchTypes` (types.dfy): the rows and the invariant of a stored match.
- `MatchStore` (store.dfy): the store class and its selects.
- `Scoring` (scoring.dfy): the correct-option map, the score count, the winner law and the statistics calls.
- `QuestionRows` (question_rows.dfy): question numbering, ordering by index, and the public view.
- `MatchEngine` (engine.dfy): `finishMatch`, `advanceMatch`, `processActiveMatches` and `startGameEngine`.
- `MatchHandlers` (handlers.dfy): `createMatch`, `joinMatch` and `startMatch`.
- `ResultScreen` (result_screen.dfy): the client recount.
- `MatchScenarios` (scenarios.dfy): two whole matches on concrete rows.

Two places where the code does something other than what is evidently intended; the model follows the code:
- **Advancing past the last question.** `advanceMatch` advances while `current_question_index < total_questions` (backend/src/controllers/matchEngine.ts:159). So the deadline of the last question moves the index to `total_questions`, and only the next deadline settles the match. The intended behaviour is that the deadline of the last question settles the match; the code instead makes the players wait one more question duration first. `MatchEngine.LastQuestionAdvancesPastEnd` and `MatchEngine.IndexAtTotalSettles` state this behaviour as written. `MatchScenarios.ScenarioOneNil` needs four deadlines for three questions.
- **No `starting` status.** The client type lists a `starting` status (app/types/game.ts:1). The backend never sets it: its type has none (backend/src/utils/types.ts:1-6), and `startMatch` goes straight from `ready` to `active`.

## Model

| member | source | states |
|---|---|---|
| MatchHandlers.NewMatch | backend/src/controllers/match.ts:10-16 | The inserted row has the caller as `player1_id`, takes the time per question, total, category and stake from the request, and starts `waiting` with no second player, no winner and index 0. It satisfies the stored-match invariant. |
| MatchStore.QuestionsFor | backend/src/controllers/matchEngine.ts:34-37 | `select ... where match_id = id`: a row appears exactly when it is a question row of that match, and the result is no longer than the table. |
| MatchStore.QuestionsForCounts | backend/src/controllers/matchEngine.ts:34-37 | The select keeps every question row of the match as often as the table holds it, and no other row. So `startMatch`'s count check sees every stored row. |
| MatchStore.AnswersFor | backend/src/controllers/matchEngine.ts:49-52 | A row appears exactly when it is an answer row of that match, and the result is no longer than the table. |
| MatchStore.AnswersForCounts | backend/src/controllers/matchEngine.ts:49-52 | The select keeps every answer row of the match as often as the table holds it, repeats included, and no other row. |
| MatchStore.Incremented | backend/src/controllers/matchEngine.ts:112-117 | `increment_player_stats` adds the three amounts to the user's counters. A user with no row starts from zeros. Every other user's counters stay the same. |
| MatchStore.Store.InsertMatch | backend/src/controllers/match.ts:10-16 | The new row gets a fresh id. Nothing else in the store changes. |
| MatchStore.Store.InsertQuestions | backend/src/controllers/match.ts:28-36 | The batch is appended to the question table. Nothing else changes. |
| MatchStore.Store.UpdateMatch | backend/src/controllers/matchEngine.ts:83-102 | A conditional update. It reports 1 changed row exactly when the row exists and, if a status is given, has that status. Then only that row is patched; otherwise nothing changes. |
| MatchStore.Store.IncrementPlayerStats | backend/src/controllers/matchEngine.ts:112-117 | Only the statistics change, by `Incremented`. |
| Scoring.CorrectOptionMap | backend/src/controllers/matchEngine.ts:44-47 | The map's keys are exactly the ids of the match's question rows. Each value is the correct option of a row with that id. |
| Scoring.CorrectOptionMapOfDistinct | backend/src/controllers/matchEngine.ts:44-47 | With distinct question ids, every row's own correct option is stored under its id. |
| Scoring.BuildCorrectOptionMap | backend/src/controllers/matchEngine.ts:44-47 | The filling loop computes `CorrectOptionMap` of the rows. |
| Scoring.CountCorrect | backend/src/controllers/matchEngine.ts:59-71 | A score never exceeds the number of answer rows. |
| Scoring.CountCorrectIsRowCount | backend/src/controllers/matchEngine.ts:59-71 | A player's score is the number of answer rows that are by that player, name a question in the map, and give that question's correct option. |
| Scoring.CountCorrectAppend | backend/src/controllers/matchEngine.ts:62-71 | Counting over two batches of rows gives the sum of the two counts. |
| Scoring.CountCorrectMonotone | backend/src/controllers/matchEngine.ts:62-71 | More answer rows never lower a score. |
| Scoring.UncreditedRowAddsNothing | backend/src/controllers/matchEngine.ts:63-64 | A row by another user, for an unknown question, or with a wrong option adds nothing, wherever it stands. |
| Scoring.CountCorrectOnlyOwnRows | backend/src/controllers/matchEngine.ts:65-69 | Removing all rows of other users, non-participants included, leaves a player's score unchanged. |
| Scoring.TallyScores | backend/src/controllers/matchEngine.ts:59-71 | The counting loop yields player 1's count and player 2's count. Player 2 scores 0 when both ids are the same, because of the `else if`. |
| Scoring.DecideWinner | backend/src/controllers/matchEngine.ts:75-81 | The winner is `None` exactly when the scores are equal (0-0 included). Otherwise the winner is the player with the strictly higher score. |
| Scoring.DecideWinnerSymmetric | backend/src/controllers/matchEngine.ts:75-81 | Listing the players the other way round names the same winner. |
| Scoring.StatsCalls | backend/src/controllers/matchEngine.ts:106-146 | The `statsUpdates` pushes: two calls, one per participant when the winner is one of them or nobody, each adding one played match. Together they add one win and one loss when there is a winner, neither on a draw. For two different players, a call carries the win exactly when its user is the winner. |
| Scoring.StatsCallsLaw | backend/src/controllers/matchEngine.ts:106-146 | Exactly two calls are made, one per participant, each adding one played match. A participant gets a win exactly when their score is higher and a loss exactly when it is lower. |
| Scoring.SettlementStats | backend/src/controllers/matchEngine.ts:106-146 | After both calls, each participant has gained their outcome: winner +1/+1/+0, loser +1/+0/+1, draw +1/+0/+0. Nobody else's counters move. |
| Scoring.ApplyCallsOtherUser | backend/src/controllers/matchEngine.ts:106-146 | Calls for other users leave a user's counters alone. |
| QuestionRows.NumberQuestionsLaw | backend/src/controllers/match.ts:30-36 | The i-th generated question becomes row `question_index = i` of the match. The row keeps its text and options, has `correct_option = answer`, and gets consecutive ids. |
| QuestionRows.SortByIndex | backend/src/controllers/match.ts:153-157 | `.order("question_index")`: the result is in ascending index order and is a permutation of the rows. |
| QuestionRows.InsertByIndexSorted | backend/src/controllers/match.ts:153-157 | Inserting one row into rows already in index order keeps them in index order. |
| QuestionRows.SortSortedIsIdentity | backend/src/controllers/match.ts:153-157 | Rows already in index order come back unchanged. |
| QuestionRows.NumberedThenSortedIsGenerated | backend/src/controllers/match.ts:153-157 | A batch numbered at creation is already in index order. Its public view is the generated questions in generation order, without their answers. |
| MatchHandlers.NewQuestionsAreTheBatch | backend/src/controllers/match.ts:28-36 | The question rows of a freshly created match are exactly the batch inserted for it. |
| MatchHandlers.CreateMatch | backend/src/controllers/match.ts:6-60 | A failed match insert gives "Failed to Create Room" and writes nothing. A generator that throws gives "Internal Server Error"; the match row stays and no question row is written. A failed question insert gives "Something went wrong on our servers". Otherwise the match and its numbered questions are stored and the match is returned. |
| MatchHandlers.JoinMatch | backend/src/controllers/match.ts:63-119 | Rejects, in order: a missing match, the creator as joiner, and a match not `waiting`. Each rejection has its own message and leaves the store unchanged, as does a failed write. A success sets exactly `player2_id` and `ready`. |
| MatchHandlers.StartMatch | backend/src/controllers/match.ts:122-196 | Rejects, in order: a missing match, a caller who is not the creator, a match not `ready`, and a question-row count other than `total_questions`. A failed write is also rejected. A success sets exactly `active`, index 0, and the question start and start times. It returns the match's rows in index order without the correct option. |
| MatchHandlers.CreateJoinStart | backend/src/controllers/match.ts:187-193 | Creating a match with a full batch, joining it and starting it all succeed, and the players receive exactly the generated questions in generation order. |
| MatchEngine.PlanFinish | backend/src/controllers/matchEngine.ts:15-81 | `finishMatch` skips a match that is not active or lacks either player id; an already finished match is skipped as such. Otherwise it settles between the match's two players. The winner is `None` exactly on equal scores, and a winner is always a participant. |
| MatchEngine.PrepareFinish | backend/src/controllers/matchEngine.ts:7-81 | The reads, the map and the counting loop yield the plan of the stored match, or "not found". They change nothing. |
| MatchEngine.CommitFinish | backend/src/controllers/matchEngine.ts:83-153 | A skip writes nothing. A failed terminal write, or one that finds the match no longer active, writes nothing and issues no statistics call. Otherwise the match becomes `finished` with the winner and end time, and the statistics calls that do not fail are applied. |
| MatchEngine.IssueStatsCalls | backend/src/controllers/matchEngine.ts:106-153 | Every call that does not fail is applied, in order. A failed call is only logged. The match rows are untouched. |
| MatchEngine.Surviving | backend/src/controllers/matchEngine.ts:148-153 | The applied calls are among the issued calls. |
| MatchEngine.SurvivingMembers | backend/src/controllers/matchEngine.ts:148-153 | A call is applied exactly when it was issued and does not fail. |
| MatchEngine.SurvivingAll | backend/src/controllers/matchEngine.ts:148-153 | With no failing call, all issued calls are applied. |
| MatchEngine.FinishMatch | backend/src/controllers/matchEngine.ts:7-156 | The store ends as `MatchAfterFinish`/`StatsAfterFinish` of the old store. A missing match changes nothing. The outcome is `Settled` exactly when the match settles. |
| MatchEngine.AdvanceMatch | backend/src/controllers/matchEngine.ts:158-173 | Below `total_questions`, the write sets index + 1 and a fresh start time, only if the match is still active, and changes nothing else. At or above it, the call is `finishMatch`. |
| MatchEngine.Due | backend/src/controllers/matchEngine.ts:177-192 | A scanned match is due exactly when it is active, has a question start time, and the elapsed time in seconds, `(now - start) / 1000`, is at least `question_duration_seconds`. |
| MatchEngine.AfterTick | backend/src/controllers/matchEngine.ts:158-195 | One match's effect in a tick. A match that is not due is left alone. Only the index, the question start time, the status, the winner and the end time can change. The index changes only by an advance, to index + 1 with the start time `now`, while the match stays active. The status changes only from `active` to `finished`, with the end time `now`. |
| MatchEngine.VisitMatch | backend/src/controllers/matchEngine.ts:185-195 | For one scanned row: skipped without a live question or before its deadline; otherwise advanced or finished. |
| MatchEngine.ProcessActiveMatches | backend/src/controllers/matchEngine.ts:175-196 | After one tick, every match is its own `AfterTick` image. The counters are the settlements of the due matches, applied in id order. |
| MatchEngine.TickLeavesUndueMatches | backend/src/controllers/matchEngine.ts:186-194 | A tick changes only an active match with a live question whose deadline has passed. |
| MatchEngine.TickIgnoresInactive | backend/src/controllers/matchEngine.ts:20-28 | Re-running the tick on a finished or otherwise inactive match writes nothing and moves no counter. |
| MatchEngine.TickKeepsInvariant | backend/src/controllers/matchEngine.ts:158-173 | A tick keeps the stored-match invariant. An active match's index moves by at most one and never passes `total_questions`. |
| MatchEngine.LastQuestionAdvancesPastEnd | backend/src/controllers/matchEngine.ts:159 | As written, the deadline at index `total - 1` leaves the match active at index `total_questions`. |
| MatchEngine.IndexAtTotalSettles | backend/src/controllers/matchEngine.ts:170-172 | The deadline at index `total_questions` finishes a match with both players, unless the terminal write fails. |
| MatchEngine.SettlementWinner | backend/src/controllers/matchEngine.ts:59-102 | A settled match is `finished` at `now`, and its winner follows the winner law on the scores counted over its own rows. |
| MatchEngine.InactiveNeverSettles | backend/src/controllers/matchEngine.ts:20-28 | Any run of ticks settles an inactive match zero times. Each tick may see its own clock, its own answer table and its own failures. |
| MatchEngine.SettledAtMostOnce | backend/src/controllers/matchEngine.ts:83-102 | Any run of ticks settles a match at most once. Each tick may see its own clock, its own answer table and its own failures, so a terminal write that fails on one tick may succeed on a later one. |
| MatchEngine.RacingFinishes | backend/src/controllers/matchEngine.ts:83-102 | Two finishes that both read the match as active, each with its own write failures: at most one of the two settles. The first settles exactly when it would alone. The second settles exactly when the first did not and its own write succeeds. The store equals one finish by whichever actor settled. |
| MatchEngine.SettlementLeavesOthers | backend/src/controllers/matchEngine.ts:106-146 | A settlement moves only its participants' counters. |
| MatchEngine.TickStatsOnlyParticipants | backend/src/controllers/matchEngine.ts:106-146 | A tick leaves the counters of a user alone if that user plays in none of the due matches. |
| MatchEngine.SettlementStatsOfMatch | backend/src/controllers/matchEngine.ts:106-146 | With no failing call, each participant gains exactly their own outcome and nobody else's counters move. |
| MatchEngine.GameEngine.StartGameEngine | backend/src/controllers/matchEngine.ts:199-211 | The first call schedules the loop. A second call is a no-op. At most one loop is ever scheduled. |
| ResultScreen.FindAnswer | app/screens/Result.tsx:52 | The row found is an answer by that player to that question. Nothing is found exactly when no such row exists. |
| ResultScreen.FindAnswerIsFirst | app/screens/Result.tsx:52 | `find` returns the first matching row. |
| ResultScreen.FindAnswerAppend | app/screens/Result.tsx:52 | A row appended after the others is found only if no earlier row matched. |
| ResultScreen.JudgeLaw | app/screens/Result.tsx:53 | An answered question's verdict is whether the first answer equals the correct option. |
| ResultScreen.JudgeNoneIffUnanswered | app/screens/Result.tsx:52-53 | The verdict is `null` exactly when the player has no answer to the question. |
| ResultScreen.BreakdownShape | app/screens/Result.tsx:51-58 | The breakdown has exactly one entry per question, in question order, with that question's text and verdict. |
| ResultScreen.ClientScore | app/screens/Result.tsx:54 | A screen score never exceeds the number of questions. |
| ResultScreen.ScoreCountsCorrectEntries | app/screens/Result.tsx:48-54 | `myScore` equals the number of breakdown entries marked correct. |
| ResultScreen.OpponentIsOtherParticipant | app/screens/Result.tsx:46 | For a participant of a joined match, the opponent is the other participant. |
| ResultScreen.LoadScores | app/screens/Result.tsx:45-58 | The loop yields the breakdown, the viewer's first-answer score and the opponent's first-answer score. |
| ResultScreen.DuplicateAnswerIgnored | app/screens/Result.tsx:52-56 | A second answer to a question already answered never changes a screen score. |
| ResultScreen.WinnerAndDrawExclusive | app/screens/Result.tsx:70-72 | `isWinner` and `isDraw` never both hold. |
| ResultScreen.ScreenAgreesWithEngine | app/screens/Result.tsx:51-56 | With distinct question ids and at most one answer per player and question, the screen's score equals the engine's count. |
| ResultScreen.DuplicatesSplitTheCounts | app/screens/Result.tsx:52-54 | Example without that proviso: two correct answers to one question score 2 in the engine and 1 on the screen; a wrong then a right answer scores 1 and 0. |
| QuestionRows.SortKeepsDistinct | app/screens/Result.tsx:34-38 | Ordering the rows by index keeps their ids distinct. |
| Scoring.SameRowsSameKey | backend/src/controllers/matchEngine.ts:44-47 | With distinct ids, the correct-option map does not depend on the order of the rows. |
| MatchStore.QuestionsForKeepsDistinct | backend/src/controllers/matchEngine.ts:34-37 | Selecting one match's rows keeps the table's question ids distinct. |
| MatchStore.StoredQuestionsDistinct | backend/src/controllers/matchEngine.ts:34-37 | In a valid store, every match's question rows have distinct ids. This discharges that proviso of `ScreenShowsSettledResult` for stored states. |
| ResultScreen.ScreenShowsSettledResult | app/screens/Result.tsx:70-72 | For a settled match with distinct question ids and single answers, each participant's screen shows "won" exactly when its own recount is higher and "draw" exactly when the recounts are equal. |
| MatchScenarios.ScenarioTicks | backend/src/controllers/matchEngine.ts:185-195 | With five-second questions, each deadline moves a started match on by one, and an earlier tick does nothing. |
| MatchScenarios.ScenarioOneNil | backend/src/controllers/matchEngine.ts:59-146 | One correct answer by player 1 and none by player 2: the match settles 1-0 for player 1, who gains +1/+1/+0; player 2 gains +1/+0/+1. |
| MatchScenarios.ScenarioDraw | backend/src/controllers/matchEngine.ts:128-145 | Three correct answers each: the match settles 3-3 with no winner, and each player gains one played match only. |

## Left out

- Network, Supabase queries and realtime channels are not modelled. The tables are values in the store. Reads always succeed; only writes fail, through parameters.
- The timer is left out. `setInterval` and overlapping ticks are modelled as ticks run one after another; races appear only through the conditional terminal write, as in `RacingFinishes`. The tick visits the scanned rows in ascending id order.
- The clock is not modelled. `now` is an integer millisecond parameter, and the float division of the elapsed time is replaced by the equivalent integer comparison.
- MatchEngine.AfterTick: a tick's writes are stamped with the scan's `now` and take no time. The source reads the clock once for the deadline test (backend/src/controllers/matchEngine.ts:183). It then reads it again for each write: for `question_start_time` (matchEngine.ts:164) and for `finished_at` (matchEngine.ts:88). Those later reads come after the awaits for earlier matches and, for a finish, after finishMatch's reads. So in the source a new question's deadline runs from a write time slightly after the scan. The model does not capture that delay, and `MatchScenarios.ScenarioTicks` meets its deadlines exactly at 10000 and 15000 only because of it. The same goes for `MatchEngine.VisitMatch`, `MatchEngine.ProcessActiveMatches`, `MatchEngine.AdvanceMatch` and `MatchEngine.FinishMatch`, which stamp with the `now` they are given.
- Question generation (backend/src/utils/questions.ts, an external language-model call followed by JSON parsing) is an input. The batch is `Some(questions)`, or `None` when the generator throws. The conversion of a generated answer to the text column is not modelled: answers are strings.
- Authentication middleware, Express routing and the answer-submission path are not part of this model. No server-side answer handler exists in the files modelled, so answer rows are given as a table.
- The body of the `increment_player_stats` procedure is not part of this model. It is modelled as an atomic add to the user's counters that creates missing rows with zeros.
- Database ids are UUIDs, modelled as counters. Column defaults (`waiting`, index 0, nulls) are assumed as written in `NewMatch`.
- `stake_amount` is a real and plays no role. Floating point is not modelled.
- The sort's order among rows with equal `question_index` is not fixed by the database; the model uses one stable insertion order.
- JoinMatch: the write is unconditional (`where id = ?` only), as in the source. Two concurrent joins are not modelled.
- StartMatch: the write is unconditional (`where id = ?` only), as in the source. Two concurrent starts are not modelled.
- ResultScreen.LoadScores: the screen's early return when the match row is missing is not modelled. The method takes the loaded match; the recount runs only once it exists.
- Answer order: neither answer select (backend/src/controllers/matchEngine.ts:49-52, app/screens/Result.tsx:40-43) has an `.order(...)`, so the database does not fix which of several answers the screen finds first. The model takes the table order. `LoadScores` holds for any order, but the wrong-then-right half of `ResultScreen.DuplicatesSplitTheCounts` assumes that order.
- ResultScreen.ScreenShowsSettledResult: the client's rows are assumed to be the ones the engine settled from. Answers arriving after settlement are not modelled.
- React rendering, styles, animations and the client's countdowns are left out.
