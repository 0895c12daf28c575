/** The question rows of a match: how `createMatch` numbers a generated batch,
    and how `startMatch` orders the rows by `question_index` and strips the
    correct option before sending them to the players. */
module QuestionRows {
  import opened MatchTypes

  /** The rows `createMatch` inserts: the i-th generated question becomes row
      `question_index = i`, with the store's next free ids. */
  function NumberQuestions(matchId: MatchId, firstId: QuestionId, generated: seq<Question>): seq<QuestionRow>
  {
    seq(|generated|, i requires 0 <= i < |generated| =>
      QuestionRow(firstId + i, matchId, i, generated[i].question, generated[i].options, generated[i].answer))
  }

  /** Each generated question is stored at its own position with its text,
      options and answer, under consecutive ids. */
  lemma NumberQuestionsLaw(matchId: MatchId, firstId: QuestionId, generated: seq<Question>, i: nat)
    requires i < |generated|
    ensures |NumberQuestions(matchId, firstId, generated)| == |generated|
    ensures var row := NumberQuestions(matchId, firstId, generated)[i];
      && row.id == firstId + i && row.matchId == matchId && row.questionIndex == i
      && row.questionText == generated[i].question && row.options == generated[i].options
      && row.correctOption == generated[i].answer
  {
  }

  predicate SortedByIndex(rows: seq<QuestionRow>)
  {
    forall i, j :: 0 <= i < j < |rows| ==> rows[i].questionIndex <= rows[j].questionIndex
  }

  /** Puts `r` in front of the first row with a larger or equal index. */
  function InsertByIndex(r: QuestionRow, rows: seq<QuestionRow>): (s: seq<QuestionRow>)
    ensures |s| == |rows| + 1
    ensures multiset(s) == multiset(rows) + multiset{r}
    ensures forall x :: x in s ==> x in rows || x == r
    decreases |rows|
  {
    if rows == [] then [r]
    else if r.questionIndex <= rows[0].questionIndex then [r] + rows
    else
      assert rows == [rows[0]] + rows[1..];
      [rows[0]] + InsertByIndex(r, rows[1..])
  }

  /** Inserting into sorted rows keeps them sorted. */
  lemma {:induction false} InsertByIndexSorted(r: QuestionRow, rows: seq<QuestionRow>)
    requires SortedByIndex(rows)
    ensures SortedByIndex(InsertByIndex(r, rows))
    decreases |rows|
  {
    if rows != [] && r.questionIndex > rows[0].questionIndex {
      var tail := InsertByIndex(r, rows[1..]);
      InsertByIndexSorted(r, rows[1..]);
      forall j | 0 <= j < |tail| ensures rows[0].questionIndex <= tail[j].questionIndex {
        assert tail[j] in tail;
      }
      assert InsertByIndex(r, rows) == [rows[0]] + tail;
    }
  }

  /** `.order("question_index", { ascending: true })`. */
  function SortByIndex(rows: seq<QuestionRow>): (s: seq<QuestionRow>)
    ensures SortedByIndex(s)
    ensures |s| == |rows| && multiset(s) == multiset(rows)
    decreases |rows|
  {
    if rows == [] then []
    else
      assert rows == [rows[0]] + rows[1..];
      var t := SortByIndex(rows[1..]);
      InsertByIndexSorted(rows[0], t);
      InsertByIndex(rows[0], t)
  }

  /** Rows that are already in index order come back unchanged. */
  lemma {:induction false} SortSortedIsIdentity(rows: seq<QuestionRow>)
    requires SortedByIndex(rows)
    ensures SortByIndex(rows) == rows
    decreases |rows|
  {
    if rows != [] {
      SortSortedIsIdentity(rows[1..]);
      assert [rows[0]] + rows[1..] == rows;
    }
  }

  /** The columns `startMatch` selects: `id, question_index, question_text, options`. */
  function PublicView(rows: seq<QuestionRow>): seq<PublicQuestion>
  {
    seq(|rows|, i requires 0 <= i < |rows| =>
      PublicQuestion(rows[i].id, rows[i].questionIndex, rows[i].questionText, rows[i].options))
  }

  /** The generated questions as they are shown once their match starts. */
  function Shown(firstId: QuestionId, generated: seq<Question>): seq<PublicQuestion>
  {
    seq(|generated|, i requires 0 <= i < |generated| =>
      PublicQuestion(firstId + i, i, generated[i].question, generated[i].options))
  }

  /** Numbering a batch and then ordering it by index gives back the batch in
      generation order, each question with its text and options and without its
      correct option. */
  lemma NumberedThenSortedIsGenerated(matchId: MatchId, firstId: QuestionId, generated: seq<Question>)
    ensures SortByIndex(NumberQuestions(matchId, firstId, generated)) == NumberQuestions(matchId, firstId, generated)
    ensures PublicView(SortByIndex(NumberQuestions(matchId, firstId, generated))) == Shown(firstId, generated)
  {
    var rows := NumberQuestions(matchId, firstId, generated);
    NumberedIsSorted(matchId, firstId, generated);
    SortSortedIsIdentity(rows);
    NumberedViewIsShown(matchId, firstId, generated);
  }

  lemma NumberedIsSorted(matchId: MatchId, firstId: QuestionId, generated: seq<Question>)
    ensures SortedByIndex(NumberQuestions(matchId, firstId, generated))
  {
    var rows := NumberQuestions(matchId, firstId, generated);
    forall i, j | 0 <= i < j < |rows| ensures rows[i].questionIndex <= rows[j].questionIndex {
      assert rows[i].questionIndex == i && rows[j].questionIndex == j;
    }
  }

  lemma NumberedViewIsShown(matchId: MatchId, firstId: QuestionId, generated: seq<Question>)
    ensures PublicView(NumberQuestions(matchId, firstId, generated)) == Shown(firstId, generated)
  {
    var rows := NumberQuestions(matchId, firstId, generated);
    var view := PublicView(rows);
    assert |view| == |generated|;
    forall i | 0 <= i < |view| ensures view[i] == Shown(firstId, generated)[i] {
    }
  }

  /** Inserting a row with a new id keeps the ids distinct. */
  lemma {:induction false} InsertKeepsDistinct(r: QuestionRow, rows: seq<QuestionRow>)
    requires DistinctIds(rows)
    requires forall x :: x in rows ==> x.id != r.id
    ensures DistinctIds(InsertByIndex(r, rows))
    decreases |rows|
  {
    if rows != [] && r.questionIndex > rows[0].questionIndex {
      var rest := rows[1..];
      assert DistinctIds(rest);
      InsertKeepsDistinct(r, rest);
      var tail := InsertByIndex(r, rest);
      forall x | x in tail ensures x.id != rows[0].id {
        if x in rest {
          var k :| 0 <= k < |rest| && rest[k] == x;
          assert rows[k + 1] == x;
        }
      }
      assert InsertByIndex(r, rows) == [rows[0]] + tail;
      assert forall j :: 0 <= j < |tail| ==> tail[j] in tail;
    }
  }

  /** Ordering rows by index keeps their ids distinct. */
  lemma {:induction false} SortKeepsDistinct(rows: seq<QuestionRow>)
    requires DistinctIds(rows)
    ensures DistinctIds(SortByIndex(rows))
    decreases |rows|
  {
    if rows != [] {
      var rest := rows[1..];
      assert DistinctIds(rest);
      SortKeepsDistinct(rest);
      var t := SortByIndex(rest);
      forall x | x in t ensures x.id != rows[0].id {
        assert x in multiset(t);
        var k :| 0 <= k < |rest| && rest[k] == x;
        assert rows[k + 1] == x;
      }
      InsertKeepsDistinct(rows[0], t);
    }
  }
}
