/**
 * GET /qa/:qa_id/questions: the questions of one session, each left-joined
 * with its answers and with the names of asker and answerer, newest question
 * first, then filtered by `hasAnswer` and shaped into thread entries.
 *
 * The SQL is read as functions over the tables: `Join` is the FROM/JOIN/WHERE
 * part, `SortByDateDesc` the ORDER BY, `Filter` and `Entries` the lodash chain.
 * Nothing here changes the database.
 */
module QuestionList {
  import opened Schema
  import opened Util

  const InvalidQaId := "Invalid QA ID"
  const RetrieveFailed := "Unable to Retrieve QA"
  const NoQuestions := "No Questions or Answers For This QA"

  /** One row of the query; the answer columns are null (None) when the question has no answer. */
  datatype JoinedRow = JoinedRow(
    questionId: nat, askingUser: nat, askedBy: string, questionText: string, questionDate: int,
    answerId: Option<nat>, answeringUser: Option<nat>, answeredBy: Option<string>,
    answerText: Option<string>, answerImageUrl: Option<string>, answerDate: Option<int>)

  /** The three readings of the `hasAnswer` query parameter. */
  datatype AnswerFilter = All | AnsweredOnly | UnansweredOnly

  /** Absent or empty: every row; exactly "true": answered rows; anything else: unanswered rows. */
  function FilterOf(hasAnswer: Option<string>): (f: AnswerFilter)
    ensures f == All <==> !Truthy(hasAnswer)
    ensures f == AnsweredOnly <==> hasAnswer == Some("true")
    ensures f == UnansweredOnly <==> Truthy(hasAnswer) && hasAnswer != Some("true")
  {
    if !Truthy(hasAnswer) then All
    else if hasAnswer.value == "true" then AnsweredOnly
    else UnansweredOnly
  }

  /** The name of the first user with this id (`users u ON u.id = ...`). */
  function UserName(users: seq<UserRow>, id: nat): (r: Option<string>)
    ensures r.Some? ==> exists u :: u in users && u.id == id && u.name == r.value
    ensures r.None? <==> forall u :: u in users ==> u.id != id
  {
    match UserById(users, id)
    case None => None
    case Some(u) => Some(u.name)
  }

  /** The answers posted to one question, in table order. */
  function AnswersTo(answers: seq<AnswerRow>, questionId: nat): (r: seq<AnswerRow>)
    ensures forall a :: a in r <==> a in answers && a.questionId == questionId
  {
    if answers == [] then []
    else (if answers[0].questionId == questionId then [answers[0]] else []) + AnswersTo(answers[1..], questionId)
  }

  /** Each answer to the question is listed as often as the table holds it, and no other answer is. */
  lemma {:induction false} AnswersToCounts(answers: seq<AnswerRow>, questionId: nat)
    ensures forall a ::
      multiset(AnswersTo(answers, questionId))[a] == (if a.questionId == questionId then multiset(answers)[a] else 0)
  {
    if answers != [] {
      AnswersToCounts(answers[1..], questionId);
      assert answers == [answers[0]] + answers[1..];
    }
  }

  function Unanswered(q: QuestionRow, asker: string): JoinedRow {
    JoinedRow(q.id, q.userId, asker, q.text, q.dateCreated, None, None, None, None, None, None)
  }

  function Paired(q: QuestionRow, asker: string, a: AnswerRow, users: seq<UserRow>): JoinedRow {
    JoinedRow(q.id, q.userId, asker, q.text, q.dateCreated,
      Some(a.id), Some(a.answeringUserId), UserName(users, a.answeringUserId), a.text, a.imageUrl, Some(a.dateCreated))
  }

  /** `x` is a row the left join makes of question `q`, asked by `asker`. */
  ghost predicate RowOf(x: JoinedRow, q: QuestionRow, asker: string, answers: seq<AnswerRow>, users: seq<UserRow>) {
    || ((forall a :: a in answers ==> a.questionId != q.id) && x == Unanswered(q, asker))
    || (exists a :: a in answers && a.questionId == q.id && x == Paired(q, asker, a, users))
  }

  /** `x` is a row of question `q`, whose asker must exist (the inner join on users). */
  ghost predicate JoinedFrom(x: JoinedRow, q: QuestionRow, answers: seq<AnswerRow>, users: seq<UserRow>) {
    match UserName(users, q.userId)
    case None => false
    case Some(asker) => RowOf(x, q, asker, answers, users)
  }

  /** One row per answer, pairing the question with it, in the answers' order. */
  function PairedRows(q: QuestionRow, asker: string, own: seq<AnswerRow>, users: seq<UserRow>): (r: seq<JoinedRow>)
    ensures |r| == |own|
    ensures forall i :: 0 <= i < |own| ==> r[i] == Paired(q, asker, own[i], users)
    ensures forall x :: x in r <==> exists a :: a in own && x == Paired(q, asker, a, users)
  {
    var r := seq(|own|, i requires 0 <= i < |own| => Paired(q, asker, own[i], users));
    assert forall x :: x in r ==> exists a :: a in own && x == Paired(q, asker, a, users) by {
      forall x | x in r ensures exists a :: a in own && x == Paired(q, asker, a, users) {
        var i :| 0 <= i < |r| && r[i] == x;
        assert own[i] in own;
      }
    }
    assert forall a :: a in own ==> Paired(q, asker, a, users) in r by {
      forall a | a in own ensures Paired(q, asker, a, users) in r {
        var i :| 0 <= i < |own| && own[i] == a;
        assert r[i] == Paired(q, asker, a, users);
      }
    }
    r
  }

  /** The rows of one question: one per answer to it (fan-out), or one with null answer columns. */
  function QuestionRows(q: QuestionRow, asker: string, answers: seq<AnswerRow>, users: seq<UserRow>): (r: seq<JoinedRow>)
    ensures |r| == if AnswersTo(answers, q.id) == [] then 1 else |AnswersTo(answers, q.id)|
    ensures forall x :: x in r <==> RowOf(x, q, asker, answers, users)
    ensures forall x :: x in r ==> x.questionId == q.id
  {
    var own := AnswersTo(answers, q.id);
    if own == [] then
      assert forall a :: a in answers ==> a.questionId != q.id;
      [Unanswered(q, asker)]
    else
      assert own[0] in answers && own[0].questionId == q.id by { assert own[0] in own; }
      PairedRows(q, asker, own, users)
  }

  /** The rows the join makes of one question: none outside the session or without its asker. */
  function OwnRows(q: QuestionRow, answers: seq<AnswerRow>, users: seq<UserRow>, qaId: int): (r: seq<JoinedRow>)
    ensures forall x :: x in r <==> q.qaId == qaId && JoinedFrom(x, q, answers, users)
    ensures forall x :: x in r ==> x.questionId == q.id
  {
    if q.qaId != qaId then []
    else match UserName(users, q.userId)
      case None => []
      case Some(asker) => QuestionRows(q, asker, answers, users)
  }

  /**
   * questions LEFT JOIN answers INNER JOIN users (asker) LEFT JOIN users
   * (answerer) WHERE questions.qaId = qaId: exactly the rows the join makes
   * of the session's questions.
   */
  function Join(questions: seq<QuestionRow>, answers: seq<AnswerRow>, users: seq<UserRow>, qaId: int)
    : (rows: seq<JoinedRow>)
    ensures forall x :: x in rows ==> exists q :: q in questions && q.qaId == qaId && JoinedFrom(x, q, answers, users)
    ensures forall q, x :: q in questions && q.qaId == qaId && JoinedFrom(x, q, answers, users) ==> x in rows
  {
    if questions == [] then []
    else
      var q := questions[0];
      var rest := Join(questions[1..], answers, users, qaId);
      assert forall q' :: q' in questions ==> q' == q || q' in questions[1..];
      OwnRows(q, answers, users, qaId) + rest
  }

  /** The rows that belong to one question, in order. */
  function RowsFor(rows: seq<JoinedRow>, questionId: nat): (r: seq<JoinedRow>)
    ensures forall x :: multiset(r)[x] == if x.questionId == questionId then multiset(rows)[x] else 0
  {
    if rows == [] then []
    else
      assert rows == [rows[0]] + rows[1..];
      (if rows[0].questionId == questionId then [rows[0]] else []) + RowsFor(rows[1..], questionId)
  }

  /** Question ids are unique, as the auto-increment key makes them. */
  predicate DistinctIds(questions: seq<QuestionRow>) {
    forall i, j :: 0 <= i < j < |questions| ==> questions[i].id != questions[j].id
  }

  /** The join of questions none of which has this id holds no row with it. */
  lemma {:induction false} JoinAvoids(
    questions: seq<QuestionRow>, answers: seq<AnswerRow>, users: seq<UserRow>, qaId: int, id: nat)
    requires forall q :: q in questions ==> q.id != id
    ensures forall x :: x in Join(questions, answers, users, qaId) ==> x.questionId != id
  {
    if questions != [] {
      JoinAvoids(questions[1..], answers, users, qaId, id);
      assert questions[0] in questions;
    }
  }

  /** Each row of question `q` occurs in the join as often as among q's own rows. */
  lemma {:induction false} JoinCounts(
    questions: seq<QuestionRow>, answers: seq<AnswerRow>, users: seq<UserRow>, qaId: int, q: QuestionRow)
    requires DistinctIds(questions) && q in questions
    ensures forall x: JoinedRow :: x.questionId == q.id ==>
      multiset(Join(questions, answers, users, qaId))[x] == multiset(OwnRows(q, answers, users, qaId))[x]
  {
    var q0 := questions[0];
    var own := OwnRows(q0, answers, users, qaId);
    var tail := questions[1..];
    var rest := Join(tail, answers, users, qaId);
    assert Join(questions, answers, users, qaId) == own + rest;
    if q0 == q {
      assert forall q' :: q' in tail ==> q'.id != q.id by {
        forall q' | q' in tail ensures q'.id != q.id {
          var k :| 0 <= k < |tail| && tail[k] == q';
          assert questions[k + 1] == q' && questions[0] == q;
        }
      }
      JoinAvoids(tail, answers, users, qaId, q.id);
      forall x: JoinedRow | x.questionId == q.id ensures multiset(rest)[x] == 0 {
      }
    } else {
      var i :| 0 <= i < |questions| && questions[i] == q;
      assert tail[i - 1] == q;
      assert q0.id != q.id;
      assert DistinctIds(tail) by {
        forall i, j | 0 <= i < j < |tail| ensures tail[i].id != tail[j].id {
          assert tail[i] == questions[i + 1] && tail[j] == questions[j + 1];
        }
      }
      JoinCounts(tail, answers, users, qaId, q);
      forall x: JoinedRow | x.questionId == q.id ensures multiset(own)[x] == 0 {
      }
    }
  }

  /**
   * Fan-out: with unique question ids, the join holds exactly the rows of
   * each question of the session whose asker exists, one per answer to it,
   * or a single row when it has none.
   */
  lemma JoinFanOut(
    questions: seq<QuestionRow>, answers: seq<AnswerRow>, users: seq<UserRow>, qaId: int, q: QuestionRow, asker: string)
    requires DistinctIds(questions)
    requires q in questions && q.qaId == qaId && UserName(users, q.userId) == Some(asker)
    ensures multiset(RowsFor(Join(questions, answers, users, qaId), q.id)) == multiset(QuestionRows(q, asker, answers, users))
    ensures |RowsFor(Join(questions, answers, users, qaId), q.id)| ==
      if AnswersTo(answers, q.id) == [] then 1 else |AnswersTo(answers, q.id)|
  {
    var mine := RowsFor(Join(questions, answers, users, qaId), q.id);
    var expected := QuestionRows(q, asker, answers, users);
    JoinCounts(questions, answers, users, qaId, q);
    assert OwnRows(q, answers, users, qaId) == expected;
    forall x: JoinedRow ensures multiset(mine)[x] == multiset(expected)[x] {
      if x.questionId != q.id {
        assert x !in expected;
      }
    }
    assert multiset(mine) == multiset(expected);
    assert |mine| == |multiset(mine)|;
  }

  /** Newest question first: question dates never increase along the rows. */
  ghost predicate Sorted(rows: seq<JoinedRow>) {
    forall i, j :: 0 <= i < j < |rows| ==> rows[i].questionDate >= rows[j].questionDate
  }

  /** A sorted sequence stays sorted under a new first row no older than any of its rows. */
  lemma SortedCons(a: JoinedRow, rest: seq<JoinedRow>)
    requires Sorted(rest)
    requires forall y :: y in rest ==> a.questionDate >= y.questionDate
    ensures Sorted([a] + rest)
  {
    var s := [a] + rest;
    forall i, j | 0 <= i < j < |s| ensures s[i].questionDate >= s[j].questionDate {
      assert s[j] == rest[j - 1];
      if i == 0 {
        assert rest[j - 1] in rest;
      } else {
        assert s[i] == rest[i - 1];
      }
    }
  }

  /** The first row of a sorted sequence is no older than any later one. */
  lemma SortedHead(rows: seq<JoinedRow>)
    requires Sorted(rows) && rows != []
    ensures forall y :: y in rows[1..] ==> rows[0].questionDate >= y.questionDate
  {
    forall y | y in rows[1..] ensures rows[0].questionDate >= y.questionDate {
      var k :| 0 <= k < |rows[1..]| && rows[1..][k] == y;
      assert rows[k + 1] == y;
    }
  }

  /** A row no older than the first of sorted rows can go in front of them. */
  lemma SortedPrepend(x: JoinedRow, rows: seq<JoinedRow>)
    requires Sorted(rows) && (rows == [] || x.questionDate >= rows[0].questionDate)
    ensures Sorted([x] + rows)
  {
    if rows != [] {
      SortedHead(rows);
      assert rows == [rows[0]] + rows[1..];
    }
    SortedCons(x, rows);
  }

  /** The first of sorted rows can stay in front of a sorted mix of the others and a younger row. */
  lemma SortedKeepHead(rows: seq<JoinedRow>, x: JoinedRow, rest: seq<JoinedRow>)
    requires Sorted(rows) && rows != [] && x.questionDate < rows[0].questionDate
    requires Sorted(rest) && forall y :: y in rest ==> y == x || y in rows[1..]
    ensures Sorted([rows[0]] + rest)
  {
    SortedHead(rows);
    SortedCons(rows[0], rest);
  }

  /** Insert one row into rows already sorted newest first. */
  function InsertByDate(x: JoinedRow, rows: seq<JoinedRow>): (r: seq<JoinedRow>)
    ensures multiset(r) == multiset(rows) + multiset{x}
    ensures forall y :: y in r ==> y == x || y in rows
    ensures Sorted(rows) ==> Sorted(r)
  {
    if rows == [] || x.questionDate >= rows[0].questionDate then
      assert Sorted(rows) ==> Sorted([x] + rows) by {
        if Sorted(rows) { SortedPrepend(x, rows); }
      }
      [x] + rows
    else
      var rest := InsertByDate(x, rows[1..]);
      assert rows == [rows[0]] + rows[1..];
      assert Sorted(rows) ==> Sorted([rows[0]] + rest) by {
        if Sorted(rows) {
          assert Sorted(rows[1..]);
          SortedKeepHead(rows, x, rest);
        }
      }
      [rows[0]] + rest
  }

  /** ORDER BY questions.dateCreated DESC: the same rows, newest question first. */
  function SortByDateDesc(rows: seq<JoinedRow>): (r: seq<JoinedRow>)
    ensures Sorted(r)
    ensures multiset(r) == multiset(rows)
    ensures |r| == |rows|
  {
    if rows == [] then []
    else
      assert rows == [rows[0]] + rows[1..];
      InsertByDate(rows[0], SortByDateDesc(rows[1..]))
  }

  /** Whether the filter keeps a row: `answerId !== null` or `answerId === null`. */
  predicate Keep(f: AnswerFilter, x: JoinedRow) {
    match f
    case All => true
    case AnsweredOnly => x.answerId.Some?
    case UnansweredOnly => x.answerId.None?
  }

  /** The lodash `filter`: the kept rows; `FilterAppend` shows they keep their order. */
  function Filter(rows: seq<JoinedRow>, f: AnswerFilter): (r: seq<JoinedRow>)
    ensures forall x :: x in r <==> x in rows && Keep(f, x)
    ensures f == All ==> r == rows
  {
    if rows == [] then []
    else
      var rest := Filter(rows[1..], f);
      if Keep(f, rows[0]) then [rows[0]] + rest else rest
  }

  /** Filtering rows sorted newest first leaves them sorted. */
  lemma {:induction false} FilterKeepsOrder(rows: seq<JoinedRow>, f: AnswerFilter)
    requires Sorted(rows)
    ensures Sorted(Filter(rows, f))
  {
    if rows != [] {
      assert Sorted(rows[1..]);
      FilterKeepsOrder(rows[1..], f);
      if Keep(f, rows[0]) {
        SortedHead(rows);
        SortedCons(rows[0], Filter(rows[1..], f));
      }
    }
  }

  /** A filter that keeps none of the rows leaves nothing. */
  lemma {:induction false} FilterDropsAll(rows: seq<JoinedRow>, f: AnswerFilter)
    requires forall x :: x in rows ==> !Keep(f, x)
    ensures Filter(rows, f) == []
  {
    if rows != [] {
      assert rows[0] in rows;
      FilterDropsAll(rows[1..], f);
    }
  }

  /** One step of the filter: a first row, when kept, followed by the filtered rest. */
  lemma FilterCons(x: JoinedRow, rest: seq<JoinedRow>, f: AnswerFilter)
    ensures Keep(f, x) ==> Filter([x] + rest, f) == [x] + Filter(rest, f)
    ensures !Keep(f, x) ==> Filter([x] + rest, f) == Filter(rest, f)
  {
    assert ([x] + rest)[0] == x && ([x] + rest)[1..] == rest;
  }

  /** The filter works row by row: filtering a concatenation filters each part and keeps their order. */
  lemma {:induction false} FilterAppend(a: seq<JoinedRow>, b: seq<JoinedRow>, f: AnswerFilter)
    ensures Filter(a + b, f) == Filter(a, f) + Filter(b, f)
  {
    if a == [] {
      assert a + b == b;
    } else {
      var x, tail := a[0], a[1..];
      assert a + b == [x] + (tail + b);
      assert a == [x] + tail;
      FilterAppend(tail, b, f);
      FilterCons(x, tail + b, f);
      FilterCons(x, tail, f);
      if Keep(f, x) {
        assert [x] + (Filter(tail, f) + Filter(b, f)) == ([x] + Filter(tail, f)) + Filter(b, f);
      }
    }
  }

  /** `x || null` on an id. */
  function IdOrNull(x: Option<nat>): Option<nat> {
    if x.Some? && x.value != 0 then x else None
  }

  /** `x || null` on a timestamp. */
  function DateOrNull(x: Option<int>): Option<int> {
    if x.Some? && x.value != 0 then x else None
  }

  /**
   * organizeGetQuestionsResponse: the question columns verbatim; each answer
   * column as it is when truthy and null otherwise; hasAnswer = !!answerId.
   */
  function Organize(x: JoinedRow): (e: ThreadEntry)
    ensures e.question == QuestionPart(x.askingUser, x.askedBy, x.questionId, x.questionText, x.questionDate)
    ensures e.hasAnswer <==> e.answer.id.Some?
    ensures x.answerId.None? ==> !e.hasAnswer
    ensures x.answerId.Some? && x.answerId.value > 0 ==> e.hasAnswer
    // each answer column is kept when truthy and becomes null otherwise
    ensures x.answerId.Some? && x.answerId.value != 0 ==> e.answer.id == x.answerId
    ensures !(x.answerId.Some? && x.answerId.value != 0) ==> e.answer.id.None?
    ensures x.answeringUser.Some? && x.answeringUser.value != 0 ==> e.answer.userId == x.answeringUser
    ensures !(x.answeringUser.Some? && x.answeringUser.value != 0) ==> e.answer.userId.None?
    ensures Truthy(x.answeredBy) ==> e.answer.userName == x.answeredBy
    ensures !Truthy(x.answeredBy) ==> e.answer.userName.None?
    ensures Truthy(x.answerText) ==> e.answer.text == x.answerText
    ensures !Truthy(x.answerText) ==> e.answer.text.None?
    ensures Truthy(x.answerImageUrl) ==> e.answer.imageUrl == x.answerImageUrl
    ensures !Truthy(x.answerImageUrl) ==> e.answer.imageUrl.None?
    ensures x.answerDate.Some? && x.answerDate.value != 0 ==> e.answer.dateCreated == x.answerDate
    ensures !(x.answerDate.Some? && x.answerDate.value != 0) ==> e.answer.dateCreated.None?
  {
    ThreadEntry(
      QuestionPart(x.askingUser, x.askedBy, x.questionId, x.questionText, x.questionDate),
      AnswerPart(
        IdOrNull(x.answeringUser), OrNull(x.answeredBy), IdOrNull(x.answerId),
        OrNull(x.answerText), OrNull(x.answerImageUrl), DateOrNull(x.answerDate)),
      x.answerId.Some? && x.answerId.value != 0)
  }

  /** The lodash `map`: one entry per row, in order. */
  function Entries(rows: seq<JoinedRow>): (es: seq<ThreadEntry>)
    ensures |es| == |rows|
    ensures forall i :: 0 <= i < |rows| ==> es[i] == Organize(rows[i])
  {
    seq(|rows|, i requires 0 <= i < |rows| => Organize(rows[i]))
  }

  /** Newest question first, for entries. */
  ghost predicate EntriesSorted(es: seq<ThreadEntry>) {
    forall i, j :: 0 <= i < j < |es| ==> es[i].question.dateCreated >= es[j].question.dateCreated
  }

  /** The entries a session's thread lists under a filter. */
  function ThreadOf(questions: seq<QuestionRow>, answers: seq<AnswerRow>, users: seq<UserRow>, qaId: int, f: AnswerFilter)
    : seq<ThreadEntry>
  {
    Entries(Filter(SortByDateDesc(Join(questions, answers, users, qaId)), f))
  }

  /**
   * The response of the query callback: a store failure; the "no questions"
   * success when the join has no rows at all; otherwise a success listing the
   * filtered entries, possibly none.
   */
  function ListThread(
    questions: seq<QuestionRow>, answers: seq<AnswerRow>, users: seq<UserRow>,
    qaId: int, hasAnswer: Option<string>, queryFails: bool): (e: Envelope)
    ensures queryFails ==> e.status == Failed && e.message == RetrieveFailed && e.data == EmptyObject
    ensures !queryFails ==> e.status == Success
    ensures !queryFails && Join(questions, answers, users, qaId) == [] ==>
      e.message == NoQuestions && e.data == EmptyObject
    ensures !queryFails && Join(questions, answers, users, qaId) != [] ==>
      e.message == SuccessMessage && e.data == Thread(ThreadOf(questions, answers, users, qaId, FilterOf(hasAnswer)))
  {
    if queryFails then StoreFailure(QueryFailed, RetrieveFailed)
    else
      var rows := SortByDateDesc(Join(questions, answers, users, qaId));
      if |rows| == 0 then NotFound(NoQuestions)
      else Succeeded(Thread(Entries(Filter(rows, FilterOf(hasAnswer)))))
  }

  /**
   * getList: the id check calls finalizeResponse but does not return, so for
   * a non-numeric id it is called twice, the second time from the query's
   * callback; the envelopes are listed in the order they are built.
   */
  function GetList(
    questions: seq<QuestionRow>, answers: seq<AnswerRow>, users: seq<UserRow>,
    qaId: int, qaIdNumeric: bool, hasAnswer: Option<string>, queryFails: bool): (sent: seq<Envelope>)
    ensures |sent| == if qaIdNumeric then 1 else 2
    ensures !qaIdNumeric ==> sent[0].status == Failed && sent[0].message == InvalidQaId && sent[0].data == EmptyObject
    ensures sent[|sent| - 1] == ListThread(questions, answers, users, qaId, hasAnswer, queryFails)
  {
    var early := if qaIdNumeric then [] else [FinalizeResponse(Some(EmptyErrObject), Some(InvalidQaId), None)];
    early + [ListThread(questions, answers, users, qaId, hasAnswer, queryFails)]
  }

  /** For an id that is not a number, the code as written builds two envelopes: a failure, then the query's own success. */
  lemma GetListAnswersTwice()
    ensures GetList([], [], [], 0, false, None, false) ==
      [Envelope(Failed, InvalidQaId, EmptyObject), Envelope(Success, NoQuestions, EmptyObject)]
  {
  }

  /** getList with the `return` the id check evidently intends: exactly one response per request. */
  function GetListReturning(
    questions: seq<QuestionRow>, answers: seq<AnswerRow>, users: seq<UserRow>,
    qaId: int, qaIdNumeric: bool, hasAnswer: Option<string>, queryFails: bool): (sent: seq<Envelope>)
    ensures |sent| == 1
    ensures !qaIdNumeric ==> sent[0] == Envelope(Failed, InvalidQaId, EmptyObject)
    ensures qaIdNumeric ==> sent == GetList(questions, answers, users, qaId, qaIdNumeric, hasAnswer, queryFails)
  {
    if qaIdNumeric then [ListThread(questions, answers, users, qaId, hasAnswer, queryFails)]
    else [FinalizeResponse(Some(EmptyErrObject), Some(InvalidQaId), None)]
  }

  /** Shaping keeps the order: entries of rows sorted newest first are sorted too. */
  lemma EntriesKeepOrder(rows: seq<JoinedRow>)
    requires Sorted(rows)
    ensures EntriesSorted(Entries(rows))
  {
    var es := Entries(rows);
    forall i, j | 0 <= i < j < |es| ensures es[i].question.dateCreated >= es[j].question.dateCreated {
      assert es[i].question.dateCreated == rows[i].questionDate;
      assert es[j].question.dateCreated == rows[j].questionDate;
    }
  }

  /** The entries of rows are exactly the shaped rows. */
  lemma EntriesOf(rows: seq<JoinedRow>)
    ensures forall e :: e in Entries(rows) <==> exists x :: x in rows && e == Organize(x)
  {
    var es := Entries(rows);
    forall e | e in es ensures exists x :: x in rows && e == Organize(x) {
      var i :| 0 <= i < |es| && es[i] == e;
      assert rows[i] in rows;
    }
    forall x | x in rows ensures Organize(x) in es {
      var i :| 0 <= i < |rows| && rows[i] == x;
      assert es[i] == Organize(x);
    }
  }

  /** Sorting keeps the rows: the same members before and after. */
  lemma SortKeepsRows(rows: seq<JoinedRow>)
    ensures forall x :: x in SortByDateDesc(rows) <==> x in rows
  {
    var sorted := SortByDateDesc(rows);
    forall x ensures x in sorted <==> x in rows {
      assert x in sorted <==> x in multiset(sorted);
      assert x in rows <==> x in multiset(rows);
    }
  }

  /** Every entry of a thread comes from a joined row the filter keeps, and every such row gives one; newest first. */
  lemma ThreadContents(questions: seq<QuestionRow>, answers: seq<AnswerRow>, users: seq<UserRow>, qaId: int, f: AnswerFilter)
    ensures EntriesSorted(ThreadOf(questions, answers, users, qaId, f))
    ensures forall e :: e in ThreadOf(questions, answers, users, qaId, f) <==>
      exists x :: x in Join(questions, answers, users, qaId) && Keep(f, x) && e == Organize(x)
  {
    var joined := Join(questions, answers, users, qaId);
    var kept := Filter(SortByDateDesc(joined), f);
    SortKeepsRows(joined);
    FilterKeepsOrder(SortByDateDesc(joined), f);
    EntriesKeepOrder(kept);
    EntriesOf(kept);
  }

  /** The answered and the unanswered rows split every row set: disjoint, and together all of it. */
  lemma {:induction false} FilterPartition(rows: seq<JoinedRow>)
    ensures multiset(Filter(rows, AnsweredOnly)) + multiset(Filter(rows, UnansweredOnly)) == multiset(rows)
    ensures forall x :: x in Filter(rows, AnsweredOnly) ==> x !in Filter(rows, UnansweredOnly)
  {
    if rows != [] {
      FilterPartition(rows[1..]);
      assert rows == [rows[0]] + rows[1..];
    }
  }

  /** The filter only drops rows: what it returns is a sub-multiset of its input. */
  lemma FilterSubMultiset(rows: seq<JoinedRow>, f: AnswerFilter)
    ensures multiset(Filter(rows, f)) <= multiset(rows)
  {
    if f != All {
      FilterPartition(rows);
    }
  }

  /**
   * With answer ids handed out from 1, a thread filtered to answered rows
   * lists only entries with hasAnswer, and one filtered to unanswered rows
   * only entries without an answer and with every answer field null.
   */
  lemma FilterMatchesHasAnswer(
    questions: seq<QuestionRow>, answers: seq<AnswerRow>, users: seq<UserRow>, qaId: int)
    requires forall a :: a in answers ==> a.id >= 1
    ensures forall e :: e in ThreadOf(questions, answers, users, qaId, AnsweredOnly) ==> e.hasAnswer
    ensures forall e :: e in ThreadOf(questions, answers, users, qaId, UnansweredOnly) ==>
      !e.hasAnswer && e.answer == AnswerPart(None, None, None, None, None, None)
  {
    ThreadContents(questions, answers, users, qaId, AnsweredOnly);
    ThreadContents(questions, answers, users, qaId, UnansweredOnly);
    var joined := Join(questions, answers, users, qaId);
    forall x | x in joined
      ensures x.answerId.Some? ==> x.answerId.value >= 1
      ensures x.answerId.None? ==> (x.answeringUser.None? && x.answeredBy.None? && x.answerText.None? &&
        x.answerImageUrl.None? && x.answerDate.None?)
    {
      var q :| q in questions && q.qaId == qaId && JoinedFrom(x, q, answers, users);
    }
  }

  /**
   * Rows that are all filtered out are not "no rows": a session whose
   * questions have no answers yet, listed with hasAnswer=true, gets a
   * success with an empty list, not the "no questions" message.
   */
  lemma AllFilteredOut(questions: seq<QuestionRow>, answers: seq<AnswerRow>, users: seq<UserRow>, qaId: int, q: QuestionRow, u: UserRow)
    requires q in questions && q.qaId == qaId && u in users && u.id == q.userId
    requires forall q', a :: q' in questions && q'.qaId == qaId && a in answers ==> a.questionId != q'.id
    ensures ListThread(questions, answers, users, qaId, Some("true"), false) == Envelope(Success, SuccessMessage, Thread([]))
  {
    var joined := Join(questions, answers, users, qaId);
    var asker := UserName(users, q.userId).value;
    assert JoinedFrom(Unanswered(q, asker), q, answers, users);
    assert Unanswered(q, asker) in joined;
    forall x | x in joined ensures x.answerId.None? {
      var q' :| q' in questions && q'.qaId == qaId && JoinedFrom(x, q', answers, users);
    }
    var kept := Filter(SortByDateDesc(joined), AnsweredOnly);
    SortKeepsRows(joined);
    FilterDropsAll(SortByDateDesc(joined), AnsweredOnly);
  }
}
