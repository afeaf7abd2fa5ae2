/**
 * The MySQL database behind the handlers: four append-only tables, each with
 * an auto-increment key. An insert either fails (the store reports an error
 * and adds nothing) or appends one row under the next id.
 */
module Store {
  import opened Schema

  /** Every id is a key the table handed out (1 up to, not including, nextId), and no id repeats. */
  ghost predicate UsersValid(t: Table<UserRow>) {
    && 1 <= t.nextId
    && (forall i :: 0 <= i < |t.rows| ==> 1 <= t.rows[i].id < t.nextId)
    && (forall i, j :: 0 <= i < j < |t.rows| ==> t.rows[i].id != t.rows[j].id)
    && (forall i, j :: 0 <= i < j < |t.rows| ==> t.rows[i].name != t.rows[j].name)
  }

  ghost predicate QasValid(t: Table<QaRow>) {
    && 1 <= t.nextId
    && (forall i :: 0 <= i < |t.rows| ==> 1 <= t.rows[i].id < t.nextId)
    && (forall i, j :: 0 <= i < j < |t.rows| ==> t.rows[i].id != t.rows[j].id)
  }

  ghost predicate QuestionsValid(t: Table<QuestionRow>) {
    && 1 <= t.nextId
    && (forall i :: 0 <= i < |t.rows| ==> 1 <= t.rows[i].id < t.nextId)
    && (forall i, j :: 0 <= i < j < |t.rows| ==> t.rows[i].id != t.rows[j].id)
  }

  ghost predicate AnswersValid(t: Table<AnswerRow>) {
    && 1 <= t.nextId
    && (forall i :: 0 <= i < |t.rows| ==> 1 <= t.rows[i].id < t.nextId)
    && (forall i, j :: 0 <= i < j < |t.rows| ==> t.rows[i].id != t.rows[j].id)
  }

  /** Whether some user already carries this name (the unique key on `users.name`). */
  predicate NameTaken(rows: seq<UserRow>, name: string) {
    exists u :: u in rows && u.name == name
  }

  /** `t` with `row` appended under the next id. */
  function Append<R>(t: Table<R>, row: R): Table<R> {
    Table(t.rows + [row], t.nextId + 1)
  }

  class Database {
    var users: Table<UserRow>
    var qas: Table<QaRow>
    var questions: Table<QuestionRow>
    var answers: Table<AnswerRow>

    ghost predicate Valid()
      reads this
    {
      UsersValid(users) && QasValid(qas) && QuestionsValid(questions) && AnswersValid(answers)
    }

    /** An empty database: every table empty, every key starting at 1. */
    constructor ()
      ensures Valid()
      ensures users == Table([], 1) && qas == Table([], 1)
      ensures questions == Table([], 1) && answers == Table([], 1)
    {
      users := Table([], 1);
      qas := Table([], 1);
      questions := Table([], 1);
      answers := Table([], 1);
    }

    /** INSERT INTO users (name, isHost); refused when the query fails or the name is taken. */
    method InsertUser(name: string, isHost: HostFlag, fails: bool) returns (r: Result<nat>)
      requires Valid()
      modifies this`users
      ensures Valid()
      ensures fails ==> r == Err(QueryFailed)
      ensures !fails && NameTaken(old(users.rows), name) ==> r == Err(DuplicateName)
      ensures r.Ok? <==> !fails && !NameTaken(old(users.rows), name)
      ensures r.Err? ==> users == old(users)
      ensures r.Ok? ==> r == Ok(old(users.nextId)) && users == Append(old(users), UserRow(old(users.nextId), name, isHost))
    {
      if fails {
        return Err(QueryFailed);
      }
      if NameTaken(users.rows, name) {
        return Err(DuplicateName);
      }
      r := Ok(users.nextId);
      users := Append(users, UserRow(users.nextId, name, isHost));
    }

    /** INSERT INTO qa (hostId, name, startDate, endDate). */
    method InsertQa(hostId: nat, name: string, startDate: int, endDate: int, fails: bool) returns (r: Result<nat>)
      requires Valid()
      modifies this`qas
      ensures Valid()
      ensures fails <==> r.Err?
      ensures r.Err? ==> r == Err(QueryFailed) && qas == old(qas)
      ensures r.Ok? ==> r == Ok(old(qas.nextId)) && qas == Append(old(qas), QaRow(old(qas.nextId), hostId, name, startDate, endDate))
    {
      if fails {
        return Err(QueryFailed);
      }
      r := Ok(qas.nextId);
      qas := Append(qas, QaRow(qas.nextId, hostId, name, startDate, endDate));
    }

    /** INSERT INTO questions (qaId, userId, text); `now` is the server-assigned creation time. */
    method InsertQuestion(qaId: int, userId: nat, text: string, now: int, fails: bool) returns (r: Result<nat>)
      requires Valid()
      modifies this`questions
      ensures Valid()
      ensures fails <==> r.Err?
      ensures r.Err? ==> r == Err(QueryFailed) && questions == old(questions)
      ensures r.Ok? ==> (r == Ok(old(questions.nextId)) &&
        questions == Append(old(questions), QuestionRow(old(questions.nextId), qaId, userId, text, now)))
    {
      if fails {
        return Err(QueryFailed);
      }
      r := Ok(questions.nextId);
      questions := Append(questions, QuestionRow(questions.nextId, qaId, userId, text, now));
    }

    /** INSERT INTO answers (questionId, answeringUserId, text, imageURL); `now` is the creation time. */
    method InsertAnswer(questionId: int, userId: nat, text: Option<string>, imageUrl: Option<string>, now: int, fails: bool)
      returns (r: Result<nat>)
      requires Valid()
      modifies this`answers
      ensures Valid()
      ensures fails <==> r.Err?
      ensures r.Err? ==> r == Err(QueryFailed) && answers == old(answers)
      ensures r.Ok? ==> (r == Ok(old(answers.nextId)) &&
        answers == Append(old(answers), AnswerRow(old(answers.nextId), questionId, userId, text, imageUrl, now)))
    {
      if fails {
        return Err(QueryFailed);
      }
      r := Ok(answers.nextId);
      answers := Append(answers, AnswerRow(answers.nextId, questionId, userId, text, imageUrl, now));
    }
  }
}
