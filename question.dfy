/**
 * POST /question/:qa_id: validate, resolve the asking user, insert the
 * question under the route's session id. Nothing checks that the session
 * exists.
 */
module Question {
  import opened Schema
  import opened Store
  import opened Util
  import User

  const AskerMissing := "Name of Asking User is Missing"
  const TextMissing := "Question is Missing"
  const CreateFailed := "Unable to Create Question"

  /** The body of POST /question/:qa_id. */
  datatype QuestionRequest = QuestionRequest(askedByName: Option<string>, text: Option<string>)

  /** The checks of `add`, in order: the message of the first that fails, or None. */
  function Validate(req: QuestionRequest): (r: Option<string>)
    ensures r.None? <==> Truthy(req.askedByName) && Truthy(req.text)
    ensures !Truthy(req.askedByName) ==> r == Some(AskerMissing)
    ensures Truthy(req.askedByName) && !Truthy(req.text) ==> r == Some(TextMissing)
  {
    if !Truthy(req.askedByName) then Some(AskerMissing)
    else if !Truthy(req.text) then Some(TextMissing)
    else None
  }

  /**
   * What `addQuestion` does to the questions table and sends, given the
   * outcome of resolving the asker. An unresolved asker makes `user.id` throw.
   */
  ghost predicate AddQuestionEffect(
    questions0: Table<QuestionRow>, questions1: Table<QuestionRow>,
    qaId: int, text: string, now: int, user: Result<UserRow>, insertFails: bool, reply: Reply)
  {
    match user
    case Err(_) => reply == Thrown && questions1 == questions0
    case Ok(u) =>
      if insertFails then
        reply == Sent(StoreFailure(QueryFailed, CreateFailed)) && questions1 == questions0
      else
        && questions1 == Append(questions0, QuestionRow(questions0.nextId, qaId, u.id, text, now))
        && reply == Sent(Succeeded(QuestionCreated(UserRef(u.id, u.name), questions0.nextId, qaId, text)))
  }

  /** `addQuestion`: insert the question under the route's session id and echo it. */
  method AddQuestion(db: Database, qaId: int, text: string, now: int, user: Result<UserRow>, insertFails: bool)
    returns (reply: Reply)
    requires db.Valid()
    modifies db`questions
    ensures db.Valid()
    ensures AddQuestionEffect(old(db.questions), db.questions, qaId, text, now, user, insertFails, reply)
  {
    if user.Err? {
      return Thrown;
    }
    var u := user.value;
    var inserted := db.InsertQuestion(qaId, u.id, text, now, insertFails);
    if inserted.Err? {
      return Sent(StoreFailure(inserted.error, CreateFailed));
    }
    reply := Sent(Succeeded(QuestionCreated(UserRef(u.id, u.name), inserted.value, qaId, text)));
  }

  /**
   * `add` (POST /question/:qa_id): an invalid request is rejected and changes
   * nothing; a valid one resolves the asker with isHost = true, as the code
   * passes it, and goes on to `addQuestion`. `now` is the creation time the
   * store assigns.
   */
  method Add(db: Database, qaId: int, req: QuestionRequest, now: int, faults: Faults) returns (reply: Reply)
    requires db.Valid()
    modifies db`users, db`questions
    ensures db.Valid()
    ensures Validate(req).Some? ==> reply == Sent(Rejected(Validate(req).value)) && unchanged(db)
    ensures Validate(req).None? ==>
      var resolved := User.GetOutcome(old(db.users), req.askedByName.value, true, faults.userLookup, faults.userInsert);
      && db.users == resolved.table
      && AddQuestionEffect(old(db.questions), db.questions, qaId, req.text.value, now, resolved.user, faults.insert, reply)
  {
    var error := Validate(req);
    if error.Some? {
      return Sent(Rejected(error.value));
    }
    var asker := User.Get(db, req.askedByName.value, true, faults.userLookup, faults.userInsert);
    reply := AddQuestion(db, qaId, req.text.value, now, asker, faults.insert);
  }
}
