/**
 * POST /answer/:question_id: validate, resolve the answering user, insert
 * the answer under the route's question id. Text and image are each
 * optional, but not both; nothing limits a question to one answer.
 */
module Answer {
  import opened Schema
  import opened Store
  import opened Util
  import User

  const AnswererMissing := "Name of Answering User is Missing"
  const ContentMissing := "Answer is Missing Text and URL of Image.  Please Include at Least One."
  const CreateFailed := "Unable to Create Answer"

  /** The body of POST /answer/:question_id. */
  datatype AnswerRequest = AnswerRequest(answeredBy: Option<string>, text: Option<string>, imageUrl: Option<string>)

  /** The answer to insert once the request is valid; a falsy text or image has become null. */
  datatype AnswerDetails = AnswerDetails(name: string, questionId: int, text: Option<string>, imageUrl: Option<string>)

  /** The checks of `add`, in order: the message of the first that fails, or None. */
  function Validate(req: AnswerRequest): (r: Option<string>)
    ensures r.None? <==> Truthy(req.answeredBy) && (Truthy(req.text) || Truthy(req.imageUrl))
    ensures !Truthy(req.answeredBy) ==> r == Some(AnswererMissing)
    ensures Truthy(req.answeredBy) && !Truthy(req.text) && !Truthy(req.imageUrl) ==> r == Some(ContentMissing)
  {
    if !Truthy(req.answeredBy) then Some(AnswererMissing)
    else if !Truthy(req.text) && !Truthy(req.imageUrl) then Some(ContentMissing)
    else None
  }

  /** `answerDetails` of `add`: text and image pass through when truthy and are null otherwise; at least one is set. */
  function DetailsOf(req: AnswerRequest, questionId: int): (d: AnswerDetails)
    requires Validate(req).None?
    ensures d.name == req.answeredBy.value && d.questionId == questionId
    ensures d.text.Some? <==> Truthy(req.text)
    ensures d.text.Some? ==> d.text == req.text
    ensures d.imageUrl.Some? <==> Truthy(req.imageUrl)
    ensures d.imageUrl.Some? ==> d.imageUrl == req.imageUrl
    ensures d.text.Some? || d.imageUrl.Some?
  {
    AnswerDetails(req.answeredBy.value, questionId, OrNull(req.text), OrNull(req.imageUrl))
  }

  /**
   * What `addAnswer` does to the answers table and sends, given the outcome
   * of resolving the answerer. An unresolved answerer makes `user.id` throw.
   */
  ghost predicate AddAnswerEffect(
    answers0: Table<AnswerRow>, answers1: Table<AnswerRow>,
    details: AnswerDetails, now: int, user: Result<UserRow>, insertFails: bool, reply: Reply)
  {
    match user
    case Err(_) => reply == Thrown && answers1 == answers0
    case Ok(u) =>
      if insertFails then
        reply == Sent(StoreFailure(QueryFailed, CreateFailed)) && answers1 == answers0
      else
        && answers1 == Append(answers0,
             AnswerRow(answers0.nextId, details.questionId, u.id, details.text, details.imageUrl, now))
        && reply == Sent(Succeeded(AnswerCreated(
             UserRef(u.id, u.name), answers0.nextId, details.questionId, details.text, details.imageUrl)))
  }

  /** `addAnswer`: append the answer, whatever answers the question already has, and echo it. */
  method AddAnswer(db: Database, details: AnswerDetails, now: int, user: Result<UserRow>, insertFails: bool)
    returns (reply: Reply)
    requires db.Valid()
    modifies db`answers
    ensures db.Valid()
    ensures AddAnswerEffect(old(db.answers), db.answers, details, now, user, insertFails, reply)
  {
    if user.Err? {
      return Thrown;
    }
    var u := user.value;
    var inserted := db.InsertAnswer(details.questionId, u.id, details.text, details.imageUrl, now, insertFails);
    if inserted.Err? {
      return Sent(StoreFailure(inserted.error, CreateFailed));
    }
    reply := Sent(Succeeded(AnswerCreated(UserRef(u.id, u.name), inserted.value, details.questionId, details.text, details.imageUrl)));
  }

  /**
   * `add` (POST /answer/:question_id): an invalid request is rejected and
   * changes nothing; a valid one resolves the answerer with isHost = false
   * and goes on to `addAnswer`.
   */
  method Add(db: Database, questionId: int, req: AnswerRequest, now: int, faults: Faults) returns (reply: Reply)
    requires db.Valid()
    modifies db`users, db`answers
    ensures db.Valid()
    ensures Validate(req).Some? ==> reply == Sent(Rejected(Validate(req).value)) && unchanged(db)
    ensures Validate(req).None? ==>
      var resolved := User.GetOutcome(old(db.users), req.answeredBy.value, false, faults.userLookup, faults.userInsert);
      && db.users == resolved.table
      && AddAnswerEffect(old(db.answers), db.answers, DetailsOf(req, questionId), now, resolved.user, faults.insert, reply)
  {
    var error := Validate(req);
    if error.Some? {
      return Sent(Rejected(error.value));
    }
    var details := DetailsOf(req, questionId);
    var answerer := User.Get(db, details.name, false, faults.userLookup, faults.userInsert);
    reply := AddAnswer(db, details, now, answerer, faults.insert);
  }
}
