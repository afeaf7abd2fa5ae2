/**
 * Sessions: POST /qa validates its input, resolves the host (as a host) and
 * inserts the session; GET /qa/:qa_id reads one session with its host.
 *
 * `Date.parse` is outside the model: a request carries its result, `None`
 * where the parse gives NaN.
 */
module QA {
  import opened Schema
  import opened Store
  import opened Util
  import User

  const HostMissing := "Name of Host is Missing"
  const StartMissing := "Start Time is Missing"
  const EndMissing := "End Time is Missing"
  const EndNotAfterStart := "QA Must End After It Begins.  Cmon."
  const DefaultQaName := "Latest QA Session"
  const CreateFailed := "Unable to Create QA"
  const RetrieveFailed := "Unable to Retrieve QA"
  const NoMatchingQa := "No Matching QA ID in Our Records"

  /** The body of POST /qa, with `start_time` and `end_time` already through `Date.parse`. */
  datatype QaRequest = QaRequest(hostName: Option<string>, qaName: Option<string>, startTime: Option<int>, endTime: Option<int>)

  /** The session to insert once the request is valid. */
  datatype SessionDetails = SessionDetails(hostName: string, qaName: string, startDate: int, endDate: int)

  /** The checks of `add`, in order: the message of the first that fails, or None. */
  function Validate(req: QaRequest): (r: Option<string>)
    ensures r.None? <==>
      Truthy(req.hostName) && req.startTime.Some? && req.endTime.Some? && req.startTime.value < req.endTime.value
    ensures !Truthy(req.hostName) ==> r == Some(HostMissing)
    ensures Truthy(req.hostName) && req.startTime.None? ==> r == Some(StartMissing)
    ensures Truthy(req.hostName) && req.startTime.Some? && req.endTime.None? ==> r == Some(EndMissing)
    ensures r == Some(EndNotAfterStart) <==>
      Truthy(req.hostName) && req.startTime.Some? && req.endTime.Some? && req.endTime.value <= req.startTime.value
  {
    if !Truthy(req.hostName) then Some(HostMissing)
    else if req.startTime.None? then Some(StartMissing)
    else if req.endTime.None? then Some(EndMissing)
    else if req.endTime.value <= req.startTime.value then Some(EndNotAfterStart)
    else None
  }

  /** `req.body.qaName || 'Latest QA Session'` */
  function QaNameOf(qaName: Option<string>): (name: string)
    ensures name != ""
    ensures Truthy(qaName) ==> name == qaName.value
    ensures !Truthy(qaName) ==> name == DefaultQaName
  {
    if Truthy(qaName) then qaName.value else DefaultQaName
  }

  /** The details of a valid request: the host name, the defaulted session name and the two instants. */
  function DetailsOf(req: QaRequest): (d: SessionDetails)
    requires Validate(req).None?
    ensures d.hostName == req.hostName.value && d.hostName != ""
    ensures d.qaName == QaNameOf(req.qaName)
    ensures d.startDate == req.startTime.value && d.endDate == req.endTime.value
    ensures d.startDate < d.endDate
  {
    SessionDetails(req.hostName.value, QaNameOf(req.qaName), req.startTime.value, req.endTime.value)
  }

  /**
   * What `addQA` does to the sessions table and sends, given the outcome of
   * resolving the host. An unresolved host makes `user.id` throw.
   */
  ghost predicate AddQaEffect(
    qas0: Table<QaRow>, qas1: Table<QaRow>, details: SessionDetails, user: Result<UserRow>, insertFails: bool, reply: Reply)
  {
    match user
    case Err(_) => reply == Thrown && qas1 == qas0
    case Ok(u) =>
      if insertFails then
        reply == Sent(StoreFailure(QueryFailed, CreateFailed)) && qas1 == qas0
      else
        && qas1 == Append(qas0, QaRow(qas0.nextId, u.id, details.qaName, details.startDate, details.endDate))
        && reply == Sent(Succeeded(QaCreated(
             UserRef(u.id, u.name), qas0.nextId, details.qaName, details.startDate, details.endDate)))
  }

  /** `addQA`: insert the session under the resolved host and echo its id, name and instants. */
  method AddQa(db: Database, details: SessionDetails, user: Result<UserRow>, insertFails: bool) returns (reply: Reply)
    requires db.Valid()
    modifies db`qas
    ensures db.Valid()
    ensures AddQaEffect(old(db.qas), db.qas, details, user, insertFails, reply)
  {
    if user.Err? {
      return Thrown;
    }
    var u := user.value;
    var inserted := db.InsertQa(u.id, details.qaName, details.startDate, details.endDate, insertFails);
    if inserted.Err? {
      return Sent(StoreFailure(inserted.error, CreateFailed));
    }
    reply := Sent(Succeeded(QaCreated(UserRef(u.id, u.name), inserted.value, details.qaName, details.startDate, details.endDate)));
  }

  /**
   * `add` (POST /qa): an invalid request is rejected with the first failing
   * check's message and changes nothing; a valid one resolves the host with
   * isHost = true and goes on to `addQA`.
   */
  method Add(db: Database, req: QaRequest, faults: Faults) returns (reply: Reply)
    requires db.Valid()
    modifies db`users, db`qas
    ensures db.Valid()
    ensures Validate(req).Some? ==> reply == Sent(Rejected(Validate(req).value)) && unchanged(db)
    ensures Validate(req).None? ==>
      var resolved := User.GetOutcome(old(db.users), req.hostName.value, true, faults.userLookup, faults.userInsert);
      && db.users == resolved.table
      && AddQaEffect(old(db.qas), db.qas, DetailsOf(req), resolved.user, faults.insert, reply)
  {
    var error := Validate(req);
    if error.Some? {
      return Sent(Rejected(error.value));
    }
    var details := DetailsOf(req);
    var host := User.Get(db, details.hostName, true, faults.userLookup, faults.userInsert);
    reply := AddQa(db, details, host, faults.insert);
  }

  /** The first row of `qa INNER JOIN users ON users.id = qa.hostId WHERE qa.id = qaId`. */
  function FindQa(qas: seq<QaRow>, users: seq<UserRow>, qaId: int): (r: Option<(QaRow, UserRow)>)
    ensures r.Some? ==> r.value.0 in qas && r.value.0.id == qaId && r.value.1 in users && r.value.1.id == r.value.0.hostId
    ensures r.None? <==> forall q, u :: q in qas && u in users && q.id == qaId ==> u.id != q.hostId
  {
    if qas == [] then None
    else if qas[0].id == qaId && UserById(users, qas[0].hostId).Some? then Some((qas[0], UserById(users, qas[0].hostId).value))
    else FindQa(qas[1..], users, qaId)
  }

  /**
   * `get` (GET /qa/:qa_id): the session and its host, or the not-found
   * success envelope; it reads the tables and changes nothing.
   */
  function Get(qas: seq<QaRow>, users: seq<UserRow>, qaId: int, queryFails: bool): (e: Envelope)
    ensures queryFails ==> e.status == Failed && e.message == RetrieveFailed && e.data == EmptyObject
    ensures !queryFails ==> e.status == Success
    // not found: no session with that id joins to an existing host
    ensures !queryFails && (forall q, u :: q in qas && u in users && q.id == qaId ==> u.id != q.hostId) ==>
      e.message == NoMatchingQa && e.data == EmptyObject
    ensures e.data.QaDetails? ==> exists q, u :: (q in qas && u in users && q.id == qaId && u.id == q.hostId &&
      e.data == QaDetails(UserRef(u.id, u.name), q.id, q.name, q.startDate, q.endDate))
  {
    if queryFails then StoreFailure(QueryFailed, RetrieveFailed)
    else match FindQa(qas, users, qaId)
      case None => NotFound(NoMatchingQa)
      case Some((q, u)) => Succeeded(QaDetails(UserRef(u.id, u.name), q.id, q.name, q.startDate, q.endDate))
  }

  /** In a consistent database, an existing session whose host exists is returned with that host. */
  lemma GetExisting(qas: Table<QaRow>, users: Table<UserRow>, q: QaRow, u: UserRow)
    requires QasValid(qas) && UsersValid(users)
    requires q in qas.rows && u in users.rows && u.id == q.hostId
    ensures Get(qas.rows, users.rows, q.id, false) ==
      Envelope(Success, SuccessMessage, QaDetails(UserRef(u.id, u.name), q.id, q.name, q.startDate, q.endDate))
  {
    var found := FindQa(qas.rows, users.rows, q.id);
    assert found.Some?;
    var (q', u') := found.value;
    var i :| 0 <= i < |qas.rows| && qas.rows[i] == q;
    var i' :| 0 <= i' < |qas.rows| && qas.rows[i'] == q';
    var j :| 0 <= j < |users.rows| && users.rows[j] == u;
    var j' :| 0 <= j' < |users.rows| && users.rows[j'] == u';
  }
}
