/**
 * The persisted tables of the Q&A service and the JSON shapes its handlers
 * send back, as Dafny values.
 *
 * Request fields arrive as optional strings; JavaScript truthiness of such a
 * field is `Truthy` (absent and the empty string are falsy).
 */
module Schema {

  datatype Option<+T> = None | Some(value: T)

  /** Failures of the data store: any query error, or the unique key on user names. */
  datatype StoreError = QueryFailed | DuplicateName

  datatype Result<+T> = Ok(value: T) | Err(error: StoreError)

  /** Truthiness of an optional request string. */
  predicate Truthy(s: Option<string>) {
    s.Some? && s.value != ""
  }

  /** `s || null` for an optional string. */
  function OrNull(s: Option<string>): Option<string> {
    if Truthy(s) then s else None
  }

  /** The 0/1 value stored in the `isHost` column. */
  type HostFlag = x: int | 0 <= x <= 1

  /** A table with an auto-increment key: its rows in insertion order and the next id it hands out. */
  datatype Table<+R> = Table(rows: seq<R>, nextId: nat)

  datatype UserRow = UserRow(id: nat, name: string, isHost: HostFlag)

  /** The first user with this id: the `JOIN users ON users.id = ...` both listing queries make. */
  function UserById(users: seq<UserRow>, id: nat): (r: Option<UserRow>)
    ensures r.Some? ==> r.value in users && r.value.id == id
    ensures r.None? <==> forall u :: u in users ==> u.id != id
  {
    if users == [] then None
    else if users[0].id == id then Some(users[0])
    else UserById(users[1..], id)
  }

  /** A session; `startDate` and `endDate` are instants in milliseconds. */
  datatype QaRow = QaRow(id: nat, hostId: nat, name: string, startDate: int, endDate: int)

  /** A question; `qaId` is the route parameter it was posted under, unchecked. */
  datatype QuestionRow = QuestionRow(id: nat, qaId: int, userId: nat, text: string, dateCreated: int)

  /** An answer; `questionId` is the route parameter it was posted under, unchecked. */
  datatype AnswerRow = AnswerRow(
    id: nat, questionId: int, answeringUserId: nat,
    text: Option<string>, imageUrl: Option<string>, dateCreated: int)

  /**
   * Which store calls of one request fail: the user lookup, the user insert,
   * and the handler's own insert.
   */
  datatype Faults = Faults(userLookup: bool, userInsert: bool, insert: bool)

  datatype UserRef = UserRef(id: nat, name: string)

  /** The question half of a thread entry: always present. */
  datatype QuestionPart = QuestionPart(userId: nat, userName: string, id: nat, text: string, dateCreated: int)

  /** The answer half of a thread entry: every field is null (None) when there is no answer. */
  datatype AnswerPart = AnswerPart(
    userId: Option<nat>, userName: Option<string>, id: Option<nat>,
    text: Option<string>, imageUrl: Option<string>, dateCreated: Option<int>)

  datatype ThreadEntry = ThreadEntry(question: QuestionPart, answer: AnswerPart, hasAnswer: bool)

  /** The `data` member of a response. */
  datatype Payload =
    | EmptyObject
    | QaCreated(host: UserRef, qaId: nat, qaName: string, startDate: int, endDate: int)
    | QaDetails(host: UserRef, qaId: nat, name: string, startDate: int, endDate: int)
    | QuestionCreated(asker: UserRef, questionId: nat, questionQaId: int, questionText: string)
    | AnswerCreated(
        answerer: UserRef, answerId: nat, answerQuestionId: int, answerText: Option<string>, imageUrl: Option<string>)
    | Thread(entries: seq<ThreadEntry>)
}
