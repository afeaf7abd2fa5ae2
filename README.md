# Q&A session service: a Dafny model

The service runs live question-and-answer sessions. A host opens a session
(`POST /qa`) with a start and an end time. Users ask questions in it
(`POST /question/:qa_id`) and answer them (`POST /answer/:question_id`).
Anyone can read a session (`GET /qa/:qa_id`) and its thread of questions
with their answers (`GET /qa/:qa_id/questions`), optionally only the
answered or only the unanswered ones. Users are known only by display
name. Every handler resolves the acting name to a user: it looks the name
up and inserts a user only when none has it. Every reply is an envelope
`{status, message, data}`.

The model has one module per handler file, plus two shared modules:

- `Schema` holds the rows of the four tables (`users`, `qa`, `questions`,
  `answers`) and the payloads the handlers send.
- `Store` holds the class `Database`. It has one auto-incrementing table
  per SQL table, and its insert methods change those tables in place. The
  users table carries the unique key on `name` that the persisted schema
  declares.
- `Util` holds `finalizeResponse` and the envelope shapes built from it.
- `User` holds the resolve logic. The pure functions `GetOutcome` and
  `AddOutcome` specify it. The methods `Get` and `Add` perform it on a
  `Database` and are proved against them.
- `QA`, `Question` and `Answer` hold the create handlers. Each has a pure
  validation chain and methods that resolve the user and append the row.
  The methods are specified by ghost predicates that say what each outcome
  does to the table and what is sent.
- `QuestionList` reads the thread query's SQL as pure functions:
  - `Join`: the FROM, JOIN and WHERE part, with one row per
    question–answer pair;
  - `SortByDateDesc`: the ORDER BY;
  - `Filter` and `Entries`: the lodash filter and map.

Store failures, `Date.parse` results and creation timestamps are
parameters.

Where the code departs from its evident intent, the model follows the code:

- The asker of a question is resolved with `isHost = true`, as
  api/question.js:36 passes it, not `false`.
- Resolution is a lookup followed by an insert. The unique key on `name`
  keeps the table free of duplicates, but the code does not handle the
  key's rejection: when two resolves of a new name race, the losing one gets
  an error, not the winner's row. The model is sequential and proves that
  the key is never hit without a store fault.
- When resolution fails, `addQA`, `addQuestion` and `addAnswer` still read
  `user.id`. That raises a TypeError inside the resolve callback before any
  envelope is built, which the model records as `Reply.Thrown`.

## Model

| member | source | states |
|---|---|---|
| Store.Database.InsertUser | api/user.js:56-72 | a failing insert reports QueryFailed and changes nothing; a taken name hits the unique key; otherwise the row gets the next auto-increment id, which is returned |
| Store.Database.InsertQa | api/qa.js:64-79 | the insert fails exactly when the store faults and then changes nothing; otherwise the session row is appended under the next id |
| Store.Database.InsertQuestion | api/question.js:49-64 | the insert fails exactly when the store faults and then changes nothing; otherwise the question row is appended under the next id |
| Store.Database.InsertAnswer | api/answer.js:48-64 | the insert fails exactly when the store faults and then changes nothing; otherwise the answer row is appended under the next id |
| Util.FinalizeResponse | api/util.js:11-16 | status is failed exactly when err is given; the message is errMessage when truthy and "success" otherwise; data is responseDetails or `{}` |
| Util.Rejected | api/qa.js:21 | a validation failure (`err = {}`) is a failed envelope with its message and empty data |
| Util.StoreFailure | api/qa.js:77 | a store error is a failed envelope with the handler's message and `{}` in place of null data |
| Util.NotFound | api/qa.js:126 | a not-found answer (`err = null`) has success status, its own message and empty data |
| Util.Succeeded | api/qa.js:94 | `finalizeResponse(null, null, details)` is a success with message "success" carrying the details |
| User.Lookup | api/user.js:17-36 | the lookup returns a stored row with exactly that name, and finds nothing only when no row has the name |
| User.HostFlagOf | api/user.js:57 | the stored flag is 1 exactly when isHost is truthy |
| User.AddOutcome | api/user.js:56-82 | add succeeds exactly when the insert does not fail and the name is free; on success it returns the fresh id, the name and the 0/1 flag and appends exactly that row; on failure the table is unchanged; name uniqueness is preserved |
| User.GetOutcome | api/user.js:16-46 | a failed resolve changes nothing; a successful one returns a stored user with that name; existing rows are never changed and at most one is added; a known name adds nothing; a new row carries a fresh id and this call's flag; it fails exactly on a lookup fault, or on an insert fault when the name is new, so without faults it always succeeds; uniqueness is preserved |
| User.LookupUnique | api/user.js:32-44 | in a table with unique names, looking up a stored user's name finds that very user |
| User.ResolveExisting | api/user.js:38-44 | resolving an existing name returns the stored id, name and flag unchanged and inserts nothing, whatever isHost and the insert would do |
| User.ResolveIdempotent | api/user.js:32-44 | a second resolve of a name returns the same user and adds nothing; the flag stays as the first, creating call set it |
| User.ResolveAll | api/user.js:16-46 | a run of resolves returns one user per request and only ever grows the table |
| User.ResolveAllConsistent | api/user.js:32-36 | across sequential resolves names stay unique, and each call returns a stored user with the name it asked for |
| User.SameNameSameUser | api/user.js:32-44 | two resolves of the same name in one run return the same user, hence the same id |
| User.Add | api/user.js:56-82 | the method changes the users table and returns exactly what AddOutcome specifies |
| User.Get | api/user.js:16-46 | the method changes the users table and returns exactly what GetOutcome specifies |
| QA.Validate | api/qa.js:20-41 | a request passes exactly when the host name is truthy, both times parse and end is strictly after start; the host check comes first, then start, then end, then their order, each with its own message |
| QA.QaNameOf | api/qa.js:47 | a truthy session name is kept, otherwise "Latest QA Session" is used |
| QA.DetailsOf | api/qa.js:45-50 | a valid request yields the host name, the defaulted session name and the two parsed instants, start before end |
| QA.AddQa | api/qa.js:63-96 | an unresolved host throws and a failed insert reports "Unable to Create QA", both without a new row; otherwise the session row references the host's id and the reply echoes the insert id, name and instants |
| QA.Add | api/qa.js:17-52 | an invalid request is rejected with the first failing check's message and changes nothing; a valid one resolves the host with isHost = true and continues as AddQa |
| QA.FindQa | api/qa.js:106-116 | the join finds a session with the requested id together with its host, and finds nothing only when no such session has an existing host |
| Schema.UserById | api/qa.js:111 | the user found is stored with the requested id, and none is found only when no user has it; the one user-by-id lookup, shared by the session query and the thread query |
| QA.Get | api/qa.js:105-145 | a query error is a failed envelope with "Unable to Retrieve QA"; no session with that id joined to an existing host (an unknown id, or a session whose host row is missing) is the success-status "No Matching QA ID in Our Records" with `{}`; a found session is echoed with its host |
| QA.GetExisting | api/qa.js:130-143 | in a consistent store, getting an existing session returns exactly its fields and its host's id and name |
| Question.Validate | api/question.js:20-28 | a request passes exactly when asker and text are truthy; a missing asker is reported before missing text |
| Question.AddQuestion | api/question.js:48-80 | an unresolved asker throws and a failed insert reports "Unable to Create Question", both without a new row; otherwise the question is appended under the route's session id, unchecked, and echoed |
| Question.Add | api/question.js:19-37 | an invalid request is rejected and changes nothing; a valid one resolves the asker with isHost = true and continues as AddQuestion |
| Answer.Validate | api/answer.js:19-27 | a request passes exactly when the answerer is truthy and at least one of text and image is truthy; a missing answerer is reported first |
| Answer.DetailsOf | api/answer.js:29-34 | text and image pass through when truthy and become null otherwise, and at least one is set |
| Answer.AddAnswer | api/answer.js:47-80 | an unresolved answerer throws and a failed insert reports "Unable to Create Answer", both without a new row; otherwise the answer is appended whatever answers the question already has, and its id, question id, text and image are echoed |
| Answer.Add | api/answer.js:17-36 | an invalid request is rejected and changes nothing; a valid one resolves the answerer with isHost = false and continues as AddAnswer |
| QuestionList.FilterOf | api/question.js:99-103 | an absent or empty hasAnswer selects every row, exactly "true" selects answered rows, any other value unanswered rows |
| QuestionList.UserName | api/question.js:110-111 | the name found belongs to a user with that id, and none is found only when no user has it |
| QuestionList.AnswersTo | api/question.js:109 | exactly the answers whose question id is the question's |
| QuestionList.AnswersToCounts | api/question.js:109 | each answer to the question is listed as many times as the table holds it, and no other answer is listed |
| QuestionList.PairedRows | api/question.js:109 | one row per answer, in order: the i-th row pairs the question with the i-th answer |
| QuestionList.QuestionRows | api/question.js:108-111 | a question gives one row per answer to it, or one row with null answer columns when it has none, and exactly the rows the left join makes |
| QuestionList.OwnRows | api/question.js:108-114 | a question outside the session, or whose asker does not exist, gives no rows; otherwise exactly the rows the left join makes of it, all carrying its id |
| QuestionList.Join | api/question.js:105-114 | every row comes from a question of the session whose asker exists, and every row the joins make of such a question is present |
| QuestionList.JoinCounts | api/question.js:108-114 | with unique question ids, each row of a question occurs in the join as often as among that question's own rows |
| QuestionList.JoinFanOut | api/question.js:108-111 | with unique question ids, the join's rows for a question of the session are, as a multiset, exactly its own rows, so there is one row per answer to it, or one when it has none |
| QuestionList.InsertByDate | api/question.js:115 | inserting keeps the rows as a multiset plus the new one and keeps them newest first |
| QuestionList.SortByDateDesc | api/question.js:115 | the ordered rows are a permutation of the input with non-increasing question dates |
| QuestionList.Filter | api/question.js:133-143 | exactly the rows the filter keeps remain; with no filter every row remains |
| QuestionList.FilterKeepsOrder | api/question.js:132-143 | filtering rows that are newest first leaves them newest first |
| QuestionList.FilterCons | api/question.js:133-143 | a first row is kept in front of the filtered rest exactly when the filter keeps it |
| QuestionList.FilterAppend | api/question.js:132-143 | filtering a concatenation gives the filtered parts concatenated, so the kept rows stay in their input order |
| QuestionList.FilterSubMultiset | api/question.js:133-143 | the filter only drops rows: its result is a sub-multiset of its input |
| QuestionList.FilterDropsAll | api/question.js:133-143 | when the filter keeps none of the rows, the filtered list is empty |
| QuestionList.Organize | api/question.js:158-185 | the question fields are copied verbatim; each answer field (answerer id and name, answer id, text, image, date) is kept when truthy and is null otherwise; hasAnswer holds exactly when the answer id is truthy |
| QuestionList.Entries | api/question.js:144 | one entry per kept row, in order |
| QuestionList.ListThread | api/question.js:119-148 | a query error is a failed envelope; no joined rows gives "No Questions or Answers For This QA" with `{}`; otherwise a success listing the filtered thread, possibly empty |
| QuestionList.GetList | api/question.js:89-149 | a non-numeric id calls finalizeResponse twice, first with the "Invalid QA ID" failure and then from the query's callback; the query's envelope is always the last one built |
| QuestionList.GetListAnswersTwice | api/question.js:91-93 | for a non-numeric id finalizeResponse is called with a failure and then with the query's envelope (a success in this instance: empty tables, query succeeding); the second `res.json` throws |
| QuestionList.GetListReturning | api/question.js:91-93 | with the missing `return` added, each request builds exactly one envelope, the invalid-id failure when the id is not numeric |
| QuestionList.EntriesKeepOrder | api/question.js:132-145 | shaping rows that are newest first gives entries that are newest first |
| QuestionList.EntriesOf | api/question.js:144 | the entries are exactly the shaped rows |
| QuestionList.SortKeepsRows | api/question.js:115 | ordering neither adds nor drops rows |
| QuestionList.ThreadContents | api/question.js:132-147 | the thread is newest first, and its entries are exactly the shaped joined rows that the filter keeps |
| QuestionList.FilterPartition | api/question.js:133-142 | the answered and the unanswered rows are disjoint and together make up all rows |
| QuestionList.FilterMatchesHasAnswer | api/question.js:133-142 | with answer ids from 1, an answered-only thread has hasAnswer on every entry, and an unanswered-only one has it on none, with every answer field null |
| QuestionList.AllFilteredOut | api/question.js:126-147 | a session whose questions are all unanswered, listed with hasAnswer=true, gets a success with an empty list rather than the "no questions" message |

## Left out

- Concurrency: two resolves of one new name can both miss the lookup. The model is sequential, and the unique key's rejection under such a race is not modelled.
- `Date.parse` is an input: a request carries its result, `None` for NaN. The session row stores the parsed instant, while the code stores the raw strings and leaves conversion to MySQL. `UNIX_TIMESTAMP(...) * 1000` is taken as the identity on stored instants.
- QuestionList.SortByDateDesc: rows with equal question dates keep their join order. SQL leaves that order unspecified, so this is one admissible order and not the only one.
- Route parameters are integers. MySQL's coercion of a non-numeric `qa_id` or `question_id` is not modelled; `getList`'s `parseInt` check is a boolean input.
- A `hasAnswer` given more than once (an array) is not modelled; the parameter is an optional string.
- `res.json` itself is left out. The model lists the envelopes passed to finalizeResponse, in order. In Express a second `res.json` on one response throws, so the client sees only the first.
- An exception raised inside a query callback is not caught: the second `res.json` of `getList`, and the read of `user.id` after a failed resolve. What the server process does then is not modelled.
- A failed insert may still use up an auto-increment value in MySQL. In the model a failed insert leaves `nextId` as it was.
- `console.log`, Express routing, CORS, body parsing and the connection pool are not part of this model.
- User.Lookup: names are compared by exact string equality, and so is the unique key in `Store.NameTaken`. In the source both comparisons follow the `name` column's collation, which is not part of this model. Under MySQL's default case-insensitive, trailing-space-padding collations, "Bob" would find a stored "bob" row and return it with its stored name, while the model inserts a new user.
- Request body fields are optional strings. The JSON body parser also delivers numbers, booleans and objects, whose JavaScript truthiness (`0`, `false`) the validation checks would apply; those inputs are not modelled.
- QA.FindQa: the lookup returns the first matching session in table order. The SQL has no ORDER BY, so the first row MySQL returns could be another one.

## Findings

| source | as written | input that shows it | evidently intended | confidence | as-written member | corrected member |
|---|---|---|---|---|---|---|
| api/question.js:91-93 | the invalid-id failure is sent without returning, so the query still runs and its callback calls finalizeResponse a second time; that second `res.json` throws | a non-numeric `qa_id`: finalizeResponse with "Invalid QA ID" (failed), then with "No Questions or Answers For This QA" (success) | return after the failure, so each request builds one envelope | high; not executed | QuestionList.GetListAnswersTwice | QuestionList.GetListReturning |
