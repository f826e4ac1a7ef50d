# FAQ resource of the SpartaHack API, as a Dafny state machine

The SpartaHack API serves its FAQ entries through two Flask-RESTful resources
in `resources/faqs.py`:

- `Faqs_RUD` handles `/faqs/{id}` with `get`, `put` and `delete`.
- `Faqs_CR` handles `/faqs` with `post` and `get`.

Each handler runs a fixed sequence of checks. These are: does the body parse
as JSON, does the FAQ schema accept it, what does the privilege lookup say
about the caller, and does the row exist or clash with another. The checks
decide the HTTP status, and a handler that passes them all changes the
`faqs` table.

This project models that dispatch as pure functions:

- The table is an immutable `map<Id, Faq>` with the identifier the next
  insert receives (`FaqStore.Store`).
- The request body is `Unparseable`, `SchemaRejected` or `Accepted(fields)`.
- The privilege lookup's answer is `NoAuthToken`, `NotLoggedIn` or
  `Role(name, user)`.
- The clock is a `Time` argument.

Every handler returns the response (status and body) and the table as it is
afterwards.

Modules:

- `FaqStore` (faq_store.dfy): the records, the table, the inputs, the
  responses, the store predicates, and the `.one()` query by question.
- `Checks` (checks.dfy): a reference reading of a handler as an ordered
  list of guards, where the first failing guard decides the status.
- `FaqsRud` (faqs_rud.dfy): the item handlers `Get`, `Put` and `Delete`.
- `FaqsCr` (faqs_cr.dfy): the collection handlers `Post` (as written),
  `PostCorrected` (see Findings) and `List`.
- `FaqProperties` (faq_properties.dfy): the order of the checks, reads after
  writes, the duplicate guard, the read-back after an insert, and timestamps.
- `FaqSessions` (faq_sessions.dfy): sequences of requests. It proves that
  the table's invariants hold across any session.

Three behaviours of the code worth knowing:

- POST runs the duplicate (question, answer) guard before the role check.
  A logged-in caller who is not director or organizer therefore gets 409
  for a duplicate pair, not 403.
- `updated_at >= created_at` holds only when the clock does not run
  backwards. The model makes this an explicit hypothesis (`TimesOrdered`,
  `ClockFrom`).
- `put` and `delete` never call `commit` in the handler; only `post` does.
  The model treats their changes as persisted, assuming the request's
  session is committed when it is torn down. That teardown code is not part
  of this model.

## Model

| member | source | states |
|---|---|---|
| FaqStore.One | resources/faqs.py:158 | The `.one()` read-back by question yields a row exactly when one row has that question, and then it is that row; with none or several it fails |
| FaqsRud.Get | resources/faqs.py:17-31 | GET by id answers 200 with the row if and only if the id is in the table, otherwise 404; the table is never changed |
| FaqsRud.Put | resources/faqs.py:34-77 | PUT answers 200 exactly when the body is accepted, the caller is director or organizer and the id exists; then only that row changes: its five client fields, its owner (the caller) and its update time (the clock), while its id and creation time stay; every other answer leaves the table unchanged |
| FaqsRud.Delete | resources/faqs.py:81-107 | DELETE reads no body; it answers 204 with an empty body exactly when the caller is director or organizer and the id exists; then exactly that row is removed; every other answer leaves the table unchanged |
| FaqsCr.Insert | resources/faqs.py:144-156 | The insert adds one row under the next identifier with the payload's fields, the caller as owner and both timestamps from the clock, keeping every existing row |
| FaqsCr.Post | resources/faqs.py:113-165 | POST inserts exactly when the body is accepted, the caller is logged in, no row has the same (question, answer) pair and the caller is director or organizer; an insert answers 201 with the new row or 500; every other answer leaves the table unchanged |
| FaqsCr.PostCorrected | resources/faqs.py:155-159 | With the read-back done by the new row's identifier, every admitted insert answers 201 with the row just inserted |
| FaqsCr.List | resources/faqs.py:167-176 | GET of the collection answers 200 with one entry per row: every stored row appears, every entry is a stored row, and the list is empty for an empty table |
| FaqProperties.PutFollowsCheckOrder | resources/faqs.py:40-77 | PUT's status is that of its first failing guard: unparseable 400, schema 422, no token 400, not logged in 401, other role 403, missing id 404; 200 if all pass |
| FaqProperties.DeleteFollowsCheckOrder | resources/faqs.py:86-107 | DELETE's status is that of its first failing guard: no token 400, not logged in 401, other role 403, missing id 404; 204 if all pass |
| FaqProperties.PostFollowsCheckOrder | resources/faqs.py:115-165 | POST's status is that of its first failing guard: unparseable 400, schema 422, no token 400, not logged in 401, duplicate pair 409, other role 403; after the insert, 201 if no older row has the question, else 500 |
| FaqProperties.PostConflictBeforeForbidden | resources/faqs.py:132-165 | A logged-in caller who is not an administrator gets 409 if and only if the pair is a duplicate and 403 if and only if it is not, and the table is unchanged either way |
| FaqProperties.InsertQuestionMatches | resources/faqs.py:145-158 | After the insert, the rows the read-back finds are the older rows with that question plus the new row |
| FaqProperties.PostReadBack | resources/faqs.py:155-163 | An admitted POST always inserts the row; it answers 201 if and only if no older row has the same question, and 500 if and only if one does |
| FaqProperties.PostSharedQuestionAnswers500 | resources/faqs.py:156-163 | A concrete table with one row ("Q", "A1"), and a director's POST of ("Q", "A2"): the row is inserted and the answer is 500 |
| FaqProperties.PostCorrectedAnswersCreated | resources/faqs.py:157-159 | The corrected POST answers 201 with the inserted row for every admitted insert, and leaves the same table as the code as written |
| FaqProperties.PostVersionsAgreeOnStore | resources/faqs.py:144-159 | The two versions of POST differ only in the response, never in the resulting table |
| FaqProperties.PostThenGet | resources/faqs.py:156-159 | Fetching the id of the row a 201 POST returned gives back the same body with status 200 |
| FaqProperties.PostCorrectedThenGet | resources/faqs.py:157-159 | The same round trip holds for the corrected POST |
| FaqProperties.PutThenGet | resources/faqs.py:59-69 | Fetching a row after a 200 PUT returns exactly what the PUT answered |
| FaqProperties.DeleteThenGet | resources/faqs.py:95-99 | After a 204 DELETE, fetching that id answers 404 |
| FaqProperties.DeleteRemovesExactlyOne | resources/faqs.py:95-101 | A 204 DELETE shrinks the table by one row, and repeating it answers 404 |
| FaqProperties.PostAddsOneRow | resources/faqs.py:144-156 | On a valid table an admitted POST uses a fresh identifier, grows the table by one and keeps every existing row |
| FaqProperties.PostPreservesUniquePairs | resources/faqs.py:132-156 | If no two rows shared a (question, answer) pair before a POST, none do after it |
| FaqProperties.RepeatedPostConflicts | resources/faqs.py:132-136 | Once a pair has been inserted, posting it again as any logged-in caller answers 409 and changes nothing |
| FaqProperties.PutMayBreakUniquePairs | resources/faqs.py:59-69 | PUT has no duplicate guard: overwriting a row with another row's pair answers 200 and leaves two rows with the same pair |
| FaqProperties.PutAdvancesUpdateTime | resources/faqs.py:67 | With a clock that does not run backwards, a PUT never moves the update time back and keeps it no earlier than the creation time |
| FaqSessions.StepChangesStoreOnlyOnSuccess | resources/faqs.py:17-176 | A fetch never changes the table; a request that changes it answered 200, 201 or 204, or it is a POST that committed its row and then answered 500 from the read-back |
| FaqSessions.StepPreservesValid | resources/faqs.py:59-156 | Each handler keeps every row under its own id and the identifier supply ahead of all rows |
| FaqSessions.RunPreservesValid | resources/faqs.py:17-176 | The same holds after any sequence of requests |
| FaqSessions.RemovedIdStaysAbsent | resources/faqs.py:95-156 | An identifier that was handed out and is now absent never comes back, so fetching it keeps answering 404 |
| FaqSessions.DeleteIsPermanent | resources/faqs.py:95-99 | After a 204 DELETE, fetching that id answers 404 whatever requests follow |
| FaqSessions.StepKeepsTimesOrdered | resources/faqs.py:67-150 | With a clock reading no earlier than every timestamp, each handler keeps creation no later than update no later than that reading |
| FaqSessions.RunKeepsTimesOrdered | resources/faqs.py:59-156 | With a clock that never runs backwards, no row is ever updated before it was created, over any sequence of requests |
| FaqSessions.FetchesLeaveStore | resources/faqs.py:17-31 | A session made only of fetches leaves the table as it was |

## Left out

- Request parsing with `request.get_json` and marshmallow's `Faq_Schema`
  validation are reduced to the three-way `JsonBody` input. The schema's
  rules are not shown in `resources/faqs.py`.
- Serialization with `Faq_Schema().dump` is the identity on records.
- `has_admin_privileges` from `common/utils` is the `Auth` input. The
  `common/utils` module is not part of this model. `is_logged_in` is
  imported there but never called.
- The response headers, and the fixed message bodies (`bad_request`,
  `not_found`, ...), are left out. Every error answer carries the single
  body `ErrorMessage`, and its status tells which one it is.
- The `except Exception` branches that answer 500 on an arbitrary database
  failure (lines 22-25, 72-75, 102-105, 137-140, 160-163 and 177-180) are
  left out, because their cause is outside the handler. The one 500 that
  follows from the table's contents, the `.one()` read-back, is modelled.
- `datetime.now()` is a `Time` argument.
- The `print` logging is left out.
- The race between POST's duplicate check and its insert is left out.
  Requests are handled one at a time.
- SQLAlchemy's session, query, `exists` and commit mechanics are reduced to
  the map and the identifier supply. The identifier supply stands in for
  the database's auto-increment column.
- FaqsCr.Insert: both timestamps come from one clock reading, so the new
  row has `created_at == updated_at`. The handler calls `datetime.now()`
  twice (lines 149 and 150), and the two readings may differ.
- HasPair and QuestionMatches compare strings exactly. The database's
  collation, which may fold case or trailing spaces in the comparisons of
  lines 134 and 158, is not modelled.
- FaqSessions.RemovedIdStaysAbsent: the identifier supply only grows, so a
  deleted id is never handed out again (FaqSessions.DeleteIsPermanent rests
  on this too). This assumes the database's auto-increment column never
  reuses an id.
- FaqSessions.Step: GET of the whole collection is not a session request.
  It is a method (`FaqsCr.List`) and it never changes the table.

## Findings

| source | as written | input that shows it | evidently intended | confidence | as-written member | corrected member |
|---|---|---|---|---|---|---|
| resources/faqs.py:156-159 | After committing the new row, POST reads it back with a filter on `question` alone, finished with `.one()`. The duplicate guard only rules out an equal (question, answer) pair, so an older row with the same question and a different answer makes `.one()` raise. The handler then answers 500 although the row is already committed. | A table holding the row ("Q", "A1"); a director POSTs ("Q", "A2"). | Answer 201 with the row just inserted; the comment at line 157 says the read-back cannot be ambiguous. | not executed; high (follows from the code) | FaqProperties.PostSharedQuestionAnswers500 | FaqProperties.PostCorrectedAnswersCreated |
