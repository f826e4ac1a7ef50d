/** The FAQ table, the request inputs the handlers see and the responses they
    return. The persistence table is an immutable map from identifier to
    record together with the identifier the table will hand out next; the
    request body, the caller's authorization state and the wall clock arrive
    as plain values. */
module FaqStore {

  type Id = nat
  type UserId = nat
  type Time = int

  // The HTTP status codes the handlers answer with.
  const Ok := 200
  const Created := 201
  const NoContent := 204
  const BadRequest := 400
  const Unauthorized := 401
  const Forbidden := 403
  const NotFound := 404
  const Conflict := 409
  const UnprocessableEntity := 422
  const InternalServerError := 500

  /** The five fields a client supplies and may overwrite. */
  datatype Fields = Fields(question: string, answer: string, display: bool, priority: int, placement: string)

  /** One row of the faqs table: the client fields plus the server-owned ones. */
  datatype Faq = Faq(id: Id, fields: Fields, userId: UserId, createdAt: Time, updatedAt: Time)

  /** The table, and the identifier the next insert receives. */
  datatype Store = Store(rows: map<Id, Faq>, nextId: Id)

  /** What the handler learns from the request body: whether it parsed as
      JSON at all, and if so whether the FAQ schema accepted it. */
  datatype JsonBody = Unparseable | SchemaRejected | Accepted(payload: Fields)

  /** What the privilege lookup reports about the caller. */
  datatype Auth = NoAuthToken | NotLoggedIn | Role(name: string, user: UserId)

  /** Response bodies: nothing (204), the fixed message that goes with an
      error status, one serialized record, or a list of them. Serialization
      is the identity on records. */
  datatype Body = Empty | ErrorMessage | Record(faq: Faq) | Records(faqs: seq<Faq>)

  datatype Response = Response(status: int, body: Body)

  /** What a handler returns together with the table as it is afterwards. */
  datatype Outcome = Outcome(response: Response, store: Store)

  datatype Option<T> = None | Some(value: T)

  /** Only these two roles may change the table. */
  predicate IsAdmin(name: string)
  {
    name == "director" || name == "organizer"
  }

  /** An error answer that leaves the table alone. */
  function Reject(s: Store, status: int): Outcome
  {
    Outcome(Response(status, ErrorMessage), s)
  }

  /** Every row is filed under its own identifier, and the identifier supply
      is ahead of every row, so the next insert gets a fresh key. */
  predicate Valid(s: Store)
  {
    forall k :: k in s.rows ==> k < s.nextId && s.rows[k].id == k
  }

  /** Every row was created no later than its last update, and both lie no
      later than clock reading `t`. */
  predicate TimesOrdered(s: Store, t: Time)
  {
    forall k :: k in s.rows ==> s.rows[k].createdAt <= s.rows[k].updatedAt <= t
  }

  /** Some row already holds exactly this question and answer. */
  predicate HasPair(rows: map<Id, Faq>, question: string, answer: string)
  {
    exists k :: k in rows && rows[k].fields.question == question && rows[k].fields.answer == answer
  }

  /** No two rows hold the same (question, answer) pair. */
  predicate UniquePairs(rows: map<Id, Faq>)
  {
    forall a, b :: a in rows && b in rows && a != b ==>
      rows[a].fields.question != rows[b].fields.question || rows[a].fields.answer != rows[b].fields.answer
  }

  /** Identifiers of the rows whose question is `question`. */
  function QuestionMatches(rows: map<Id, Faq>, question: string): set<Id>
  {
    set k | k in rows && rows[k].fields.question == question
  }

  lemma SingletonHasOneElement(ids: set<Id>, k: Id)
    requires |ids| == 1 && k in ids
    ensures ids == {k}
  {
    var rest := ids - {k};
    assert |rest| == 0;
    assert rest == {};
  }

  /** A query filtered on the question column, finished with `.one()`: it
      yields the row when exactly one row matches and fails otherwise
      (no match, or more than one). */
  function One(rows: map<Id, Faq>, question: string): (r: Option<Faq>)
    ensures r.Some? <==> |QuestionMatches(rows, question)| == 1
    ensures r.Some? ==> exists k :: QuestionMatches(rows, question) == {k} && rows[k] == r.value
  {
    var ids := QuestionMatches(rows, question);
    if |ids| == 1 then
      var k0 :| k0 in ids;
      SingletonHasOneElement(ids, k0);
      Some(rows[k0])
    else
      None
  }
}
