/** The collection resource, `/faqs`: create one FAQ and list them all. */
module FaqsCr {
  import opened FaqStore

  /** The guards a create passes before it inserts: a parsed body the schema
      accepts, a logged-in caller, no row with the same (question, answer)
      pair, and an administrator's role. */
  predicate InsertAdmitted(s: Store, body: JsonBody, auth: Auth)
  {
    && body.Accepted?
    && auth.Role?
    && !HasPair(s.rows, body.payload.question, body.payload.answer)
    && IsAdmin(auth.name)
  }

  /** The table after one row with fresh identifier `s.nextId`, fields `p`,
      owner `user` and both timestamps `now` was added; every row that was
      there stays as it was. */
  predicate Inserts(s: Store, s': Store, p: Fields, user: UserId, now: Time)
  {
    && s'.nextId == s.nextId + 1
    && s'.rows.Keys == s.rows.Keys + {s.nextId}
    && s'.rows[s.nextId] == Faq(s.nextId, p, user, now, now)
    && (forall k :: k in s.rows && k != s.nextId ==> s'.rows[k] == s.rows[k])
  }

  /** The two answers a create can give once it has inserted: 201 when the
      follow-up lookup succeeded, 500 when it failed. */
  predicate InsertStatus(status: int)
  {
    status == Created || status == InternalServerError
  }

  /** The table with the new row added, as both versions of the create
      handler commit it. */
  function Insert(s: Store, p: Fields, user: UserId, now: Time): (s': Store)
    ensures Inserts(s, s', p, user, now)
  {
    Store(s.rows[s.nextId := Faq(s.nextId, p, user, now, now)], s.nextId + 1)
  }

  /** POST /faqs as written: body, schema, credentials, the duplicate guard,
      and only then the role; after the insert the response is read back by
      question alone and must be the only row with that question. */
  function Post(s: Store, body: JsonBody, auth: Auth, now: Time): (o: Outcome)
    ensures o.response.status in {Created, BadRequest, UnprocessableEntity, Unauthorized, Conflict, Forbidden, InternalServerError}
    ensures InsertStatus(o.response.status) <==> InsertAdmitted(s, body, auth)
    ensures !InsertStatus(o.response.status) ==> o.store == s && o.response.body == ErrorMessage
    ensures InsertStatus(o.response.status) ==> Inserts(s, o.store, body.payload, auth.user, now)
    ensures o.response.status == Created ==> o.response.body == Record(o.store.rows[s.nextId])
    ensures o.response.status == InternalServerError ==> o.response.body == ErrorMessage
  {
    match body
    case Unparseable => Reject(s, BadRequest)
    case SchemaRejected => Reject(s, UnprocessableEntity)
    case Accepted(p) =>
      match auth
      case NoAuthToken => Reject(s, BadRequest)
      case NotLoggedIn => Reject(s, Unauthorized)
      case Role(name, user) =>
        if HasPair(s.rows, p.question, p.answer) then Reject(s, Conflict)
        else if !IsAdmin(name) then Reject(s, Forbidden)
        else
          var s' := Insert(s, p, user, now);
          assert s.nextId in QuestionMatches(s'.rows, p.question);
          match One(s'.rows, p.question)
          case Some(f) =>
            assert QuestionMatches(s'.rows, p.question) == {s.nextId};
            Outcome(Response(Created, Record(f)), s')
          case None => Reject(s', InternalServerError)
  }

  /** POST /faqs with the read-back done by the new row's own identifier, as
      the source's comment on the read-back says it means: every admitted
      insert answers 201 with the row it inserted. */
  function PostCorrected(s: Store, body: JsonBody, auth: Auth, now: Time): (o: Outcome)
    ensures o.response.status in {Created, BadRequest, UnprocessableEntity, Unauthorized, Conflict, Forbidden}
    ensures o.response.status == Created <==> InsertAdmitted(s, body, auth)
    ensures o.response.status != Created ==> o.store == s && o.response.body == ErrorMessage
    ensures o.response.status == Created ==>
              && Inserts(s, o.store, body.payload, auth.user, now)
              && o.response.body == Record(o.store.rows[s.nextId])
  {
    match body
    case Unparseable => Reject(s, BadRequest)
    case SchemaRejected => Reject(s, UnprocessableEntity)
    case Accepted(p) =>
      match auth
      case NoAuthToken => Reject(s, BadRequest)
      case NotLoggedIn => Reject(s, Unauthorized)
      case Role(name, user) =>
        if HasPair(s.rows, p.question, p.answer) then Reject(s, Conflict)
        else if !IsAdmin(name) then Reject(s, Forbidden)
        else
          var s' := Insert(s, p, user, now);
          Outcome(Response(Created, Record(s'.rows[s.nextId])), s')
  }

  /** GET /faqs: one serialized entry per row, in no particular order. */
  method List(s: Store) returns (r: Response)
    ensures r.status == Ok && r.body.Records?
    ensures |r.body.faqs| == |s.rows|
    ensures forall k :: k in s.rows ==> s.rows[k] in r.body.faqs
    ensures forall i :: 0 <= i < |r.body.faqs| ==> r.body.faqs[i] in s.rows.Values
  {
    var out: seq<Faq> := [];
    var remaining := s.rows.Keys;
    ghost var taken: set<Id> := {};
    while remaining != {}
      invariant taken !! remaining && taken + remaining == s.rows.Keys
      invariant |out| == |taken|
      invariant forall k :: k in taken ==> s.rows[k] in out
      invariant forall i :: 0 <= i < |out| ==> out[i] in s.rows.Values
      decreases remaining
    {
      var k :| k in remaining;
      out := out + [s.rows[k]];
      remaining := remaining - {k};
      taken := taken + {k};
    }
    assert taken == s.rows.Keys;
    r := Response(Ok, Records(out));
  }
}
