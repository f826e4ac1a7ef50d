/** The item resource, `/faqs/{id}`: fetch, update and delete one FAQ. */
module FaqsRud {
  import opened FaqStore

  /** The table after `id`'s row had its five client fields replaced by `p`,
      its owner set to `user` and its update time to `now`; its identifier,
      its creation time, every other row and the identifier supply stay. */
  predicate Overwrites(s: Store, s': Store, id: Id, p: Fields, user: UserId, now: Time)
  {
    && id in s.rows && id in s'.rows
    && s'.nextId == s.nextId
    && s'.rows.Keys == s.rows.Keys
    && (forall k :: k in s.rows && k != id ==> s'.rows[k] == s.rows[k])
    && s'.rows[id].id == s.rows[id].id
    && s'.rows[id].createdAt == s.rows[id].createdAt
    && s'.rows[id].fields == p
    && s'.rows[id].userId == user
    && s'.rows[id].updatedAt == now
  }

  /** The table after `id`'s row was removed and nothing else. */
  predicate Removes(s: Store, s': Store, id: Id)
  {
    && s'.nextId == s.nextId
    && s'.rows.Keys == s.rows.Keys - {id}
    && (forall k :: k in s'.rows ==> s'.rows[k] == s.rows[k])
  }

  /** GET /faqs/{id}: the row if there is one, 404 otherwise. */
  function Get(s: Store, id: Id): (o: Outcome)
    ensures o.store == s
    ensures o.response.status == Ok <==> id in s.rows
    ensures id in s.rows ==> o.response.body == Record(s.rows[id])
    ensures id !in s.rows ==> o.response == Response(NotFound, ErrorMessage)
  {
    if id in s.rows then Outcome(Response(Ok, Record(s.rows[id])), s)
    else Reject(s, NotFound)
  }

  /** PUT /faqs/{id}: body, then schema, then credentials, then role, then
      existence; an administrator's update rewrites the five client fields,
      the owner and the update time. */
  function Put(s: Store, id: Id, body: JsonBody, auth: Auth, now: Time): (o: Outcome)
    ensures o.response.status in {Ok, BadRequest, UnprocessableEntity, Unauthorized, Forbidden, NotFound}
    ensures o.response.status == Ok <==> body.Accepted? && auth.Role? && IsAdmin(auth.name) && id in s.rows
    ensures o.response.status != Ok ==> o.store == s && o.response.body == ErrorMessage
    ensures o.response.status == Ok ==>
              && Overwrites(s, o.store, id, body.payload, auth.user, now)
              && o.response.body == Record(o.store.rows[id])
  {
    match body
    case Unparseable => Reject(s, BadRequest)
    case SchemaRejected => Reject(s, UnprocessableEntity)
    case Accepted(p) =>
      match auth
      case NoAuthToken => Reject(s, BadRequest)
      case NotLoggedIn => Reject(s, Unauthorized)
      case Role(name, user) =>
        if !IsAdmin(name) then Reject(s, Forbidden)
        else if id !in s.rows then Reject(s, NotFound)
        else
          var prior := s.rows[id];
          var updated := Faq(prior.id, p, user, prior.createdAt, now);
          var s' := Store(s.rows[id := updated], s.nextId);
          Outcome(Response(Ok, Record(updated)), s')
  }

  /** DELETE /faqs/{id}: no body is read; credentials, then role, then
      existence; an administrator's delete removes the row and answers 204
      with an empty body. */
  function Delete(s: Store, id: Id, auth: Auth): (o: Outcome)
    ensures o.response.status in {NoContent, BadRequest, Unauthorized, Forbidden, NotFound}
    ensures o.response.status == NoContent <==> auth.Role? && IsAdmin(auth.name) && id in s.rows
    ensures o.response.status != NoContent ==> o.store == s && o.response.body == ErrorMessage
    ensures o.response.status == NoContent ==> Removes(s, o.store, id) && o.response.body == Empty
  {
    match auth
    case NoAuthToken => Reject(s, BadRequest)
    case NotLoggedIn => Reject(s, Unauthorized)
    case Role(name, _) =>
      if !IsAdmin(name) then Reject(s, Forbidden)
      else if id !in s.rows then Reject(s, NotFound)
      else Outcome(Response(NoContent, Empty), Store(s.rows - {id}, s.nextId))
  }
}
