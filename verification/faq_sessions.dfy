/** Sequences of requests against one table, each handled to completion
    before the next one starts. A POST is the handler as written
    (FaqsCr.Post), read-back by question included. */
module FaqSessions {
  import opened FaqStore
  import opened FaqsRud
  import opened FaqsCr

  datatype Request =
    | Fetch(id: Id)
    | Update(id: Id, body: JsonBody, auth: Auth, now: Time)
    | Remove(id: Id, auth: Auth)
    | Create(body: JsonBody, auth: Auth, now: Time)

  function Step(s: Store, r: Request): Outcome
  {
    match r
    case Fetch(id) => Get(s, id)
    case Update(id, body, auth, now) => Put(s, id, body, auth, now)
    case Remove(id, auth) => Delete(s, id, auth)
    case Create(body, auth, now) => Post(s, body, auth, now)
  }

  /** The table after handling `reqs` in order. */
  function Run(s: Store, reqs: seq<Request>): Store
    decreases |reqs|
  {
    if |reqs| == 0 then s else Run(Step(s, reqs[0]).store, reqs[1..])
  }

  /** A fetch never changes the table. A request that changes it answered
      200, 201 or 204, or else it is a POST whose row was inserted and whose
      read-back by question failed with 500. */
  lemma StepChangesStoreOnlyOnSuccess(s: Store, r: Request)
    ensures r.Fetch? ==> Step(s, r).store == s
    ensures Step(s, r).store != s ==> Step(s, r).response.status in {Ok, Created, NoContent, InternalServerError}
    ensures Step(s, r).store != s && Step(s, r).response.status == InternalServerError ==> r.Create?
  {
  }

  lemma StepPreservesValid(s: Store, r: Request)
    requires Valid(s)
    ensures Valid(Step(s, r).store)
  {
  }

  /** Every table reached from a valid one is valid: rows sit under their own
      identifiers and the identifier supply stays ahead of them. */
  lemma {:induction false} RunPreservesValid(s: Store, reqs: seq<Request>)
    requires Valid(s)
    ensures Valid(Run(s, reqs))
    decreases |reqs|
  {
    if |reqs| > 0 {
      StepPreservesValid(s, reqs[0]);
      RunPreservesValid(Step(s, reqs[0]).store, reqs[1..]);
    }
  }

  /** An identifier once handed out and now absent never comes back: no
      request re-inserts it, so fetching it keeps answering 404. */
  lemma {:induction false} RemovedIdStaysAbsent(s: Store, id: Id, reqs: seq<Request>)
    requires Valid(s) && id < s.nextId && id !in s.rows
    ensures id !in Run(s, reqs).rows
    ensures Get(Run(s, reqs), id).response.status == NotFound
    decreases |reqs|
  {
    if |reqs| > 0 {
      var s1 := Step(s, reqs[0]).store;
      StepPreservesValid(s, reqs[0]);
      assert id < s1.nextId && id !in s1.rows;
      RemovedIdStaysAbsent(s1, id, reqs[1..]);
    }
  }

  /** A successful DELETE is final: whatever requests follow, the row stays
      gone. */
  lemma DeleteIsPermanent(s: Store, id: Id, auth: Auth, later: seq<Request>)
    requires Valid(s) && Delete(s, id, auth).response.status == NoContent
    ensures Get(Run(s, [Remove(id, auth)] + later), id).response.status == NotFound
  {
    var s1 := Delete(s, id, auth).store;
    assert ([Remove(id, auth)] + later)[1..] == later;
    RemovedIdStaysAbsent(s1, id, later);
  }

  /** The clock reading a request carries, if any. */
  function ClockOf(r: Request): Option<Time>
  {
    match r
    case Update(_, _, _, now) => Some(now)
    case Create(_, _, now) => Some(now)
    case _ => None
  }

  /** The clock readings of `reqs`, in order, never go below `t` nor backwards. */
  predicate ClockFrom(t: Time, reqs: seq<Request>)
    decreases |reqs|
  {
    |reqs| == 0 ||
    match ClockOf(reqs[0])
    case None => ClockFrom(t, reqs[1..])
    case Some(c) => t <= c && ClockFrom(c, reqs[1..])
  }

  /** The latest clock reading once `reqs` ran, starting from `t`. */
  function LastClock(t: Time, reqs: seq<Request>): Time
    decreases |reqs|
  {
    if |reqs| == 0 then t
    else match ClockOf(reqs[0])
      case None => LastClock(t, reqs[1..])
      case Some(c) => LastClock(c, reqs[1..])
  }

  lemma StepKeepsTimesOrdered(s: Store, t: Time, r: Request)
    requires TimesOrdered(s, t)
    requires ClockOf(r).Some? ==> t <= ClockOf(r).value
    ensures TimesOrdered(Step(s, r).store, if ClockOf(r).Some? then ClockOf(r).value else t)
  {
  }

  /** With a clock that never runs backwards, no row is ever updated before
      it was created, over any sequence of requests. */
  lemma {:induction false} RunKeepsTimesOrdered(s: Store, t: Time, reqs: seq<Request>)
    requires TimesOrdered(s, t) && ClockFrom(t, reqs)
    ensures TimesOrdered(Run(s, reqs), LastClock(t, reqs))
    decreases |reqs|
  {
    if |reqs| > 0 {
      StepKeepsTimesOrdered(s, t, reqs[0]);
      var t1 := if ClockOf(reqs[0]).Some? then ClockOf(reqs[0]).value else t;
      RunKeepsTimesOrdered(Step(s, reqs[0]).store, t1, reqs[1..]);
    }
  }

  /** A session of fetches leaves the table as it was. */
  lemma {:induction false} FetchesLeaveStore(s: Store, reqs: seq<Request>)
    requires forall i :: 0 <= i < |reqs| ==> reqs[i].Fetch?
    ensures Run(s, reqs) == s
    decreases |reqs|
  {
    if |reqs| > 0 {
      FetchesLeaveStore(s, reqs[1..]);
    }
  }
}
