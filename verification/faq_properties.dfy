/** Properties of the five handlers: the order in which their checks decide
    the status, what each does to the table, and how a later read sees an
    earlier write. */
module FaqProperties {
  import opened FaqStore
  import opened Checks
  import opened FaqsRud
  import opened FaqsCr

  // ---------------------------------------------------------------------
  // The order of the checks
  // ---------------------------------------------------------------------

  /** PUT's guards in the order the handler runs them. */
  function PutChecks(s: Store, id: Id, body: JsonBody, auth: Auth): seq<Check>
  {
    [ Check(!body.Unparseable?, BadRequest),
      Check(!body.SchemaRejected?, UnprocessableEntity),
      Check(!auth.NoAuthToken?, BadRequest),
      Check(!auth.NotLoggedIn?, Unauthorized),
      Check(auth.Role? && IsAdmin(auth.name), Forbidden),
      Check(id in s.rows, NotFound) ]
  }

  /** DELETE's guards: no body checks at all. */
  function DeleteChecks(s: Store, id: Id, auth: Auth): seq<Check>
  {
    [ Check(!auth.NoAuthToken?, BadRequest),
      Check(!auth.NotLoggedIn?, Unauthorized),
      Check(auth.Role? && IsAdmin(auth.name), Forbidden),
      Check(id in s.rows, NotFound) ]
  }

  /** POST's guards: the duplicate guard comes before the role guard. */
  function PostChecks(s: Store, body: JsonBody, auth: Auth): seq<Check>
  {
    [ Check(!body.Unparseable?, BadRequest),
      Check(!body.SchemaRejected?, UnprocessableEntity),
      Check(!auth.NoAuthToken?, BadRequest),
      Check(!auth.NotLoggedIn?, Unauthorized),
      Check(!(body.Accepted? && HasPair(s.rows, body.payload.question, body.payload.answer)), Conflict),
      Check(auth.Role? && IsAdmin(auth.name), Forbidden) ]
  }

  /** What POST answers once it has inserted, read off the table before the
      insert: the read-back by question finds only the new row exactly when
      no existing row has that question. */
  function ReadBackStatus(s: Store, body: JsonBody): int
  {
    if body.Accepted? && QuestionMatches(s.rows, body.payload.question) == {} then Created
    else InternalServerError
  }

  /** PUT answers with the status of its first failing guard, 200 when none fails. */
  lemma PutFollowsCheckOrder(s: Store, id: Id, body: JsonBody, auth: Auth, now: Time)
    ensures Put(s, id, body, auth, now).response.status == FirstFailure(PutChecks(s, id, body, auth), Ok)
  {
    var checks := PutChecks(s, id, body, auth);
    var i := FirstFailing(checks);
    // naming each guard lets the first failing one pin down i
    assert (checks[0].passes && checks[1].passes && checks[2].passes && checks[3].passes && checks[4].passes
            && checks[5].passes) ==> i == |checks|;
  }

  /** DELETE answers with the status of its first failing guard, 204 when none fails. */
  lemma DeleteFollowsCheckOrder(s: Store, id: Id, auth: Auth)
    ensures Delete(s, id, auth).response.status == FirstFailure(DeleteChecks(s, id, auth), NoContent)
  {
    var checks := DeleteChecks(s, id, auth);
    var i := FirstFailing(checks);
    assert checks[0].passes && checks[1].passes && checks[2].passes && checks[3].passes ==> i == |checks|;
  }

  /** POST answers with the status of its first failing guard; when none
      fails it inserts, and the read-back decides between 201 and 500. */
  lemma PostFollowsCheckOrder(s: Store, body: JsonBody, auth: Auth, now: Time)
    requires Valid(s)
    ensures Post(s, body, auth, now).response.status == FirstFailure(PostChecks(s, body, auth), ReadBackStatus(s, body))
  {
    var checks := PostChecks(s, body, auth);
    var i := FirstFailing(checks);
    assert (checks[0].passes && checks[1].passes && checks[2].passes && checks[3].passes && checks[4].passes
            && checks[5].passes) ==> i == |checks|;
    if InsertAdmitted(s, body, auth) {
      PostReadBack(s, body.payload, auth.name, auth.user, now);
    }
  }

  /** The status a logged-in caller who is not an administrator gets from
      POST: 409 for a duplicate pair, since that guard runs first, and 403
      only otherwise. */
  lemma PostConflictBeforeForbidden(s: Store, p: Fields, name: string, user: UserId, now: Time)
    requires !IsAdmin(name)
    ensures var o := Post(s, Accepted(p), Role(name, user), now);
            && o.store == s
            && (o.response.status == Conflict <==> HasPair(s.rows, p.question, p.answer))
            && (o.response.status == Forbidden <==> !HasPair(s.rows, p.question, p.answer))
  {
  }

  // ---------------------------------------------------------------------
  // The read-back after an insert
  // ---------------------------------------------------------------------

  /** After the insert, the rows sharing the new question are the old ones
      that had it plus the new row. */
  lemma InsertQuestionMatches(s: Store, p: Fields, user: UserId, now: Time)
    requires Valid(s)
    ensures QuestionMatches(Insert(s, p, user, now).rows, p.question) == QuestionMatches(s.rows, p.question) + {s.nextId}
    ensures s.nextId !in QuestionMatches(s.rows, p.question)
  {
  }

  /** An administrator's POST of a fresh pair answers 201 exactly when no
      existing row has the same question, and 500 otherwise, although the
      row is inserted in both cases. */
  lemma PostReadBack(s: Store, p: Fields, name: string, user: UserId, now: Time)
    requires Valid(s) && IsAdmin(name) && !HasPair(s.rows, p.question, p.answer)
    ensures var o := Post(s, Accepted(p), Role(name, user), now);
            && Inserts(s, o.store, p, user, now)
            && (o.response.status == Created <==> QuestionMatches(s.rows, p.question) == {})
            && (o.response.status == InternalServerError <==>
                  exists k :: k in s.rows && s.rows[k].fields.question == p.question)
  {
    InsertQuestionMatches(s, p, user, now);
    var s' := Insert(s, p, user, now);
    var matches := QuestionMatches(s.rows, p.question);
    var after := matches + {s.nextId};
    assert Post(s, Accepted(p), Role(name, user), now).store == s';
    if matches == {} {
      assert after == {s.nextId};
      assert One(s'.rows, p.question).Some?;
    } else {
      var k :| k in matches;
      assert {k, s.nextId} <= after;
      assert |{k, s.nextId}| == 2;
      SubsetCardinality({k, s.nextId}, after);
      assert One(s'.rows, p.question).None?;
      assert k in s.rows && s.rows[k].fields.question == p.question;
    }
  }

  lemma SubsetCardinality(a: set<Id>, b: set<Id>)
    requires a <= b
    ensures |a| <= |b|
  {
    assert b == a + (b - a);
  }

  /** The table behind the 500 of the read-back: a row with question "Q"
      and answer "A1" exists, a director posts "Q" with answer "A2". */
  lemma PostSharedQuestionAnswers500()
    ensures var s := Store(map[0 := Faq(0, Fields("Q", "A1", true, 1, "home"), 3, 10, 10)], 1);
            var p := Fields("Q", "A2", true, 1, "home");
            var o := Post(s, Accepted(p), Role("director", 7), 20);
            && o.response.status == InternalServerError
            && o.store.rows == s.rows[1 := Faq(1, p, 7, 20, 20)]
  {
    var s := Store(map[0 := Faq(0, Fields("Q", "A1", true, 1, "home"), 3, 10, 10)], 1);
    var p := Fields("Q", "A2", true, 1, "home");
    assert !HasPair(s.rows, p.question, p.answer) by {
      assert s.rows.Keys == {0};
    }
    PostReadBack(s, p, "director", 7, 20);
    // the older row 0 has the same question
    assert 0 in s.rows && s.rows[0].fields.question == p.question;
  }

  /** With the read-back by identifier, every admitted insert answers 201
      with the row it inserted, whatever questions the other rows hold. */
  lemma PostCorrectedAnswersCreated(s: Store, p: Fields, name: string, user: UserId, now: Time)
    requires IsAdmin(name) && !HasPair(s.rows, p.question, p.answer)
    ensures var o := PostCorrected(s, Accepted(p), Role(name, user), now);
            && o.response == Response(Created, Record(Faq(s.nextId, p, user, now, now)))
            && o.store == Post(s, Accepted(p), Role(name, user), now).store
  {
  }

  /** Both versions of POST leave the table in the same state. */
  lemma PostVersionsAgreeOnStore(s: Store, body: JsonBody, auth: Auth, now: Time)
    ensures PostCorrected(s, body, auth, now).store == Post(s, body, auth, now).store
  {
  }

  // ---------------------------------------------------------------------
  // Reads after writes
  // ---------------------------------------------------------------------

  /** Fetching the row a successful POST returned gives back the same body. */
  lemma PostThenGet(s: Store, body: JsonBody, auth: Auth, now: Time)
    ensures var o := Post(s, body, auth, now);
            o.response.status == Created ==>
              && o.response.body.Record?
              && Get(o.store, o.response.body.faq.id) == Outcome(o.response.(status := Ok), o.store)
  {
  }

  /** The same round trip for the corrected POST. */
  lemma PostCorrectedThenGet(s: Store, body: JsonBody, auth: Auth, now: Time)
    ensures var o := PostCorrected(s, body, auth, now);
            o.response.status == Created ==>
              && o.response.body.Record?
              && Get(o.store, o.response.body.faq.id) == Outcome(o.response.(status := Ok), o.store)
  {
  }

  /** Fetching a row after a successful PUT gives what the PUT answered. */
  lemma PutThenGet(s: Store, id: Id, body: JsonBody, auth: Auth, now: Time)
    ensures var o := Put(s, id, body, auth, now);
            o.response.status == Ok ==> Get(o.store, id).response == o.response
  {
  }

  /** After a successful DELETE the row is gone: fetching it answers 404. */
  lemma DeleteThenGet(s: Store, id: Id, auth: Auth)
    ensures var o := Delete(s, id, auth);
            o.response.status == NoContent ==> Get(o.store, id).response == Response(NotFound, ErrorMessage)
  {
  }

  /** A successful DELETE removes one row, and a later DELETE of it answers 404. */
  lemma DeleteRemovesExactlyOne(s: Store, id: Id, auth: Auth)
    requires Delete(s, id, auth).response.status == NoContent
    ensures var s' := Delete(s, id, auth).store;
            && |s'.rows| == |s.rows| - 1
            && Delete(s', id, auth).response.status == NotFound
  {
  }

  /** An admitted insert on a valid table adds one row under a fresh key. */
  lemma PostAddsOneRow(s: Store, body: JsonBody, auth: Auth, now: Time)
    requires Valid(s) && InsertAdmitted(s, body, auth)
    ensures var s' := Post(s, body, auth, now).store;
            && s.nextId !in s.rows
            && |s'.rows| == |s.rows| + 1
            && (forall k :: k in s.rows ==> k in s'.rows && s'.rows[k] == s.rows[k])
  {
  }

  // ---------------------------------------------------------------------
  // The duplicate guard
  // ---------------------------------------------------------------------

  /** POST keeps (question, answer) pairs unique. */
  lemma PostPreservesUniquePairs(s: Store, body: JsonBody, auth: Auth, now: Time)
    requires UniquePairs(s.rows)
    ensures UniquePairs(Post(s, body, auth, now).store.rows)
  {
  }

  /** Posting the same pair twice: once the first is inserted (whatever it
      answered), the second, by any logged-in caller, answers 409. */
  lemma RepeatedPostConflicts(s: Store, p: Fields, first: Auth, second: Auth, t1: Time, t2: Time)
    requires InsertStatus(Post(s, Accepted(p), first, t1).response.status)
    requires second.Role?
    ensures var s1 := Post(s, Accepted(p), first, t1).store;
            var o2 := Post(s1, Accepted(p), second, t2);
            o2.response.status == Conflict && o2.store == s1
  {
  }

  /** PUT does not run the duplicate guard: overwriting a row with another
      row's pair succeeds and leaves two rows with the same pair. */
  lemma PutMayBreakUniquePairs()
    ensures var f := Fields("Q", "A", true, 1, "home");
            var s := Store(map[0 := Faq(0, f, 3, 10, 10), 1 := Faq(1, Fields("Q2", "A2", false, 2, "home"), 3, 10, 10)], 2);
            var o := Put(s, 1, Accepted(f), Role("organizer", 4), 20);
            && UniquePairs(s.rows)
            && o.response.status == Ok
            && !UniquePairs(o.store.rows)
  {
    var f := Fields("Q", "A", true, 1, "home");
    var s := Store(map[0 := Faq(0, f, 3, 10, 10), 1 := Faq(1, Fields("Q2", "A2", false, 2, "home"), 3, 10, 10)], 2);
    var o := Put(s, 1, Accepted(f), Role("organizer", 4), 20);
    assert o.store.rows[0].fields == o.store.rows[1].fields;
  }

  // ---------------------------------------------------------------------
  // Timestamps
  // ---------------------------------------------------------------------

  /** With a clock that does not run backwards, a PUT moves the update time
      forward and keeps it no earlier than the creation time. */
  lemma PutAdvancesUpdateTime(s: Store, id: Id, body: JsonBody, auth: Auth, t: Time, now: Time)
    requires TimesOrdered(s, t) && t <= now
    requires Put(s, id, body, auth, now).response.status == Ok
    ensures var s' := Put(s, id, body, auth, now).store;
            && s.rows[id].updatedAt <= s'.rows[id].updatedAt
            && s'.rows[id].createdAt <= s'.rows[id].updatedAt
            && TimesOrdered(s', now)
  {
  }
}
