/**
 * `addOrUpdateHostelManually` (controllers/addOrUpdateHostelController.js,
 * lines 3-95): each request of a batch either deletes a stored hostel or
 * upserts one. The stored hostels are read once, before the loop, and every
 * write is queued for a single `bulkWrite` after it; an exception anywhere
 * in the loop is caught and answered with a 500, and nothing is written.
 *
 * The stored documents follow the hostel schema (models/hostel.js, lines
 * 3-29), which has no `nonAssociatedSchools` path: reading that property of
 * a document gives `undefined`, and the spread of it at line 55 throws. So a
 * request naming a stored hostel without the delete flag fails the whole
 * batch. `IntendedDecide` is the decision the merge of lines 48-57 was
 * written for, over records that do carry both lists.
 */
module HostelUpsert {
  import opened Common
  import opened Lists

  /**
   * One request. Absent school lists are empty (the destructuring defaults);
   * `type`, `capacity` and `numberOfRooms` are copied through unread.
   */
  datatype HostelRequest = HostelRequest(
    name: string,
    hostelType: Option<string>,
    capacity: Option<int>,
    numberOfRooms: Option<int>,
    associatedSchools: seq<string>,
    nonAssociatedSchools: seq<string>,
    removeAssociatedSchools: seq<string>,
    removeNonAssociatedSchools: seq<string>,
    delete: bool)

  /**
   * A stored hostel as the pre-fetched map holds it. Of its fields only the
   * `_id` reaches a queued operation: a request that goes on to read its
   * school lists throws before anything it computed is used.
   */
  datatype StoredHostel = StoredHostel(id: string)

  /** A queued `bulkWrite` operation. */
  datatype Op =
    | DeleteOne(id: string)
    | UpsertOne(
        name: string,
        hostelType: Option<string>,
        capacity: Option<int>,
        numberOfRooms: Option<int>,
        associatedSchools: seq<string>,
        nonAssociatedSchools: seq<string>)

  /** An entry of the response's `hostels` list. */
  datatype Reply = Deleted(name: string) | Upserted(name: string)

  /** What one request does: queue an operation and answer with a reply, or throw. */
  datatype Step = Queue(op: Op, reply: Reply) | Throw

  /** What the loop has queued: the operations and the `hostels` list, in request order. */
  datatype Batch = Batch(ops: seq<Op>, replies: seq<Reply>)

  /** The 500 of the catch block (lines 91-94). */
  datatype ServerError = InternalServerError

  /** A 200 answer: the replies, after a `bulkWrite` of `ops` exactly when `write` holds. */
  datatype Response = Response(ops: seq<Op>, replies: seq<Reply>, write: bool)

  /**
   * Lines 31-78: the step for one request against the map fetched before
   * the loop. A stored hostel without the delete flag reaches line 55, whose
   * spread of the missing `nonAssociatedSchools` throws.
   */
  function Decide(req: HostelRequest, existing: map<string, StoredHostel>): Step {
    if req.delete && req.name in existing then
      Queue(DeleteOne(existing[req.name].id), Deleted(req.name))
    else if req.name in existing then
      Throw
    else
      Queue(
        UpsertOne(req.name, req.hostelType, req.capacity, req.numberOfRooms, req.associatedSchools, req.nonAssociatedSchools),
        Upserted(req.name))
  }

  /** Lines 18-79 over a batch: what the loop queues, or the 500 once some request throws. */
  function Outcome(requests: seq<HostelRequest>, existing: map<string, StoredHostel>): Result<Batch, ServerError>
    decreases |requests|
  {
    if requests == [] then Success(Batch([], []))
    else
      match Outcome(requests[..|requests| - 1], existing)
      case Failure(e) => Failure(e)
      case Success(b) =>
        match Decide(requests[|requests| - 1], existing)
        case Throw => Failure(InternalServerError)
        case Queue(op, reply) => Success(Batch(b.ops + [op], b.replies + [reply]))
  }

  /**
   * Lines 7-94: the loop over the requests, queuing one operation and one
   * reply per request until one throws. On success `write` says whether
   * `bulkWrite` is issued; on failure nothing is written.
   */
  method AddOrUpdateHostels(body: Body<HostelRequest>, existing: map<string, StoredHostel>) returns (r: Result<Response, ServerError>)
    ensures r.Failure? <==> Outcome(Requests(body), existing).Failure?
    ensures r.Success? ==>
      var b := Outcome(Requests(body), existing).value;
      r.value == Response(b.ops, b.replies, b.ops != [])
  {
    var requests := Requests(body);
    var ops: seq<Op>, replies: seq<Reply> := [], [];
    for i := 0 to |requests|
      invariant Outcome(requests[..i], existing) == Success(Batch(ops, replies))
    {
      assert requests[..i + 1][..i] == requests[..i];
      match Decide(requests[i], existing)
      case Throw =>
        OutcomeSpec(requests, existing);
        return Failure(InternalServerError);
      case Queue(op, reply) =>
        ops := ops + [op];
        replies := replies + [reply];
    }
    assert requests[..|requests|] == requests;
    return Success(Response(ops, replies, |ops| > 0));
  }

  /**
   * A request deletes exactly when it carries the delete flag and names a
   * stored hostel, and throws exactly when it names a stored hostel without
   * the flag. Otherwise it upserts a new hostel with the request's fields
   * and lists as given (the removal lists are ignored), so a delete flag on
   * an unknown name falls through to an upsert.
   */
  lemma DecideKind(req: HostelRequest, existing: map<string, StoredHostel>)
    ensures var d := Decide(req, existing);
      && (d.Throw? <==> !req.delete && req.name in existing)
      && (d.Queue? && d.op.DeleteOne? <==> req.delete && req.name in existing)
      && (d.Queue? && d.op.DeleteOne? ==> d.op.id == existing[req.name].id && d.reply == Deleted(req.name))
      && (d.Queue? && d.op.UpsertOne? ==>
            && req.name !in existing
            && d.reply == Upserted(req.name) && d.op.name == req.name
            && d.op.hostelType == req.hostelType && d.op.capacity == req.capacity
            && d.op.numberOfRooms == req.numberOfRooms
            && d.op.associatedSchools == req.associatedSchools
            && d.op.nonAssociatedSchools == req.nonAssociatedSchools)
  {
  }

  /**
   * A batch fails exactly when one of its requests throws. Otherwise it
   * queues one operation and one reply per request, each what that request
   * decides on its own against the map read before the loop.
   */
  lemma {:induction false} OutcomeSpec(rs: seq<HostelRequest>, existing: map<string, StoredHostel>)
    ensures Outcome(rs, existing).Failure? <==> exists i :: 0 <= i < |rs| && Decide(rs[i], existing).Throw?
    ensures Outcome(rs, existing).Success? ==>
      var b := Outcome(rs, existing).value;
      && |b.ops| == |rs| && |b.replies| == |rs|
      && forall i :: 0 <= i < |rs| ==> Decide(rs[i], existing) == Queue(b.ops[i], b.replies[i])
    decreases |rs|
  {
    if rs != [] {
      var init := rs[..|rs| - 1];
      OutcomeSpec(init, existing);
      assert forall i :: 0 <= i < |init| ==> init[i] == rs[i];
    }
  }

  /** A batch fails exactly when some request names a stored hostel without the delete flag. */
  lemma BatchFailsOnStoredUpsert(rs: seq<HostelRequest>, existing: map<string, StoredHostel>)
    ensures Outcome(rs, existing).Failure? <==>
      exists i :: 0 <= i < |rs| && !rs[i].delete && rs[i].name in existing
  {
    OutcomeSpec(rs, existing);
    forall i | 0 <= i < |rs|
      ensures Decide(rs[i], existing).Throw? <==> !rs[i].delete && rs[i].name in existing
    {
      DecideKind(rs[i], existing);
    }
  }

  /**
   * Existence is judged only against the map read before the loop: a batch
   * fails when either part would, and otherwise queues what its parts would
   * queue on their own, so an earlier request never changes what a later
   * one does.
   */
  lemma BatchIsPerRequest(a: seq<HostelRequest>, b: seq<HostelRequest>, existing: map<string, StoredHostel>)
    ensures Outcome(a + b, existing).Failure? <==> Outcome(a, existing).Failure? || Outcome(b, existing).Failure?
    ensures Outcome(a + b, existing).Success? ==>
      Outcome(a + b, existing).value
        == Batch(Outcome(a, existing).value.ops + Outcome(b, existing).value.ops,
                 Outcome(a, existing).value.replies + Outcome(b, existing).value.replies)
  {
    var ab := a + b;
    OutcomeSpec(a, existing);
    OutcomeSpec(b, existing);
    OutcomeSpec(ab, existing);
    assert forall i :: 0 <= i < |a| ==> ab[i] == a[i];
    assert forall i :: 0 <= i < |b| ==> ab[|a| + i] == b[i];
    if Outcome(ab, existing).Failure? {
      var i :| 0 <= i < |ab| && Decide(ab[i], existing).Throw?;
      if i >= |a| {
        assert b[i - |a|] == ab[i];
      }
    }
  }

  /**
   * Deleting a stored hostel and asking for it again in the same batch: the
   * second request still sees the hostel stored and throws, so not even the
   * delete queued before it is written.
   */
  lemma DeleteThenUpsertFails(del: HostelRequest, again: HostelRequest, existing: map<string, StoredHostel>)
    requires del.delete && del.name in existing && again.name == del.name && !again.delete
    ensures Decide(del, existing) == Queue(DeleteOne(existing[del.name].id), Deleted(del.name))
    ensures Outcome([del, again], existing) == Failure(InternalServerError)
  {
    assert [del, again][..1] == [del];
    assert [del][..0] == [];
    assert Outcome([del], existing).Success?;
  }

  /** A one-request batch that updates the stored hostel "QC-A" answers 500 and writes nothing. */
  lemma StoredUpsertFailsBatch()
    ensures var req := HostelRequest("QC-A", Some("GIRLS"), Some(100), Some(50), ["SCHOOL OF LAW"], [], [], [], false);
      Outcome([req], map["QC-A" := StoredHostel("h1")]) == Failure(InternalServerError)
  {
    var req := HostelRequest("QC-A", Some("GIRLS"), Some(100), Some(50), ["SCHOOL OF LAW"], [], [], [], false);
    assert [req][..0] == [];
  }

  // ---------------------------------------------------------------------
  // The merge lines 48-57 were written for
  // ---------------------------------------------------------------------

  /** A stored hostel carrying both school lists, as lines 48-57 expect to read it. */
  datatype ExpectedHostel = ExpectedHostel(id: string, associatedSchools: seq<string>, nonAssociatedSchools: seq<string>)

  /** The pre-fetched map as the schema delivers it: the same hostels, without their lists. */
  function AsStored(expected: map<string, ExpectedHostel>): (m: map<string, StoredHostel>)
    ensures m.Keys == expected.Keys
    ensures forall k :: k in m ==> m[k].id == expected[k].id
  {
    map k | k in expected :: StoredHostel(expected[k].id)
  }

  /**
   * Lines 31-78 as intended: a stored hostel without the delete flag is
   * upserted with each list merged as lines 49-57 compute it, instead of
   * throwing.
   */
  function IntendedDecide(req: HostelRequest, expected: map<string, ExpectedHostel>): (d: Step)
    ensures d.Queue?
  {
    if req.delete && req.name in expected then
      Queue(DeleteOne(expected[req.name].id), Deleted(req.name))
    else
      var assoc :=
        if req.name in expected
        then Merge(expected[req.name].associatedSchools, req.associatedSchools, req.removeAssociatedSchools)
        else req.associatedSchools;
      var nonAssoc :=
        if req.name in expected
        then Merge(expected[req.name].nonAssociatedSchools, req.nonAssociatedSchools, req.removeNonAssociatedSchools)
        else req.nonAssociatedSchools;
      Queue(UpsertOne(req.name, req.hostelType, req.capacity, req.numberOfRooms, assoc, nonAssoc), Upserted(req.name))
  }

  /** The code as written and as intended differ exactly on the requests that throw. */
  lemma DecideIsIntendedUnlessThrown(req: HostelRequest, expected: map<string, ExpectedHostel>)
    ensures Decide(req, AsStored(expected)).Throw? <==> !req.delete && req.name in expected
    ensures Decide(req, AsStored(expected)).Queue? ==> Decide(req, AsStored(expected)) == IntendedDecide(req, expected)
  {
  }

  /**
   * As intended, upserting a stored hostel leaves each final list holding
   * each school once: exactly the stored and requested schools not on its
   * removal list, with the stored ones that stay keeping their order at the
   * front.
   */
  lemma UpsertOfStoredMerges(req: HostelRequest, expected: map<string, ExpectedHostel>)
    requires !req.delete && req.name in expected
    ensures var op := IntendedDecide(req, expected).op;
      var stored := expected[req.name];
      && op.UpsertOne?
      && NoDuplicates(op.associatedSchools)
      && (forall s :: s in op.associatedSchools <==>
            (s in stored.associatedSchools || s in req.associatedSchools) && s !in req.removeAssociatedSchools)
      && NoDuplicates(op.nonAssociatedSchools)
      && (forall s :: s in op.nonAssociatedSchools <==>
            (s in stored.nonAssociatedSchools || s in req.nonAssociatedSchools) && s !in req.removeNonAssociatedSchools)
      && var kept := Without(Dedup(stored.associatedSchools), req.removeAssociatedSchools);
         |kept| <= |op.associatedSchools| && op.associatedSchools[..|kept|] == kept
  {
    var stored := expected[req.name];
    MergeSpec(stored.associatedSchools, req.associatedSchools, req.removeAssociatedSchools);
    MergeSpec(stored.nonAssociatedSchools, req.nonAssociatedSchools, req.removeNonAssociatedSchools);
  }
}
