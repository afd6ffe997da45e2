/**
 * `addOrUpdateGroupManually` (controllers/addOrUpdateGroupController.js,
 * lines 4-105): each request of a batch is refused (no name, unknown
 * hostels), shrinks or deletes a stored group, or upserts one. The hostels
 * are read once before the loop; each group is read as it stood before the
 * batch, since every write waits for the single `bulkWrite` after the loop.
 */
module GroupUpsert {
  import opened Common
  import opened Lists

  /**
   * One request. An absent or empty `name` is "" (both are falsy); an absent
   * `hostelName` is empty (the destructuring default); `numberOfFacutlyPerDay`
   * and `type` are copied through unread.
   */
  datatype GroupRequest = GroupRequest(
    name: string,
    hostelName: seq<string>,
    numberOfFacultyPerDay: Option<int>,
    groupType: Option<string>,
    delete: bool)

  /** A stored group as `Group.findOne` returns it. */
  datatype StoredGroup = StoredGroup(id: string, hostelName: seq<string>)

  /** A queued `bulkWrite` operation. */
  datatype Op =
    | DeleteGroup(id: string)
    | SetHostels(id: string, hostelName: seq<string>)
    | UpsertGroup(name: string, hostelName: seq<string>, numberOfFacultyPerDay: Option<int>, groupType: Option<string>)

  /** An entry of the response's `groups` list; `InvalidHostels` carries the hostels its message lists. */
  datatype Reply =
    | NameRequired
    | InvalidHostels(name: string, invalid: seq<string>)
    | GroupDeleted(name: string)
    | GroupShrunk(name: string, removedHostels: seq<string>)
    | GroupUpserted(name: string)

  /** What one request queues (if anything) and answers. */
  datatype Decision = Decision(op: Option<Op>, reply: Reply)

  /** Line 9: every hostel some request names. */
  function Mentioned(requests: seq<GroupRequest>): set<string> {
    if requests == [] then {}
    else
      var last := requests[|requests| - 1].hostelName;
      Mentioned(requests[..|requests| - 1]) + set i | 0 <= i < |last| :: last[i]
  }

  /** Lines 9-14: the names of the stored hostels among those mentioned, read once before the loop. */
  function Fetched(requests: seq<GroupRequest>, stored: set<string>): set<string> {
    Mentioned(requests) * stored
  }

  /** Line 33: the requested hostels the fetched set does not hold, in request order. */
  function Unknown(hostels: seq<string>, known: set<string>): (r: seq<string>)
    ensures |r| <= |hostels|
  {
    if hostels == [] then []
    else
      var h := hostels[|hostels| - 1];
      Unknown(hostels[..|hostels| - 1], known) + (if h in known then [] else [h])
  }

  /** Lines 20-89: the decision for one request. */
  function Decide(req: GroupRequest, fetched: set<string>, groups: map<string, StoredGroup>): Decision {
    if req.name == "" then Decision(None, NameRequired)
    else if Unknown(req.hostelName, fetched) != [] then
      Decision(None, InvalidHostels(req.name, Unknown(req.hostelName, fetched)))
    else if req.delete && req.name in groups then
      var group := groups[req.name];
      var remaining := Without(group.hostelName, req.hostelName);
      if remaining == [] then Decision(Some(DeleteGroup(group.id)), GroupDeleted(req.name))
      else Decision(Some(SetHostels(group.id, remaining)), GroupShrunk(req.name, req.hostelName))
    else
      var hostels := if req.name in groups then Dedup(groups[req.name].hostelName + req.hostelName) else req.hostelName;
      Decision(Some(UpsertGroup(req.name, hostels, req.numberOfFacultyPerDay, req.groupType)), GroupUpserted(req.name))
  }

  /** The queued operations of a batch, in request order. */
  function Operations(requests: seq<GroupRequest>, fetched: set<string>, groups: map<string, StoredGroup>): seq<Op> {
    if requests == [] then []
    else
      var d := Decide(requests[|requests| - 1], fetched, groups);
      Operations(requests[..|requests| - 1], fetched, groups) + (if d.op.Some? then [d.op.value] else [])
  }

  /** The `groups` list of the response, one entry per request. */
  function Replies(requests: seq<GroupRequest>, fetched: set<string>, groups: map<string, StoredGroup>): seq<Reply> {
    seq(|requests|, i requires 0 <= i < |requests| => Decide(requests[i], fetched, groups).reply)
  }

  /** The number of requests that queue an operation. */
  function Accepted(requests: seq<GroupRequest>, fetched: set<string>, groups: map<string, StoredGroup>): nat {
    if requests == [] then 0
    else
      Accepted(requests[..|requests| - 1], fetched, groups)
      + (if Decide(requests[|requests| - 1], fetched, groups).op.Some? then 1 else 0)
  }

  /**
   * Lines 8-94: read the mentioned hostels once, then decide each request in
   * turn; `write` says whether `bulkWrite` is issued.
   */
  method AddOrUpdateGroups(body: Body<GroupRequest>, stored: set<string>, groups: map<string, StoredGroup>)
    returns (ops: seq<Op>, replies: seq<Reply>, write: bool)
    ensures ops == Operations(Requests(body), Fetched(Requests(body), stored), groups)
    ensures replies == Replies(Requests(body), Fetched(Requests(body), stored), groups)
    ensures |replies| == |Requests(body)|
    ensures write <==> ops != []
  {
    var requests := Requests(body);
    var fetched := Fetched(requests, stored);
    ops, replies := DecideAll(requests, fetched, groups);
    write := |ops| > 0;
  }

  /** Lines 19-91: the loop over the requests, each decided against the hostels and groups as read before it. */
  method DecideAll(requests: seq<GroupRequest>, fetched: set<string>, groups: map<string, StoredGroup>)
    returns (ops: seq<Op>, replies: seq<Reply>)
    ensures ops == Operations(requests, fetched, groups)
    ensures replies == Replies(requests, fetched, groups)
  {
    ops, replies := [], [];
    for i := 0 to |requests|
      invariant ops == Operations(requests[..i], fetched, groups)
      invariant replies == Replies(requests[..i], fetched, groups)
    {
      var d := Decide(requests[i], fetched, groups);
      DecideStep(requests, i, fetched, groups);
      if d.op.Some? {
        ops := ops + [d.op.value];
      }
      replies := replies + [d.reply];
    }
    assert requests[..|requests|] == requests;
  }

  /** One more request appends its operation, if any, and its reply. */
  lemma DecideStep(requests: seq<GroupRequest>, i: nat, fetched: set<string>, groups: map<string, StoredGroup>)
    requires i < |requests|
    ensures var d := Decide(requests[i], fetched, groups);
      && Operations(requests[..i + 1], fetched, groups)
         == Operations(requests[..i], fetched, groups) + (if d.op.Some? then [d.op.value] else [])
      && Replies(requests[..i + 1], fetched, groups) == Replies(requests[..i], fetched, groups) + [d.reply]
  {
    assert requests[..i + 1][..i] == requests[..i];
  }

  lemma {:induction false} MentionedSpec(requests: seq<GroupRequest>)
    ensures forall i, h :: 0 <= i < |requests| && h in requests[i].hostelName ==> h in Mentioned(requests)
  {
    if requests != [] {
      MentionedSpec(requests[..|requests| - 1]);
    }
  }

  /**
   * The hostel set is fetched only for the hostels the batch mentions, so for
   * every hostel a request names it agrees with the stored hostels.
   */
  lemma FetchedAgrees(requests: seq<GroupRequest>, stored: set<string>, i: int, h: string)
    requires 0 <= i < |requests| && h in requests[i].hostelName
    ensures h in Fetched(requests, stored) <==> h in stored
  {
    MentionedSpec(requests);
  }

  lemma {:induction false} UnknownSpec(hostels: seq<string>, known: set<string>)
    ensures forall h :: h in Unknown(hostels, known) <==> h in hostels && h !in known
  {
    if hostels != [] {
      UnknownSpec(hostels[..|hostels| - 1], known);
      assert hostels == hostels[..|hostels| - 1] + [hostels[|hostels| - 1]];
    }
  }

  /** Every requested hostel is known exactly when none is reported unknown. */
  lemma UnknownEmpty(hostels: seq<string>, known: set<string>)
    ensures Unknown(hostels, known) == [] <==> forall h :: h in hostels ==> h in known
  {
    UnknownSpec(hostels, known);
    var u := Unknown(hostels, known);
    if u != [] {
      assert u[0] in u;
    }
  }

  /**
   * Refusals: a request without a name, or naming a hostel the fetched set
   * lacks, queues nothing; the error lists exactly the unknown hostels. Every
   * other request queues exactly one operation.
   */
  lemma Refusals(req: GroupRequest, fetched: set<string>, groups: map<string, StoredGroup>)
    ensures var d := Decide(req, fetched, groups);
      && (d.reply == NameRequired <==> req.name == "")
      && (d.reply.InvalidHostels? <==> req.name != "" && exists h :: h in req.hostelName && h !in fetched)
      && (d.reply.InvalidHostels? ==>
            && d.reply.name == req.name
            && forall h :: h in d.reply.invalid <==> h in req.hostelName && h !in fetched)
      && (d.op.None? <==> d.reply.NameRequired? || d.reply.InvalidHostels?)
  {
    UnknownSpec(req.hostelName, fetched);
    UnknownEmpty(req.hostelName, fetched);
  }

  /**
   * Delete flag on a stored group: the hostels named are removed from it,
   * the others keep their order; the group is deleted exactly when none is
   * left, and otherwise its hostel list is set to what is left.
   */
  lemma DeleteShrinks(req: GroupRequest, fetched: set<string>, groups: map<string, StoredGroup>)
    requires req.name != "" && (forall h :: h in req.hostelName ==> h in fetched)
    requires req.delete && req.name in groups
    ensures var group := groups[req.name];
      var d := Decide(req, fetched, groups);
      && d.op.Some?
      && (d.op.value == DeleteGroup(group.id) <==> forall h :: h in group.hostelName ==> h in req.hostelName)
      && (d.op.value.SetHostels? ==>
            && d.op.value.id == group.id
            && d.op.value.hostelName == Without(group.hostelName, req.hostelName)
            && (forall h :: h in d.op.value.hostelName <==> h in group.hostelName && h !in req.hostelName)
            && d.reply == GroupShrunk(req.name, req.hostelName))
      && (d.op.value.DeleteGroup? ==> d.reply == GroupDeleted(req.name))
  {
    var group := groups[req.name];
    UnknownEmpty(req.hostelName, fetched);
    var remaining := Without(group.hostelName, req.hostelName);
    WithoutSpec(group.hostelName, req.hostelName);
    if remaining != [] {
      assert remaining[0] in group.hostelName && remaining[0] !in req.hostelName;
    }
  }

  /**
   * Otherwise the group is upserted: a stored group gets its hostels and the
   * requested ones, each once, the stored ones first; a new group gets the
   * requested list as given. A delete flag for a group that is not stored
   * ends up here too.
   */
  lemma UpsertMerges(req: GroupRequest, fetched: set<string>, groups: map<string, StoredGroup>)
    requires req.name != "" && (forall h :: h in req.hostelName ==> h in fetched)
    requires !(req.delete && req.name in groups)
    ensures var d := Decide(req, fetched, groups);
      && d.op.Some? && d.op.value.UpsertGroup? && d.op.value.name == req.name
      && d.reply == GroupUpserted(req.name)
      && (req.name !in groups ==> d.op.value.hostelName == req.hostelName)
      && (req.name in groups ==>
            var old_ := groups[req.name].hostelName;
            && NoDuplicates(d.op.value.hostelName)
            && (forall h :: h in d.op.value.hostelName <==> h in old_ || h in req.hostelName)
            && |Dedup(old_)| <= |d.op.value.hostelName|
            && d.op.value.hostelName[..|Dedup(old_)|] == Dedup(old_))
  {
    UnknownEmpty(req.hostelName, fetched);
    if req.name in groups {
      var old_ := groups[req.name].hostelName;
      DedupSpec(old_ + req.hostelName);
      DedupPrefix(old_, req.hostelName);
    }
  }

  /** At most one operation per request: exactly one for each request that is not refused. */
  lemma {:induction false} OneOperationPerAccepted(requests: seq<GroupRequest>, fetched: set<string>, groups: map<string, StoredGroup>)
    ensures |Operations(requests, fetched, groups)| == Accepted(requests, fetched, groups) <= |requests|
  {
    if requests != [] {
      OneOperationPerAccepted(requests[..|requests| - 1], fetched, groups);
    }
  }
}
