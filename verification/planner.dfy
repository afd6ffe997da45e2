/**
 * The planning loop of `assignDuties` (controllers/assignDutyController.js,
 * lines 29-396): validate the request, rank the hostels, build the
 * supervisor pool and the room pointers, then for each hostel and each day
 * take the next room block and one teaching and one non-teaching supervisor,
 * queueing one assignment and two `lastDuty` updates; the queued writes are
 * issued only after every hostel has been planned.
 *
 * Database reads are inputs (the stored hostels, faculty and latest room
 * range per hostel name) and the writes are the output. The calendar days
 * of the run (from `startDate`, `totalDays` of them) are an input too.
 */
module DutyPlanner {
  import opened Common
  import opened Text
  import opened Calendar
  import opened SupervisorPool
  import opened RoomBlocks
  import opened HostelOrder

  /** The request body. An absent field is the empty string: both are falsy. */
  datatype Request = Request(startDate: string, endDate: string, gender: string, excludeHostels: seq<string>)

  /** `faculty1`/`faculty2` of a stored assignment. */
  datatype Member = Member(id: string, name: string, employeeGroup: string)

  /** A queued `DutyAssignment` document. */
  datatype Assignment = Assignment(
    school: Option<string>,
    date: Date,
    hostel: string,
    roomRange: string,
    faculty1: Member,
    faculty2: Member)

  /** A queued `updateOne` that sets a faculty member's `lastDuty`. */
  datatype FacultyUpdate = FacultyUpdate(facultyId: string, lastDuty: Duty)

  /** What the run writes: `insertMany(assignments)` and `bulkWrite(updates)`, each only if non-empty. */
  datatype Writes = Writes(assignments: seq<Assignment>, updates: seq<FacultyUpdate>)

  /** 400 for a missing field, 404 for no hostel, 500 for an exception. */
  datatype Failure = BadRequest | NotFound | ServerError

  function MemberOf(f: Faculty): Member {
    Member(f.id, f.name, f.employeeGroup)
  }

  /** Lines 103-106: gender equal without regard to case, `orgUnit` not literally one of the excluded schools. */
  predicate FacultyMatches(f: Faculty, gender: string) {
    && Upper(f.gender) == Upper(gender)
    && !(f.orgUnit.Some? && f.orgUnit.value in EXCLUDED_SCHOOLS)
  }

  function SelectFaculty(fs: seq<Faculty>, gender: string): seq<Faculty> {
    if fs == [] then []
    else SelectFaculty(fs[..|fs| - 1], gender) + (if FacultyMatches(fs[|fs| - 1], gender) then [fs[|fs| - 1]] else [])
  }

  lemma {:induction false} SelectFacultySpec(fs: seq<Faculty>, gender: string)
    ensures forall f :: f in SelectFaculty(fs, gender) <==> f in fs && FacultyMatches(f, gender)
  {
    if fs != [] {
      SelectFacultySpec(fs[..|fs| - 1], gender);
      assert fs == fs[..|fs| - 1] + [fs[|fs| - 1]];
    }
  }

  /** The latest stored range of a hostel name, if any. */
  function LatestRange(latest: map<string, string>, name: string): Option<string> {
    if name in latest then Some(latest[name]) else None
  }

  /** Lines 127-137: hostel id to seeded pointer; a later hostel with the same id overwrites an earlier one. */
  function InitialPointers(hostels: seq<Hostel>, latest: map<string, string>): map<string, Num> {
    if hostels == [] then map[]
    else
      var h := hostels[|hostels| - 1];
      InitialPointers(hostels[..|hostels| - 1], latest)[h.id := InitialPointer(LatestRange(latest, h.name))]
  }

  /** Some hostel of `hostels` has id `id`. */
  ghost predicate HasHostel(hostels: seq<Hostel>, id: string) {
    exists i :: 0 <= i < |hostels| && hostels[i].id == id
  }

  /** The hostels with an id are those before the last one with it, or the last one. */
  lemma HasHostelLast(hostels: seq<Hostel>, id: string)
    requires hostels != []
    ensures HasHostel(hostels, id) <==> HasHostel(hostels[..|hostels| - 1], id) || hostels[|hostels| - 1].id == id
  {
    var init := hostels[..|hostels| - 1];
    if HasHostel(init, id) {
      var i :| 0 <= i < |init| && init[i].id == id;
      assert hostels[i] == init[i];
    }
    if HasHostel(hostels, id) && hostels[|hostels| - 1].id != id {
      var i :| 0 <= i < |hostels| && hostels[i].id == id;
      assert init[i] == hostels[i];
    }
  }

  /** Every hostel has a pointer and nothing else does. */
  lemma {:induction false} InitialPointersKeys(hostels: seq<Hostel>, latest: map<string, string>)
    ensures forall id :: id in InitialPointers(hostels, latest) <==> HasHostel(hostels, id)
  {
    if hostels != [] {
      var init := hostels[..|hostels| - 1];
      InitialPointersKeys(init, latest);
      forall id ensures id in InitialPointers(hostels, latest) <==> HasHostel(hostels, id) {
        HasHostelLast(hostels, id);
      }
    }
  }

  /** A hostel's pointer is seeded from its own latest range; the last hostel with a given id wins. */
  lemma {:induction false} InitialPointersValues(hostels: seq<Hostel>, latest: map<string, string>)
    ensures forall i :: 0 <= i < |hostels| && (forall j :: i < j < |hostels| ==> hostels[j].id != hostels[i].id) ==>
      && hostels[i].id in InitialPointers(hostels, latest)
      && InitialPointers(hostels, latest)[hostels[i].id] == InitialPointer(LatestRange(latest, hostels[i].name))
  {
    if hostels != [] {
      var init := hostels[..|hostels| - 1];
      var h := hostels[|hostels| - 1];
      var m := InitialPointers(hostels, latest);
      var m0 := InitialPointers(init, latest);
      assert m == m0[h.id := InitialPointer(LatestRange(latest, h.name))];
      InitialPointersValues(init, latest);
      forall i | 0 <= i < |hostels| && (forall j :: i < j < |hostels| ==> hostels[j].id != hostels[i].id)
        ensures hostels[i].id in m && m[hostels[i].id] == InitialPointer(LatestRange(latest, hostels[i].name))
      {
        if i < |init| {
          assert hostels[i] == init[i];
          assert init[i].id != h.id;
          assert forall j :: i < j < |init| ==> init[j].id != init[i].id by {
            forall j | i < j < |init| ensures init[j].id != init[i].id {
              assert init[j] == hostels[j];
            }
          }
        }
      }
    }
  }

  /** No pointer starts out as a negative number. */
  lemma {:induction false} InitialPointersNotNegative(hostels: seq<Hostel>, latest: map<string, string>)
    ensures forall id :: id in InitialPointers(hostels, latest) && InitialPointers(hostels, latest)[id].Int? ==>
      InitialPointers(hostels, latest)[id].v >= 0
  {
    if hostels != [] {
      var init := hostels[..|hostels| - 1];
      var h := hostels[|hostels| - 1];
      var m := InitialPointers(hostels, latest);
      var m0 := InitialPointers(init, latest);
      assert m == m0[h.id := InitialPointer(LatestRange(latest, h.name))];
      InitialPointersNotNegative(init, latest);
      InitialPointerNotNegative(LatestRange(latest, h.name));
      forall id | id in m && m[id].Int? ensures m[id].v >= 0 {
        if id != h.id {
          assert m[id] == m0[id];
        }
      }
    }
  }

  /** `hostelRoomPointers.get(id)`: an id without an entry reads as `undefined`, which is NaN in arithmetic. */
  function PointerOf(pointers: map<string, Num>, id: string): Num {
    if id in pointers then pointers[id] else NaN
  }

  /** Line 271: the hostel's associated schools, upper-cased. */
  function AssociatedSchools(h: Hostel): seq<string> {
    seq(|h.associatedSchools|, i requires 0 <= i < |h.associatedSchools| => Upper(h.associatedSchools[i]))
  }

  /** How one supervisor is taken from the pool; a run uses `TakeSpec`. */
  type Chooser = (seq<Bucket>, seq<string>, Date, Kind, Duty) -> (Option<Faculty>, seq<Bucket>)

  /** The state the loop threads: the pool, the pointers and the queued writes. */
  datatype Run = Run(pool: seq<Bucket>, pointers: map<string, Num>, assignments: seq<Assignment>, updates: seq<FacultyUpdate>)

  /** The duty both supervisors of a block receive (lines 199-204, 237-242, 351). */
  function DutyFor(h: Hostel, day: Date, b: Block): Duty {
    Duty(At(day), h.name, FormatRange(b.start, b.end), BlockSize(b))
  }

  /**
   * Lines 300-345 for a day with a block: the pointer moves to the block's
   * end, a teaching and then a non-teaching supervisor are taken, and one
   * assignment and two updates are queued. None where either pick is null:
   * lines 311-312 dereference it, so the run throws.
   */
  function StaffDay(take: Chooser, run: Run, h: Hostel, schools: seq<string>, day: Date, b: Block): Option<Run> {
    var duty := DutyFor(h, day, b);
    var (teacher, pool1) := take(run.pool, schools, day, Teaching, duty);
    var (staff, pool2) := take(pool1, schools, day, NonTeaching, duty);
    if teacher.None? || staff.None? then None
    else
      Some(Run(
        pool2,
        run.pointers[h.id := b.end],
        run.assignments + [Assignment(teacher.value.orgUnit, day, h.name, duty.roomAlloted, MemberOf(teacher.value), MemberOf(staff.value))],
        run.updates + [FacultyUpdate(teacher.value.id, duty), FacultyUpdate(staff.value.id, duty)]))
  }

  /** Lines 280-346: one hostel from day `k` on, until the days run out or the hostel is finished. */
  function HostelDays(take: Chooser, run: Run, h: Hostel, schools: seq<string>, days: seq<Date>, k: nat): Option<Run>
    requires k <= |days|
    decreases |days| - k
  {
    if k == |days| then Some(run)
    else match NextBlock(PointerOf(run.pointers, h.id), h.numberOfRooms)
      case Exhausted => Some(run)
      case Rooms(b) =>
        match StaffDay(take, run, h, schools, days[k], b)
        case None => None
        case Some(next) => if b.finished then Some(next) else HostelDays(take, next, h, schools, days, k + 1)
  }

  /** Lines 269-347: the hostels in order from the `i`-th on. */
  function PlanHostels(take: Chooser, run: Run, hostels: seq<Hostel>, days: seq<Date>, i: nat): Option<Run>
    requires i <= |hostels|
    decreases |hostels| - i
  {
    if i == |hostels| then Some(run)
    else match HostelDays(take, run, hostels[i], AssociatedSchools(hostels[i]), days, 0)
      case None => None
      case Some(next) => PlanHostels(take, next, hostels, days, i + 1)
  }

  /** The pool and pointers a run starts from. */
  function StartRun(hostels: seq<Hostel>, allFaculty: seq<Faculty>, gender: string, latest: map<string, string>): Run {
    Run(PoolOf(SelectFaculty(allFaculty, gender)), InitialPointers(hostels, latest), [], [])
  }

  /** `assignDuties` as a whole: the writes it issues, or the error it responds with. */
  function Plan(req: Request, allHostels: seq<Hostel>, allFaculty: seq<Faculty>, latest: map<string, string>, days: seq<Date>): Result<Writes, Failure> {
    if req.startDate == "" || req.endDate == "" || req.gender == "" then Failure(BadRequest)
    else
      var hostels := Ranked(allHostels, req.gender, req.excludeHostels);
      if hostels == [] then Failure(NotFound)
      else
        match PlanHostels(TakeSpec, StartRun(hostels, allFaculty, req.gender, latest), hostels, days, 0)
        case None => Failure(ServerError)
        case Some(done) => Success(Writes(done.assignments, done.updates))
  }

  /** Lines 300-345 for a day with block `b`, on the live pool; `ok` is false where a pick is null. */
  method StaffOneDay(pool: FacultyPool, h: Hostel, schools: seq<string>, day: Date, b: Block,
                     pointers0: map<string, Num>, assignments0: seq<Assignment>, updates0: seq<FacultyUpdate>)
    returns (ok: bool, pointers: map<string, Num>, assignments: seq<Assignment>, updates: seq<FacultyUpdate>)
    requires pool.Valid()
    modifies pool
    ensures pool.Valid()
    ensures StaffDay(TakeSpec, Run(old(pool.buckets), pointers0, assignments0, updates0), h, schools, day, b) ==
      if ok then Some(Run(pool.buckets, pointers, assignments, updates)) else None
  {
    var duty := DutyFor(h, day, b);
    pointers := pointers0[h.id := b.end];
    var teacher := pool.Take(schools, day, Teaching, duty);
    var staff := pool.Take(schools, day, NonTeaching, duty);
    if teacher.None? || staff.None? {
      return false, pointers, assignments0, updates0;
    }
    ok := true;
    assignments := assignments0 + [Assignment(teacher.value.orgUnit, day, h.name, duty.roomAlloted, MemberOf(teacher.value), MemberOf(staff.value))];
    updates := updates0 + [FacultyUpdate(teacher.value.id, duty), FacultyUpdate(staff.value.id, duty)];
  }

  /** Lines 286-346, one pass of the day loop: exhausted, or staffed (and perhaps finished), or thrown. */
  method StaffStep(pool: FacultyPool, h: Hostel, schools: seq<string>, days: seq<Date>, k: nat,
                   pointers0: map<string, Num>, assignments0: seq<Assignment>, updates0: seq<FacultyUpdate>)
    returns (ok: bool, finished: bool, pointers: map<string, Num>, assignments: seq<Assignment>, updates: seq<FacultyUpdate>)
    requires pool.Valid() && k < |days|
    modifies pool
    ensures pool.Valid()
    ensures HostelDays(TakeSpec, Run(old(pool.buckets), pointers0, assignments0, updates0), h, schools, days, k) ==
      if !ok then None
      else if finished then Some(Run(pool.buckets, pointers, assignments, updates))
      else HostelDays(TakeSpec, Run(pool.buckets, pointers, assignments, updates), h, schools, days, k + 1)
  {
    var next := NextBlock(PointerOf(pointers0, h.id), h.numberOfRooms);
    if next.Exhausted? {
      return true, true, pointers0, assignments0, updates0;
    }
    var b := next.block;
    ok, pointers, assignments, updates := StaffOneDay(pool, h, schools, days[k], b, pointers0, assignments0, updates0);
    finished := b.finished;
  }

  /** Lines 280-346: the day loop of one hostel, on the live pool; `ok` is false where the run throws. */
  method StaffHostel(pool: FacultyPool, h: Hostel, days: seq<Date>,
                     pointers0: map<string, Num>, assignments0: seq<Assignment>, updates0: seq<FacultyUpdate>)
    returns (ok: bool, pointers: map<string, Num>, assignments: seq<Assignment>, updates: seq<FacultyUpdate>)
    requires pool.Valid()
    modifies pool
    ensures pool.Valid()
    ensures HostelDays(TakeSpec, Run(old(pool.buckets), pointers0, assignments0, updates0), h, AssociatedSchools(h), days, 0) ==
      if ok then Some(Run(pool.buckets, pointers, assignments, updates)) else None
  {
    var schools := AssociatedSchools(h);
    ghost var before := Run(pool.buckets, pointers0, assignments0, updates0);
    pointers, assignments, updates := pointers0, assignments0, updates0;
    var finished := false;
    var k := 0;
    while k < |days| && !finished
      invariant k <= |days|
      invariant pool.Valid()
      invariant HostelDays(TakeSpec, before, h, schools, days, 0) ==
        if finished then Some(Run(pool.buckets, pointers, assignments, updates))
        else HostelDays(TakeSpec, Run(pool.buckets, pointers, assignments, updates), h, schools, days, k)
      decreases |days| - k
    {
      var staffed;
      staffed, finished, pointers, assignments, updates := StaffStep(pool, h, schools, days, k, pointers, assignments, updates);
      if !staffed {
        return false, pointers, assignments, updates;
      }
      k := k + 1;
    }
    ok := true;
  }

  /** Lines 127-137: one pointer per hostel id, set in ranked order. */
  method SeedPointers(hostels: seq<Hostel>, latest: map<string, string>) returns (pointers: map<string, Num>)
    ensures pointers == InitialPointers(hostels, latest)
  {
    pointers := map[];
    for i := 0 to |hostels|
      invariant pointers == InitialPointers(hostels[..i], latest)
    {
      assert hostels[..i + 1][..i] == hostels[..i];
      var h := hostels[i];
      pointers := pointers[h.id := InitialPointer(LatestRange(latest, h.name))];
    }
    assert hostels[..|hostels|] == hostels;
  }

  /**
   * `assignDuties`: the pool is an object whose lists the picks rotate, the
   * pointers a map the day loop updates, the queued writes lists it appends
   * to; writes are returned only once every hostel has been planned.
   */
  method AssignDuties(req: Request, allHostels: seq<Hostel>, allFaculty: seq<Faculty>, latest: map<string, string>, days: seq<Date>)
    returns (r: Result<Writes, Failure>)
    ensures r == Plan(req, allHostels, allFaculty, latest, days)
  {
    if req.startDate == "" || req.endDate == "" || req.gender == "" {
      return Failure(BadRequest);
    }
    var hostels := Ranked(allHostels, req.gender, req.excludeHostels);
    if |hostels| == 0 {
      return Failure(NotFound);
    }
    var faculty := SelectFaculty(allFaculty, req.gender);

    var pointers := SeedPointers(hostels, latest);

    var pool := new FacultyPool(faculty);
    var assignments: seq<Assignment> := [];
    var updates: seq<FacultyUpdate> := [];
    ghost var start := StartRun(hostels, allFaculty, req.gender, latest);

    for i := 0 to |hostels|
      invariant pool.Valid()
      invariant PlanHostels(TakeSpec, start, hostels, days, 0) == PlanHostels(TakeSpec, Run(pool.buckets, pointers, assignments, updates), hostels, days, i)
    {
      var ok;
      ok, pointers, assignments, updates := StaffHostel(pool, hostels[i], days, pointers, assignments, updates);
      if !ok {
        return Failure(ServerError);
      }
    }
    return Success(Writes(assignments, updates));
  }

  // ---------------------------------------------------------------------
  // What a run guarantees
  // ---------------------------------------------------------------------

  /**
   * The queued writes line up: two updates per assignment, the first for its
   * teaching supervisor and the second for its non-teaching one, both setting
   * the assignment's date, hostel and room range; the teaching supervisor
   * belongs to the teaching group and the other does not.
   */
  ghost predicate Paired(assignments: seq<Assignment>, updates: seq<FacultyUpdate>) {
    && |updates| == 2 * |assignments|
    && forall i :: 0 <= i < |assignments| ==>
      var a := assignments[i];
      && updates[2 * i].facultyId == a.faculty1.id
      && updates[2 * i + 1].facultyId == a.faculty2.id
      && updates[2 * i].lastDuty == updates[2 * i + 1].lastDuty
      && updates[2 * i].lastDuty.date == At(a.date)
      && updates[2 * i].lastDuty.hostel == a.hostel
      && updates[2 * i].lastDuty.roomAlloted == a.roomRange
      && a.faculty1.employeeGroup == "Teaching"
      && a.faculty2.employeeGroup != "Teaching"
  }

  ghost predicate Consistent(run: Run) {
    WellFormed(run.pool) && Paired(run.assignments, run.updates)
  }

  /** A chooser whose pick has the kind asked for and which keeps a well-formed pool well formed. */
  ghost predicate KeepsKinds(take: Chooser) {
    forall buckets, schools, target, kind, duty :: WellFormed(buckets) ==>
      && WellFormed(take(buckets, schools, target, kind, duty).1)
      && (take(buckets, schools, target, kind, duty).0.Some? ==> KindOf(take(buckets, schools, target, kind, duty).0.value) == kind)
  }

  /** A pick comes from the front of a list of its kind, and the pool stays well formed. */
  lemma TakeKeepsWellFormed(buckets: seq<Bucket>, schools: seq<string>, target: Date, kind: Kind, duty: Duty)
    requires WellFormed(buckets)
    ensures WellFormed(TakeSpec(buckets, schools, target, kind, duty).1)
    ensures TakeSpec(buckets, schools, target, kind, duty).0.Some? ==>
      KindOf(TakeSpec(buckets, schools, target, kind, duty).0.value) == kind
  {
    match Chosen(buckets, schools, target, kind)
    case None =>
    case Some(b) =>
      RotateWellFormed(buckets, b, kind, duty);
      var f := buckets[b].List(kind)[0];
      assert BucketOk(buckets[b]);
      assert f in buckets[b].List(kind);
      assert KindOf(f) == kind;
  }

  lemma TakeSpecKeepsKinds()
    ensures KeepsKinds(TakeSpec)
  {
    forall buckets, schools, target, kind, duty | WellFormed(buckets)
      ensures && WellFormed(TakeSpec(buckets, schools, target, kind, duty).1)
              && (TakeSpec(buckets, schools, target, kind, duty).0.Some? ==>
                    KindOf(TakeSpec(buckets, schools, target, kind, duty).0.value) == kind)
    {
      TakeKeepsWellFormed(buckets, schools, target, kind, duty);
    }
  }

  lemma StaffDayKeeps(take: Chooser, run: Run, h: Hostel, schools: seq<string>, day: Date, b: Block)
    requires KeepsKinds(take) && Consistent(run)
    ensures StaffDay(take, run, h, schools, day, b).Some? ==> Consistent(StaffDay(take, run, h, schools, day, b).value)
  {
    var duty := DutyFor(h, day, b);
    var (teacher, pool1) := take(run.pool, schools, day, Teaching, duty);
    var (staff, pool2) := take(pool1, schools, day, NonTeaching, duty);
    if teacher.Some? && staff.Some? {
      var next := StaffDay(take, run, h, schools, day, b).value;
      var n := |run.assignments|;
      assert next.updates[2 * n] == FacultyUpdate(teacher.value.id, duty);
      assert next.updates[2 * n + 1] == FacultyUpdate(staff.value.id, duty);
      forall i | 0 <= i < n
        ensures next.updates[2 * i] == run.updates[2 * i] && next.updates[2 * i + 1] == run.updates[2 * i + 1]
      {
      }
    }
  }

  lemma {:induction false} HostelDaysKeeps(take: Chooser, run: Run, h: Hostel, schools: seq<string>, days: seq<Date>, k: nat)
    requires KeepsKinds(take) && k <= |days| && Consistent(run)
    ensures HostelDays(take, run, h, schools, days, k).Some? ==> Consistent(HostelDays(take, run, h, schools, days, k).value)
    decreases |days| - k
  {
    if k < |days| {
      match NextBlock(PointerOf(run.pointers, h.id), h.numberOfRooms)
      case Exhausted =>
      case Rooms(b) =>
        StaffDayKeeps(take, run, h, schools, days[k], b);
        match StaffDay(take, run, h, schools, days[k], b)
        case None =>
        case Some(next) =>
          if !b.finished {
            HostelDaysKeeps(take, next, h, schools, days, k + 1);
          }
    }
  }

  lemma {:induction false} PlanHostelsKeeps(take: Chooser, run: Run, hostels: seq<Hostel>, days: seq<Date>, i: nat)
    requires KeepsKinds(take) && i <= |hostels| && Consistent(run)
    ensures PlanHostels(take, run, hostels, days, i).Some? ==> Consistent(PlanHostels(take, run, hostels, days, i).value)
    decreases |hostels| - i
  {
    if i < |hostels| {
      HostelDaysKeeps(take, run, hostels[i], AssociatedSchools(hostels[i]), days, 0);
      match HostelDays(take, run, hostels[i], AssociatedSchools(hostels[i]), days, 0)
      case None =>
      case Some(next) => PlanHostelsKeeps(take, next, hostels, days, i + 1);
    }
  }

  /**
   * Every staffed day adds exactly one assignment and two `lastDuty` updates,
   * so there are twice as many updates as assignments, paired as `Paired`
   * says; in particular both writes are issued or neither is.
   */
  lemma PlanWritesPaired(req: Request, allHostels: seq<Hostel>, allFaculty: seq<Faculty>, latest: map<string, string>, days: seq<Date>)
    ensures var r := Plan(req, allHostels, allFaculty, latest, days);
      r.Success? ==>
        && Paired(r.value.assignments, r.value.updates)
        && (r.value.assignments == [] <==> r.value.updates == [])
  {
    if req.startDate != "" && req.endDate != "" && req.gender != "" {
      var hostels := Ranked(allHostels, req.gender, req.excludeHostels);
      if hostels != [] {
        var start := StartRun(hostels, allFaculty, req.gender, latest);
        PoolOfWellFormed(SelectFaculty(allFaculty, req.gender));
        TakeSpecKeepsKinds();
        PlanHostelsKeeps(TakeSpec, start, hostels, days, 0);
      }
    }
  }

  /** Both groups present in the pool: no pick is ever null. */
  ghost predicate Staffed(run: Run) {
    HasKind(run.pool, Teaching) && HasKind(run.pool, NonTeaching)
  }

  /** A chooser that finds someone whenever the pool holds the kind asked for, and never changes which kinds the pool holds. */
  ghost predicate NeverShort(take: Chooser) {
    forall buckets, schools, target, kind, duty ::
      && (HasKind(buckets, kind) ==> Pick(take, buckets, schools, target, kind, duty).0.Some?)
      && HasKind(Pick(take, buckets, schools, target, kind, duty).1, Teaching) == HasKind(buckets, Teaching)
      && HasKind(Pick(take, buckets, schools, target, kind, duty).1, NonTeaching) == HasKind(buckets, NonTeaching)
  }

  /** One application of a chooser, named so that facts about choosers are used only where a proof asks for them. */
  ghost function Pick(take: Chooser, buckets: seq<Bucket>, schools: seq<string>, target: Date, kind: Kind, duty: Duty): (Option<Faculty>, seq<Bucket>) {
    take(buckets, schools, target, kind, duty)
  }

  lemma TakeSpecNeverShort()
    ensures NeverShort(TakeSpec)
  {
    forall buckets, schools, target, kind, duty
      ensures && (HasKind(buckets, kind) ==> Pick(TakeSpec, buckets, schools, target, kind, duty).0.Some?)
              && HasKind(Pick(TakeSpec, buckets, schools, target, kind, duty).1, Teaching) == HasKind(buckets, Teaching)
              && HasKind(Pick(TakeSpec, buckets, schools, target, kind, duty).1, NonTeaching) == HasKind(buckets, NonTeaching)
    {
      TakeFindsSomeone(buckets, schools, target, kind, duty);
      TakeKeepsSizes(buckets, schools, target, kind, duty, Teaching);
      TakeKeepsSizes(buckets, schools, target, kind, duty, NonTeaching);
    }
  }

  lemma StaffDayStaffed(take: Chooser, run: Run, h: Hostel, schools: seq<string>, day: Date, b: Block)
    requires NeverShort(take) && Staffed(run)
    ensures StaffDay(take, run, h, schools, day, b).Some? && Staffed(StaffDay(take, run, h, schools, day, b).value)
  {
    var duty := DutyFor(h, day, b);
    var first := Pick(take, run.pool, schools, day, Teaching, duty);
    var second := Pick(take, first.1, schools, day, NonTeaching, duty);
    assert first.0.Some? && second.0.Some? && Staffed(Run(second.1, run.pointers, run.assignments, run.updates));
  }

  lemma {:induction false} HostelDaysStaffed(take: Chooser, run: Run, h: Hostel, schools: seq<string>, days: seq<Date>, k: nat)
    requires NeverShort(take) && k <= |days| && Staffed(run)
    ensures HostelDays(take, run, h, schools, days, k).Some? && Staffed(HostelDays(take, run, h, schools, days, k).value)
    decreases |days| - k
  {
    if k < |days| {
      match NextBlock(PointerOf(run.pointers, h.id), h.numberOfRooms)
      case Exhausted =>
      case Rooms(b) =>
        StaffDayStaffed(take, run, h, schools, days[k], b);
        if !b.finished {
          HostelDaysStaffed(take, StaffDay(take, run, h, schools, days[k], b).value, h, schools, days, k + 1);
        }
        HostelDaysStaffedStep(take, run, h, schools, days, k, b);
    }
  }

  /** The day `k` of `HostelDaysStaffed`: a staffed day leaves the pool staffed for the following days. */
  lemma HostelDaysStaffedStep(take: Chooser, run: Run, h: Hostel, schools: seq<string>, days: seq<Date>, k: nat, b: Block)
    requires k < |days| && NextBlock(PointerOf(run.pointers, h.id), h.numberOfRooms) == Rooms(b)
    requires StaffDay(take, run, h, schools, days[k], b).Some?
    requires Staffed(StaffDay(take, run, h, schools, days[k], b).value)
    requires !b.finished ==>
      var next := StaffDay(take, run, h, schools, days[k], b).value;
      HostelDays(take, next, h, schools, days, k + 1).Some? && Staffed(HostelDays(take, next, h, schools, days, k + 1).value)
    ensures HostelDays(take, run, h, schools, days, k).Some? && Staffed(HostelDays(take, run, h, schools, days, k).value)
  {
  }

  lemma {:induction false} PlanHostelsStaffed(take: Chooser, run: Run, hostels: seq<Hostel>, days: seq<Date>, i: nat)
    requires NeverShort(take) && i <= |hostels| && Staffed(run)
    ensures PlanHostels(take, run, hostels, days, i).Some?
    decreases |hostels| - i
  {
    if i < |hostels| {
      HostelDaysStaffed(take, run, hostels[i], AssociatedSchools(hostels[i]), days, 0);
      PlanHostelsStaffed(take, HostelDays(take, run, hostels[i], AssociatedSchools(hostels[i]), days, 0).value, hostels, days, i + 1);
    }
  }

  /**
   * A run fails with a server error only when the matching faculty lack a
   * teaching or a non-teaching member with a pool key: with both present,
   * the picks never return null.
   */
  lemma ServerErrorOnlyWhenUnstaffed(req: Request, allHostels: seq<Hostel>, allFaculty: seq<Faculty>, latest: map<string, string>, days: seq<Date>)
    requires Plan(req, allHostels, allFaculty, latest, days) == Failure(ServerError)
    ensures var pool := PoolOf(SelectFaculty(allFaculty, req.gender));
      !HasKind(pool, Teaching) || !HasKind(pool, NonTeaching)
  {
    var hostels := Ranked(allHostels, req.gender, req.excludeHostels);
    var start := StartRun(hostels, allFaculty, req.gender, latest);
    if Staffed(start) {
      TakeSpecNeverShort();
      PlanHostelsStaffed(TakeSpec, start, hostels, days, 0);
    }
  }

  /**
   * The converse: when the run has a day and its first hostel has rooms (or
   * a room count that does not parse), a pool lacking a teaching or a
   * non-teaching member makes the very first pick null, and the run fails
   * with a server error.
   */
  lemma UnstaffedRunFails(req: Request, allHostels: seq<Hostel>, allFaculty: seq<Faculty>, latest: map<string, string>, days: seq<Date>)
    requires req.startDate != "" && req.endDate != "" && req.gender != "" && days != []
    requires var hostels := Ranked(allHostels, req.gender, req.excludeHostels);
      hostels != [] && (hostels[0].numberOfRooms.NaN? || hostels[0].numberOfRooms.v >= 0)
    requires var pool := PoolOf(SelectFaculty(allFaculty, req.gender));
      !HasKind(pool, Teaching) || !HasKind(pool, NonTeaching)
    ensures Plan(req, allHostels, allFaculty, latest, days) == Failure(ServerError)
  {
    var hostels := Ranked(allHostels, req.gender, req.excludeHostels);
    var start := StartRun(hostels, allFaculty, req.gender, latest);
    var h := hostels[0];
    var schools := AssociatedSchools(h);
    var pointer := PointerOf(start.pointers, h.id);
    NextBlockExhausted(pointer, h.numberOfRooms);
    var b := NextBlock(pointer, h.numberOfRooms).block;
    var duty := DutyFor(h, days[0], b);
    TakeFindsSomeone(start.pool, schools, days[0], Teaching, duty);
    var pool1 := TakeSpec(start.pool, schools, days[0], Teaching, duty).1;
    TakeKeepsSizes(start.pool, schools, days[0], Teaching, duty, NonTeaching);
    TakeFindsSomeone(pool1, schools, days[0], NonTeaching, duty);
    assert StaffDay(TakeSpec, start, h, schools, days[0], b).None?;
    assert HostelDays(TakeSpec, start, h, schools, days, 0).None?;
  }

  /** `tail` holds one assignment per block, for hostel `h`, on the days from `k` on. */
  ghost predicate Covers(tail: seq<Assignment>, h: Hostel, days: seq<Date>, k: nat, blocks: seq<Block>) {
    && |tail| == |blocks|
    && k + |blocks| <= |days|
    && forall j :: 0 <= j < |tail| ==> CoversDay(tail[j], h, days[k + j], blocks[j])
  }

  /** Assignment `a` is for hostel `h`, on `day`, with the range of block `b`. */
  ghost predicate CoversDay(a: Assignment, h: Hostel, day: Date, b: Block) {
    a.hostel == h.name && a.date == day && a.roomRange == FormatRange(b.start, b.end)
  }

  lemma CoversCons(a: Assignment, tail: seq<Assignment>, h: Hostel, days: seq<Date>, k: nat, b: Block, blocks: seq<Block>)
    requires k < |days| && a.hostel == h.name && a.date == days[k] && a.roomRange == FormatRange(b.start, b.end)
    requires Covers(tail, h, days, k + 1, blocks)
    ensures Covers([a] + tail, h, days, k, [b] + blocks)
  {
    var t := [a] + tail;
    var bs := [b] + blocks;
    forall j | 0 <= j < |t| ensures CoversDay(t[j], h, days[k + j], bs[j]) {
      if j > 0 {
        assert t[j] == tail[j - 1] && bs[j] == blocks[j - 1] && k + j == (k + 1) + (j - 1);
      }
    }
  }

  /** A staffed day appends one assignment for the hostel, the day and the block, and moves the pointer to the block's end. */
  lemma StaffDayAppends(take: Chooser, run: Run, h: Hostel, schools: seq<string>, day: Date, b: Block)
    requires StaffDay(take, run, h, schools, day, b).Some?
    ensures var next := StaffDay(take, run, h, schools, day, b).value;
      && |next.assignments| == |run.assignments| + 1
      && next.assignments[..|run.assignments|] == run.assignments
      && next.assignments[|run.assignments|].hostel == h.name
      && next.assignments[|run.assignments|].date == day
      && next.assignments[|run.assignments|].roomRange == FormatRange(b.start, b.end)
      && PointerOf(next.pointers, h.id) == b.end
  {
  }

  /** The schedule from a pointer whose next block is `b`. */
  lemma ScheduleCons(pointer: Num, rooms: Num, days: nat, b: Block)
    requires days > 0 && NextBlock(pointer, rooms) == Rooms(b)
    ensures Schedule(pointer, rooms, days) == [b] + (if b.finished then [] else Schedule(b.end, rooms, days - 1))
  {
  }

  /** Putting the assignments of one day in front of those of the following days. */
  lemma CoversAfter(prefix: seq<Assignment>, xs: seq<Assignment>, ys: seq<Assignment>, h: Hostel, days: seq<Date>, k: nat, b: Block, blocks: seq<Block>)
    requires k < |days|
    requires |xs| == |prefix| + 1 && xs[..|prefix|] == prefix
    requires xs[|prefix|].hostel == h.name && xs[|prefix|].date == days[k] && xs[|prefix|].roomRange == FormatRange(b.start, b.end)
    requires |xs| <= |ys| && ys[..|xs|] == xs && Covers(ys[|xs|..], h, days, k + 1, blocks)
    ensures |prefix| <= |ys| && ys[..|prefix|] == prefix && Covers(ys[|prefix|..], h, days, k, [b] + blocks)
  {
    var n := |prefix|;
    assert ys[..n] == ys[..n + 1][..n];
    assert ys[n..] == [xs[n]] + ys[n + 1..];
    CoversCons(xs[n], ys[n + 1..], h, days, k, b, blocks);
  }

  /**
   * `last` extends `run` with one assignment per block of `Schedule` from
   * the hostel's pointer in `run`, for hostel `h`, on the days from `k` on.
   */
  ghost predicate Extends(run: Run, last: Run, h: Hostel, days: seq<Date>, k: nat)
    requires k <= |days|
  {
    && |run.assignments| <= |last.assignments|
    && last.assignments[..|run.assignments|] == run.assignments
    && Covers(last.assignments[|run.assignments|..], h, days, k,
              Schedule(PointerOf(run.pointers, h.id), h.numberOfRooms, |days| - k))
  }

  /**
   * A hostel's assignments are the blocks of `Schedule` from its pointer, one
   * per day in order: each names the hostel, the day, and the block's range.
   */
  lemma {:induction false} HostelDaysBlocks(take: Chooser, run: Run, h: Hostel, schools: seq<string>, days: seq<Date>, k: nat)
    requires k <= |days|
    requires HostelDays(take, run, h, schools, days, k).Some?
    ensures Extends(run, HostelDays(take, run, h, schools, days, k).value, h, days, k)
    decreases |days| - k
  {
    if k < |days| {
      match NextBlock(PointerOf(run.pointers, h.id), h.numberOfRooms)
      case Exhausted =>
      case Rooms(b) =>
        if !b.finished {
          HostelDaysBlocks(take, StaffDay(take, run, h, schools, days[k], b).value, h, schools, days, k + 1);
        }
        HostelDaysBlocksStep(take, run, h, schools, days, k, b);
    }
  }

  /** The day `k` of `HostelDaysBlocks`: the day's block goes in front of the following days' blocks. */
  lemma HostelDaysBlocksStep(take: Chooser, run: Run, h: Hostel, schools: seq<string>, days: seq<Date>, k: nat, b: Block)
    requires k < |days| && NextBlock(PointerOf(run.pointers, h.id), h.numberOfRooms) == Rooms(b)
    requires HostelDays(take, run, h, schools, days, k).Some?
    requires !b.finished ==>
      var next := StaffDay(take, run, h, schools, days[k], b).value;
      Extends(next, HostelDays(take, next, h, schools, days, k + 1).value, h, days, k + 1)
    ensures Extends(run, HostelDays(take, run, h, schools, days, k).value, h, days, k)
  {
    var pointer := PointerOf(run.pointers, h.id);
    StaffDayAppends(take, run, h, schools, days[k], b);
    var next := StaffDay(take, run, h, schools, days[k], b).value;
    ScheduleCons(pointer, h.numberOfRooms, |days| - k, b);
    if b.finished {
      CoversAfter(run.assignments, next.assignments, next.assignments, h, days, k, b, []);
    } else {
      CoversAfter(run.assignments, next.assignments, HostelDays(take, next, h, schools, days, k + 1).value.assignments,
                  h, days, k, b, Schedule(b.end, h.numberOfRooms, |days| - (k + 1)));
    }
  }

  /**
   * A hostel whose pointer starts at 0, given enough days, receives the
   * blocks "1-20", "21-40", ... up to its last room, one per day in order.
   */
  lemma FreshHostelCovered(take: Chooser, run: Run, h: Hostel, schools: seq<string>, days: seq<Date>)
    requires PointerOf(run.pointers, h.id) == Int(0)
    requires h.numberOfRooms.Int? && h.numberOfRooms.v > 0
    requires HostelDays(take, run, h, schools, days, 0).Some?
    ensures var n := h.numberOfRooms.v;
      var next := HostelDays(take, run, h, schools, days, 0).value;
      && |next.assignments| == |run.assignments| + Min(|days|, BlocksLeft(0, n))
      && forall j :: 0 <= j < Min(|days|, BlocksLeft(0, n)) ==>
        next.assignments[|run.assignments| + j].roomRange ==
          FormatRange(Int(ROOMS_PER_DAY * j + 1), Int(Min(ROOMS_PER_DAY * j + ROOMS_PER_DAY, n)))
  {
    var n := h.numberOfRooms.v;
    var next := HostelDays(take, run, h, schools, days, 0).value;
    HostelDaysBlocks(take, run, h, schools, days, 0);
    ScheduleFrom(0, n, |days|);
    var tail := next.assignments[|run.assignments|..];
    forall j | 0 <= j < Min(|days|, BlocksLeft(0, n))
      ensures next.assignments[|run.assignments| + j].roomRange ==
        FormatRange(Int(ROOMS_PER_DAY * j + 1), Int(Min(ROOMS_PER_DAY * j + ROOMS_PER_DAY, n)))
    {
      assert next.assignments[|run.assignments| + j] == tail[j];
    }
  }
}
