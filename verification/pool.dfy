/**
 * The per-school supervisor pool of the duty scheduler
 * (controllers/assignDutyController.js): eligible faculty bucketed by
 * upper-cased organisational unit and by teaching/non-teaching group, each
 * list ordered by last duty, and the selection that takes the front of a
 * list, stamps it with the new duty and moves it to the back.
 */
module SupervisorPool {
  import opened Common
  import opened Text
  import opened Calendar
  import Sorting
  import Lists

  /** Schools whose faculty never enter the pool. */
  const EXCLUDED_SCHOOLS: seq<string> :=
    ["SCHOOL OF COMPUTER ENGINEERING", "SCHOOL OF COMPUTER APPLICATIONS", "SCHOOL OF COMPUTER SCIENCE"]

  /** A `lastDuty` record: when, where, which rooms and how many. */
  datatype Duty = Duty(date: DateField, hostel: string, roomAlloted: string, numberOfRooms: Num)

  datatype Faculty = Faculty(
    id: string,
    name: string,
    orgUnit: Option<string>,
    employeeGroup: string,
    gender: string,
    lastDuty: Option<Duty>)

  /** The two lists every school has. */
  datatype Kind = Teaching | NonTeaching

  /** `employeeGroup === 'Teaching'` selects the teaching list; anything else is non-teaching. */
  function KindOf(f: Faculty): Kind {
    if f.employeeGroup == "Teaching" then Teaching else NonTeaching
  }

  /** The pool key of a faculty member: the upper-cased `orgUnit`, unless it is absent, empty or excluded. */
  function SchoolKey(f: Faculty): (r: Option<string>)
    ensures r.Some? <==> f.orgUnit.Some? && Upper(f.orgUnit.value) != [] && Upper(f.orgUnit.value) !in EXCLUDED_SCHOOLS
    ensures r.Some? ==> r.value == Upper(f.orgUnit.value)
  {
    match f.orgUnit
    case None => None
    case Some(unit) =>
      var school := Upper(unit);
      if school == [] || school in EXCLUDED_SCHOOLS then None else Some(school)
  }

  /** `new Date(faculty.lastDuty?.date)`: None where that is an invalid date. */
  function LastDutyDate(f: Faculty): Option<Date> {
    match f.lastDuty
    case None => None
    case Some(d) => Parse(d.date)
  }

  /** `getLastDutyDate`: the time value of the last duty, the epoch when there is none or it is invalid. */
  function LastDutyStamp(f: Faculty): int {
    match LastDutyDate(f)
    case None => EPOCH
    case Some(d) => d.stamp
  }

  /** The comparator of `sortFacultyByLastDuty`: least recent duty first. */
  predicate StampLe(a: Faculty, b: Faculty) {
    LastDutyStamp(a) <= LastDutyStamp(b)
  }

  lemma StampLeIsPreorder()
    ensures Sorting.TotalPreorder(StampLe)
  {
  }

  /** `sortFacultyByLastDuty`: a stable sort by last-duty time value. */
  function SortByLastDuty(list: seq<Faculty>): seq<Faculty> {
    Sorting.Sort(list, StampLe)
  }

  /** The two lists of one school. */
  datatype Bucket = Bucket(school: string, teaching: seq<Faculty>, nonTeaching: seq<Faculty>) {
    function List(kind: Kind): seq<Faculty> {
      if kind == Teaching then teaching else nonTeaching
    }

    function WithList(kind: Kind, list: seq<Faculty>): (b: Bucket)
      ensures b.school == school && b.List(kind) == list
      ensures forall other :: other != kind ==> b.List(other) == List(other)
    {
      if kind == Teaching then this.(teaching := list) else this.(nonTeaching := list)
    }
  }

  /** `facultyBySchool.get(school)`: the position of the school's bucket, if it has one. */
  function Find(buckets: seq<Bucket>, school: string): (r: Option<nat>)
    ensures r.Some? ==> r.value < |buckets| && buckets[r.value].school == school
    ensures r.Some? ==> forall j :: 0 <= j < r.value ==> buckets[j].school != school
    ensures r.None? ==> forall j :: 0 <= j < |buckets| ==> buckets[j].school != school
  {
    if buckets == [] then None
    else if buckets[0].school == school then Some(0)
    else match Find(buckets[1..], school)
      case None => None
      case Some(j) => Some(j + 1)
  }

  /** A school is found at its first occurrence. */
  lemma FindFirst(buckets: seq<Bucket>, p: nat)
    requires p < |buckets|
    requires forall j :: 0 <= j < p ==> buckets[j].school != buckets[p].school
    ensures Find(buckets, buckets[p].school) == Some(p)
  {
    var at := Find(buckets, buckets[p].school);
    if at.None? {
      assert false;
    } else if at.value > p {
      assert false;
    } else {
      assert at == Some(p);
    }
  }

  /** With each school once, a bucket is found at its own position. */
  lemma FindUnique(buckets: seq<Bucket>, p: nat)
    requires Lists.NoDuplicates(Schools(buckets)) && p < |buckets|
    ensures Find(buckets, buckets[p].school) == Some(p)
  {
    var names := Schools(buckets);
    forall j | 0 <= j < p
      ensures buckets[j].school != buckets[p].school
    {
      assert names[j] != names[p];
    }
    FindFirst(buckets, p);
  }

  function Schools(buckets: seq<Bucket>): (r: seq<string>)
    ensures |r| == |buckets| && forall j :: 0 <= j < |buckets| ==> r[j] == buckets[j].school
  {
    seq(|buckets|, j requires 0 <= j < |buckets| => buckets[j].school)
  }

  // ---------------------------------------------------------------------
  // Building the pool (lines 140-159)
  // ---------------------------------------------------------------------

  /** The pool keys of `fs`, each once, in order of first appearance (the insertion order of the Map). */
  function Keys(fs: seq<Faculty>): seq<string> {
    if fs == [] then []
    else
      var keys := Keys(fs[..|fs| - 1]);
      match SchoolKey(fs[|fs| - 1])
      case Some(k) => if k in keys then keys else keys + [k]
      case None => keys
  }

  /** The members of `fs` that belong in the `kind` list of `school`, in the order of `fs`. */
  function Members(fs: seq<Faculty>, school: string, kind: Kind): seq<Faculty> {
    if fs == [] then []
    else
      var f := fs[|fs| - 1];
      Members(fs[..|fs| - 1], school, kind)
        + (if SchoolKey(f) == Some(school) && KindOf(f) == kind then [f] else [])
  }

  /** The pool as the source leaves it after the sorting pass. */
  function PoolOf(fs: seq<Faculty>): (r: seq<Bucket>)
    ensures Schools(r) == Keys(fs)
  {
    var keys := Keys(fs);
    seq(|keys|, j requires 0 <= j < |keys| =>
      Bucket(keys[j], SortByLastDuty(Members(fs, keys[j], Teaching)), SortByLastDuty(Members(fs, keys[j], NonTeaching))))
  }

  /** Each pool key is recorded once. */
  lemma {:induction false} KeysDistinct(fs: seq<Faculty>)
    ensures Lists.NoDuplicates(Keys(fs))
  {
    if fs != [] {
      var keys := Keys(fs[..|fs| - 1]);
      KeysDistinct(fs[..|fs| - 1]);
      var key := SchoolKey(fs[|fs| - 1]);
      if key.Some? && key.value !in keys {
        var all := keys + [key.value];
        forall i, j | 0 <= i < j < |all|
          ensures all[i] != all[j]
        {
          if j == |keys| {
            assert all[i] == keys[i];
          }
        }
      }
    }
  }

  /** Exactly the pool keys of the input are recorded. */
  lemma {:induction false} KeysCover(fs: seq<Faculty>)
    ensures forall k :: k in Keys(fs) <==> exists f :: f in fs && SchoolKey(f) == Some(k)
  {
    if fs != [] {
      var init := fs[..|fs| - 1];
      var last := fs[|fs| - 1];
      KeysCover(init);
      assert fs == init + [last];
      forall k ensures k in Keys(fs) <==> exists f :: f in fs && SchoolKey(f) == Some(k) {
        if k in Keys(fs) && k !in Keys(init) {
          assert SchoolKey(last) == Some(k);
          assert last in fs;
        }
        if (exists f :: f in fs && SchoolKey(f) == Some(k)) {
          var f :| f in fs && SchoolKey(f) == Some(k);
          if f in init {
            assert k in Keys(init);
          }
        }
      }
    }
  }

  lemma {:induction false} MembersSpec(fs: seq<Faculty>, school: string, kind: Kind)
    ensures forall f :: f in Members(fs, school, kind) <==> f in fs && SchoolKey(f) == Some(school) && KindOf(f) == kind
  {
    if fs != [] {
      MembersSpec(fs[..|fs| - 1], school, kind);
      assert fs == fs[..|fs| - 1] + [fs[|fs| - 1]];
    }
  }

  lemma {:induction false} MembersOfUnseenKey(fs: seq<Faculty>, school: string, kind: Kind)
    requires school !in Keys(fs)
    ensures Members(fs, school, kind) == []
  {
    if fs != [] {
      MembersOfUnseenKey(fs[..|fs| - 1], school, kind);
    }
  }

  /** Appending one faculty member adds its key if new, and adds it to its own list only. */
  lemma AppendOne(fs: seq<Faculty>, f: Faculty)
    ensures Keys(fs + [f]) ==
      (if SchoolKey(f).Some? && SchoolKey(f).value !in Keys(fs) then Keys(fs) + [SchoolKey(f).value] else Keys(fs))
    ensures forall school, kind ::
      Members(fs + [f], school, kind) == Members(fs, school, kind) + (if SchoolKey(f) == Some(school) && KindOf(f) == kind then [f] else [])
  {
    assert (fs + [f])[..|fs|] == fs;
  }

  /** The pool after a prefix of the faculty has been bucketed, before sorting. */
  ghost predicate Grouped(buckets: seq<Bucket>, fs: seq<Faculty>) {
    GroupedUnder(buckets, Keys(fs), fs)
  }

  /** The buckets carry the schools `keys`, each with its members in `fs`. */
  ghost predicate GroupedUnder(buckets: seq<Bucket>, keys: seq<string>, fs: seq<Faculty>) {
    && Schools(buckets) == keys
    && forall j :: 0 <= j < |buckets| ==>
      buckets[j].teaching == Members(fs, buckets[j].school, Teaching)
      && buckets[j].nonTeaching == Members(fs, buckets[j].school, NonTeaching)
  }

  /** A member without a pool key changes nothing. */
  lemma GroupedSkip(buckets: seq<Bucket>, fs: seq<Faculty>, f: Faculty)
    requires Grouped(buckets, fs) && SchoolKey(f).None?
    ensures Grouped(buckets, fs + [f])
  {
    AppendOne(fs, f);
  }

  /** A school seen for the first time gets an entry with two empty lists. */
  lemma GroupedOpen(buckets: seq<Bucket>, fs: seq<Faculty>, f: Faculty)
    requires Grouped(buckets, fs) && SchoolKey(f).Some? && SchoolKey(f).value !in Keys(fs)
    ensures GroupedUnder(buckets + [Bucket(SchoolKey(f).value, [], [])], Keys(fs + [f]), fs)
  {
    var key := SchoolKey(f).value;
    AppendOne(fs, f);
    assert Keys(fs + [f]) == Keys(fs) + [key];
    MembersOfUnseenKey(fs, key, Teaching);
    MembersOfUnseenKey(fs, key, NonTeaching);
    var after := buckets + [Bucket(key, [], [])];
    assert Schools(after) == Schools(buckets) + [key] by {
      assert forall j :: 0 <= j < |buckets| ==> after[j] == buckets[j];
    }
    forall j | 0 <= j < |after|
      ensures after[j].teaching == Members(fs, after[j].school, Teaching)
      ensures after[j].nonTeaching == Members(fs, after[j].school, NonTeaching)
    {
      if j < |buckets| {
        assert after[j] == buckets[j];
      }
    }
  }

  /** Pushing `f` onto its own bucket's list for its group keeps the bucket's lists equal to its members. */
  lemma PushedBucket(bucket: Bucket, fs: seq<Faculty>, f: Faculty)
    requires SchoolKey(f) == Some(bucket.school)
    requires bucket.teaching == Members(fs, bucket.school, Teaching)
    requires bucket.nonTeaching == Members(fs, bucket.school, NonTeaching)
    ensures var after := bucket.WithList(KindOf(f), bucket.List(KindOf(f)) + [f]);
      && after.school == bucket.school
      && after.teaching == Members(fs + [f], bucket.school, Teaching)
      && after.nonTeaching == Members(fs + [f], bucket.school, NonTeaching)
  {
    AppendOne(fs, f);
  }

  /** A bucket of another school keeps its members when `f` is appended. */
  lemma OtherBucketKept(bucket: Bucket, fs: seq<Faculty>, f: Faculty)
    requires SchoolKey(f) != Some(bucket.school)
    requires bucket.teaching == Members(fs, bucket.school, Teaching)
    requires bucket.nonTeaching == Members(fs, bucket.school, NonTeaching)
    ensures bucket.teaching == Members(fs + [f], bucket.school, Teaching)
    ensures bucket.nonTeaching == Members(fs + [f], bucket.school, NonTeaching)
  {
    AppendOne(fs, f);
  }

  /** The member is pushed onto its school's list for its group. */
  lemma GroupedPush(buckets: seq<Bucket>, fs: seq<Faculty>, f: Faculty, b: nat)
    requires GroupedUnder(buckets, Keys(fs + [f]), fs)
    requires b < |buckets| && SchoolKey(f) == Some(buckets[b].school)
    ensures Grouped(buckets[b := buckets[b].WithList(KindOf(f), buckets[b].List(KindOf(f)) + [f])], fs + [f])
  {
    var after := buckets[b := buckets[b].WithList(KindOf(f), buckets[b].List(KindOf(f)) + [f])];
    KeysDistinct(fs + [f]);
    PushedBucket(buckets[b], fs, f);
    assert Schools(after) == Schools(buckets) by {
      assert forall j :: 0 <= j < |after| ==> after[j].school == buckets[j].school;
    }
    forall j | 0 <= j < |after|
      ensures after[j].teaching == Members(fs + [f], after[j].school, Teaching)
      ensures after[j].nonTeaching == Members(fs + [f], after[j].school, NonTeaching)
    {
      if j != b {
        assert Schools(buckets)[j] != Schools(buckets)[b];
        OtherBucketKept(buckets[j], fs, f);
      }
    }
  }

  /**
   * Lines 140-159: one pass over the eligible faculty pushes each member with
   * a pool key onto its school's list for its group (creating the school's
   * entry on first sight); a second pass sorts every list by last duty.
   */
  method BuildBuckets(faculty: seq<Faculty>) returns (buckets: seq<Bucket>)
    ensures buckets == PoolOf(faculty)
  {
    buckets := GroupBySchool(faculty);
    ghost var unsorted := buckets;
    for j := 0 to |buckets|
      invariant |buckets| == |unsorted|
      invariant forall m :: 0 <= m < j ==>
        buckets[m] == Bucket(unsorted[m].school, SortByLastDuty(unsorted[m].teaching), SortByLastDuty(unsorted[m].nonTeaching))
      invariant forall m :: j <= m < |buckets| ==> buckets[m] == unsorted[m]
    {
      var bucket := buckets[j];
      buckets := buckets[j := Bucket(bucket.school, SortByLastDuty(bucket.teaching), SortByLastDuty(bucket.nonTeaching))];
    }
  }

  /** Lines 140-153: the bucketing pass, before any list is sorted. */
  method GroupBySchool(faculty: seq<Faculty>) returns (buckets: seq<Bucket>)
    ensures Grouped(buckets, faculty)
  {
    buckets := [];
    for i := 0 to |faculty|
      invariant Grouped(buckets, faculty[..i])
    {
      var f := faculty[i];
      assert faculty[..i + 1] == faculty[..i] + [f];
      var key := SchoolKey(f);
      if key.Some? {
        var school := key.value;
        var at := Find(buckets, school);
        var b: nat;
        AppendOne(faculty[..i], f);
        if at.None? {
          assert school !in Keys(faculty[..i]);
          GroupedOpen(buckets, faculty[..i], f);
          buckets := buckets + [Bucket(school, [], [])];
          b := |buckets| - 1;
        } else {
          b := at.value;
        }
        GroupedPush(buckets, faculty[..i], f, b);
        var kind := KindOf(f);
        buckets := buckets[b := buckets[b].WithList(kind, buckets[b].List(kind) + [f])];
      } else {
        GroupedSkip(buckets, faculty[..i], f);
      }
    }
    assert faculty[..|faculty|] == faculty;
  }

  /**
   * Every faculty member lands in exactly one list: the one of its pool key
   * and of its group. A list holds each such member as often as the input does.
   */
  lemma PoolPartitions(fs: seq<Faculty>, j: nat, kind: Kind)
    requires j < |PoolOf(fs)|
    ensures var b := PoolOf(fs)[j];
      multiset(b.List(kind)) == multiset(Members(fs, b.school, kind))
      && forall f :: f in b.List(kind) <==> f in fs && SchoolKey(f) == Some(b.school) && KindOf(f) == kind
  {
    var b := PoolOf(fs)[j];
    Sorting.SortPermutes(Members(fs, b.school, kind), StampLe);
    MembersSpec(fs, b.school, kind);
    forall f ensures f in b.List(kind) <==> f in Members(fs, b.school, kind) {
      assert f in b.List(kind) <==> f in multiset(b.List(kind));
    }
  }

  /** Each school of the pool appears once, and exactly the pool keys of the input appear. */
  lemma PoolSchools(fs: seq<Faculty>)
    ensures Lists.NoDuplicates(Schools(PoolOf(fs)))
    ensures forall k :: k in Schools(PoolOf(fs)) <==> exists f :: f in fs && SchoolKey(f) == Some(k)
  {
    KeysDistinct(fs);
    KeysCover(fs);
  }

  /** Every list of the pool is ordered by last duty, least recent first, ties in fetched order. */
  lemma PoolSorted(fs: seq<Faculty>, j: nat, kind: Kind, y: Faculty)
    requires j < |PoolOf(fs)|
    ensures var b := PoolOf(fs)[j];
      Sorting.Sorted(b.List(kind), StampLe)
      && Sorting.Ties(b.List(kind), y, StampLe) == Sorting.Ties(Members(fs, b.school, kind), y, StampLe)
  {
    var b := PoolOf(fs)[j];
    StampLeIsPreorder();
    Sorting.SortSorted(Members(fs, b.school, kind), StampLe);
    Sorting.SortStable(Members(fs, b.school, kind), y, StampLe);
  }

  // ---------------------------------------------------------------------
  // Selection (`getAvailableFaculty`, lines 161-259)
  // ---------------------------------------------------------------------

  /** The front of the school's list of `kind`, if the school is in the pool and the list is not empty. */
  function Front(buckets: seq<Bucket>, school: string, kind: Kind): Option<Faculty> {
    match Find(buckets, school)
    case None => None
    case Some(b) => if buckets[b].List(kind) == [] then None else Some(buckets[b].List(kind)[0])
  }

  /** Lines 178-181: never served, or last served in another month or year than the target date. */
  predicate EligibleFor(f: Faculty, target: Date) {
    match LastDutyDate(f)
    case None => true
    case Some(d) => !SameMonth(d, target)
  }

  /** What the preferred pass sees at position `j` of the associated schools: an eligible front, or nothing. */
  function Candidate(buckets: seq<Bucket>, schools: seq<string>, target: Date, kind: Kind, j: nat): Option<Faculty>
    requires j < |schools|
  {
    var c := Front(buckets, Upper(schools[j]), kind);
    if c.Some? && EligibleFor(c.value, target) then c else None
  }

  /** The best choice so far in a scan: where it was found and its effective last-duty time value. */
  datatype Pick = Pick(position: nat, stamp: int)

  /** The preferred pass from position `j` on, with `best` the choice over the positions before `j`. */
  function PreferredScan(buckets: seq<Bucket>, schools: seq<string>, target: Date, kind: Kind, j: nat, best: Option<Pick>): Option<Pick>
    requires j <= |schools|
    decreases |schools| - j
  {
    if j == |schools| then best
    else PreferredScan(buckets, schools, target, kind, j + 1, PreferredStep(buckets, schools, target, kind, j, best))
  }

  /** Lines 176-194 for one school: an eligible front strictly older than the best so far replaces it. */
  function PreferredStep(buckets: seq<Bucket>, schools: seq<string>, target: Date, kind: Kind, j: nat, best: Option<Pick>): Option<Pick>
    requires j < |schools|
  {
    var c := Candidate(buckets, schools, target, kind, j);
    if c.Some? && (best.None? || LastDutyStamp(c.value) < best.value.stamp)
    then Some(Pick(j, LastDutyStamp(c.value))) else best
  }

  /** The position in `schools` whose front the preferred pass chooses, if any. */
  function PreferredPick(buckets: seq<Bucket>, schools: seq<string>, target: Date, kind: Kind): Option<nat> {
    match PreferredScan(buckets, schools, target, kind, 0, None)
    case None => None
    case Some(p) => Some(p.position)
  }

  /** An offered front as its effective time value, or nothing. */
  function StampOf(c: Option<Faculty>): Option<int> {
    if c.Some? then Some(LastDutyStamp(c.value)) else None
  }

  /** What the preferred pass sees at each associated school, as effective time values. */
  function CandidateStamps(buckets: seq<Bucket>, schools: seq<string>, target: Date, kind: Kind): (cs: seq<Option<int>>)
    ensures |cs| == |schools|
  {
    seq(|schools|, k requires 0 <= k < |schools| => StampOf(Candidate(buckets, schools, target, kind, k)))
  }

  /** One step of a scan for the first strictly oldest offer in `cs`. */
  function OldestStep(cs: seq<Option<int>>, j: nat, best: Option<Pick>): Option<Pick>
    requires j < |cs|
  {
    if cs[j].Some? && (best.None? || cs[j].value < best.value.stamp) then Some(Pick(j, cs[j].value)) else best
  }

  /** `best` is the first strictly oldest offer among the first `j` positions of `cs`, or nothing when none offers. */
  ghost predicate OldestSoFar(cs: seq<Option<int>>, j: nat, best: Option<Pick>)
    requires j <= |cs|
  {
    && (best.None? <==> forall k :: 0 <= k < j ==> cs[k].None?)
    && (best.Some? ==>
      var p := best.value.position;
      && p < j
      && cs[p] == Some(best.value.stamp)
      && (forall k :: 0 <= k < p && cs[k].Some? ==> best.value.stamp < cs[k].value)
      && (forall k :: p < k < j && cs[k].Some? ==> best.value.stamp <= cs[k].value))
  }

  lemma OldestStepKeeps(cs: seq<Option<int>>, j: nat, best: Option<Pick>)
    requires j < |cs| && OldestSoFar(cs, j, best)
    ensures OldestSoFar(cs, j + 1, OldestStep(cs, j, best))
  {
  }

  lemma PreferredStepIsOldest(buckets: seq<Bucket>, schools: seq<string>, target: Date, kind: Kind, j: nat, best: Option<Pick>)
    requires j < |schools|
    ensures PreferredStep(buckets, schools, target, kind, j, best)
      == OldestStep(CandidateStamps(buckets, schools, target, kind), j, best)
  {
  }

  /** The scan for the first strictly oldest offer of `cs`, from position `j` on. */
  function OldestScan(cs: seq<Option<int>>, j: nat, best: Option<Pick>): Option<Pick>
    requires j <= |cs|
    decreases |cs| - j
  {
    if j == |cs| then best else OldestScan(cs, j + 1, OldestStep(cs, j, best))
  }

  lemma {:induction false} OldestScanKeeps(cs: seq<Option<int>>, j: nat, best: Option<Pick>)
    requires j <= |cs| && OldestSoFar(cs, j, best)
    ensures OldestSoFar(cs, |cs|, OldestScan(cs, j, best))
    decreases |cs| - j
  {
    if j < |cs| {
      OldestStepKeeps(cs, j, best);
      OldestScanKeeps(cs, j + 1, OldestStep(cs, j, best));
    }
  }

  lemma {:induction false} PreferredScanIsOldestScan(buckets: seq<Bucket>, schools: seq<string>, target: Date, kind: Kind, j: nat, best: Option<Pick>)
    requires j <= |schools|
    ensures PreferredScan(buckets, schools, target, kind, j, best)
      == OldestScan(CandidateStamps(buckets, schools, target, kind), j, best)
    decreases |schools| - j
  {
    if j < |schools| {
      PreferredStepIsOldest(buckets, schools, target, kind, j, best);
      PreferredScanIsOldestScan(buckets, schools, target, kind, j + 1, PreferredStep(buckets, schools, target, kind, j, best));
    }
  }

  /**
   * The preferred pass looks only at the front of each associated school's
   * list and only at eligible ones. It picks nobody exactly when no position
   * offers an eligible front; otherwise its pick is strictly older than every
   * eligible front at an earlier position and no younger than any later one,
   * so among equal dates the earliest associated school wins.
   */
  lemma PreferredPickSpec(buckets: seq<Bucket>, schools: seq<string>, target: Date, kind: Kind)
    ensures var r := PreferredPick(buckets, schools, target, kind);
      && (r.None? <==> forall k :: 0 <= k < |schools| ==> Candidate(buckets, schools, target, kind, k).None?)
      && (r.Some? ==>
        && r.value < |schools|
        && Candidate(buckets, schools, target, kind, r.value).Some?
        && (forall k :: 0 <= k < r.value && Candidate(buckets, schools, target, kind, k).Some? ==>
              LastDutyStamp(Candidate(buckets, schools, target, kind, r.value).value)
                < LastDutyStamp(Candidate(buckets, schools, target, kind, k).value))
        && (forall k :: r.value < k < |schools| && Candidate(buckets, schools, target, kind, k).Some? ==>
              LastDutyStamp(Candidate(buckets, schools, target, kind, r.value).value)
                <= LastDutyStamp(Candidate(buckets, schools, target, kind, k).value)))
  {
    var cs := CandidateStamps(buckets, schools, target, kind);
    PreferredScanIsOldestScan(buckets, schools, target, kind, 0, None);
    OldestScanKeeps(cs, 0, None);
    assert forall k :: 0 <= k < |schools| ==> cs[k] == StampOf(Candidate(buckets, schools, target, kind, k));
  }

  /** The fallback pass from bucket `i` on (lines 220-235), with `best` the choice over the buckets before `i`. */
  function FallbackScan(buckets: seq<Bucket>, kind: Kind, i: nat, best: Option<Pick>): Option<Pick>
    requires i <= |buckets|
    decreases |buckets| - i
  {
    if i == |buckets| then best
    else FallbackScan(buckets, kind, i + 1, FallbackStep(buckets, kind, i, best))
  }

  /**
   * Lines 222-234 for one school: a non-empty list's front replaces the best
   * so far when there is none yet, when the front has no valid date, or when
   * its date is strictly older.
   */
  function FallbackStep(buckets: seq<Bucket>, kind: Kind, i: nat, best: Option<Pick>): Option<Pick>
    requires i < |buckets|
  {
    if buckets[i].List(kind) == [] then best
    else
      var f := buckets[i].List(kind)[0];
      var d := LastDutyDate(f);
      if best.None? || d.None? || d.value.stamp < best.value.stamp
      then Some(Pick(i, LastDutyStamp(f))) else best
  }

  /** The bucket whose front the fallback pass chooses, if any. */
  function FallbackPick(buckets: seq<Bucket>, kind: Kind): Option<nat> {
    match FallbackScan(buckets, kind, 0, None)
    case None => None
    case Some(p) => Some(p.position)
  }

  function FrontOf(buckets: seq<Bucket>, i: nat, kind: Kind): Faculty
    requires i < |buckets| && buckets[i].List(kind) != []
  {
    buckets[i].List(kind)[0]
  }

  /** What the fallback pass sees in one bucket: nothing, or a front with or without a valid date and its effective time value. */
  datatype Offer = NoOffer | Offer(dated: bool, stamp: int)

  function OfferAt(buckets: seq<Bucket>, kind: Kind, i: nat): Offer
    requires i < |buckets|
  {
    if buckets[i].List(kind) == [] then NoOffer
    else
      var f := FrontOf(buckets, i, kind);
      Offer(LastDutyDate(f).Some?, LastDutyStamp(f))
  }

  function Offers(buckets: seq<Bucket>, kind: Kind): (os: seq<Offer>)
    ensures |os| == |buckets|
  {
    seq(|buckets|, i requires 0 <= i < |buckets| => OfferAt(buckets, kind, i))
  }

  /** One step of the fallback scan over offers: an offer replaces the best so far when there is none, it is undated, or it is strictly older. */
  function OfferStep(os: seq<Offer>, i: nat, best: Option<Pick>): Option<Pick>
    requires i < |os|
  {
    if os[i].NoOffer? then best
    else if best.None? || !os[i].dated || os[i].stamp < best.value.stamp then Some(Pick(i, os[i].stamp))
    else best
  }

  ghost predicate FallbackSoFar(os: seq<Offer>, i: nat, best: Option<Pick>)
    requires i <= |os|
  {
    && (best.None? <==> forall k :: 0 <= k < i ==> os[k].NoOffer?)
    && (best.Some? ==>
      var p := best.value.position;
      && p < i
      && os[p].Offer?
      && best.value.stamp == os[p].stamp
      && (forall k :: p < k < i && os[k].Offer? ==> os[k].dated && best.value.stamp <= os[k].stamp)
      && (forall k :: 0 <= k < p && os[k].Offer? ==> UndatedBetween(os, k, p) || best.value.stamp < os[k].stamp))
  }

  /** Some offer after position `k`, up to and including `p`, is undated. */
  ghost predicate UndatedBetween(os: seq<Offer>, k: nat, p: nat)
    requires p < |os|
  {
    exists j :: k < j <= p && os[j].Offer? && !os[j].dated
  }

  lemma FallbackStepIsOfferStep(buckets: seq<Bucket>, kind: Kind, i: nat, best: Option<Pick>)
    requires i < |buckets|
    ensures FallbackStep(buckets, kind, i, best) == OfferStep(Offers(buckets, kind), i, best)
  {
  }

  lemma OfferStepKeeps(os: seq<Offer>, i: nat, best: Option<Pick>)
    requires i < |os| && FallbackSoFar(os, i, best)
    ensures FallbackSoFar(os, i + 1, OfferStep(os, i, best))
  {
  }

  /** The fallback scan over offers from position `i` on. */
  function OfferScan(os: seq<Offer>, i: nat, best: Option<Pick>): Option<Pick>
    requires i <= |os|
    decreases |os| - i
  {
    if i == |os| then best else OfferScan(os, i + 1, OfferStep(os, i, best))
  }

  lemma {:induction false} OfferScanKeeps(os: seq<Offer>, i: nat, best: Option<Pick>)
    requires i <= |os| && FallbackSoFar(os, i, best)
    ensures FallbackSoFar(os, |os|, OfferScan(os, i, best))
    decreases |os| - i
  {
    if i < |os| {
      OfferStepKeeps(os, i, best);
      OfferScanKeeps(os, i + 1, OfferStep(os, i, best));
    }
  }

  lemma {:induction false} FallbackScanIsOfferScan(buckets: seq<Bucket>, kind: Kind, i: nat, best: Option<Pick>)
    requires i <= |buckets|
    ensures FallbackScan(buckets, kind, i, best) == OfferScan(Offers(buckets, kind), i, best)
    decreases |buckets| - i
  {
    if i < |buckets| {
      FallbackStepIsOfferStep(buckets, kind, i, best);
      FallbackScanIsOfferScan(buckets, kind, i + 1, FallbackStep(buckets, kind, i, best));
    }
  }

  /** Some non-empty list after position `k`, up to and including `r`, has a front without a valid date. */
  predicate UndatedFrontBetween(buckets: seq<Bucket>, kind: Kind, k: nat, r: nat)
    requires r < |buckets|
  {
    exists j :: k < j <= r && buckets[j].List(kind) != [] && LastDutyDate(FrontOf(buckets, j, kind)).None?
  }

  /**
   * What makes position `r` the fallback's choice: its list is not empty;
   * every later non-empty list has a front with a valid date that is not
   * older; and every earlier non-empty list has a front that is strictly
   * younger, unless a front without a valid date comes after it, up to `r`.
   */
  predicate FallbackChoice(buckets: seq<Bucket>, kind: Kind, r: nat) {
    && r < |buckets| && buckets[r].List(kind) != []
    && (forall k :: r < k < |buckets| && buckets[k].List(kind) != [] ==>
          LastDutyDate(FrontOf(buckets, k, kind)).Some?
          && LastDutyStamp(FrontOf(buckets, r, kind)) <= LastDutyStamp(FrontOf(buckets, k, kind)))
    && (forall k :: 0 <= k < r && buckets[k].List(kind) != [] ==>
          UndatedFrontBetween(buckets, kind, k, r)
          || LastDutyStamp(FrontOf(buckets, r, kind)) < LastDutyStamp(FrontOf(buckets, k, kind)))
  }

  /**
   * The fallback pass ignores the month rule and the school association. It
   * picks nobody exactly when every list of the kind is empty, and otherwise
   * picks the position `FallbackChoice` describes: the last front without a
   * valid date if there is one and no later front is older, and when every
   * front has a date, the first of the oldest.
   */
  lemma FallbackPickSpec(buckets: seq<Bucket>, kind: Kind)
    ensures var r := FallbackPick(buckets, kind);
      && (r.None? <==> forall k :: 0 <= k < |buckets| ==> buckets[k].List(kind) == [])
      && (r.Some? ==> FallbackChoice(buckets, kind, r.value))
  {
    var os := Offers(buckets, kind);
    FallbackScanIsOfferScan(buckets, kind, 0, None);
    OfferScanKeeps(os, 0, None);
    var r := FallbackPick(buckets, kind);
    forall k | 0 <= k < |buckets|
      ensures os[k].Offer? <==> buckets[k].List(kind) != []
      ensures os[k].Offer? ==>
        && (os[k].dated <==> LastDutyDate(FrontOf(buckets, k, kind)).Some?)
        && os[k].stamp == LastDutyStamp(FrontOf(buckets, k, kind))
    {
      assert os[k] == OfferAt(buckets, kind, k);
    }
    if r.Some? {
      var p := r.value;
      forall k | p < k < |buckets| && buckets[k].List(kind) != []
        ensures LastDutyDate(FrontOf(buckets, k, kind)).Some?
        ensures LastDutyStamp(FrontOf(buckets, p, kind)) <= LastDutyStamp(FrontOf(buckets, k, kind))
      {
        assert os[k].Offer?;
      }
      forall k | 0 <= k < p && buckets[k].List(kind) != []
        ensures UndatedFrontBetween(buckets, kind, k, p)
          || LastDutyStamp(FrontOf(buckets, p, kind)) < LastDutyStamp(FrontOf(buckets, k, kind))
      {
        assert os[k].Offer?;
        if UndatedBetween(os, k, p) {
          var j :| k < j <= p && os[j].Offer? && !os[j].dated;
          assert buckets[j].List(kind) != [] && LastDutyDate(FrontOf(buckets, j, kind)).None?;
        }
      }
    }
  }

  /** At most one position meets `FallbackChoice`, so it fixes the fallback's pick. */
  lemma FallbackChoiceUnique(buckets: seq<Bucket>, kind: Kind, r: nat, s: nat)
    requires FallbackChoice(buckets, kind, r) && FallbackChoice(buckets, kind, s)
    ensures r == s
  {
    if r < s {
      FallbackChoiceFirst(buckets, kind, r, s);
    } else if s < r {
      FallbackChoiceFirst(buckets, kind, s, r);
    }
  }

  /** A position after the choice `r` is not a choice itself: its front is not strictly older and nothing undated follows `r`. */
  lemma FallbackChoiceFirst(buckets: seq<Bucket>, kind: Kind, r: nat, s: nat)
    requires FallbackChoice(buckets, kind, r) && r < s < |buckets|
    ensures !FallbackChoice(buckets, kind, s)
  {
    forall j | r < j <= s && buckets[j].List(kind) != []
      ensures LastDutyDate(FrontOf(buckets, j, kind)).Some?
    {
    }
  }

  /** The bucket whose list of `kind` gives up its front: the preferred pass's choice, else the fallback's. */
  function Chosen(buckets: seq<Bucket>, schools: seq<string>, target: Date, kind: Kind): (r: Option<nat>)
    ensures r.Some? ==> r.value < |buckets| && buckets[r.value].List(kind) != []
  {
    match PreferredPick(buckets, schools, target, kind)
    case Some(j) =>
      PreferredPickSpec(buckets, schools, target, kind);
      Find(buckets, Upper(schools[j]))
    case None =>
      FallbackPickSpec(buckets, kind);
      FallbackPick(buckets, kind)
  }

  /** Lines 205-211 and 244-252: the front takes the new duty and moves to the back of its list. */
  function Rotate(buckets: seq<Bucket>, b: nat, kind: Kind, duty: Duty): seq<Bucket>
    requires b < |buckets| && buckets[b].List(kind) != []
  {
    var list := buckets[b].List(kind);
    buckets[b := buckets[b].WithList(kind, list[1..] + [list[0].(lastDuty := Some(duty))])]
  }

  /** `getAvailableFaculty`: the faculty member chosen (already carrying the new duty) and the pool afterwards. */
  function TakeSpec(buckets: seq<Bucket>, schools: seq<string>, target: Date, kind: Kind, duty: Duty): (Option<Faculty>, seq<Bucket>) {
    match Chosen(buckets, schools, target, kind)
    case None => (None, buckets)
    case Some(b) =>
      (Some(buckets[b].List(kind)[0].(lastDuty := Some(duty))), Rotate(buckets, b, kind, duty))
  }

  /** At least one list of this kind is not empty. */
  predicate HasKind(buckets: seq<Bucket>, kind: Kind) {
    exists i :: 0 <= i < |buckets| && buckets[i].List(kind) != []
  }

  /** The selection returns nobody exactly when every list of the kind is empty. */
  lemma TakeFindsSomeone(buckets: seq<Bucket>, schools: seq<string>, target: Date, kind: Kind, duty: Duty)
    ensures TakeSpec(buckets, schools, target, kind, duty).0.Some? <==> HasKind(buckets, kind)
  {
    PreferredPickSpec(buckets, schools, target, kind);
    FallbackPickSpec(buckets, kind);
    var r := PreferredPick(buckets, schools, target, kind);
    if r.Some? {
      var c := Candidate(buckets, schools, target, kind, r.value);
      var b := Find(buckets, Upper(schools[r.value])).value;
      assert buckets[b].List(kind) != [];
    }
  }

  /**
   * After a pick, the chosen list is the old list rotated left by one, its
   * front now carrying the new duty; every other list, and the order of the
   * schools, is unchanged.
   */
  lemma TakeRotates(buckets: seq<Bucket>, schools: seq<string>, target: Date, kind: Kind, duty: Duty)
    ensures var (pick, after) := TakeSpec(buckets, schools, target, kind, duty);
      && |after| == |buckets|
      && Schools(after) == Schools(buckets)
      && (pick.None? ==> after == buckets)
      && (pick.Some? ==>
        exists b :: 0 <= b < |buckets| && buckets[b].List(kind) != []
          && pick.value == buckets[b].List(kind)[0].(lastDuty := Some(duty))
          && after[b].List(kind) == buckets[b].List(kind)[1..] + [pick.value]
          && |after[b].List(kind)| == |buckets[b].List(kind)|
          && after[b].List(if kind == Teaching then NonTeaching else Teaching)
               == buckets[b].List(if kind == Teaching then NonTeaching else Teaching)
          && forall i :: 0 <= i < |buckets| && i != b ==> after[i] == buckets[i])
  {
    var (pick, after) := TakeSpec(buckets, schools, target, kind, duty);
    if pick.Some? {
      var b := Chosen(buckets, schools, target, kind).value;
      assert after[b].List(kind) == buckets[b].List(kind)[1..] + [pick.value];
    }
  }

  /** Taking keeps the size of every list, so a kind present in the pool stays present. */
  lemma TakeKeepsSizes(buckets: seq<Bucket>, schools: seq<string>, target: Date, kind: Kind, duty: Duty, other: Kind)
    ensures var after := TakeSpec(buckets, schools, target, kind, duty).1;
      |after| == |buckets| && forall i :: 0 <= i < |buckets| ==> |after[i].List(other)| == |buckets[i].List(other)|
    ensures HasKind(TakeSpec(buckets, schools, target, kind, duty).1, other) == HasKind(buckets, other)
  {
    var after := TakeSpec(buckets, schools, target, kind, duty).1;
    assert forall i :: 0 <= i < |buckets| ==> |after[i].List(other)| == |buckets[i].List(other)|;
    if HasKind(buckets, other) {
      var i :| 0 <= i < |buckets| && buckets[i].List(other) != [];
      assert after[i].List(other) != [];
    }
    if HasKind(after, other) {
      var i :| 0 <= i < |after| && after[i].List(other) != [];
      assert buckets[i].List(other) != [];
    }
  }

  // ---------------------------------------------------------------------
  // The pool as the object the planning loop mutates
  // ---------------------------------------------------------------------

  /** Every member of `list` has `school` as its pool key and belongs to `kind`. */
  ghost predicate ListOk(list: seq<Faculty>, school: string, kind: Kind) {
    forall f :: f in list ==> SchoolKey(f) == Some(school) && KindOf(f) == kind
  }

  /** Every member of the bucket's lists has the bucket's school as its pool key, and the list's group. */
  ghost predicate BucketOk(b: Bucket) {
    ListOk(b.teaching, b.school, Teaching) && ListOk(b.nonTeaching, b.school, NonTeaching)
  }

  /** Schools appear once, and every bucket holds only its own members. */
  ghost predicate WellFormed(buckets: seq<Bucket>) {
    && Lists.NoDuplicates(Schools(buckets))
    && forall i :: 0 <= i < |buckets| ==> BucketOk(buckets[i])
  }

  lemma PoolOfWellFormed(fs: seq<Faculty>)
    ensures WellFormed(PoolOf(fs))
  {
    PoolSchools(fs);
    forall i | 0 <= i < |PoolOf(fs)| ensures BucketOk(PoolOf(fs)[i]) {
      PoolPartitions(fs, i, Teaching);
      PoolPartitions(fs, i, NonTeaching);
    }
  }

  /** Moving the front, stamped with a duty, to the back keeps a list's members in their school and group. */
  lemma RotatedListOk(list: seq<Faculty>, school: string, kind: Kind, duty: Duty)
    requires ListOk(list, school, kind) && list != []
    ensures ListOk(list[1..] + [list[0].(lastDuty := Some(duty))], school, kind)
  {
    var g := list[0];
    var moved := g.(lastDuty := Some(duty));
    assert SchoolKey(g) == Some(school) && KindOf(g) == kind by {
      assert g in list;
    }
    assert moved.orgUnit == g.orgUnit && moved.employeeGroup == g.employeeGroup;
    forall f | f in list[1..] + [moved]
      ensures SchoolKey(f) == Some(school) && KindOf(f) == kind
    {
      if f in list[1..] {
        assert f in list;
      }
    }
  }

  lemma RotateBucketOk(b: Bucket, kind: Kind, duty: Duty)
    requires BucketOk(b) && b.List(kind) != []
    ensures BucketOk(b.WithList(kind, b.List(kind)[1..] + [b.List(kind)[0].(lastDuty := Some(duty))]))
  {
    RotatedListOk(b.List(kind), b.school, kind, duty);
  }

  lemma RotateWellFormed(buckets: seq<Bucket>, b: nat, kind: Kind, duty: Duty)
    requires WellFormed(buckets) && b < |buckets| && buckets[b].List(kind) != []
    ensures WellFormed(Rotate(buckets, b, kind, duty))
  {
    RotateBucketOk(buckets[b], kind, duty);
    assert Schools(Rotate(buckets, b, kind, duty)) == Schools(buckets);
  }

  class FacultyPool {
    /** `facultyBySchool`, in insertion order. */
    var buckets: seq<Bucket>

    ghost predicate Valid()
      reads this
    {
      WellFormed(buckets)
    }

    constructor (faculty: seq<Faculty>)
      ensures Valid() && buckets == PoolOf(faculty)
    {
      var built := BuildBuckets(faculty);
      buckets := built;
      PoolOfWellFormed(faculty);
    }

    /**
     * `getAvailableFaculty(associatedSchools, date, ..., kind)`: the preferred
     * pass over the associated schools, then the fallback pass over every
     * school; the chosen member takes `duty` and moves to the back of its list.
     */
    method Take(schools: seq<string>, target: Date, kind: Kind, duty: Duty) returns (pick: Option<Faculty>)
      requires Valid()
      modifies this
      ensures Valid()
      ensures (pick, buckets) == TakeSpec(old(buckets), schools, target, kind, duty)
    {
      var best := PreferredFront(schools, target, kind);
      if best.Some? {
        PreferredPickSpec(buckets, schools, target, kind);
        var bestSchool := Upper(schools[best.value.position]);
        var b := Find(buckets, bestSchool).value;
        pick := MoveFrontToBack(b, kind, duty);
      } else {
        pick := OldestFront(kind, duty);
      }
    }

    /** Lines 170-194: the preferred pass over the fronts of the associated schools' lists. */
    method PreferredFront(schools: seq<string>, target: Date, kind: Kind) returns (best: Option<Pick>)
      ensures best == PreferredScan(buckets, schools, target, kind, 0, None)
    {
      best := None;
      for j := 0 to |schools|
        invariant PreferredScan(buckets, schools, target, kind, 0, None) == PreferredScan(buckets, schools, target, kind, j, best)
      {
        var school := Upper(schools[j]);
        var at := Find(buckets, school);
        if at.Some? && |buckets[at.value].List(kind)| > 0 {
          var f := buckets[at.value].List(kind)[0];
          var d := LastDutyDate(f);
          var eligible := d.None? || d.value.month != target.month || d.value.year != target.year;
          if eligible {
            var effective := if d.None? then EPOCH else d.value.stamp;
            if best.None? || effective < best.value.stamp {
              best := Some(Pick(j, effective));
            }
          }
        }
      }
    }

    /** Lines 216-258: the fallback over the fronts of every school's list. */
    method OldestFront(kind: Kind, duty: Duty) returns (pick: Option<Faculty>)
      requires Valid()
      modifies this
      ensures Valid()
      ensures match FallbackPick(old(buckets), kind)
        case None => pick.None? && buckets == old(buckets)
        case Some(b) =>
          b < |old(buckets)| && old(buckets)[b].List(kind) != []
          && pick == Some(old(buckets)[b].List(kind)[0].(lastDuty := Some(duty)))
          && buckets == Rotate(old(buckets), b, kind, duty)
    {
      var oldest: Option<Pick> := None;
      for i := 0 to |buckets|
        invariant FallbackScan(buckets, kind, 0, None) == FallbackScan(buckets, kind, i, oldest)
      {
        var list := buckets[i].List(kind);
        if |list| > 0 {
          var f := list[0];
          var d := LastDutyDate(f);
          if oldest.None? || d.None? || d.value.stamp < oldest.value.stamp {
            oldest := Some(Pick(i, LastDutyStamp(f)));
          }
        }
      }
      if oldest.None? {
        return None;
      }
      var p := oldest.value.position;
      assert p < |buckets| && buckets[p].List(kind) != [] by {
        FallbackPickSpec(buckets, kind);
      }
      var f := buckets[p].List(kind)[0];
      assert SchoolKey(f) == Some(buckets[p].school) by {
        assert f in buckets[p].List(kind) && BucketOk(buckets[p]);
      }
      // Lines 247-248: the list is found again through the member's own upper-cased unit.
      var school := Upper(f.orgUnit.value);
      var at := Find(buckets, school);
      FindUnique(buckets, p);
      pick := MoveFrontToBack(at.value, kind, duty);
    }

    /** `list.shift(); list.push(f)` after `f.lastDuty = duty`, for the front `f` of the list. */
    method MoveFrontToBack(b: nat, kind: Kind, duty: Duty) returns (pick: Option<Faculty>)
      requires Valid() && b < |buckets| && buckets[b].List(kind) != []
      modifies this
      ensures Valid()
      ensures pick == Some(old(buckets)[b].List(kind)[0].(lastDuty := Some(duty)))
      ensures buckets == Rotate(old(buckets), b, kind, duty)
    {
      var list := buckets[b].List(kind);
      var f := list[0].(lastDuty := Some(duty));
      RotateWellFormed(buckets, b, kind, duty);
      buckets := buckets[b := buckets[b].WithList(kind, list[1..] + [f])];
      pick := Some(f);
    }
  }
}
