/**
 * Which hostels a duty run covers and in what order
 * (controllers/assignDutyController.js, lines 50-96): the hostels of the
 * requested gender's type that are not excluded by name, ordered by four
 * keys computed from their associated schools.
 */
module HostelOrder {
  import opened Common
  import opened Text
  import SupervisorPool
  import Sorting

  const ALL_ENGINEERING: string := "ALL ENGINEERING SCHOOL"
  const SCHOOL_PREFIX: string := "SCHOOL OF"

  /** A stored hostel as the run reads it; `associatedSchools` as a list of school names. */
  datatype Hostel = Hostel(
    id: string,
    name: string,
    hostelType: string,
    numberOfRooms: Num,
    associatedSchools: seq<string>)

  /** `isAllEngineering`: the list names "ALL ENGINEERING SCHOOL". */
  predicate IsAllEngineering(h: Hostel) {
    ALL_ENGINEERING in h.associatedSchools
  }

  /** `isExcluded`: the list shares a school with the excluded schools. */
  predicate IsExcluded(h: Hostel) {
    exists i :: 0 <= i < |h.associatedSchools| && h.associatedSchools[i] in SupervisorPool.EXCLUDED_SCHOOLS
  }

  /** `isPreferredSchool`: a non-empty list whose every entry starts with "SCHOOL OF". */
  predicate IsPreferred(h: Hostel) {
    && h.associatedSchools != []
    && forall i :: 0 <= i < |h.associatedSchools| ==> StartsWith(h.associatedSchools[i], SCHOOL_PREFIX)
  }

  /**
   * The `$sort` stage: "ALL ENGINEERING" hostels last, then hostels sharing an
   * excluded school last, then preferred hostels first, then fewer associated
   * schools first. `RankLe(a, b)`: `a` may come before `b`.
   */
  predicate RankLe(a: Hostel, b: Hostel) {
    if IsAllEngineering(a) != IsAllEngineering(b) then !IsAllEngineering(a)
    else if IsExcluded(a) != IsExcluded(b) then !IsExcluded(a)
    else if IsPreferred(a) != IsPreferred(b) then IsPreferred(a)
    else |a.associatedSchools| <= |b.associatedSchools|
  }

  /** The first three keys agree. */
  predicate SameFlags(a: Hostel, b: Hostel) {
    IsAllEngineering(a) == IsAllEngineering(b) && IsExcluded(a) == IsExcluded(b) && IsPreferred(a) == IsPreferred(b)
  }

  lemma RankLeIsPreorder()
    ensures Sorting.TotalPreorder(RankLe)
  {
  }

  /** The `$match` stage: type BOYS for gender MALE and GIRLS otherwise (both without regard to case), name not excluded. */
  predicate Matches(h: Hostel, gender: string, excludeHostels: seq<string>) {
    && Upper(h.hostelType) == (if Upper(gender) == "MALE" then "BOYS" else "GIRLS")
    && h.name !in excludeHostels
  }

  function Select(hostels: seq<Hostel>, gender: string, excludeHostels: seq<string>): seq<Hostel> {
    if hostels == [] then []
    else
      var h := hostels[|hostels| - 1];
      Select(hostels[..|hostels| - 1], gender, excludeHostels) + (if Matches(h, gender, excludeHostels) then [h] else [])
  }

  /** The hostels of the run, in processing order. */
  function Ranked(hostels: seq<Hostel>, gender: string, excludeHostels: seq<string>): seq<Hostel> {
    Sorting.Sort(Select(hostels, gender, excludeHostels), RankLe)
  }

  lemma {:induction false} SelectSpec(hostels: seq<Hostel>, gender: string, excludeHostels: seq<string>)
    ensures forall h :: h in Select(hostels, gender, excludeHostels) <==> h in hostels && Matches(h, gender, excludeHostels)
    ensures forall h :: h in hostels && Matches(h, gender, excludeHostels) ==>
      multiset(Select(hostels, gender, excludeHostels))[h] == multiset(hostels)[h]
  {
    if hostels != [] {
      var init := hostels[..|hostels| - 1];
      SelectSpec(init, gender, excludeHostels);
      assert hostels == init + [hostels[|hostels| - 1]];
    }
  }

  /**
   * The run covers each matching hostel exactly as often as it is stored and
   * no other, and processes them in the priority order of the four keys.
   */
  lemma RankedSpec(hostels: seq<Hostel>, gender: string, excludeHostels: seq<string>)
    ensures var r := Ranked(hostels, gender, excludeHostels);
      && multiset(r) == multiset(Select(hostels, gender, excludeHostels))
      && (forall h :: h in r <==> h in hostels && Matches(h, gender, excludeHostels))
      && forall i, j :: 0 <= i < j < |r| ==>
        && (IsAllEngineering(r[i]) ==> IsAllEngineering(r[j]))
        && (IsAllEngineering(r[i]) == IsAllEngineering(r[j]) && IsExcluded(r[i]) ==> IsExcluded(r[j]))
        && (IsAllEngineering(r[i]) == IsAllEngineering(r[j]) && IsExcluded(r[i]) == IsExcluded(r[j]) && IsPreferred(r[j]) ==> IsPreferred(r[i]))
        && (SameFlags(r[i], r[j]) ==> |r[i].associatedSchools| <= |r[j].associatedSchools|)
  {
    var s := Select(hostels, gender, excludeHostels);
    var r := Ranked(hostels, gender, excludeHostels);
    SelectSpec(hostels, gender, excludeHostels);
    Sorting.SortPermutes(s, RankLe);
    RankLeIsPreorder();
    Sorting.SortSorted(s, RankLe);
    forall h ensures h in r <==> h in s {
      assert h in r <==> h in multiset(r);
    }
    forall i, j | 0 <= i < j < |r| ensures RankLe(r[i], r[j]) {
    }
  }
}
