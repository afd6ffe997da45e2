/**
 * The `lastDuty` rule of `assignDutiesManually`
 * (controllers/assignDutyController.js, lines 437-507): a manually entered
 * duty replaces a faculty member's `lastDuty` only when that has no date or
 * an older one; the duty's room count comes from `calculateRoomCount`.
 */
module ManualAssignment {
  import opened Common
  import opened Calendar
  import opened SupervisorPool
  import opened RoomBlocks

  /** The `lastDuty` a manual entry writes (lines 483-488). */
  function ManualDuty(dutyDate: Date, hostelName: string, range: string): Duty {
    Duty(At(dutyDate), hostelName, range, Int(CalculateRoomCount(range)))
  }

  /**
   * Lines 472-474, `updateLastDuty`: no `lastDuty` or a falsy date, or a
   * stored date before the duty's. A stored date JavaScript cannot parse
   * compares as NaN, which is never less, so it is kept.
   */
  predicate ReplacesLastDuty(last: Option<Duty>, dutyDate: Date) {
    match last
    case None => true
    case Some(d) =>
      match d.date
      case Missing => true
      case Invalid => false
      case At(stored) => stored.stamp < dutyDate.stamp
  }

  /** The faculty member's `lastDuty` after the entry's `bulkWrite`. */
  function AfterManual(last: Option<Duty>, dutyDate: Date, hostelName: string, range: string): (r: Option<Duty>)
    ensures r == Some(ManualDuty(dutyDate, hostelName, range)) || r == last
    ensures r != last ==> ReplacesLastDuty(last, dutyDate)
    ensures ReplacesLastDuty(last, dutyDate) ==> r.Some? && r.value.date == At(dutyDate)
    ensures last.Some? && last.value.date.At? ==>
      r.Some? && r.value.date.At? && r.value.date.date.stamp >= last.value.date.date.stamp
  {
    if ReplacesLastDuty(last, dutyDate) then Some(ManualDuty(dutyDate, hostelName, range)) else last
  }

  /** Entering the same duty twice leaves what entering it once leaves. */
  lemma AfterManualIdempotent(last: Option<Duty>, dutyDate: Date, hostelName: string, range: string)
    ensures var once := AfterManual(last, dutyDate, hostelName, range);
      AfterManual(once, dutyDate, hostelName, range) == once
  {
  }

  /**
   * An entry for a later date supersedes an earlier one: entering `d1` and
   * then `d2` in separate requests leaves what entering `d2` alone leaves,
   * so across requests the stored date never moves back. Within one request
   * every entry is compared with the `lastDuty` read before the request's
   * single `bulkWrite` (lines 437-440), so there a later entry with an
   * earlier date can still overwrite.
   */
  lemma AfterManualSupersedes(last: Option<Duty>, d1: Date, d2: Date, h1: string, h2: string, r1: string, r2: string)
    requires d1.stamp < d2.stamp
    ensures AfterManual(AfterManual(last, d1, h1, r1), d2, h2, r2) == AfterManual(last, d2, h2, r2)
  {
    var mid := AfterManual(last, d1, h1, r1);
    if ReplacesLastDuty(last, d1) {
      assert mid == Some(ManualDuty(d1, h1, r1));
      assert ReplacesLastDuty(mid, d2) && ReplacesLastDuty(last, d2);
    } else {
      assert mid == last;
    }
  }

  /** A manual entry with a well-formed range "s-e" records `e - s + 1` rooms, as a generated block of that range would. */
  lemma ManualDutyRooms(dutyDate: Date, hostelName: string, s: nat, e: nat)
    ensures ManualDuty(dutyDate, hostelName, FormatRange(Int(s), Int(e))).numberOfRooms == Int(e - s + 1)
  {
    RoomCountOfRange(s, e);
  }
}
