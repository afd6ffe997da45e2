/**
 * Dates as the duty scheduler uses them. The calendar arithmetic of
 * JavaScript `Date` (time zones, day lengths, `setDate`) lies outside the
 * model: a date is its time value, which orders dates, together with the
 * local calendar year and month it falls in.
 */
module Calendar {
  import opened Common

  /** `getMonth()`: 0 is January. */
  type Month = m: int | 0 <= m < 12

  datatype Date = Date(stamp: int, year: int, month: Month)

  /** The time value of `new Date(0)`, which stands in for "never". */
  const EPOCH: int := 0

  /** A stored `date` field: absent, present but not a valid date, or a date. */
  datatype DateField = Missing | Invalid | At(date: Date)

  /** `new Date(field)`: None where JavaScript yields an invalid date (NaN). */
  function Parse(f: DateField): (r: Option<Date>)
    ensures r.Some? <==> f.At?
  {
    match f
    case At(d) => Some(d)
    case _ => None
  }

  /** Same calendar month of the same year: `getMonth()` and `getFullYear()` agree. */
  predicate SameMonth(a: Date, b: Date) {
    a.year == b.year && a.month == b.month
  }
}
