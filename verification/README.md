# Hostel duty scheduler — a Dafny model

This project models the scheduling core of a hostel-duty management
service. For a date range and a gender, the service:

- ranks the hostels of that gender;
- buckets the eligible faculty by school and by teaching or non-teaching
  group, each list ordered by when the member last served;
- walks the hostels and the days in turn. Each day it gives the hostel the
  next block of at most twenty rooms after the room where the hostel's
  cursor stands, and takes one teaching and one non-teaching supervisor
  from the pool. A supervisor is taken from the front of a list and
  rotated to its back.

The staffed days are queued as assignments and `lastDuty` updates and
written in one batch at the end. Beside this core the project models:

- the manual path's rule for overwriting `lastDuty`, and its room count;
- hostel-name normalisation: Roman block numbers, and the KP, QC and HOUSE
  name forms, with the spreadsheet upload's row filter and typing;
- the per-request decisions of the two bulk add-or-update endpoints, for
  hostels and for groups;
- the per-faculty month histogram of the duty report.

Modules, one per file:

- `Common`: Option, Result, and a JavaScript number that is an integer or
  NaN, with the truncating remainder.
- `Text`: JavaScript white space, trim, upper case, split, and decimal
  formatting and parsing.
- `Calendar`: abstract dates, as a time value with a year and a month.
- `Sorting`: a stable sort by a comparator.
- `Lists`: de-duplicating union and filtered removal.
- `SupervisorPool`: the faculty pool and the supervisor selection,
  including the `FacultyPool` class whose lists the picks rotate in place.
- `RoomBlocks`: the room-block cursor.
- `HostelOrder`: hostel selection and ranking.
- `DutyPlanner`: the planning loop, as a specification function `Plan` and
  the imperative `AssignDuties` proved equal to it.
- `ManualAssignment`, `HostelNames`, `HostelUpsert`, `GroupUpsert`,
  `DutyReport`: the remaining parts listed above.

Database reads are inputs: the stored hostels, faculty, latest room range
per hostel, stored groups and stored hostel names. The writes are outputs:
the queued assignments, updates and bulk operations. The calendar days of a
run are an input too.

Where the code's behaviour is surprising, the model follows the code:

- A `null` pick is dereferenced (controllers/assignDutyController.js, lines
  311-312) before the null check at line 314, so a day without a supervisor
  aborts the whole run with a server error and nothing is written. The
  check suggests the day was meant to be skipped.
- A hostel with zero rooms, or a stored range that does not parse, gives
  the range "NaN-NaN" every day and is never finished.
- An already normalised "KP-4" is rewritten to "KP-04". The one-character
  block "4" is not a numeral, so it is retried with "4" as the suffix, and
  the empty numeral that is left reads as 0.
- The spreadsheet upload stores a row's normalised name but reads its type
  from the name as given, case-sensitively. So "kp-iv" is stored as "KP-4"
  with no type, and a lower-case "qc" name is stored unchanged with no type.
  A name with leading white space is dropped by the row filter, and a name
  like "KP 4" passes the filter but makes normalisation throw, which fails
  the whole upload.
- The hostel schema has no `nonAssociatedSchools` path, so the manual
  hostel endpoint throws on any request that updates a stored hostel
  without deleting it. The whole batch is then answered with a 500 and
  nothing is written (see Findings).
- The faculty schema stores `lastDuty` as a single object, which the duty
  report skips (it has no `length`), so such members report twelve zeros.

## Model

| member | source | states |
|---|---|---|
| DutyPlanner.AssignDuties | controllers/assignDutyController.js:30-396 | The imperative run (pool object, pointer map, appended writes) returns exactly what `Plan` specifies: 400 for a missing field, 404 for no hostel, 500 when a pick is null, else the queued writes. |
| DutyPlanner.SeedPointers | controllers/assignDutyController.js:127-137 | The loop builds the pointer map `InitialPointers` describes. |
| DutyPlanner.StaffHostel | controllers/assignDutyController.js:277-356 | The day loop of one hostel, on the live pool, agrees with `HostelDays`: it stops when the days run out or the hostel is finished, and fails where a pick is null. |
| DutyPlanner.StaffStep | controllers/assignDutyController.js:281-346 | One pass of the day loop: the hostel is exhausted, or the day is staffed (and perhaps the hostel finished), or the run throws. |
| DutyPlanner.StaffOneDay | controllers/assignDutyController.js:300-345 | A day with a block moves the pointer to the block's end and takes a teaching, then a non-teaching supervisor. It queues one assignment and two updates, or reports failure when either pick is null. |
| DutyPlanner.SelectFacultySpec | controllers/assignDutyController.js:103-106 | A faculty member is eligible exactly when its gender matches without regard to case and its `orgUnit` is not one of the excluded schools. |
| DutyPlanner.InitialPointersKeys | controllers/assignDutyController.js:127-137 | Every ranked hostel has a pointer and nothing else does. |
| DutyPlanner.InitialPointersValues | controllers/assignDutyController.js:127-137 | A hostel's pointer is seeded from its own latest range; among hostels sharing an id, the last one wins. |
| DutyPlanner.InitialPointersNotNegative | controllers/assignDutyController.js:127-137 | No pointer starts out negative. |
| DutyPlanner.TakeKeepsWellFormed | controllers/assignDutyController.js:161-259 | A pick has the group asked for, and the pool stays well formed: schools once, every list holding only its own school's members of its group. |
| DutyPlanner.HostelDaysKeeps | controllers/assignDutyController.js:281-356 | A hostel's day loop keeps the pool well formed and the queued writes paired. |
| DutyPlanner.PlanHostelsKeeps | controllers/assignDutyController.js:269-356 | The hostel loop keeps the pool well formed and the queued writes paired. |
| DutyPlanner.PlanWritesPaired | controllers/assignDutyController.js:320-366 | A successful run queues two updates per assignment, for its teaching and then its non-teaching supervisor, both carrying the assignment's date, hostel and range; so both writes are issued or neither is. |
| DutyPlanner.StaffDayStaffed | controllers/assignDutyController.js:307-317 | With both groups present in the pool, both picks succeed and both groups stay present. |
| DutyPlanner.HostelDaysStaffed | controllers/assignDutyController.js:281-356 | With both groups present, a hostel's day loop never throws and leaves both groups present. |
| DutyPlanner.PlanHostelsStaffed | controllers/assignDutyController.js:269-356 | With both groups present, the hostel loop never throws. |
| DutyPlanner.ServerErrorOnlyWhenUnstaffed | controllers/assignDutyController.js:311-317 | The run fails with a server error only when the eligible faculty with a pool key lack a teaching or a non-teaching member. |
| DutyPlanner.UnstaffedRunFails | controllers/assignDutyController.js:281-317 | Conversely, with a day to plan and a first hostel that has rooms or an unreadable room count, a pool lacking a teaching or a non-teaching member makes the first pick null, and the run fails with a server error. |
| DutyPlanner.StaffDayAppends | controllers/assignDutyController.js:300-335 | A staffed day appends one assignment for the hostel, the day and the block's range, and moves the pointer to the block's end. |
| DutyPlanner.HostelDaysBlocks | controllers/assignDutyController.js:281-301 | A hostel's assignments are the blocks of `Schedule` from its pointer, one per day in order, each naming the hostel, the day and the block's range. |
| DutyPlanner.FreshHostelCovered | controllers/assignDutyController.js:288-301 | A hostel whose pointer starts at 0 receives the ranges "1-20", "21-40", … up to its last room, one per day, as many as the days allow. |
| SupervisorPool.SchoolKey | controllers/assignDutyController.js:143-147 | A member has a pool key exactly when its `orgUnit` is present, non-empty and not excluded; the key is the upper-cased `orgUnit`. |
| SupervisorPool.Find | controllers/assignDutyController.js:173-174 | The school's bucket, if any, is found at its first position. |
| SupervisorPool.FindUnique | controllers/assignDutyController.js:173-174 | With each school once, every bucket is found at its own position. |
| SupervisorPool.StampLeIsPreorder | controllers/assignDutyController.js:14-28 | The last-duty comparator is total and transitive. |
| SupervisorPool.BuildBuckets | controllers/assignDutyController.js:140-159 | The bucketing pass and the sorting pass build exactly `PoolOf`. |
| SupervisorPool.GroupBySchool | controllers/assignDutyController.js:140-153 | After the bucketing pass, the schools are the pool keys in order of first appearance, each list holding its members in fetched order. |
| SupervisorPool.KeysDistinct | controllers/assignDutyController.js:140-153 | Each pool key is recorded once. |
| SupervisorPool.KeysCover | controllers/assignDutyController.js:140-153 | Exactly the pool keys of the eligible faculty are recorded. |
| SupervisorPool.PoolPartitions | controllers/assignDutyController.js:140-159 | A list is a permutation of the members with its school as pool key and its group, so every such member lands in exactly one list. |
| SupervisorPool.PoolSchools | controllers/assignDutyController.js:140-153 | Each school appears once, and exactly the pool keys of the input appear. |
| SupervisorPool.PoolSorted | controllers/assignDutyController.js:155-159 | Every list is ordered by last duty, least recent first (a missing or invalid date counts as the epoch), with ties in fetched order. |
| SupervisorPool.PreferredPickSpec | controllers/assignDutyController.js:171-196 | The preferred pass considers only eligible fronts of the associated schools' lists. It picks nobody exactly when none is offered; otherwise its pick is strictly older than every earlier offer and no younger than any later one. |
| SupervisorPool.FallbackPickSpec | controllers/assignDutyController.js:216-235 | The fallback picks nobody exactly when every list of the group is empty. Otherwise its pick meets `FallbackChoice`: every later non-empty list has a dated front that is not older, and every earlier non-empty front is strictly younger unless a never-served front lies between it and the pick. So the pick is the last never-served front, unless a later front is strictly older; with all fronts dated, it is the first oldest. |
| SupervisorPool.FallbackChoiceUnique | controllers/assignDutyController.js:216-235 | At most one position meets `FallbackChoice`, so the characterisation fixes the fallback's pick. |
| SupervisorPool.Chosen | controllers/assignDutyController.js:198-235 | The chosen bucket exists and its list of the group is non-empty. |
| SupervisorPool.TakeFindsSomeone | controllers/assignDutyController.js:161-259 | The selection returns nobody exactly when every list of the group is empty. |
| SupervisorPool.TakeRotates | controllers/assignDutyController.js:205-252 | After a pick the chosen list is the old one rotated left by one, its old front carrying the new duty at the back; every other list and the school order are unchanged. |
| SupervisorPool.TakeKeepsSizes | controllers/assignDutyController.js:205-252 | Taking keeps every list's length, so a group present in the pool stays present. |
| SupervisorPool.PoolOfWellFormed | controllers/assignDutyController.js:140-159 | The built pool is well formed. |
| SupervisorPool.RotateWellFormed | controllers/assignDutyController.js:205-252 | Moving a front stamped with a duty to the back keeps the pool well formed. |
| SupervisorPool.FacultyPool.constructor | controllers/assignDutyController.js:140-159 | The new pool object holds `PoolOf` of the eligible faculty. |
| SupervisorPool.FacultyPool.Take | controllers/assignDutyController.js:161-259 | Updates the pool object in place: the pick and the new lists are those `TakeSpec` gives. |
| SupervisorPool.FacultyPool.PreferredFront | controllers/assignDutyController.js:166-196 | The loop over the associated schools yields the preferred scan's result. |
| SupervisorPool.FacultyPool.OldestFront | controllers/assignDutyController.js:216-258 | The loop over all schools picks the fallback's choice and rotates its list, or returns nobody and leaves the pool unchanged. |
| SupervisorPool.FacultyPool.MoveFrontToBack | controllers/assignDutyController.js:205-211 | The front gets the duty and moves to the back of its list. |
| Sorting.SortPermutes | controllers/assignDutyController.js:26-28 | The sort is a permutation of its input. |
| Sorting.SortSorted | controllers/assignDutyController.js:26-28 | Under a total preorder, the sort's result is ordered. |
| Sorting.SortStable | controllers/assignDutyController.js:26-28 | Elements the comparator finds equal keep their input order. |
| RoomBlocks.BlockStart | controllers/assignDutyController.js:288 | The start is NaN exactly when the pointer or the room count is NaN or the count is 0. |
| RoomBlocks.NextBlockInRange | controllers/assignDutyController.js:288-298 | From a non-negative pointer in a hostel with rooms, the block starts at pointer mod rooms + 1 (in 1..rooms) and ends at min(start + 19, rooms), so it holds 1 to 20 rooms. The hostel is finished exactly when start + 19 ≥ rooms. |
| RoomBlocks.NextBlockExhausted | controllers/assignDutyController.js:288-292 | A hostel stops without a block exactly when its room count is negative. |
| RoomBlocks.NextBlockNaN | controllers/assignDutyController.js:288-300 | A NaN pointer or a hostel with zero or no rooms gives the range "NaN-NaN", which never finishes the hostel. |
| RoomBlocks.ScheduleFrom | controllers/assignDutyController.js:281-301 | From a pointer inside the hostel, day j gets the j-th block of twenty rooms after the pointer, until the last room. |
| RoomBlocks.ScheduleOfWrappedPointer | controllers/assignDutyController.js:288 | A pointer at or past the last room, as a finished lap or a shrunk room count leaves it, gives the schedule of its remainder, so `ScheduleFrom` covers every non-negative pointer. |
| RoomBlocks.Lap | controllers/assignDutyController.js:281-301 | From pointer 0 with enough days, the blocks are contiguous and ascending from room 1; only the last one finishes the hostel, and it ends at the last room. |
| RoomBlocks.InitialPointerNotNegative | controllers/assignDutyController.js:127-136 | A seeded pointer is never negative, since pieces between '-' carry no sign. |
| RoomBlocks.InitialPointerOfRange | controllers/assignDutyController.js:127-136 | A range written for a block, read back on the next run, seeds the pointer at the block's end. |
| RoomBlocks.InitialPointerOfNaNRange | controllers/assignDutyController.js:127-136 | A "NaN-NaN" range read back seeds a NaN pointer, so the hostel never recovers. |
| RoomBlocks.RoomCountOfRange | controllers/assignDutyController.js:531-535 | The count of a written range "s-e" is e - s + 1, the room count the scheduler stores for that block. |
| RoomBlocks.RoomCountWithoutDash | controllers/assignDutyController.js:531-535 | Text without a '-' counts as 0 rooms. |
| HostelOrder.RankLeIsPreorder | controllers/assignDutyController.js:88-95 | The four-key hostel order is total and transitive. |
| HostelOrder.SelectSpec | controllers/assignDutyController.js:53-58 | The selected hostels are exactly the stored ones of the requested gender's type whose name is not excluded, each as often as it is stored. |
| HostelOrder.RankedSpec | controllers/assignDutyController.js:50-96 | The run covers each matching hostel as often as it is stored and no other. The order is "ALL ENGINEERING SCHOOL" last, then hostels sharing an excluded school last, then all-"SCHOOL OF" lists first, then fewer schools first. |
| ManualAssignment.AfterManual | controllers/assignDutyController.js:472-510 | The stored `lastDuty` is either kept or replaced by the manual duty. It changes only when it has no date or an older one, and then it takes the duty's date; a dated `lastDuty` never moves to an older date. |
| ManualAssignment.AfterManualIdempotent | controllers/assignDutyController.js:472-510 | Entering the same duty twice leaves what entering it once leaves. |
| ManualAssignment.AfterManualSupersedes | controllers/assignDutyController.js:472-510 | Entering a duty and then a later one, in separate requests, leaves what entering the later one alone leaves, so across requests the stored date never moves back. Within one request each entry is compared with the value read before the write. |
| ManualAssignment.ManualDutyRooms | controllers/assignDutyController.js:482-487 | A manual duty with range "s-e" records e - s + 1 rooms, as a generated block of that range does. |
| HostelNames.RomanValue | controllers/hostelController.js:74-85 | NaN exactly when some character is not I, V, X or L; 0 for the empty string. |
| HostelNames.RomanToInt | controllers/hostelController.js:74-85 | The right-to-left loop computes the positional value `RomanValue` describes. |
| HostelNames.RomanAtLeastFirst | controllers/hostelController.js:74-85 | A non-empty numeral is worth at least its first symbol, so at least 1. |
| HostelNames.RomanAdditive | controllers/hostelController.js:74-85 | Symbols written largest first are simply added up. |
| HostelNames.RetryWithSuffix | controllers/hostelController.js:18-27 | The retry loop (one, then two, trailing characters as the suffix) yields `KPRetry`'s result. |
| HostelNames.NormalizeKPHostelName | controllers/hostelController.js:3-28 | The KP normaliser computes `NormalizeKP`. |
| HostelNames.NormalizeKPFormat | controllers/hostelController.js:4-5 | The format error is raised exactly when the trimmed name has no '-'. |
| HostelNames.KPRetryFails | controllers/hostelController.js:18-27 | The retries fail only with the normalisation error. On success the name is the prefix, '-', a non-negative decimal number, then the last one or two characters of the block. |
| HostelNames.NormalizeKPShape | controllers/hostelController.js:7-23 | An accepted KP name is the upper-cased text before the first '-', a '-', a non-negative decimal number, then a suffix. |
| HostelNames.NormalizeKPOfRoman | controllers/hostelController.js:8-16 | A KP name whose block is a Roman numeral in either case gets that numeral in decimal: " kp-iv " becomes "KP-4". |
| HostelNames.NormalizeKPOfDigit | controllers/hostelController.js:18-24 | A one-digit block is retried as suffix with the empty numeral 0, so "KP-4" becomes "KP-04". |
| HostelNames.NormalizeQCShape | controllers/hostelController.js:46-57 | An accepted QC name is a trimmed upper-case prefix without '-', a '-', and an upper-case block without white space, '-' or ','. |
| HostelNames.NormalizeQCOfNormal | controllers/hostelController.js:46-57 | A name already in that form is its own normal form. |
| HostelNames.NormalizeQCIdempotent | controllers/hostelController.js:46-57 | Normalising a QC name twice gives what normalising it once gives, unless its block came out empty. |
| HostelNames.KPNameIsRewritten | controllers/hostelController.js:59-64 | A trimmed name starting "KP-" in either case goes to the KP normaliser. |
| HostelNames.KeptNameIsTrimmed | controllers/hostelController.js:59-68 | A name starting "QC" or "HOUSE" in either case is returned trimmed and otherwise unchanged. |
| HostelNames.PaddedNameDropped | controllers/hostelController.js:158-164 | A row whose name starts with white space is dropped by the filter, which tests the name untrimmed. |
| HostelNames.UploadedKPIsBoys | controllers/hostelController.js:158-170 | An upper-case "KP" row that normalises passes the filter and is stored typed BOYS, under a name that is itself typed BOYS. |
| HostelNames.LowerCaseKPHasNoType | controllers/hostelController.js:158-170 | A lower-case "kp-" row passes the filter and goes to the KP normaliser, whose result is an upper-case "KP" name. The row is stored with no type, since the type is read from the name as given. |
| HostelNames.FilteredRowRefused | controllers/hostelController.js:158-170 | The row "KP 4" passes the filter, but normalising it throws the unsupported-format error. |
| HostelNames.UpperCaseQCIsGirls | controllers/hostelController.js:158-170 | An upper-case "QC" row passes the filter and is stored under its trimmed name, typed GIRLS. |
| HostelNames.LowerCaseQCHasNoType | controllers/hostelController.js:158-170 | A lower-case "qc" row passes the filter and is stored under its trimmed name, case unchanged, with no type. |
| Lists.DedupSpec | controllers/addOrUpdateHostelController.js:49-51 | `Array.from(new Set(xs))` holds each element of `xs` once and nothing else. |
| Lists.DedupPrefix | controllers/addOrUpdateHostelController.js:49-51 | De-duplicating a concatenation keeps the de-duplicated first part as its prefix. |
| Lists.WithoutSpec | controllers/addOrUpdateHostelController.js:52 | Filtered removal keeps exactly the elements not on the removal list, and introduces no duplicates. |
| Lists.MergeSpec | controllers/addOrUpdateHostelController.js:48-57 | A merged list holds each element once: exactly the stored and requested elements not removed, with the stored ones that stay first and in order. |
| HostelUpsert.AddOrUpdateHostels | controllers/addOrUpdateHostelController.js:7-94 | The loop fails with a 500, writing nothing, exactly when `Outcome` does. Otherwise it answers with `Outcome`'s operations and replies (a non-array body is a batch of one), and issues the bulk write exactly when an operation was queued. |
| HostelUpsert.DecideKind | controllers/addOrUpdateHostelController.js:31-78 | A request deletes exactly when it has the delete flag and names a stored hostel, and throws exactly when it names a stored hostel without the flag. Otherwise it upserts a new hostel with the request's fields and lists as given, ignoring the removal lists. |
| HostelUpsert.OutcomeSpec | controllers/addOrUpdateHostelController.js:18-94 | A batch fails exactly when one of its requests throws. Otherwise it holds one operation and one reply per request, each what that request decides on its own against the pre-fetched map. |
| HostelUpsert.BatchFailsOnStoredUpsert | controllers/addOrUpdateHostelController.js:31-57 | A batch fails exactly when some request names a stored hostel without the delete flag. |
| HostelUpsert.BatchIsPerRequest | controllers/addOrUpdateHostelController.js:11-31 | A batch fails when either part would. Otherwise it queues what its parts would queue on their own, so earlier requests never affect later ones. |
| HostelUpsert.DeleteThenUpsertFails | controllers/addOrUpdateHostelController.js:31-57 | A request to delete a stored hostel queues its deletion, but a later request for the same hostel in that batch still sees it stored and throws, so not even the deletion is written. |
| HostelUpsert.StoredUpsertFailsBatch | controllers/addOrUpdateHostelController.js:48-57 | A one-request batch updating the stored hostel "QC-A" fails with a 500. |
| HostelUpsert.IntendedDecide | controllers/addOrUpdateHostelController.js:31-78 | The decision as intended, over records carrying both lists, never throws. |
| HostelUpsert.DecideIsIntendedUnlessThrown | controllers/addOrUpdateHostelController.js:31-78 | The decision as written throws exactly for a stored hostel without the delete flag, and otherwise equals the intended decision. |
| HostelUpsert.UpsertOfStoredMerges | controllers/addOrUpdateHostelController.js:48-57 | As intended, each final list of a stored hostel holds each school once: exactly the stored and requested schools not on its removal list, stored ones first. |
| GroupUpsert.AddOrUpdateGroups | controllers/addOrUpdateGroupController.js:8-94 | One reply per request (a non-array body is a batch of one); the operations and replies are those of the decisions against the hostels fetched once; the bulk write is issued exactly when an operation was queued. |
| GroupUpsert.DecideAll | controllers/addOrUpdateGroupController.js:19-91 | The request loop with its early `continue`s queues the decisions' operations and replies in order. |
| GroupUpsert.FetchedAgrees | controllers/addOrUpdateGroupController.js:9-14 | For every hostel a request names, the fetched set agrees with the stored hostels. |
| GroupUpsert.Refusals | controllers/addOrUpdateGroupController.js:28-40 | A request without a name, or naming a hostel the fetched set lacks, queues nothing; the error lists exactly the unknown hostels. Every other request queues one operation. |
| GroupUpsert.DeleteShrinks | controllers/addOrUpdateGroupController.js:44-64 | The delete flag on a stored group removes the named hostels, keeping the others in order. The group is deleted exactly when none is left, otherwise its list is set to the rest. |
| GroupUpsert.UpsertMerges | controllers/addOrUpdateGroupController.js:69-89 | Otherwise the group is upserted: a stored group gets its hostels and the requested ones, each once, stored first; a new group gets the requested list as given. |
| GroupUpsert.OneOperationPerAccepted | controllers/addOrUpdateGroupController.js:19-90 | Exactly one operation per request that is not refused, so at most one per request. |
| DutyReport.GenerateReport | controllers/dutyReport.js:7-48 | Refuses a request without a year; otherwise returns the header and the rows of `Report`. |
| DutyReport.FacultyRows | controllers/dutyReport.js:27-48 | One row per faculty member, in fetched order. |
| DutyReport.FacultyRow | controllers/dutyReport.js:29-45 | The counting loop over the twelve-slot buffer yields the member's month counts. |
| DutyReport.Rows | controllers/dutyReport.js:27-48 | Row i is the row of faculty member i. |
| DutyReport.RowSumIsYearCount | controllers/dutyReport.js:32-37 | A row's counts add up to the member's duties in the year. |
| DutyReport.NoListNoCounts | controllers/dutyReport.js:31 | A member whose `lastDuty` is absent, a single object or an empty list gets twelve zeros. |
| DutyReport.UnparsableYearCountsNothing | controllers/dutyReport.js:34 | A year that does not parse matches no date, so every count is zero. |
| DutyReport.ReportShape | controllers/dutyReport.js:9-48 | Refused exactly when the year is missing; otherwise the header, then one row per member in order, named and identified as the member, with twelve counts. |

## Left out

- Spreadsheet building, file download and temporary files. They are library calls and formatting only.
- Database access (`aggregate`, `find`, `bulkWrite`, `insertMany`, the unique index). Fetched records are inputs and the queued operations outputs. The `$match` and `$sort` stages are predicates and a comparator on given records.
- `HostelOrder.RankedSpec`: among hostels whose four keys tie, the model keeps the stored order; the database does not promise any order for such ties.
- Date parsing, local-time months, `setDate` and `toISOString`. Dates are abstract (a time value with a year and a month), and the list of days of a run is an input. A `null` date, which JavaScript reads as the epoch, is not distinguished from a missing one.
- `lastDuty` read as a date: only the date field of a duty is compared, and time zones are not modelled.
- `SupervisorPool.SortByLastDuty`: the in-place `Array.prototype.sort` is modelled on values, as a stable sort of the list; the array update itself is not captured.
- `DutyPlanner.StaffDay` and the lemmas about a run are stated for any chooser. They meet the real selection through `TakeSpec`, which is the only chooser a run uses.
- Case handling covers ASCII letters only; upper-casing beyond ASCII and Unicode white space beyond the usual JavaScript set are not modelled.
- JavaScript numbers are integers or NaN; fractions, infinities and the full `Number`/`parseInt` grammar (hex, exponents) are not modelled.
- The gender regular expression: the gender is compared to the faculty's gender without regard to case. Regular-expression metacharacters in the request are not modelled.
- `parseAssociatedSchools`, because its meaning rests on JavaScript regular-expression matching.
- The rest of the spreadsheet upload `updateHostel`: reading the sheet, the capacity, room and school columns, the 400 for an empty result and the bulk write. Only its row filter and each row's stored name and type are modelled.
- The rest of `assignDutiesManually`: request validation, faculty lookups and the inserted assignment documents. Only its `lastDuty` rule and its room count are modelled.
- The faculty and upload controllers, the settings endpoints, the routes and `generateFacultyDutyReport`: import glue and plumbing without scheduling logic.
- The hostel schema declares `associatedSchools` as `{year, school}` objects, while the scheduler reads names; the model uses school-name strings throughout.
- Error-message text and response status codes beyond the error kinds they stand for.
- `DutyReport`: a numeric year 0, which is falsy in JavaScript, is not distinguished from other years; the year is text and only an empty one is refused.
- `GroupUpsert`: a `hostelName` that is not an array is not modelled; it is always a list.
- Console logging.
- `DutyPlanner.PlanWritesPaired`: the two writes of lines 361-366 (`insertMany`, then `bulkWrite`) are not atomic, and the model promises only that both are issued or neither is. If `insertMany` is rejected (for instance by the unique index on the assignments), no update is written and some assignments may already be stored. If `bulkWrite` fails, the stored assignments stay without their updates. Database failures are not modelled.

## Findings

`HostelUpsert.AddOrUpdateHostels` follows the code as written, so a batch that updates a stored hostel fails. The corrected decision is `HostelUpsert.IntendedDecide`, and `HostelUpsert.UpsertOfStoredMerges` proves the intended merge of it. `HostelUpsert.DecideIsIntendedUnlessThrown` shows the two agree on every request that does not throw.

| source | as written | input that shows it | evidently intended | confidence | as-written member | corrected member |
|---|---|---|---|---|---|---|
| controllers/addOrUpdateHostelController.js:54-57 | Spreads `existingHostel.nonAssociatedSchools`, a path the hostel schema (models/hostel.js:3-29) does not declare, so the value is `undefined` and the spread throws. The catch answers 500 before the bulk write. | One request `{name: "QC-A", associatedSchools: ["SCHOOL OF LAW"]}` while "QC-A" is stored. | Merge the stored and requested lists and upsert, as lines 48-57 compute. | medium; not executed, and it rests on the schema as shown | HostelUpsert.StoredUpsertFailsBatch | HostelUpsert.IntendedDecide |

