# Salon shift engine — a Dafny model

This project models the automatic shift-generation engine of a hair-salon
management application (`lib/data.ts`). For a month, the engine:

- reads the month's active shift conditions, the active staff, the approved
  shift requests (days off and paid leave) and the active shift templates;
- walks the month's dates, skipping regular weekly holidays and special
  closing days;
- each day, filters the members who may work (no requested day off, no fixed
  day off, under the consecutive-day limit, under the monthly cap), ranks them
  by an additive priority and takes the required number;
- creates an approved shift for each chosen member from their preferred or a
  default template;
- checks the result against labor standards and scores it.

An administrator can then approve a generated schedule. Approval replaces the
month's live shifts. The model also covers the store operations that feed the
engine: upserting a shift request and installing new conditions for a month.
It also covers the reservation check that reads the approved shifts.

Dates are day ordinals counted from 1970-01-01. Times of day are minutes
since midnight. Storage is a `SalonStore` object whose fields are the stored
lists. Generated ids and timestamps are parameters.

Modules, in dependency order:

- `Calendar`: weekday and month of a day.
- `Seqs`: JavaScript array idioms such as `find`, `findIndex`, `filter`, a
  stable sort and `slice`.
- `Domain`: the records.
- `Labor`: labor-standards check.
- `Availability`, `Selection` and `Instantiation`: the per-day steps.
- `Scoring`.
- `Generator`: the date loop and the whole run.
- `Guarantees`: theorems about generated schedules.
- `Store`: the stored lists and their operations.
- `Reservations`.

## Model

| member | source | states |
|---|---|---|
| Calendar.Weekday | lib/data.ts:1473 | `getDay()` of a date is a weekday number in 0..6 (0 = Sunday) |
| Labor.CheckLaborViolations | lib/data.ts:1319-1403 | the loop over the roster returns exactly the report `LaborViolations` defines: member by member, each member's approved shifts sorted by date and walked in order, then the monthly total |
| Labor.CheckStaffMember | lib/data.ts:1324-1400 | one member's findings: the walk over their date-sorted approved shifts, followed by the monthly-hours finding |
| Labor.CheckStaffShifts | lib/data.ts:1333-1386 | the walk keeps the consecutive-day counter and emits, per shift, the consecutive-days, daily-hours and night-work findings in that order |
| Labor.StaffShifts | lib/data.ts:1325-1327 | the filtered list holds exactly the member's approved shifts, each occurrence counted |
| Labor.RunLength | lib/data.ts:1330-1343 | the consecutive-day counter at a shift is at least 1 and at most its position + 1 |
| Labor.RunLengthSpansDays | lib/data.ts:1333-1343 | a run of length k ending at a shift covers the k calendar days ending on that shift's date |
| Labor.NightWorkAlways | lib/data.ts:1418-1427 | the night-work test as written holds for every same-day shift, so every approved shift draws a night-work warning |
| Labor.ShiftViolationCounts | lib/data.ts:1345-1383 | per shift: one consecutive-days finding iff the run exceeds the limit, one daily-hours finding iff the work time exceeds the daily limit, and always one night-work finding |
| Labor.WalkCounts | lib/data.ts:1333-1386 | over a walk: night-work findings = number of shifts; daily-hours findings = shifts over the daily limit; consecutive-days findings = positions whose run exceeds the limit; no monthly finding |
| Labor.NoOtherKinds | lib/data.ts:1319-1403 | the check never reports weekly-hours or insufficient-rest findings |
| Labor.TotalWorkMinutesSortBy | lib/data.ts:1389 | the monthly total does not depend on the sort: sorting by date keeps the summed work time |
| Labor.TotalWorkMinutesInsert | lib/data.ts:1389 | inserting a shift into the sorted list adds exactly its work time to the total |
| Labor.StaffViolationCounts | lib/data.ts:1324-1400 | for each kind of finding, how many one member gets, in terms of their approved shifts; weekly and rest findings are 0 |
| Labor.SplitStaffCount | lib/data.ts:1388-1399 | a member's findings of a kind are the walk's plus one monthly-hours finding iff the monthly total exceeds the limit |
| Labor.WalkAttributed | lib/data.ts:1333-1386 | every walk finding names the member, a date on which they hold an approved shift, and the cause: over-long run, over-long day with Critical iff over limit + 2 h, or night work |
| Labor.LaborViolationsAttributed | lib/data.ts:1319-1403 | every reported finding belongs to a roster member and is justified by that member's approved shifts (the month total for monthly-hours findings) |
| Labor.SingleShiftReport | lib/data.ts:1319-1403 | a one-shift roster gets the walk's findings for a run of 1 plus the monthly check |
| Labor.EightHourShiftExample | lib/data.ts:1285-1296 | with the default standards, a 09:00–18:00 shift with a one-hour break is 8 h of work and reports only the night-work warning |
| Labor.NineHourShiftExample | lib/data.ts:1406-1415 | a 09:00–19:00 shift with a one-hour break is 9 h of work and reports a daily-hours Warning and the night-work warning |
| Availability.IsExceedingConsecutiveWorkDays | lib/data.ts:1679-1704 | the backward walk answers true iff each of the `max` days before the date carries one of the member's shifts (or the limit is at most 0) |
| Availability.AvailableStaff | lib/data.ts:1551-1583 | a member is kept iff none of the four checks excludes them: requested day off or paid leave (first request found), fixed day off, the consecutive limit, the monthly cap; never longer than the roster |
| Availability.AvailableStaffAppend | lib/data.ts:1551-1583 | the filter keeps roster order: it distributes over concatenation |
| Availability.AvailableStaffIdCount | lib/data.ts:1551-1583 | the filter never adds copies of an id |
| Domain.OrDefault | lib/data.ts:1588 | `x \|\| d` on an optional number: d exactly when x is unset or 0 |
| Selection.RequiredStaff | lib/data.ts:1586-1594 | minimum-required mode asks for the smaller of the minimum count (2 when unset) and the available count; maximum-absent mode asks for the larger of 1 and the active total minus the allowed absences (1 when unset) |
| Selection.Scored | lib/data.ts:1605-1633 | each available member paired with their priority, in roster order |
| Selection.RankedIsDescendingPermutation | lib/data.ts:1636 | the ranking is a permutation of the scored members, in non-increasing priority, each carrying its own priority |
| Selection.RankingIsStable | lib/data.ts:1636 | members of equal priority keep their roster order |
| Selection.CandidateOrderIsStable | lib/data.ts:1636 | the descending sort is stable for any candidate list |
| Selection.StaffOf | lib/data.ts:1637 | unwrapping the candidates keeps order and length |
| Selection.SelectOptimalStaff | lib/data.ts:1597-1638 | `slice(0, n)` of the ranking: exactly min(n, available) members, all available, in rank order |
| Selection.SelectionIsTopN | lib/data.ts:1597-1638 | no member left out has a higher priority than any member chosen |
| Selection.SelectionIdCount | lib/data.ts:1597-1638 | selection picks an id no more often than it is available |
| Selection.StaffOfIdCount | lib/data.ts:1637 | unwrapping candidates keeps the count of each id |
| Selection.ScoredIdCount | lib/data.ts:1605-1633 | scoring keeps the count of each id |
| Instantiation.DefaultTemplate | lib/data.ts:1738-1752 | on weekends the first full-day (フルタイム) template; on weekdays, for a stylist or manager, the first early (早番) or full-day template; else, or when none matches, the first template; none iff there are no templates |
| Instantiation.PreferredTemplate | lib/data.ts:1648-1655 | present iff the member's special condition has a non-empty preference list naming some template; then it is the first registered template the list names |
| Instantiation.CreateShiftForStaff | lib/data.ts:1641-1676 | null iff there are no templates; otherwise an approved shift for the member and date, timed by the preferred template if any, else the default one |
| Instantiation.CreatedShiftIsApproved | lib/data.ts:1658-1675 | with templates present, the created shift belongs to the member and date and is approved |
| Instantiation.RegistryOrderWins | lib/data.ts:1651-1654 | the registry order, not the preference list's, decides among preferred templates |
| Instantiation.WeekendPrefersFullTime | lib/data.ts:1742-1744 | on a weekend a full-day template is chosen over an earlier registered one |
| Scoring.Penalty | lib/data.ts:1763-1768 | every finding costs a positive number of points (Critical 20, Error 10, Warning 5) |
| Scoring.TotalPenaltyBySeverity | lib/data.ts:1760-1769 | the deduction is 20·critical + 10·error + 5·warning findings |
| Scoring.TotalPenaltyAppend | lib/data.ts:1760-1769 | the deduction is additive over concatenated reports |
| Scoring.TotalPenaltyAtLeast | lib/data.ts:1763-1768 | each finding costs at least 5 points |
| Scoring.HonouredDatesBounds | lib/data.ts:1783-1793 | a request's honoured dates are at most its requested dates, with equality iff the member has no shift on any of them |
| Scoring.FulfilledBounds | lib/data.ts:1778-1797 | fulfilled dates ≤ requested dates, with equality iff every request is fully honoured |
| Scoring.RateBounds | lib/data.ts:1778-1797 | the fulfilment rate is in [0, 1], and is 1 iff every requested date is free of shifts |
| Scoring.NoDatesAllHonoured | lib/data.ts:1796 | with no requested dates, every request counts as honoured (rate 1) |
| Scoring.Clamp | lib/data.ts:1775 | the score is clamped into [0, 100]: 0 below the range, 100 above it, unchanged inside |
| Scoring.ScoreMonotone | lib/data.ts:1754-1776 | the final score lies in [0, 100], and more findings never raise it |
| Scoring.PerfectSchedule | lib/data.ts:1754-1776 | no findings, every request honoured and a base of at least 80 give exactly 100 |
| Scoring.CalculateRequestFulfillmentRate | lib/data.ts:1778-1797 | the nested loops compute `FulfillmentRate` |
| Scoring.CountHonoured | lib/data.ts:1786-1793 | the inner loop counts the requested dates left free of the member's shifts |
| Scoring.CalculateFinalScore | lib/data.ts:1754-1776 | the loop over findings and the bonus compute `FinalScore` |
| Generator.DayShifts | lib/data.ts:1496-1501 | no shifts without templates, else as many shifts as selected members, all dated that day, approved, each for a selected member |
| Generator.DayShiftsPerMember | lib/data.ts:1496-1501 | with templates registered, the day's i-th shift is the shift created for the i-th selected member |
| Generator.PushShifts | lib/data.ts:1496-1501 | the inner loop appends exactly `DayShifts` to the generated shifts |
| Generator.AssignDay | lib/data.ts:1473-1501 | one date: holidays change nothing; otherwise a shortfall costs 10 points and the selected members' shifts are appended |
| Generator.DraftSchedule | lib/data.ts:1469-1502 | the date loop computes `Run`, date by date |
| Generator.ActiveConditions | lib/data.ts:1279-1282 | null iff no record for the month is active; otherwise an active record for that month |
| Generator.EngineInputs | lib/data.ts:1461-1463 | the run reads exactly the active staff, the month's approved requests and the active templates |
| Generator.Generate | lib/data.ts:1450-1534 | null iff the month has no active conditions; otherwise the new id, month, time and conditions id, not approved; the stored shifts are the date loop's, the stored warnings are the labor report over the whole roster for those shifts, and the stored score is the final score of the loop's score, those warnings and the month's approved requests, in [0, 100] |
| Generator.GenerateAutoShift | lib/data.ts:1450-1534 | the steps after reading storage compute `Generate` |
| Guarantees.RunPlaced | lib/data.ts:1469-1502 | every generated shift is approved, falls on a listed date that is not a holiday, belongs to a roster member, and avoids that member's requested and fixed days off |
| Guarantees.RunKeepsConsecutiveLimit | lib/data.ts:1679-1704 | over increasing dates, no member is scheduled on more than the maximum number of consecutive days |
| Guarantees.RunNoDoubleBooking | lib/data.ts:1469-1502 | over increasing dates and unique staff ids, no member gets two shifts on one day |
| Guarantees.RunMonthlyCap | lib/data.ts:1707-1724 | with unique ids, a member's shifts in a month never exceed their set monthly cap |
| Guarantees.RunHonoursRequests | lib/data.ts:1560-1563 | with one request per member, no shift falls on a requested day off or paid-leave day |
| Guarantees.FullFulfillment | lib/data.ts:1778-1797 | hence the fulfilment rate of a generated schedule is 1 |
| Guarantees.RunScore | lib/data.ts:1470-1490 | the running score is between 100 − 10·(number of dates) and 100, and stays 100 in minimum-required mode |
| Guarantees.DayHeadcount | lib/data.ts:1482-1501 | an open day with templates gets min(required, available) shifts: in minimum-required mode min(minimum count or 2, available), in maximum-absent mode at least one whenever anybody is available |
| Guarantees.StepCountOn | lib/data.ts:1472-1501 | one iteration of the date loop adds shifts on its own date only |
| Guarantees.RunDayHeadcount | lib/data.ts:1469-1502 | over increasing dates, a whole run has on each open date exactly the shifts that date's step added: min(required, available) given the earlier dates' shifts |
| Guarantees.NoConsecutiveViolations | lib/data.ts:1339-1356 | a schedule that keeps the consecutive limit draws no consecutive-days finding |
| Guarantees.GeneratedScheduleGuarantees | lib/data.ts:1450-1534 | a stored result (increasing dates, unique ids, one request per member and month) has shifts that are approved, on open listed dates, for active members, never double-booked, within monthly caps, clear of approved requests, and no consecutive-days finding |
| Store.UpsertRequestStores | lib/data.ts:1196-1218 | after the upsert the new request is the one found for its member and month; the list grows by at most one; requests for other keys are kept |
| Store.UpsertRequestKeepsOnePerKey | lib/data.ts:1205-1214 | the upsert keeps at most one request per member and month |
| Store.InstallConditionsActivates | lib/data.ts:1258-1282 | with at most one active record per month, installing keeps that invariant and the new record becomes the month's active one (none if it is inactive) |
| Store.InstallConditionsOtherMonths | lib/data.ts:1258-1282 | installing conditions for one month leaves every other month's active record unchanged |
| Store.ReplaceMonthSplits | lib/data.ts:1806-1812 | after approval the live shifts are the old shifts of other months followed by the generated ones |
| Store.ReplaceMonthIdempotent | lib/data.ts:1806-1812 | when the generated shifts all lie in the month, approving twice leaves the same live shifts |
| Store.ReplaceMonthTwiceDuplicates | lib/data.ts:1806-1812 | a generated shift outside its month survives the clearing and is duplicated by a second approval |
| Store.ApprovalKeepsLookup | lib/data.ts:1800-1822 | marking a result approved keeps it the one found by its id, with the same month and shifts |
| Store.SalonStore.CreateShiftRequest | lib/data.ts:1196-1218 | the stored requests become the upsert of the new request; nothing else changes |
| Store.SalonStore.CreateShiftConditions | lib/data.ts:1258-1277 | the stored conditions become the old ones with the month's first active record deactivated and the new one appended |
| Store.SalonStore.GenerateAutoShift | lib/data.ts:1450-1534 | the result is `Generate` over the stored lists and is appended to the stored results when present |
| Store.SalonStore.ApproveGeneratedShift | lib/data.ts:1800-1822 | true iff a stored result has the id; then the month's live shifts are replaced by its shifts and it is marked approved by the admin; otherwise nothing changes |
| Reservations.IsReservationAvailable | lib/data.ts:994-1046 | true iff the first approved shift of the member on the date exists and contains the slot, and no non-cancelled reservation of theirs that day conflicts |
| Reservations.ConflictIsOverlap | lib/data.ts:1026-1038 | for slots of positive length the three-clause conflict test is interval overlap |
| Reservations.EmptySlotConflicts | lib/data.ts:1031-1032 | a zero-length slot at a reservation's start counts as a conflict |
| Reservations.AvailabilityByOverlap | lib/data.ts:994-1046 | for a positive-length slot, and assuming every stored reservation starts before it ends: available iff inside the shift and disjoint from every live reservation of the member that day |

## Left out

- Storage (localStorage reads and writes), `generateId` and the ISO timestamps are not modelled. The stored lists are the fields of `SalonStore`, and ids and times are parameters.
- `generateMonthDates` is not modelled: the month's dates are an input. It builds local-midnight dates and prints them with `toISOString`, so in a time zone east of UTC every date comes out one day early. The theorems assume the dates strictly increase.
- `new Date(date).getDay()` is read as the weekday of the day ordinal, without time-zone effects.
- `isExceedingConsecutiveWorkDays` and `hasWorkedYesterday` step back a day with local-time `setDate(getDate() - 1)` and read the result with `toISOString`. The model always takes the previous day as d − 1. Around a daylight-saving change in some time zones, the source can read a different day.
- Reservations.AvailabilityByOverlap: assumes every stored reservation starts before it ends. A reservation that wraps past midnight or lasts no time is not covered by that lemma, though `Reservations.IsReservationAvailable` models it.
- `regularHolidays` holds weekday numbers as strings in the source and integers here.
- The details and suggestion texts of a labor finding are not modelled. Neither are the shift id, createdAt, position and notes fields, or the request's staffName, notes and updatedAt fields.
- The special condition's `maxConsecutiveWorkDays` and `minWorkDaysPerMonth`, and the labor standards' weekly-hours, rest-days and overtime fields, are carried but never read by the engine. No weekly-hours or insufficient-rest finding is ever produced.
- Hours limits are whole numbers of hours; fractional limits are not modelled.
- `approveGeneratedShift` does not refuse a result that is already approved. The model follows that, and `Store.ReplaceMonthTwiceDuplicates` shows what a second approval can do.
- `calculateDeadlineDate`, `isAfterDeadline` and the debug logging are not part of this model.
- Guarantees.RunNoDoubleBooking, Guarantees.RunMonthlyCap, Guarantees.RunHonoursRequests, Guarantees.GeneratedScheduleGuarantees: proved only under unique staff ids and at most one approved request per member and month. With duplicates, `find` reads only the first record.
- Guarantees.RunKeepsConsecutiveLimit: proved only for strictly increasing dates, the order the month's dates come in.
- Store.SalonStore.CreateShiftRequest, Store.SalonStore.CreateShiftConditions: require the store invariant `Valid()`: at most one request per member and month, and at most one active conditions record per month. The constructor establishes it and both methods keep it. A store loaded with duplicate records is not modelled.
