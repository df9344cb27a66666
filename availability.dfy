/** Who may work on a date: `getAvailableStaff` with
    `isExceedingConsecutiveWorkDays`, `isExceedingMonthlyWorkDays` and
    `getMonthlyWorkDays` (lib/data.ts). */
module Availability {
  import opened Calendar
  import opened Seqs
  import opened Domain

  predicate RequestOf(r: ShiftRequest, id: StaffId) { r.staffId == id }

  predicate ConditionOf(c: StaffSpecialCondition, id: StaffId) { c.staffId == id }

  predicate HasId(m: Staff, id: StaffId) { m.id == id }

  /** `shiftRequests.find(r => r.staffId === id)`: the first request only. */
  function FindRequest(requests: seq<ShiftRequest>, id: StaffId): Option<ShiftRequest> {
    FindWhere(requests, RequestOf, id)
  }

  /** `conditions.staffSpecialConditions.find(c => c.staffId === id)` */
  function FindSpecialCondition(cond: ShiftConditions, id: StaffId): Option<StaffSpecialCondition> {
    FindWhere(cond.staffSpecialConditions, ConditionOf, id)
  }

  /** Check 1: the first request found lists d as a day off or paid leave. */
  predicate RequestedOff(requests: seq<ShiftRequest>, id: StaffId, d: Day) {
    var r := FindRequest(requests, id);
    r.Some? && (d in r.value.dayOffRequests || d in r.value.paidLeaveRequests)
  }

  /** Check 2: the member's special condition lists d in `fixedOffDays`. */
  predicate FixedOff(cond: ShiftConditions, id: StaffId, d: Day) {
    var c := FindSpecialCondition(cond, id);
    c.Some? && d in c.value.fixedOffDays
  }

  /** Check 3: each of the `max` days just before d carries one of the
      member's shifts (any status). A limit of zero or less excludes everyone,
      since the counter (0) already reaches it. */
  predicate ExceedsConsecutive(shifts: seq<Shift>, id: StaffId, d: Day, max: int) {
    max <= 0 || forall e :: d - max <= e < d ==> HasShiftOn(shifts, id, e)
  }

  /** `isExceedingConsecutiveWorkDays`: walks back from the day before d
      while the member has a shift, stopping once the limit is reached. */
  method IsExceedingConsecutiveWorkDays(id: StaffId, d: Day, existingShifts: seq<Shift>, std: LaborStandards)
    returns (exceeding: bool)
    ensures exceeding == ExceedsConsecutive(existingShifts, id, d, std.maxConsecutiveWorkDays)
  {
    var max := std.maxConsecutiveWorkDays;
    var consecutiveDays := 0;
    var checkDate := d - 1;
    while consecutiveDays < max
      invariant 0 <= consecutiveDays
      invariant max > 0 ==> consecutiveDays <= max
      invariant checkDate == d - 1 - consecutiveDays
      invariant forall e :: d - consecutiveDays <= e < d ==> HasShiftOn(existingShifts, id, e)
      decreases max - consecutiveDays
    {
      var hasShift := HasShiftOn(existingShifts, id, checkDate);
      if !hasShift {
        break;
      }
      consecutiveDays := consecutiveDays + 1;
      checkDate := checkDate - 1;
    }
    exceeding := consecutiveDays >= max;
  }

  /** `getMonthlyWorkDays`: the member's shifts dated in d's month (shifts,
      not distinct days). */
  function MonthlyWorkDays(shifts: seq<Shift>, id: StaffId, d: Day): nat {
    CountWhere(shifts, InMonthOf, (id, MonthOf(d)))
  }

  /** Check 4, `isExceedingMonthlyWorkDays`: a set (non-zero)
      `maxWorkDaysPerMonth` is already reached. */
  predicate ExceedsMonthly(shifts: seq<Shift>, id: StaffId, d: Day, special: Option<StaffSpecialCondition>) {
    special.Some? && special.value.maxWorkDaysPerMonth != 0
    && MonthlyWorkDays(shifts, id, d) >= special.value.maxWorkDaysPerMonth
  }

  /** The `staff.filter` callback of `getAvailableStaff`. */
  predicate IsAvailable(m: Staff, d: Day, requests: seq<ShiftRequest>, cond: ShiftConditions, shifts: seq<Shift>) {
    && !RequestedOff(requests, m.id, d)
    && !FixedOff(cond, m.id, d)
    && !ExceedsConsecutive(shifts, m.id, d, cond.laborStandards.maxConsecutiveWorkDays)
    && !ExceedsMonthly(shifts, m.id, d, FindSpecialCondition(cond, m.id))
  }

  /** `getAvailableStaff`: the roster members passing all four checks. */
  function AvailableStaff(staff: seq<Staff>, d: Day, requests: seq<ShiftRequest>, cond: ShiftConditions,
                          shifts: seq<Shift>): (r: seq<Staff>)
    ensures forall m :: m in r <==> m in staff && IsAvailable(m, d, requests, cond, shifts)
    ensures |r| <= |staff|
  {
    if staff == [] then []
    else
      var last := staff[|staff| - 1];
      AvailableStaff(staff[..|staff| - 1], d, requests, cond, shifts)
      + (if IsAvailable(last, d, requests, cond, shifts) then [last] else [])
  }

  /** The filter keeps roster order: filtering a concatenation is
      concatenating the filtered parts. */
  lemma {:induction false} AvailableStaffAppend(a: seq<Staff>, b: seq<Staff>, d: Day, requests: seq<ShiftRequest>,
                                                cond: ShiftConditions, shifts: seq<Shift>)
    ensures AvailableStaff(a + b, d, requests, cond, shifts)
         == AvailableStaff(a, d, requests, cond, shifts) + AvailableStaff(b, d, requests, cond, shifts)
  {
    if b != [] {
      assert (a + b)[..|a + b| - 1] == a + b[..|b| - 1];
      AvailableStaffAppend(a, b[..|b| - 1], d, requests, cond, shifts);
    } else {
      assert a + b == a;
    }
  }

  /** Filtering never adds a second roster entry with the same id. */
  lemma {:induction false} AvailableStaffIdCount(staff: seq<Staff>, d: Day, requests: seq<ShiftRequest>,
                                                 cond: ShiftConditions, shifts: seq<Shift>, id: StaffId)
    ensures CountWhere(AvailableStaff(staff, d, requests, cond, shifts), HasId, id) <= CountWhere(staff, HasId, id)
  {
    if staff != [] {
      var init := staff[..|staff| - 1];
      var last := staff[|staff| - 1];
      AvailableStaffIdCount(init, d, requests, cond, shifts, id);
      CountWhereAppend(AvailableStaff(init, d, requests, cond, shifts),
                       if IsAvailable(last, d, requests, cond, shifts) then [last] else [], HasId, id);
      if IsAvailable(last, d, requests, cond, shifts) {
        assert [last][..0] == [];
      }
    }
  }
}
