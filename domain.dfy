/** The records the shift engine reads and produces (the interfaces of
    lib/data.ts), with the Japanese status labels turned into enumerations.
    Optional numeric fields read through `x || default` are plain integers
    here, 0 standing for "not set": JavaScript's `||` treats 0 and undefined
    alike, so the engine cannot tell them apart either. */
module Domain {
  import opened Calendar
  import opened Seqs

  type StaffId = string

  /** スタイリスト, アシスタント, 受付, マネージャー */
  datatype Position = Stylist | Assistant | Receptionist | Manager

  /** 申請中, 承認済み, 却下 */
  datatype Status = Pending | Approved | Rejected

  datatype Staff = Staff(
    id: StaffId,
    name: string,
    position: Position,
    skillLevel: int,          // 1..5, 0 when unset
    isActive: bool)

  datatype ShiftTemplate = ShiftTemplate(
    id: string,
    name: string,
    startTime: TimeOfDay,
    endTime: TimeOfDay,
    breakDuration: int,       // minutes
    isActive: bool)

  datatype Shift = Shift(
    staffId: StaffId,
    staffName: string,
    date: Day,
    startTime: TimeOfDay,
    endTime: TimeOfDay,
    breakDuration: int,       // minutes, 0 when unset
    templateId: string,
    templateName: string,
    status: Status)

  datatype ShiftRequest = ShiftRequest(
    id: string,
    staffId: StaffId,
    month: Month,
    dayOffRequests: seq<Day>,
    paidLeaveRequests: seq<Day>,
    status: Status,
    submittedAt: string)

  datatype StaffSpecialCondition = StaffSpecialCondition(
    staffId: StaffId,
    maxWorkDaysPerMonth: int,     // 0 when unset
    minWorkDaysPerMonth: int,     // 0 when unset
    fixedWorkDays: seq<Day>,
    fixedOffDays: seq<Day>,
    preferredShiftTemplateIds: seq<string>,
    maxConsecutiveWorkDays: int)  // 0 when unset; the engine never reads it

  datatype LaborStandards = LaborStandards(
    maxConsecutiveWorkDays: int,
    maxWorkHoursPerDay: int,
    maxWorkHoursPerWeek: int,
    maxWorkHoursPerMonth: int,
    minimumRestDaysPerWeek: int,
    nightWorkStartTime: TimeOfDay,
    nightWorkEndTime: TimeOfDay,
    overtimeThresholdHours: int)

  /** minimum_required / maximum_absent */
  datatype StaffingMode = MinimumRequired | MaximumAbsent

  datatype ShiftConditions = ShiftConditions(
    id: string,
    month: Month,
    regularHolidays: seq<int>,    // weekday numbers, 0 = Sunday
    specialHolidays: seq<Day>,
    minimumStaffMode: StaffingMode,
    minimumStaffCount: int,       // 0 when unset
    maximumAbsentCount: int,      // 0 when unset
    staffSpecialConditions: seq<StaffSpecialCondition>,
    deadlineDaysBefore: int,
    laborStandards: LaborStandards,
    isActive: bool,
    createdAt: string)

  datatype ViolationType =
    ConsecutiveWorkDays | DailyHours | WeeklyHours | MonthlyHours | InsufficientRest | NightWork

  datatype Severity = Warning | Error | Critical

  /** A labor-standards finding; the human-readable details and suggestion
      texts are not modelled. */
  datatype LaborViolation = LaborViolation(
    kind: ViolationType,
    severity: Severity,
    staffId: StaffId,
    staffName: string,
    date: Option<Day>)

  datatype GeneratedShift = GeneratedShift(
    id: string,
    month: Month,
    shifts: seq<Shift>,
    conditionsId: string,
    generatedAt: string,
    isApproved: bool,
    approvedAt: Option<string>,
    approvedBy: Option<string>,
    violationWarnings: seq<LaborViolation>,
    score: real)

  /** 確認済み, 未確認, キャンセル, 完了 */
  datatype ReservationStatus = Confirmed | Unconfirmed | Cancelled | Completed

  datatype Reservation = Reservation(
    id: string,
    staffId: StaffId,
    date: Day,
    startTime: TimeOfDay,
    endTime: TimeOfDay,
    status: ReservationStatus)

  /** `x || d` on an optional number. */
  function OrDefault(x: int, d: int): (r: int)
    ensures x != 0 ==> r == x
    ensures x == 0 ==> r == d
  {
    if x == 0 then d else x
  }

  /** `shifts.some(s => s.staffId === id && s.date === d)` */
  predicate HasShiftOn(shifts: seq<Shift>, id: StaffId, d: Day) {
    exists s :: s in shifts && s.staffId == id && s.date == d
  }

  /** A request for the given (member, month) pair. */
  predicate RequestFor(r: ShiftRequest, key: (StaffId, Month)) {
    r.staffId == key.0 && r.month == key.1
  }

  /** Whether a shift is `id`'s and falls in month `m` (`date.startsWith(m)`). */
  predicate InMonthOf(s: Shift, key: (StaffId, Month)) {
    s.staffId == key.0 && MonthOf(s.date) == key.1
  }
}
