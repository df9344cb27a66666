/** The labor-standards checker: `checkLaborViolations` with
    `calculateDailyWorkHours` and `isNightWork` (lib/data.ts). Work time is
    kept in whole minutes and every hour limit is compared as limit * 60
    minutes, which is exact for the whole-hour limits the engine is given. */
module Labor {
  import opened Calendar
  import opened Seqs
  import opened Domain

  const DefaultBreakMinutes := 60

  /** `getDefaultLaborStandards()` */
  function DefaultLaborStandards(): LaborStandards {
    LaborStandards(6, 8, 40, 160, 1, 22 * 60, 5 * 60, 8)
  }

  /** `shift.breakDuration || 60`: a missing or zero break counts as an hour. */
  function EffectiveBreak(b: int): int {
    if b == 0 then DefaultBreakMinutes else b
  }

  /** `calculateDailyWorkHours`, in minutes. */
  function WorkMinutes(s: Shift): int {
    s.endTime - s.startTime - EffectiveBreak(s.breakDuration)
  }

  /** `isNightWork` as written: the night window runs from the start time on
      day 1 to the end time on day 2, while both shift times are read on
      day 1. */
  predicate IsNightWork(s: Shift, std: LaborStandards) {
    var nightStart := std.nightWorkStartTime;
    var nightEnd := MinutesPerDay + std.nightWorkEndTime;
    (s.startTime <= nightEnd && s.endTime >= nightStart) ||
    (s.startTime >= nightStart || s.endTime <= nightEnd)
  }

  /** The sort key of `(a, b) => new Date(a.date) - new Date(b.date)`. */
  function ShiftDate(s: Shift): int { s.date }

  /** An approved (承認済み) shift of staff member `id`. */
  predicate IsApprovedOf(s: Shift, id: StaffId) {
    s.staffId == id && s.status == Approved
  }

  /** `shifts.filter(s => s.staffId === id && s.status === '承認済み')` */
  function StaffShifts(shifts: seq<Shift>, id: StaffId): (r: seq<Shift>)
    ensures forall s :: s in r <==> s in shifts && IsApprovedOf(s, id)
    ensures |r| == CountWhere(shifts, IsApprovedOf, id)
  {
    if shifts == [] then []
    else StaffShifts(shifts[..|shifts| - 1], id)
         + (if IsApprovedOf(shifts[|shifts| - 1], id) then [shifts[|shifts| - 1]] else [])
  }

  /** The member's approved shifts in date order (stable). */
  function SortedStaffShifts(shifts: seq<Shift>, id: StaffId): seq<Shift> {
    SortBy(StaffShifts(shifts, id), ShiftDate)
  }

  /** `lastDateTime && currentDateTime - lastDateTime === 24h`: the previous
      shift is exactly one day earlier. A previous date of 1970-01-01 has
      time 0, which is falsy, so it never continues a run. */
  predicate FollowsDirectly(prev: Shift, cur: Shift) {
    prev.date != 0 && cur.date - prev.date == 1
  }

  /** The value of `consecutiveDays` when the walk reaches ss[i]. */
  function RunLength(ss: seq<Shift>, i: nat): (r: nat)
    requires i < |ss|
    ensures 1 <= r <= i + 1
  {
    if i > 0 && FollowsDirectly(ss[i - 1], ss[i]) then RunLength(ss, i - 1) + 1 else 1
  }

  function DailySeverity(minutes: int, std: LaborStandards): Severity {
    if minutes > (std.maxWorkHoursPerDay + 2) * 60 then Critical else Warning
  }

  /** What the walk emits for one shift, in the source's order. */
  function ShiftViolations(m: Staff, s: Shift, run: int, std: LaborStandards): seq<LaborViolation> {
    (if run > std.maxConsecutiveWorkDays
     then [LaborViolation(ConsecutiveWorkDays, Error, m.id, m.name, Some(s.date))] else [])
    + (if WorkMinutes(s) > std.maxWorkHoursPerDay * 60
       then [LaborViolation(DailyHours, DailySeverity(WorkMinutes(s), std), m.id, m.name, Some(s.date))] else [])
    + (if IsNightWork(s, std)
       then [LaborViolation(NightWork, Warning, m.id, m.name, Some(s.date))] else [])
  }

  /** What the walk has emitted after the first n shifts. */
  function WalkViolations(m: Staff, ss: seq<Shift>, std: LaborStandards, n: nat): seq<LaborViolation>
    requires n <= |ss|
  {
    if n == 0 then []
    else WalkViolations(m, ss, std, n - 1) + ShiftViolations(m, ss[n - 1], RunLength(ss, n - 1), std)
  }

  /** `staffShifts.reduce((t, s) => t + calculateDailyWorkHours(s), 0)`, in minutes. */
  function TotalWorkMinutes(ss: seq<Shift>): int {
    if ss == [] then 0 else WorkMinutes(ss[0]) + TotalWorkMinutes(ss[1..])
  }

  function MonthlyViolations(m: Staff, ss: seq<Shift>, std: LaborStandards): seq<LaborViolation> {
    if TotalWorkMinutes(ss) > std.maxWorkHoursPerMonth * 60
    then [LaborViolation(MonthlyHours, Error, m.id, m.name, None)] else []
  }

  /** Everything reported for one roster member. */
  function StaffViolations(m: Staff, shifts: seq<Shift>, std: LaborStandards): seq<LaborViolation> {
    var ss := SortedStaffShifts(shifts, m.id);
    WalkViolations(m, ss, std, |ss|) + MonthlyViolations(m, ss, std)
  }

  /** The report for a roster, member by member in roster order. */
  function LaborViolations(roster: seq<Staff>, shifts: seq<Shift>, std: LaborStandards): seq<LaborViolation> {
    if roster == [] then []
    else LaborViolations(roster[..|roster| - 1], shifts, std) + StaffViolations(roster[|roster| - 1], shifts, std)
  }

  /** `checkLaborViolations(shifts, laborStandards)`, with the roster that
      the source reads from storage (`getStaff()`, inactive members
      included) passed in. */
  method CheckLaborViolations(roster: seq<Staff>, shifts: seq<Shift>, std: LaborStandards)
    returns (violations: seq<LaborViolation>)
    ensures violations == LaborViolations(roster, shifts, std)
  {
    violations := [];
    var k := 0;
    while k < |roster|
      invariant 0 <= k <= |roster|
      invariant violations == LaborViolations(roster[..k], shifts, std)
    {
      var memberViolations := CheckStaffMember(roster[k], shifts, std);
      violations := violations + memberViolations;
      assert roster[..k + 1][..k] == roster[..k];
      k := k + 1;
    }
    assert roster[..|roster|] == roster;
  }

  /** One iteration of `staff.forEach`: filter and sort the member's approved
      shifts, walk them, then check the monthly total. */
  method CheckStaffMember(member: Staff, shifts: seq<Shift>, std: LaborStandards)
    returns (violations: seq<LaborViolation>)
    ensures violations == StaffViolations(member, shifts, std)
  {
    var staffShifts := SortedStaffShifts(shifts, member.id);
    violations := CheckStaffShifts(member, staffShifts, std);
    var monthlyMinutes := TotalWorkMinutes(staffShifts);
    if monthlyMinutes > std.maxWorkHoursPerMonth * 60 {
      violations := violations + [LaborViolation(MonthlyHours, Error, member.id, member.name, None)];
    }
  }

  /** The body of the per-member `staffShifts.forEach`: the run counter and
      the three per-shift checks. */
  method CheckStaffShifts(member: Staff, staffShifts: seq<Shift>, std: LaborStandards)
    returns (violations: seq<LaborViolation>)
    ensures violations == WalkViolations(member, staffShifts, std, |staffShifts|)
  {
    violations := [];
    var consecutiveDays := 0;
    var lastDate: Option<Day> := None;
    var i := 0;
    while i < |staffShifts|
      invariant 0 <= i <= |staffShifts|
      invariant violations == WalkViolations(member, staffShifts, std, i)
      invariant i == 0 ==> lastDate == None
      invariant i > 0 ==> lastDate == Some(staffShifts[i - 1].date) && consecutiveDays == RunLength(staffShifts, i - 1)
    {
      var shift := staffShifts[i];
      if lastDate.Some? && lastDate.value != 0 && shift.date - lastDate.value == 1 {
        consecutiveDays := consecutiveDays + 1;
      } else {
        consecutiveDays := 1;
      }
      var emitted: seq<LaborViolation> := [];
      if consecutiveDays > std.maxConsecutiveWorkDays {
        emitted := emitted + [LaborViolation(ConsecutiveWorkDays, Error, member.id, member.name, Some(shift.date))];
      }
      var workMinutes := WorkMinutes(shift);
      if workMinutes > std.maxWorkHoursPerDay * 60 {
        var severity := if workMinutes > (std.maxWorkHoursPerDay + 2) * 60 then Critical else Warning;
        emitted := emitted + [LaborViolation(DailyHours, severity, member.id, member.name, Some(shift.date))];
      }
      if IsNightWork(shift, std) {
        emitted := emitted + [LaborViolation(NightWork, Warning, member.id, member.name, Some(shift.date))];
      }
      assert consecutiveDays == RunLength(staffShifts, i);
      violations := violations + emitted;
      lastDate := Some(shift.date);
      i := i + 1;
    }
  }

  // ---------------------------------------------------------------------
  // Properties of the report

  /** `isNightWork` holds of every shift: the end time, read on day 1, is
      always before the night window's end on day 2. */
  lemma NightWorkAlways(s: Shift, std: LaborStandards)
    ensures IsNightWork(s, std)
  {
  }

  predicate IsKind(v: LaborViolation, k: ViolationType) { v.kind == k }

  predicate OverMinutes(s: Shift, limit: int) { WorkMinutes(s) > limit }

  /** How many of the first n walk positions have a run longer than max. */
  function LongRuns(ss: seq<Shift>, n: nat, max: int): nat
    requires n <= |ss|
  {
    if n == 0 then 0 else LongRuns(ss, n - 1, max) + (if RunLength(ss, n - 1) > max then 1 else 0)
  }

  lemma {:induction false} ShiftViolationCounts(m: Staff, s: Shift, run: int, std: LaborStandards, k: ViolationType)
    ensures CountWhere(ShiftViolations(m, s, run, std), IsKind, k) ==
      (if k == ConsecutiveWorkDays && run > std.maxConsecutiveWorkDays then 1 else 0)
      + (if k == DailyHours && WorkMinutes(s) > std.maxWorkHoursPerDay * 60 then 1 else 0)
      + (if k == NightWork then 1 else 0)
  {
    NightWorkAlways(s, std);
    var a := if run > std.maxConsecutiveWorkDays
             then [LaborViolation(ConsecutiveWorkDays, Error, m.id, m.name, Some(s.date))] else [];
    var b := if WorkMinutes(s) > std.maxWorkHoursPerDay * 60
             then [LaborViolation(DailyHours, DailySeverity(WorkMinutes(s), std), m.id, m.name, Some(s.date))] else [];
    var c := [LaborViolation(NightWork, Warning, m.id, m.name, Some(s.date))];
    assert ShiftViolations(m, s, run, std) == a + b + c;
    CountWhereAppend(a + b, c, IsKind, k);
    CountWhereAppend(a, b, IsKind, k);
    assert c[..0] == [];
    if a != [] { assert a[..0] == []; }
    if b != [] { assert b[..0] == []; }
  }

  /** Per kind, what the walk over the first n shifts has emitted: one
      night-work warning per shift, one daily-hours finding per shift over
      the daily limit, one consecutive-days error per over-long run. */
  lemma {:induction false} WalkCounts(m: Staff, ss: seq<Shift>, std: LaborStandards, n: nat)
    requires n <= |ss|
    ensures CountWhere(WalkViolations(m, ss, std, n), IsKind, NightWork) == n
    ensures CountWhere(WalkViolations(m, ss, std, n), IsKind, DailyHours)
         == CountWhere(ss[..n], OverMinutes, std.maxWorkHoursPerDay * 60)
    ensures CountWhere(WalkViolations(m, ss, std, n), IsKind, ConsecutiveWorkDays)
         == LongRuns(ss, n, std.maxConsecutiveWorkDays)
    ensures CountWhere(WalkViolations(m, ss, std, n), IsKind, MonthlyHours) == 0
  {
    if n > 0 {
      WalkCounts(m, ss, std, n - 1);
      var w := WalkViolations(m, ss, std, n - 1);
      var sv := ShiftViolations(m, ss[n - 1], RunLength(ss, n - 1), std);
      CountWhereAppend(w, sv, IsKind, NightWork);
      CountWhereAppend(w, sv, IsKind, DailyHours);
      CountWhereAppend(w, sv, IsKind, ConsecutiveWorkDays);
      CountWhereAppend(w, sv, IsKind, MonthlyHours);
      ShiftViolationCounts(m, ss[n - 1], RunLength(ss, n - 1), std, NightWork);
      ShiftViolationCounts(m, ss[n - 1], RunLength(ss, n - 1), std, DailyHours);
      ShiftViolationCounts(m, ss[n - 1], RunLength(ss, n - 1), std, ConsecutiveWorkDays);
      ShiftViolationCounts(m, ss[n - 1], RunLength(ss, n - 1), std, MonthlyHours);
      assert ss[..n][..n - 1] == ss[..n - 1];
    }
  }

  lemma {:induction false} TotalWorkMinutesInsert(x: Shift, t: seq<Shift>, key: Shift -> int)
    ensures TotalWorkMinutes(Insert(x, t, key)) == WorkMinutes(x) + TotalWorkMinutes(t)
  {
    if t == [] || key(x) <= key(t[0]) {
      assert ([x] + t)[1..] == t;
    } else {
      TotalWorkMinutesInsert(x, t[1..], key);
      assert ([t[0]] + Insert(x, t[1..], key))[1..] == Insert(x, t[1..], key);
    }
  }

  /** Sorting by date does not change the summed work time. */
  lemma {:induction false} TotalWorkMinutesSortBy(ss: seq<Shift>, key: Shift -> int)
    ensures TotalWorkMinutes(SortBy(ss, key)) == TotalWorkMinutes(ss)
  {
    if ss != [] {
      TotalWorkMinutesSortBy(ss[1..], key);
      TotalWorkMinutesInsert(ss[0], SortBy(ss[1..], key), key);
    }
  }

  /** Per roster member and per kind, how many findings the checker reports:
      exactly one night-work warning per approved shift, one daily-hours
      finding per approved shift over `maxWorkHoursPerDay`, one
      consecutive-days error per over-long run position, at most one
      (undated) monthly-hours error, and never a weekly-hours or
      insufficient-rest finding. */
  lemma {:induction false} StaffViolationCounts(m: Staff, shifts: seq<Shift>, std: LaborStandards)
    ensures CountWhere(StaffViolations(m, shifts, std), IsKind, NightWork)
         == CountWhere(shifts, IsApprovedOf, m.id)
    ensures CountWhere(StaffViolations(m, shifts, std), IsKind, DailyHours)
         == CountWhere(StaffShifts(shifts, m.id), OverMinutes, std.maxWorkHoursPerDay * 60)
    ensures CountWhere(StaffViolations(m, shifts, std), IsKind, ConsecutiveWorkDays)
         == LongRuns(SortedStaffShifts(shifts, m.id), |StaffShifts(shifts, m.id)|, std.maxConsecutiveWorkDays)
    ensures CountWhere(StaffViolations(m, shifts, std), IsKind, MonthlyHours)
         == if TotalWorkMinutes(StaffShifts(shifts, m.id)) > std.maxWorkHoursPerMonth * 60 then 1 else 0
    ensures CountWhere(StaffViolations(m, shifts, std), IsKind, WeeklyHours) == 0
    ensures CountWhere(StaffViolations(m, shifts, std), IsKind, InsufficientRest) == 0
  {
    var ss := SortedStaffShifts(shifts, m.id);
    WalkCounts(m, ss, std, |ss|);
    NoOtherKinds(m, ss, std, |ss|);
    assert ss[..|ss|] == ss;
    CountWhereSortBy(StaffShifts(shifts, m.id), ShiftDate, OverMinutes, std.maxWorkHoursPerDay * 60);
    TotalWorkMinutesSortBy(StaffShifts(shifts, m.id), ShiftDate);
    SplitStaffCount(m, shifts, std, NightWork);
    SplitStaffCount(m, shifts, std, DailyHours);
    SplitStaffCount(m, shifts, std, ConsecutiveWorkDays);
    SplitStaffCount(m, shifts, std, MonthlyHours);
    SplitStaffCount(m, shifts, std, WeeklyHours);
    SplitStaffCount(m, shifts, std, InsufficientRest);
  }

  lemma {:induction false} SplitStaffCount(m: Staff, shifts: seq<Shift>, std: LaborStandards, k: ViolationType)
    ensures var ss := SortedStaffShifts(shifts, m.id);
      CountWhere(StaffViolations(m, shifts, std), IsKind, k)
      == CountWhere(WalkViolations(m, ss, std, |ss|), IsKind, k)
         + (if k == MonthlyHours && TotalWorkMinutes(ss) > std.maxWorkHoursPerMonth * 60 then 1 else 0)
  {
    var ss := SortedStaffShifts(shifts, m.id);
    var w := WalkViolations(m, ss, std, |ss|);
    var mv := MonthlyViolations(m, ss, std);
    assert StaffViolations(m, shifts, std) == w + mv;
    CountWhereAppend(w, mv, IsKind, k);
    if mv != [] { assert mv[..0] == []; }
  }

  /** The walk never emits a weekly-hours or insufficient-rest finding. */
  lemma {:induction false} NoOtherKinds(m: Staff, ss: seq<Shift>, std: LaborStandards, n: nat)
    requires n <= |ss|
    ensures CountWhere(WalkViolations(m, ss, std, n), IsKind, WeeklyHours) == 0
    ensures CountWhere(WalkViolations(m, ss, std, n), IsKind, InsufficientRest) == 0
  {
    if n > 0 {
      NoOtherKinds(m, ss, std, n - 1);
      var w := WalkViolations(m, ss, std, n - 1);
      var sv := ShiftViolations(m, ss[n - 1], RunLength(ss, n - 1), std);
      CountWhereAppend(w, sv, IsKind, WeeklyHours);
      CountWhereAppend(w, sv, IsKind, InsufficientRest);
      ShiftViolationCounts(m, ss[n - 1], RunLength(ss, n - 1), std, WeeklyHours);
      ShiftViolationCounts(m, ss[n - 1], RunLength(ss, n - 1), std, InsufficientRest);
    }
  }

  /** A run of length k ending at ss[i] covers the k dates just before and
      including ss[i]'s, each carried by one of the walked shifts. */
  lemma {:induction false} RunLengthSpansDays(ss: seq<Shift>, i: nat, j: nat)
    requires i < |ss| && j < RunLength(ss, i)
    ensures j <= i && ss[i - j].date == ss[i].date - j
  {
    if j > 0 {
      RunLengthSpansDays(ss, i - 1, j - 1);
    }
  }

  predicate HasApprovedShiftOn(shifts: seq<Shift>, id: StaffId, d: Day) {
    exists s :: s in shifts && IsApprovedOf(s, id) && s.date == d
  }

  /** What a finding reported for roster member m says about m's shifts. */
  predicate Attributed(v: LaborViolation, m: Staff, shifts: seq<Shift>, std: LaborStandards) {
    && v.staffId == m.id && v.staffName == m.name
    && v.kind != WeeklyHours && v.kind != InsufficientRest
    && (v.kind == MonthlyHours ==>
          v.severity == Error && v.date.None?
          && TotalWorkMinutes(StaffShifts(shifts, m.id)) > std.maxWorkHoursPerMonth * 60)
    && (v.kind != MonthlyHours ==> v.date.Some? && HasApprovedShiftOn(shifts, m.id, v.date.value))
    && (v.kind == NightWork ==> v.severity == Warning)
    && (v.kind == ConsecutiveWorkDays ==>
          v.severity == Error && v.date.Some?
          && forall e :: v.date.value - std.maxConsecutiveWorkDays <= e <= v.date.value ==>
               HasApprovedShiftOn(shifts, m.id, e))
    && (v.kind == DailyHours ==>
          v.date.Some? && v.severity != Error
          && exists s :: s in shifts && IsApprovedOf(s, m.id) && s.date == v.date.value
               && WorkMinutes(s) > std.maxWorkHoursPerDay * 60
               && (v.severity == Critical <==> WorkMinutes(s) > (std.maxWorkHoursPerDay + 2) * 60))
  }

  lemma {:induction false} WalkAttributed(m: Staff, ss: seq<Shift>, shifts: seq<Shift>, std: LaborStandards, n: nat)
    requires n <= |ss|
    requires forall s :: s in ss ==> s in shifts && IsApprovedOf(s, m.id)
    ensures forall v :: v in WalkViolations(m, ss, std, n) ==> Attributed(v, m, shifts, std)
  {
    if n > 0 {
      WalkAttributed(m, ss, shifts, std, n - 1);
      var s := ss[n - 1];
      var run := RunLength(ss, n - 1);
      assert s in ss;
      forall v | v in ShiftViolations(m, s, run, std)
        ensures Attributed(v, m, shifts, std)
      {
        if v.kind == ConsecutiveWorkDays {
          forall e | v.date.value - std.maxConsecutiveWorkDays <= e <= v.date.value
            ensures HasApprovedShiftOn(shifts, m.id, e)
          {
            RunLengthSpansDays(ss, n - 1, s.date - e);
            assert ss[n - 1 - (s.date - e)] in ss;
          }
        }
      }
    }
  }

  /** Soundness of the report: every finding names a roster member and is
      backed by that member's approved shifts. A dated finding falls on one
      of them; a consecutive-days error on date d means approved shifts on
      every one of the `maxConsecutiveWorkDays` + 1 days ending at d; a
      daily-hours finding is critical exactly when its shift exceeds the
      limit by more than two hours; a monthly-hours error is undated and
      backed by the summed work time. */
  lemma {:induction false} LaborViolationsAttributed(roster: seq<Staff>, shifts: seq<Shift>, std: LaborStandards)
    ensures forall v :: v in LaborViolations(roster, shifts, std) ==>
              exists m :: m in roster && Attributed(v, m, shifts, std)
  {
    if roster != [] {
      var init := roster[..|roster| - 1];
      var m := roster[|roster| - 1];
      LaborViolationsAttributed(init, shifts, std);
      var ss := SortedStaffShifts(shifts, m.id);
      forall s | s in ss ensures s in shifts && IsApprovedOf(s, m.id) {
        assert s in multiset(ss);
        assert s in multiset(StaffShifts(shifts, m.id));
      }
      WalkAttributed(m, ss, shifts, std, |ss|);
      TotalWorkMinutesSortBy(StaffShifts(shifts, m.id), ShiftDate);
      assert StaffViolations(m, shifts, std) == WalkViolations(m, ss, std, |ss|) + MonthlyViolations(m, ss, std);
      forall v | v in LaborViolations(roster, shifts, std)
        ensures exists m' :: m' in roster && Attributed(v, m', shifts, std)
      {
        if v in LaborViolations(init, shifts, std) {
          var m' :| m' in init && Attributed(v, m', shifts, std);
          assert m' in roster;
        } else {
          assert v in StaffViolations(m, shifts, std);
          assert Attributed(v, m, shifts, std);
        }
      }
    }
  }

  /** The report for a one-member roster with one approved shift. */
  lemma SingleShiftReport(m: Staff, s: Shift, std: LaborStandards)
    requires IsApprovedOf(s, m.id)
    ensures LaborViolations([m], [s], std) == ShiftViolations(m, s, 1, std) + MonthlyViolations(m, [s], std)
  {
    assert [m][..0] == [];
    assert LaborViolations([m], [s], std) == StaffViolations(m, [s], std);
    assert [s][..0] == [];
    assert StaffShifts([s], m.id) == [s];
    assert [s][1..] == [];
    assert SortBy([s], ShiftDate) == Insert(s, [], ShiftDate) == [s];
    assert SortedStaffShifts([s], m.id) == [s];
    assert RunLength([s], 0) == 1;
    assert WalkViolations(m, [s], std, 1) == ShiftViolations(m, s, 1, std);
  }

  /** A 09:00-18:00 shift with a 60-minute break is 8 hours of work and is
      within the default 8-hour limit: only the night-work warning that
      `isNightWork` gives every shift is reported. */
  lemma EightHourShiftExample(m: Staff, d: Day)
    ensures var s := Shift(m.id, m.name, d, 9 * 60, 18 * 60, 60, "", "", Approved);
      && WorkMinutes(s) == 8 * 60
      && LaborViolations([m], [s], DefaultLaborStandards())
         == [LaborViolation(NightWork, Warning, m.id, m.name, Some(d))]
  {
    var s := Shift(m.id, m.name, d, 9 * 60, 18 * 60, 60, "", "", Approved);
    SingleShiftReport(m, s, DefaultLaborStandards());
    assert TotalWorkMinutes([s]) == 8 * 60;
  }

  /** 09:00-19:00 with a 60-minute break is 9 hours: one hour over the
      default limit, so a daily-hours warning (critical only beyond two
      hours over). */
  lemma NineHourShiftExample(m: Staff, d: Day)
    ensures var s := Shift(m.id, m.name, d, 9 * 60, 19 * 60, 60, "", "", Approved);
      && WorkMinutes(s) == 9 * 60
      && LaborViolations([m], [s], DefaultLaborStandards())
         == [LaborViolation(DailyHours, Warning, m.id, m.name, Some(d)),
             LaborViolation(NightWork, Warning, m.id, m.name, Some(d))]
  {
    var s := Shift(m.id, m.name, d, 9 * 60, 19 * 60, 60, "", "", Approved);
    SingleShiftReport(m, s, DefaultLaborStandards());
    assert TotalWorkMinutes([s]) == 9 * 60;
  }
}
