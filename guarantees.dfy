/** What the assignment loop of `generateAutoShift` (lib/data.ts)
    guarantees about the schedule it builds, given dates in increasing
    order, a roster without repeated ids and at most one request per
    member. */
module Guarantees {
  import opened Calendar
  import opened Seqs
  import opened Domain
  import opened Labor
  import opened Availability
  import opened Selection
  import opened Instantiation
  import opened Scoring
  import opened Generator

  predicate Increasing(dates: seq<Day>) {
    forall i, j :: 0 <= i < j < |dates| ==> dates[i] < dates[j]
  }

  /** No two roster entries share an id. */
  ghost predicate UniqueIds(staff: seq<Staff>) {
    forall id :: CountWhere(staff, HasId, id) <= 1
  }

  /** No member has two requests. */
  ghost predicate UniqueRequesters(requests: seq<ShiftRequest>) {
    forall id :: CountWhere(requests, RequestOf, id) <= 1
  }

  predicate OwnedBy(s: Shift, id: StaffId) { s.staffId == id }

  predicate OnDay(s: Shift, key: (StaffId, Day)) { s.staffId == key.0 && s.date == key.1 }

  /** What holds of each shift at the moment it is placed. */
  predicate Placed(inp: Inputs, s: Shift, dates: seq<Day>) {
    && s.date in dates && !IsClosed(inp.cond, s.date)
    && s.status == Approved
    && (exists m :: m in inp.staff && m.id == s.staffId)
    && !RequestedOff(inp.requests, s.staffId, s.date)
    && !FixedOff(inp.cond, s.staffId, s.date)
  }

  /** Every shift is preceded, within `max` days, by a day without one. */
  predicate ConsecutiveLimitKept(shifts: seq<Shift>, max: int) {
    forall s :: s in shifts ==> !ExceedsConsecutive(shifts, s.staffId, s.date, max)
  }

  /** A member with a set monthly maximum has at most that many shifts in any month. */
  predicate MonthlyCapKept(shifts: seq<Shift>, cond: ShiftConditions, id: StaffId, mo: Month) {
    var c := FindSpecialCondition(cond, id);
    c.Some? && c.value.maxWorkDaysPerMonth > 0 ==> CountWhere(shifts, InMonthOf, (id, mo)) <= c.value.maxWorkDaysPerMonth
  }

  // ---- facts about one day's shifts ----

  /** A day's shifts contain at most one per selected entry with that id. */
  lemma {:induction false} DayShiftsOwners(sel: seq<Staff>, d: Day, cond: ShiftConditions, templates: seq<ShiftTemplate>, id: StaffId)
    ensures CountWhere(DayShifts(sel, d, cond, templates), OwnedBy, id) <= CountWhere(sel, HasId, id)
  {
    if sel != [] {
      var init := sel[..|sel| - 1];
      var m := sel[|sel| - 1];
      var made := CreateShiftForStaff(m, d, cond, templates);
      DayShiftsOwners(init, d, cond, templates, id);
      CountWhereAppend(DayShifts(init, d, cond, templates), if made.Some? then [made.value] else [], OwnedBy, id);
      if made.Some? {
        CreatedShiftIsApproved(m, d, cond, templates);
        assert [made.value][..0] == [];
      }
    }
  }

  /** For shifts that all fall on day d, the per-day and per-month counts
      are the per-member count on d and its month, and zero elsewhere. */
  lemma {:induction false} SameDayCounts(ds: seq<Shift>, d: Day, id: StaffId, e: Day, mo: Month)
    requires forall s :: s in ds ==> s.date == d
    ensures CountWhere(ds, OnDay, (id, e)) == if e == d then CountWhere(ds, OwnedBy, id) else 0
    ensures CountWhere(ds, InMonthOf, (id, mo)) == if MonthOf(d) == mo then CountWhere(ds, OwnedBy, id) else 0
  {
    if ds != [] {
      var init := ds[..|ds| - 1];
      assert forall s :: s in init ==> s in ds;
      assert ds[|ds| - 1] in ds;
      SameDayCounts(init, d, id, e, mo);
    }
  }

  /** Shifts dated away from e do not change whether a member works on e. */
  lemma HasShiftOnAppend(g: seq<Shift>, ds: seq<Shift>, id: StaffId, e: Day)
    requires forall s :: s in ds ==> s.date != e
    ensures HasShiftOn(g + ds, id, e) == HasShiftOn(g, id, e)
  {
    if HasShiftOn(g + ds, id, e) {
      var s :| s in g + ds && s.staffId == id && s.date == e;
      assert s in g;
    }
  }

  /** Shifts dated on or after `day` do not change the look-back from `day`. */
  lemma ExceedsConsecutiveAppend(g: seq<Shift>, ds: seq<Shift>, id: StaffId, day: Day, max: int)
    requires forall s :: s in ds ==> s.date >= day
    ensures ExceedsConsecutive(g + ds, id, day, max) == ExceedsConsecutive(g, id, day, max)
  {
    forall e | day - max <= e < day ensures HasShiftOn(g + ds, id, e) == HasShiftOn(g, id, e) {
      HasShiftOnAppend(g, ds, id, e);
    }
  }

  /** The entry behind a shift of an open day is an available roster entry. */
  lemma {:induction false} StepShiftSource(inp: Inputs, st: Draft, d: Day, s: Shift)
    requires !IsClosed(inp.cond, d)
    requires s in Step(inp, st, d).shifts && s !in st.shifts
    ensures s.date == d && s.status == Approved
    ensures exists m :: m in inp.staff && m.id == s.staffId && IsAvailable(m, d, inp.requests, inp.cond, st.shifts)
  {
    var avail := AvailableStaff(inp.staff, d, inp.requests, inp.cond, st.shifts);
    var req := RequiredStaff(inp.cond, |avail|, |inp.staff|);
    var sel := SelectOptimalStaff(avail, req, d, st.shifts, inp.cond);
    assert s in DayShifts(sel, d, inp.cond, inp.templates);
    var m :| m in sel && s.staffId == m.id;
    assert m in avail;
  }

  // ---- the guarantees ----

  /** Every generated shift is approved, falls on a listed date that is not
      a holiday, belongs to a roster member, and avoids that member's
      requested days off and fixed days off. */
  lemma {:induction false} RunPlaced(inp: Inputs, dates: seq<Day>)
    ensures forall s :: s in Run(inp, dates).shifts ==> Placed(inp, s, dates)
  {
    if dates != [] {
      var init := dates[..|dates| - 1];
      var d := dates[|dates| - 1];
      var st := Run(inp, init);
      RunPlaced(inp, init);
      forall s | s in Run(inp, dates).shifts ensures Placed(inp, s, dates) {
        if s in st.shifts {
          assert Placed(inp, s, init);
          assert s.date in dates;
        } else {
          StepShiftSource(inp, st, d, s);
        }
      }
    }
  }

  /** The dates of generated shifts come from the listed dates. */
  lemma RunDatesBefore(inp: Inputs, dates: seq<Day>, d: Day)
    requires forall e :: e in dates ==> e < d
    ensures forall s :: s in Run(inp, dates).shifts ==> s.date < d
  {
    RunPlaced(inp, dates);
  }

  /** Nobody is scheduled past the consecutive-days limit: before each of a
      member's shifts, one of the `maxConsecutiveWorkDays` days is free. */
  lemma {:induction false} RunKeepsConsecutiveLimit(inp: Inputs, dates: seq<Day>)
    requires Increasing(dates)
    ensures ConsecutiveLimitKept(Run(inp, dates).shifts, inp.cond.laborStandards.maxConsecutiveWorkDays)
  {
    if dates != [] {
      var init := dates[..|dates| - 1];
      var d := dates[|dates| - 1];
      var st := Run(inp, init);
      var max := inp.cond.laborStandards.maxConsecutiveWorkDays;
      RunKeepsConsecutiveLimit(inp, init);
      if !IsClosed(inp.cond, d) {
        var g := Run(inp, dates).shifts;
        var ds := g[|st.shifts|..];
        assert g == st.shifts + ds;
        assert forall e :: e in init ==> e < d by {
          forall e | e in init ensures e < d {
            var k :| 0 <= k < |init| && init[k] == e;
          }
        }
        RunDatesBefore(inp, init, d);
        forall s | s in ds ensures s.date == d && s !in st.shifts {
          StepShiftSource(inp, st, d, s);
        }
        forall s | s in g ensures !ExceedsConsecutive(g, s.staffId, s.date, max) {
          if s in st.shifts {
            ExceedsConsecutiveAppend(st.shifts, ds, s.staffId, s.date, max);
          } else {
            StepShiftSource(inp, st, d, s);
            ExceedsConsecutiveAppend(st.shifts, ds, s.staffId, d, max);
          }
        }
      }
    }
  }

  /** No member is booked twice on one day. */
  lemma {:induction false} RunNoDoubleBooking(inp: Inputs, dates: seq<Day>)
    requires Increasing(dates) && UniqueIds(inp.staff)
    ensures forall id, e :: CountWhere(Run(inp, dates).shifts, OnDay, (id, e)) <= 1
  {
    if dates != [] {
      var init := dates[..|dates| - 1];
      var d := dates[|dates| - 1];
      var st := Run(inp, init);
      RunNoDoubleBooking(inp, init);
      if !IsClosed(inp.cond, d) {
        var avail := AvailableStaff(inp.staff, d, inp.requests, inp.cond, st.shifts);
        var req := RequiredStaff(inp.cond, |avail|, |inp.staff|);
        var sel := SelectOptimalStaff(avail, req, d, st.shifts, inp.cond);
        var ds := DayShifts(sel, d, inp.cond, inp.templates);
        assert forall e :: e in init ==> e < d by {
          forall e | e in init ensures e < d {
            var k :| 0 <= k < |init| && init[k] == e;
          }
        }
        RunDatesBefore(inp, init, d);
        forall id, e ensures CountWhere(Run(inp, dates).shifts, OnDay, (id, e)) <= 1 {
          CountWhereAppend(st.shifts, ds, OnDay, (id, e));
          SameDayCounts(ds, d, id, e, MonthOf(d));
          if e == d {
            CountWhereZero(st.shifts, OnDay, (id, e));
            DayShiftsOwners(sel, d, inp.cond, inp.templates, id);
            SelectionIdCount(avail, req, d, st.shifts, inp.cond, id);
            AvailableStaffIdCount(inp.staff, d, inp.requests, inp.cond, st.shifts, id);
          }
        }
      }
    }
  }

  /** A member with a set `maxWorkDaysPerMonth` never gets more shifts in a
      month than that maximum. */
  lemma {:induction false} RunMonthlyCap(inp: Inputs, dates: seq<Day>)
    requires UniqueIds(inp.staff)
    ensures forall id, mo :: MonthlyCapKept(Run(inp, dates).shifts, inp.cond, id, mo)
  {
    if dates != [] {
      var init := dates[..|dates| - 1];
      var d := dates[|dates| - 1];
      var st := Run(inp, init);
      RunMonthlyCap(inp, init);
      if !IsClosed(inp.cond, d) {
        var avail := AvailableStaff(inp.staff, d, inp.requests, inp.cond, st.shifts);
        var req := RequiredStaff(inp.cond, |avail|, |inp.staff|);
        var sel := SelectOptimalStaff(avail, req, d, st.shifts, inp.cond);
        var ds := DayShifts(sel, d, inp.cond, inp.templates);
        forall id, mo ensures MonthlyCapKept(Run(inp, dates).shifts, inp.cond, id, mo) {
          assert MonthlyCapKept(st.shifts, inp.cond, id, mo);
          CountWhereAppend(st.shifts, ds, InMonthOf, (id, mo));
          SameDayCounts(ds, d, id, d, mo);
          DayShiftsOwners(sel, d, inp.cond, inp.templates, id);
          SelectionIdCount(avail, req, d, st.shifts, inp.cond, id);
          AvailableStaffIdCount(inp.staff, d, inp.requests, inp.cond, st.shifts, id);
          if MonthOf(d) == mo && CountWhere(ds, OwnedBy, id) > 0 {
            CountWhereZero(ds, OwnedBy, id);
            var s :| s in ds && OwnedBy(s, id);
            var m :| m in sel && s.staffId == m.id;
            assert m in avail;
          }
        }
      }
    }
  }

  /** With at most one request per member, no requested day off or paid
      leave day carries a shift for the requester. */
  lemma RunHonoursRequests(inp: Inputs, dates: seq<Day>)
    requires UniqueRequesters(inp.requests)
    ensures AllHonoured(inp.requests, Run(inp, dates).shifts)
  {
    var g := Run(inp, dates).shifts;
    RunPlaced(inp, dates);
    forall i, d | 0 <= i < |inp.requests| && d in RequestDates(inp.requests[i])
      ensures !HasShiftOn(g, inp.requests[i].staffId, d)
    {
      var r := inp.requests[i];
      if HasShiftOn(g, r.staffId, d) {
        var s :| s in g && s.staffId == r.staffId && s.date == d;
        assert Placed(inp, s, dates);
        UniqueMatchIsFound(inp.requests, RequestOf, r.staffId, r);
        assert false;
      }
    }
  }

  /** Hence the fulfillment rate the score uses is one. */
  lemma FullFulfillment(inp: Inputs, dates: seq<Day>)
    requires UniqueRequesters(inp.requests)
    ensures FulfillmentRate(inp.requests, Run(inp, dates).shifts) == 1.0
  {
    RunHonoursRequests(inp, dates);
    RateBounds(inp.requests, Run(inp, dates).shifts);
  }

  /** The running score starts at 100 and loses ten per short-staffed day;
      in minimum_required mode no day is short-staffed. */
  lemma {:induction false} RunScore(inp: Inputs, dates: seq<Day>)
    ensures BaseScore - ShortfallPenalty * |dates| <= Run(inp, dates).score <= BaseScore
    ensures inp.cond.minimumStaffMode == MinimumRequired ==> Run(inp, dates).score == BaseScore
  {
    if dates != [] {
      RunScore(inp, dates[..|dates| - 1]);
    }
  }

  predicate DatedOn(s: Shift, d: Day) { s.date == d }

  /** How many shifts an open day adds: the required headcount, capped by
      the number of available members. In minimum_required mode that is
      min(minimumStaffCount || 2, available), so with the count unset every
      open day gets two shifts unless fewer than two members are available;
      in maximum_absent mode at least one whenever anybody is available. */
  lemma DayHeadcount(inp: Inputs, st: Draft, d: Day)
    requires !IsClosed(inp.cond, d) && inp.templates != []
    ensures var avail := AvailableStaff(inp.staff, d, inp.requests, inp.cond, st.shifts);
      var req := RequiredStaff(inp.cond, |avail|, |inp.staff|);
      var added := |Step(inp, st, d).shifts| - |st.shifts|;
      && (req >= 0 ==> added == Min(req, |avail|))
      && (inp.cond.minimumStaffMode == MinimumRequired
            && OrDefault(inp.cond.minimumStaffCount, DefaultMinimumStaff) >= 0
          ==> added == Min(OrDefault(inp.cond.minimumStaffCount, DefaultMinimumStaff), |avail|))
      && (inp.cond.minimumStaffMode == MaximumAbsent ==> added == Min(req, |avail|) && added >= Min(1, |avail|))
  {
    var avail := AvailableStaff(inp.staff, d, inp.requests, inp.cond, st.shifts);
    var req := RequiredStaff(inp.cond, |avail|, |inp.staff|);
    DayShiftsPerMember(SelectOptimalStaff(avail, req, d, st.shifts, inp.cond), d, inp.cond, inp.templates);
  }

  /** One step adds shifts on its own date only. */
  lemma StepCountOn(inp: Inputs, st: Draft, d: Day, e: Day)
    ensures CountWhere(Step(inp, st, d).shifts, DatedOn, e)
         == CountWhere(st.shifts, DatedOn, e) + (if e == d then |Step(inp, st, d).shifts| - |st.shifts| else 0)
  {
    if !IsClosed(inp.cond, d) {
      var avail := AvailableStaff(inp.staff, d, inp.requests, inp.cond, st.shifts);
      var sel := SelectOptimalStaff(avail, RequiredStaff(inp.cond, |avail|, |inp.staff|), d, st.shifts, inp.cond);
      var ds := DayShifts(sel, d, inp.cond, inp.templates);
      assert Step(inp, st, d).shifts == st.shifts + ds;
      CountWhereAppend(st.shifts, ds, DatedOn, e);
      DayShiftsDatedOn(sel, d, inp.cond, inp.templates, e);
    }
  }

  /** A day's shifts all fall on that day. */
  lemma DayShiftsDatedOn(sel: seq<Staff>, d: Day, cond: ShiftConditions, templates: seq<ShiftTemplate>, e: Day)
    ensures CountWhere(DayShifts(sel, d, cond, templates), DatedOn, e)
         == if e == d then |DayShifts(sel, d, cond, templates)| else 0
  {
    var ds := DayShifts(sel, d, cond, templates);
    if e == d {
      FilterAllOrNone(ds, DatedOn, e);
    } else {
      CountWhereZero(ds, DatedOn, e);
    }
  }

  /** Over increasing dates, the shifts a whole run places on the k-th date
      are exactly the ones that day's step added: the required headcount,
      capped by who was available given the shifts of the earlier dates. */
  lemma RunDayHeadcount(inp: Inputs, dates: seq<Day>, k: int)
    requires Increasing(dates) && 0 <= k < |dates|
    requires !IsClosed(inp.cond, dates[k]) && inp.templates != []
    ensures var before := Run(inp, dates[..k]);
      var avail := AvailableStaff(inp.staff, dates[k], inp.requests, inp.cond, before.shifts);
      var req := RequiredStaff(inp.cond, |avail|, |inp.staff|);
      && CountWhere(Run(inp, dates).shifts, DatedOn, dates[k])
         == |Step(inp, before, dates[k]).shifts| - |before.shifts|
      && (req >= 0 ==> CountWhere(Run(inp, dates).shifts, DatedOn, dates[k]) == Min(req, |avail|))
  {
    RunDayCount(inp, dates, k);
    DayHeadcount(inp, Run(inp, dates[..k]), dates[k]);
  }

  /** Over increasing dates, the k-th date's shifts in the whole run are the
      ones its own step added. */
  lemma {:induction false} RunDayCount(inp: Inputs, dates: seq<Day>, k: int)
    requires Increasing(dates) && 0 <= k < |dates|
    ensures var before := Run(inp, dates[..k]);
      CountWhere(Run(inp, dates).shifts, DatedOn, dates[k]) == |Step(inp, before, dates[k]).shifts| - |before.shifts|
    decreases |dates|
  {
    var n := |dates|;
    var init := dates[..n - 1];
    var d := dates[k];
    StepCountOn(inp, Run(inp, init), dates[n - 1], d);
    if k == n - 1 {
      assert init == dates[..k];
      forall e | e in init ensures e < d {
        var i :| 0 <= i < |init| && init[i] == e;
        assert dates[i] == e;
      }
      RunDatesBefore(inp, init, d);
      CountWhereZero(Run(inp, init).shifts, DatedOn, d);
    } else {
      assert Increasing(init);
      assert init[..k] == dates[..k];
      RunDayCount(inp, init, k);
      assert dates[n - 1] != d;
    }
  }

  /** A schedule that keeps the consecutive-days limit draws no
      consecutive-days finding from the labor check. */
  lemma NoConsecutiveViolations(roster: seq<Staff>, shifts: seq<Shift>, std: LaborStandards)
    requires ConsecutiveLimitKept(shifts, std.maxConsecutiveWorkDays)
    ensures forall v :: v in LaborViolations(roster, shifts, std) ==> v.kind != ConsecutiveWorkDays
  {
    LaborViolationsAttributed(roster, shifts, std);
    var max := std.maxConsecutiveWorkDays;
    forall v | v in LaborViolations(roster, shifts, std) ensures v.kind != ConsecutiveWorkDays {
      var m :| m in roster && Attributed(v, m, shifts, std);
      if v.kind == ConsecutiveWorkDays {
        var d := v.date.value;
        assert HasApprovedShiftOn(shifts, m.id, d);
        var s :| s in shifts && IsApprovedOf(s, m.id) && s.date == d;
        forall e | d - max <= e < d ensures HasShiftOn(shifts, m.id, e) {
          assert HasApprovedShiftOn(shifts, m.id, e);
          var t :| t in shifts && IsApprovedOf(t, m.id) && t.date == e;
        }
        assert false;
      }
    }
  }

  /** What a saved run promises, for dates in increasing order, a stored
      roster without repeated ids and at most one request per member and
      month: every shift is approved, on a listed open date, for an active
      member, who is not booked twice that day, stays within a set monthly
      maximum and is never scheduled on a requested day off; and the labor
      findings saved with it contain no consecutive-days error. */
  lemma GeneratedScheduleGuarantees(month: Month, dates: seq<Day>, allConditions: seq<ShiftConditions>, allStaff: seq<Staff>,
                                    allRequests: seq<ShiftRequest>, allTemplates: seq<ShiftTemplate>,
                                    newId: string, generatedAt: string)
    requires Increasing(dates)
    requires UniqueIds(allStaff)
    requires forall id :: CountWhere(allRequests, RequestFor, (id, month)) <= 1
    ensures var r := Generate(month, dates, allConditions, allStaff, allRequests, allTemplates, newId, generatedAt);
      r.Some? ==>
        var cond := ActiveConditions(allConditions, month).value;
        var g := r.value.shifts;
        && (forall s :: s in g ==> s.status == Approved && s.date in dates && !IsClosed(cond, s.date))
        && (forall s :: s in g ==> exists m :: m in allStaff && m.isActive && m.id == s.staffId)
        && (forall id, e :: CountWhere(g, OnDay, (id, e)) <= 1)
        && (forall id, mo :: MonthlyCapKept(g, cond, id, mo))
        && (forall q, d :: q in allRequests && q.month == month && q.status == Approved && d in RequestDates(q)
              ==> !HasShiftOn(g, q.staffId, d))
        && (forall v :: v in r.value.violationWarnings ==> v.kind != ConsecutiveWorkDays)
  {
    var r := Generate(month, dates, allConditions, allStaff, allRequests, allTemplates, newId, generatedAt);
    if r.Some? {
      var cond := ActiveConditions(allConditions, month).value;
      var inp := EngineInputs(cond, allStaff, allRequests, allTemplates, month);
      var g := Run(inp, dates).shifts;
      assert r.value.shifts == g;
      forall id ensures CountWhere(inp.staff, HasId, id) <= 1 {
        FilterCountAtMost(allStaff, StaffActive, true, HasId, id, HasId, id);
      }
      forall id ensures CountWhere(inp.requests, RequestOf, id) <= 1 {
        FilterCountAtMost(allRequests, ApprovedFor, month, RequestOf, id, RequestFor, (id, month));
      }
      RunPlaced(inp, dates);
      RunNoDoubleBooking(inp, dates);
      RunMonthlyCap(inp, dates);
      RunHonoursRequests(inp, dates);
      RunKeepsConsecutiveLimit(inp, dates);
      NoConsecutiveViolations(allStaff, g, cond.laborStandards);
      forall q, d | q in allRequests && q.month == month && q.status == Approved && d in RequestDates(q)
        ensures !HasShiftOn(g, q.staffId, d)
      {
        assert q in inp.requests;
        var i :| 0 <= i < |inp.requests| && inp.requests[i] == q;
      }
    }
  }
}
