/** Headcount and ranking: `calculateRequiredStaff`, `selectOptimalStaff`,
    `hasWorkedYesterday` and `isWeekend` (lib/data.ts). */
module Selection {
  import opened Calendar
  import opened Seqs
  import opened Domain
  import opened Availability

  const DefaultMinimumStaff := 2
  const DefaultMaximumAbsent := 1

  // The weights of the priority heuristic.
  const FixedWorkDayBonus := 1000
  const TargetMonthlyDays := 20
  const PerMissingDayWeight := 10
  const SkillWeight := 5
  const WeekendStylistBonus := 15
  const WorkedYesterdayPenalty := 5

  /** `calculateRequiredStaff`. `activeTotal` is the number of active staff
      the source counts from storage. In minimum_required mode the target
      never exceeds what is available, so the shortfall penalty can only
      arise in maximum_absent mode, where the target is at least one. */
  function RequiredStaff(cond: ShiftConditions, availableCount: int, activeTotal: int): (r: int)
    ensures cond.minimumStaffMode == MinimumRequired ==> r <= availableCount
    ensures cond.minimumStaffMode == MinimumRequired && cond.minimumStaffCount == 0 ==> r <= DefaultMinimumStaff
    ensures cond.minimumStaffMode == MaximumAbsent ==> r >= 1 && r >= activeTotal - OrDefault(cond.maximumAbsentCount, DefaultMaximumAbsent)
    ensures cond.minimumStaffMode == MinimumRequired ==>
      var target := OrDefault(cond.minimumStaffCount, DefaultMinimumStaff);
      r <= target && (r == target || r == availableCount)
    ensures cond.minimumStaffMode == MaximumAbsent ==>
      r == 1 || r == activeTotal - OrDefault(cond.maximumAbsentCount, DefaultMaximumAbsent)
  {
    if cond.minimumStaffMode == MinimumRequired then
      Min(OrDefault(cond.minimumStaffCount, DefaultMinimumStaff), availableCount)
    else
      Max(activeTotal - OrDefault(cond.maximumAbsentCount, DefaultMaximumAbsent), 1)
  }

  /** `hasWorkedYesterday` */
  predicate HasWorkedYesterday(shifts: seq<Shift>, id: StaffId, d: Day) {
    HasShiftOn(shifts, id, d - 1)
  }

  /** The additive priority of `selectOptimalStaff`. */
  function Priority(m: Staff, d: Day, shifts: seq<Shift>, cond: ShiftConditions): int {
    var special := FindSpecialCondition(cond, m.id);
    (if special.Some? && d in special.value.fixedWorkDays then FixedWorkDayBonus else 0)
    + (TargetMonthlyDays - MonthlyWorkDays(shifts, m.id, d)) * PerMissingDayWeight
    + OrDefault(m.skillLevel, 1) * SkillWeight
    + (if IsWeekend(Weekday(d)) && m.position == Stylist then WeekendStylistBonus else 0)
    - (if HasWorkedYesterday(shifts, m.id, d) then WorkedYesterdayPenalty else 0)
  }

  /** `{ staff, priority }` */
  datatype Candidate = Candidate(staff: Staff, priority: int)

  /** The sort key of `(a, b) => b.priority - a.priority` (descending). */
  function DescendingKey(c: Candidate): int { -c.priority }

  predicate CandidateHasId(c: Candidate, id: StaffId) { c.staff.id == id }

  /** `availableStaff.map(staff => ({ staff, priority }))` */
  function Scored(avail: seq<Staff>, d: Day, shifts: seq<Shift>, cond: ShiftConditions): (r: seq<Candidate>)
    ensures |r| == |avail|
    ensures forall i :: 0 <= i < |r| ==> r[i] == Candidate(avail[i], Priority(avail[i], d, shifts, cond))
  {
    seq(|avail|, i requires 0 <= i < |avail| => Candidate(avail[i], Priority(avail[i], d, shifts, cond)))
  }

  /** The candidates after the (stable) sort by descending priority. */
  function Ranked(avail: seq<Staff>, d: Day, shifts: seq<Shift>, cond: ShiftConditions): seq<Candidate> {
    SortBy(Scored(avail, d, shifts, cond), DescendingKey)
  }

  /** The ranking is a permutation of the scored candidates, in descending
      priority, and each candidate carries its own member's priority. */
  lemma RankedIsDescendingPermutation(avail: seq<Staff>, d: Day, shifts: seq<Shift>, cond: ShiftConditions)
    ensures var r := Ranked(avail, d, shifts, cond);
      && multiset(r) == multiset(Scored(avail, d, shifts, cond))
      && (forall i, j :: 0 <= i < j < |r| ==> r[i].priority >= r[j].priority)
      && (forall c :: c in r ==> c.staff in avail && c.priority == Priority(c.staff, d, shifts, cond))
  {
    var scored := Scored(avail, d, shifts, cond);
    var r := Ranked(avail, d, shifts, cond);
    assert forall i, j :: 0 <= i < j < |r| ==> DescendingKey(r[i]) <= DescendingKey(r[j]);
    forall c | c in r ensures c.staff in avail && c.priority == Priority(c.staff, d, shifts, cond) {
      assert c in multiset(scored);
      var i :| 0 <= i < |scored| && scored[i] == c;
    }
  }

  /** `.map(item => item.staff)` */
  function StaffOf(cs: seq<Candidate>): (r: seq<Staff>)
    ensures |r| == |cs| && forall i :: 0 <= i < |cs| ==> r[i] == cs[i].staff
  {
    seq(|cs|, i requires 0 <= i < |cs| => cs[i].staff)
  }

  /** `selectOptimalStaff`: the first `requiredCount` ranked candidates
      (`slice(0, requiredCount)`, so all of them when fewer are available). */
  function SelectOptimalStaff(avail: seq<Staff>, requiredCount: int, d: Day, shifts: seq<Shift>,
                              cond: ShiftConditions): (r: seq<Staff>)
    ensures requiredCount >= 0 ==> |r| == Min(requiredCount, |avail|)
    ensures forall m :: m in r ==> m in avail
    ensures var ranked := Ranked(avail, d, shifts, cond);
      |r| <= |ranked| && forall i :: 0 <= i < |r| ==> r[i] == ranked[i].staff
  {
    var ranked := Ranked(avail, d, shifts, cond);
    var r := StaffOf(SliceTo(ranked, requiredCount));
    RankedIsDescendingPermutation(avail, d, shifts, cond);
    forall m | m in r ensures m in avail {
      var i :| 0 <= i < |r| && r[i] == m;
      assert ranked[i] in ranked;
    }
    r
  }

  /** The selection is a top-N: nobody left out outranks anybody chosen. */
  lemma SelectionIsTopN(avail: seq<Staff>, requiredCount: int, d: Day, shifts: seq<Shift>, cond: ShiftConditions)
    ensures var r := SelectOptimalStaff(avail, requiredCount, d, shifts, cond);
      var ranked := Ranked(avail, d, shifts, cond);
      forall i, j :: 0 <= i < |r| <= j < |ranked| ==>
        Priority(r[i], d, shifts, cond) >= Priority(ranked[j].staff, d, shifts, cond)
  {
    var r := SelectOptimalStaff(avail, requiredCount, d, shifts, cond);
    var ranked := Ranked(avail, d, shifts, cond);
    RankedIsDescendingPermutation(avail, d, shifts, cond);
    forall i, j | 0 <= i < |r| <= j < |ranked|
      ensures Priority(r[i], d, shifts, cond) >= Priority(ranked[j].staff, d, shifts, cond)
    {
      assert ranked[i] in ranked && ranked[j] in ranked;
    }
  }

  /** Ties keep roster order: among candidates of equal priority the
      ranking lists them as the roster (the available list) does. */
  lemma {:induction false} RankingIsStable(avail: seq<Staff>, d: Day, shifts: seq<Shift>, cond: ShiftConditions, p: int)
    ensures WithKey(Ranked(avail, d, shifts, cond), DescendingKey, -p)
         == WithKey(Scored(avail, d, shifts, cond), DescendingKey, -p)
  {
    CandidateOrderIsStable(Scored(avail, d, shifts, cond), p);
  }

  lemma {:induction false} CandidateOrderIsStable(cs: seq<Candidate>, p: int)
    ensures WithKey(SortBy(cs, DescendingKey), DescendingKey, -p) == WithKey(cs, DescendingKey, -p)
  {
    SortByIsStable(cs, DescendingKey, -p);
  }

  lemma {:induction false} StaffOfIdCount(cs: seq<Candidate>, id: StaffId)
    ensures CountWhere(StaffOf(cs), HasId, id) == CountWhere(cs, CandidateHasId, id)
  {
    if cs != [] {
      StaffOfIdCount(cs[..|cs| - 1], id);
      assert StaffOf(cs)[..|cs| - 1] == StaffOf(cs[..|cs| - 1]);
    }
  }

  lemma {:induction false} ScoredIdCount(avail: seq<Staff>, d: Day, shifts: seq<Shift>, cond: ShiftConditions, id: StaffId)
    ensures CountWhere(Scored(avail, d, shifts, cond), CandidateHasId, id) == CountWhere(avail, HasId, id)
  {
    if avail != [] {
      var init := avail[..|avail| - 1];
      ScoredIdCount(init, d, shifts, cond, id);
      assert Scored(avail, d, shifts, cond)[..|avail| - 1] == Scored(init, d, shifts, cond);
    }
  }

  /** Selection never picks the same staff id more often than it appears
      among the available members. */
  lemma SelectionIdCount(avail: seq<Staff>, requiredCount: int, d: Day, shifts: seq<Shift>, cond: ShiftConditions, id: StaffId)
    ensures CountWhere(SelectOptimalStaff(avail, requiredCount, d, shifts, cond), HasId, id)
         <= CountWhere(avail, HasId, id)
  {
    var ranked := Ranked(avail, d, shifts, cond);
    var cut := SliceTo(ranked, requiredCount);
    assert SelectOptimalStaff(avail, requiredCount, d, shifts, cond) == StaffOf(cut);
    StaffOfIdCount(cut, id);
    CountWherePrefix(ranked, |cut|, CandidateHasId, id);
    CountWhereSortBy(Scored(avail, d, shifts, cond), DescendingKey, CandidateHasId, id);
    ScoredIdCount(avail, d, shifts, cond, id);
  }
}
