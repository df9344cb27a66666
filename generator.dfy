/** The day-by-day assignment loop of `generateAutoShift` (lib/data.ts) and
    the guarantees it gives about the schedule it builds. */
module Generator {
  import opened Calendar
  import opened Seqs
  import opened Domain
  import opened Labor
  import opened Availability
  import opened Selection
  import opened Instantiation
  import opened Scoring

  const BaseScore := 100
  const ShortfallPenalty := 10

  /** What one run reads, fixed for the whole month: the active roster, the
      month's approved requests, the active conditions and the active
      templates. */
  datatype Inputs = Inputs(
    staff: seq<Staff>,
    requests: seq<ShiftRequest>,
    cond: ShiftConditions,
    templates: seq<ShiftTemplate>)

  /** The loop's state: the shifts generated so far and the running score. */
  datatype Draft = Draft(shifts: seq<Shift>, score: int)

  /** A regular weekly holiday or a special closing day: nobody is scheduled. */
  predicate IsClosed(cond: ShiftConditions, d: Day) {
    Weekday(d) in cond.regularHolidays || d in cond.specialHolidays
  }

  /** The shifts created for the selected members, in selection order. */
  function DayShifts(sel: seq<Staff>, d: Day, cond: ShiftConditions, templates: seq<ShiftTemplate>): (r: seq<Shift>)
    ensures templates == [] ==> r == []
    ensures templates != [] ==> |r| == |sel|
    ensures forall s :: s in r ==> s.date == d && s.status == Approved
    ensures forall s :: s in r ==> exists m :: m in sel && s.staffId == m.id
  {
    if sel == [] then []
    else
      var init := sel[..|sel| - 1];
      var m := sel[|sel| - 1];
      var made := CreateShiftForStaff(m, d, cond, templates);
      var rest := DayShifts(init, d, cond, templates);
      assert forall s :: s in rest ==> exists m' :: m' in sel && s.staffId == m'.id by {
        forall s | s in rest ensures exists m' :: m' in sel && s.staffId == m'.id {
          var m' :| m' in init && s.staffId == m'.id;
          assert m' in sel;
        }
      }
      assert made.Some? ==> made.value.staffId == m.id && m in sel;
      rest + (if made.Some? then [made.value] else [])
  }

  /** With templates registered, the day's i-th shift is the one created
      for the i-th selected member: one shift per member, in selection order. */
  lemma DayShiftsPerMember(sel: seq<Staff>, d: Day, cond: ShiftConditions, templates: seq<ShiftTemplate>)
    requires templates != []
    ensures |DayShifts(sel, d, cond, templates)| == |sel|
    ensures forall i :: 0 <= i < |sel| ==>
      DayShifts(sel, d, cond, templates)[i] == CreateShiftForStaff(sel[i], d, cond, templates).value
  {
    forall i | 0 <= i < |sel|
      ensures DayShifts(sel, d, cond, templates)[i] == CreateShiftForStaff(sel[i], d, cond, templates).value
    {
      DayShiftAt(sel, d, cond, templates, i);
    }
  }

  /** The day's i-th shift, one position at a time. */
  lemma DayShiftAt(sel: seq<Staff>, d: Day, cond: ShiftConditions, templates: seq<ShiftTemplate>, i: int)
    requires templates != [] && 0 <= i < |sel|
    ensures |DayShifts(sel, d, cond, templates)| == |sel|
    ensures DayShifts(sel, d, cond, templates)[i] == CreateShiftForStaff(sel[i], d, cond, templates).value
  {
    PrefixShiftAt(sel, d, cond, templates, i, |sel|);
    assert sel[..|sel|] == sel;
  }

  /** The i-th shift of the first j selected members' shifts. */
  lemma {:induction false} PrefixShiftAt(sel: seq<Staff>, d: Day, cond: ShiftConditions, templates: seq<ShiftTemplate>,
                                         i: int, j: int)
    requires templates != [] && 0 <= i < j <= |sel|
    ensures |DayShifts(sel[..j], d, cond, templates)| == j
    ensures DayShifts(sel[..j], d, cond, templates)[i] == CreateShiftForStaff(sel[i], d, cond, templates).value
    decreases j
  {
    DayShiftsStep(sel, j - 1, d, cond, templates);
    if i < j - 1 {
      PrefixShiftAt(sel, d, cond, templates, i, j - 1);
    }
  }

  /** Extending the selection by one member appends that member's shift. */
  lemma DayShiftsStep(sel: seq<Staff>, j: int, d: Day, cond: ShiftConditions, templates: seq<ShiftTemplate>)
    requires 0 <= j < |sel|
    ensures var made := CreateShiftForStaff(sel[j], d, cond, templates);
      DayShifts(sel[..j + 1], d, cond, templates)
      == DayShifts(sel[..j], d, cond, templates) + (if made.Some? then [made.value] else [])
  {
    assert sel[..j + 1][..j] == sel[..j];
  }

  /** One iteration of the date loop. */
  function Step(inp: Inputs, st: Draft, d: Day): Draft {
    if IsClosed(inp.cond, d) then st
    else
      var avail := AvailableStaff(inp.staff, d, inp.requests, inp.cond, st.shifts);
      var req := RequiredStaff(inp.cond, |avail|, |inp.staff|);
      var sel := SelectOptimalStaff(avail, req, d, st.shifts, inp.cond);
      Draft(st.shifts + DayShifts(sel, d, inp.cond, inp.templates),
            if |avail| < req then st.score - ShortfallPenalty else st.score)
  }

  /** The loop over the month's dates, in order. */
  function Run(inp: Inputs, dates: seq<Day>): Draft {
    if dates == [] then Draft([], BaseScore)
    else Step(inp, Run(inp, dates[..|dates| - 1]), dates[|dates| - 1])
  }

  /** The assignment loop of `generateAutoShift`: for each date that is not
      a holiday, select from the available members and push a shift for
      each of them; a shortfall against the required headcount costs ten
      points. */
  method DraftSchedule(inp: Inputs, dates: seq<Day>) returns (generatedShifts: seq<Shift>, score: int)
    ensures Draft(generatedShifts, score) == Run(inp, dates)
  {
    generatedShifts := [];
    score := BaseScore;
    for i := 0 to |dates|
      invariant Draft(generatedShifts, score) == Run(inp, dates[..i])
    {
      assert dates[..i + 1][..i] == dates[..i];
      generatedShifts, score := AssignDay(inp, generatedShifts, score, dates[i]);
    }
    assert dates[..|dates|] == dates;
  }

  /** The body of the date loop for one date. */
  method AssignDay(inp: Inputs, generatedShifts: seq<Shift>, score: int, date: Day)
    returns (shifts': seq<Shift>, score': int)
    ensures Draft(shifts', score') == Step(inp, Draft(generatedShifts, score), date)
  {
    shifts', score' := generatedShifts, score;
    if IsClosed(inp.cond, date) {
      return;
    }
    var availableStaff := AvailableStaff(inp.staff, date, inp.requests, inp.cond, generatedShifts);
    var requiredStaff := RequiredStaff(inp.cond, |availableStaff|, |inp.staff|);
    if |availableStaff| < requiredStaff {
      score' := score - ShortfallPenalty;
    }
    var selectedStaff := SelectOptimalStaff(availableStaff, requiredStaff, date, generatedShifts, inp.cond);
    shifts' := PushShifts(generatedShifts, selectedStaff, date, inp.cond, inp.templates);
  }

  /** `for (const staffMember of selectedStaff)`: push each created shift. */
  method PushShifts(generatedShifts: seq<Shift>, selectedStaff: seq<Staff>, date: Day,
                    cond: ShiftConditions, templates: seq<ShiftTemplate>)
    returns (shifts': seq<Shift>)
    ensures shifts' == generatedShifts + DayShifts(selectedStaff, date, cond, templates)
  {
    shifts' := generatedShifts;
    for j := 0 to |selectedStaff|
      invariant shifts' == generatedShifts + DayShifts(selectedStaff[..j], date, cond, templates)
    {
      var shift := CreateShiftForStaff(selectedStaff[j], date, cond, templates);
      DayShiftsStep(selectedStaff, j, date, cond, templates);
      if shift.Some? {
        shifts' := shifts' + [shift.value];
      }
    }
    assert selectedStaff[..|selectedStaff|] == selectedStaff;
  }

  // ---- the whole run ----

  predicate ActiveFor(c: ShiftConditions, month: Month) { c.month == month && c.isActive }

  predicate StaffActive(m: Staff, flag: bool) { m.isActive == flag }

  predicate TemplateActive(t: ShiftTemplate, flag: bool) { t.isActive == flag }

  predicate ApprovedFor(r: ShiftRequest, month: Month) { r.month == month && r.status == Approved }

  /** `getActiveShiftConditions`: the first active record for the month. */
  function ActiveConditions(all: seq<ShiftConditions>, month: Month): (r: Option<ShiftConditions>)
    ensures r.None? <==> forall c :: c in all ==> !ActiveFor(c, month)
    ensures r.Some? ==> r.value in all && r.value.month == month && r.value.isActive
  {
    FindWhere(all, ActiveFor, month)
  }

  /** The roster, requests and templates one run reads: active staff, the
      month's approved requests and active templates, each in stored order. */
  function EngineInputs(cond: ShiftConditions, allStaff: seq<Staff>, allRequests: seq<ShiftRequest>,
                        allTemplates: seq<ShiftTemplate>, month: Month): (inp: Inputs)
    ensures inp.cond == cond
    ensures forall m :: m in inp.staff <==> m in allStaff && m.isActive
    ensures forall r :: r in inp.requests <==> r in allRequests && r.month == month && r.status == Approved
    ensures forall t :: t in inp.templates <==> t in allTemplates && t.isActive
  {
    Inputs(Filter(allStaff, StaffActive, true), Filter(allRequests, ApprovedFor, month), cond,
           Filter(allTemplates, TemplateActive, true))
  }

  /** `generateAutoShift` as the record it returns: null without active
      conditions for the month; otherwise the drafted shifts, the labor
      findings over the whole stored roster and the final score, not yet
      approved. The new id and the timestamp are inputs. */
  function Generate(month: Month, dates: seq<Day>, allConditions: seq<ShiftConditions>, allStaff: seq<Staff>,
                    allRequests: seq<ShiftRequest>, allTemplates: seq<ShiftTemplate>,
                    newId: string, generatedAt: string): (r: Option<GeneratedShift>)
    ensures r.None? <==> ActiveConditions(allConditions, month).None?
    ensures r.Some? ==>
      && r.value.id == newId && r.value.month == month && r.value.generatedAt == generatedAt
      && r.value.conditionsId == ActiveConditions(allConditions, month).value.id
      && !r.value.isApproved && r.value.approvedAt.None? && r.value.approvedBy.None?
      && 0.0 <= r.value.score <= MaxScore
    ensures r.Some? ==>
      var inp := EngineInputs(ActiveConditions(allConditions, month).value, allStaff, allRequests, allTemplates, month);
      var draft := Run(inp, dates);
      && r.value.shifts == draft.shifts
      && r.value.violationWarnings == LaborViolations(allStaff, draft.shifts, inp.cond.laborStandards)
      && r.value.score == FinalScore(draft.score as real, r.value.violationWarnings, inp.requests, draft.shifts)
  {
    match ActiveConditions(allConditions, month)
    case None => None
    case Some(cond) =>
      var inp := EngineInputs(cond, allStaff, allRequests, allTemplates, month);
      var draft := Run(inp, dates);
      var violations := LaborViolations(allStaff, draft.shifts, cond.laborStandards);
      Some(GeneratedShift(newId, month, draft.shifts, cond.id, generatedAt, false, None, None, violations,
                          FinalScore(draft.score as real, violations, inp.requests, draft.shifts)))
  }

  /** The steps of `generateAutoShift` after storage has been read. */
  method GenerateAutoShift(month: Month, dates: seq<Day>, allConditions: seq<ShiftConditions>, allStaff: seq<Staff>,
                           allRequests: seq<ShiftRequest>, allTemplates: seq<ShiftTemplate>,
                           newId: string, generatedAt: string)
    returns (result: Option<GeneratedShift>)
    ensures result == Generate(month, dates, allConditions, allStaff, allRequests, allTemplates, newId, generatedAt)
  {
    var conditions := ActiveConditions(allConditions, month);
    if conditions.None? {
      return None;
    }
    var cond := conditions.value;
    var inp := EngineInputs(cond, allStaff, allRequests, allTemplates, month);
    var generatedShifts, score := DraftSchedule(inp, dates);
    var violations := CheckLaborViolations(allStaff, generatedShifts, cond.laborStandards);
    var finalScore := CalculateFinalScore(score as real, violations, inp.requests, generatedShifts);
    result := Some(GeneratedShift(newId, month, generatedShifts, cond.id, generatedAt, false, None, None,
                                  violations, finalScore));
  }
}
