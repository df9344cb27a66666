/** The stored collections the engine reads and writes, and the operations
    that change them in place: `createShiftRequest`, `createShiftConditions`,
    `generateAutoShift` (saving its result) and `approveGeneratedShift`
    (lib/data.ts). Browser storage is modelled as the fields of one object. */
module Store {
  import opened Calendar
  import opened Seqs
  import opened Domain
  import opened Generator

  // ---- createShiftRequest ----

  /** The requests after upserting r: r replaces the first request for the
      same (member, month) pair, or is appended when there is none. */
  function UpsertRequest(requests: seq<ShiftRequest>, r: ShiftRequest): seq<ShiftRequest> {
    match FindIndexWhere(requests, RequestFor, (r.staffId, r.month))
    case None => requests + [r]
    case Some(i) => requests[i := r]
  }

  ghost predicate OneRequestPerKey(requests: seq<ShiftRequest>) {
    forall key :: CountWhere(requests, RequestFor, key) <= 1
  }

  /** After the upsert, looking up r's (member, month) pair finds r; every
      request for another pair is still there and nothing else is; the list
      grows by at most one. */
  lemma UpsertRequestStores(requests: seq<ShiftRequest>, r: ShiftRequest)
    ensures FindWhere(UpsertRequest(requests, r), RequestFor, (r.staffId, r.month)) == Some(r)
    ensures |requests| <= |UpsertRequest(requests, r)| <= |requests| + 1
    ensures forall x :: !RequestFor(x, (r.staffId, r.month)) ==> (x in UpsertRequest(requests, r) <==> x in requests)
  {
    var key := (r.staffId, r.month);
    var u := UpsertRequest(requests, r);
    match FindIndexWhere(requests, RequestFor, key)
    case None =>
      FirstMatchIsFound(u, RequestFor, key, |requests|);
    case Some(i) =>
      FirstMatchIsFound(u, RequestFor, key, i);
      forall x | !RequestFor(x, key) ensures x in u <==> x in requests {
        if x in requests {
          var j :| 0 <= j < |requests| && requests[j] == x;
          assert u[j] == x;
        }
        if x in u {
          var j :| 0 <= j < |u| && u[j] == x;
          assert requests[j] == x;
        }
      }
  }

  /** The upsert keeps at most one request per (member, month) pair. */
  lemma UpsertRequestKeepsOnePerKey(requests: seq<ShiftRequest>, r: ShiftRequest)
    requires OneRequestPerKey(requests)
    ensures OneRequestPerKey(UpsertRequest(requests, r))
  {
    var u := UpsertRequest(requests, r);
    forall key ensures CountWhere(u, RequestFor, key) <= 1 {
      match FindIndexWhere(requests, RequestFor, (r.staffId, r.month))
      case None =>
        CountWhereAppend(requests, [r], RequestFor, key);
        assert [r][..0] == [];
        if RequestFor(r, key) {
          CountWhereZero(requests, RequestFor, key);
        }
      case Some(i) =>
        CountWhereUpdate(requests, i, r, RequestFor, key);
    }
  }

  // ---- createShiftConditions ----

  /** The records after installing c: the first active record for c's month
      is deactivated and c is appended. */
  function InstallConditions(all: seq<ShiftConditions>, c: ShiftConditions): seq<ShiftConditions> {
    match FindIndexWhere(all, ActiveFor, c.month)
    case None => all + [c]
    case Some(i) => all[i := all[i].(isActive := false)] + [c]
  }

  ghost predicate OneActivePerMonth(all: seq<ShiftConditions>) {
    forall mo :: CountWhere(all, ActiveFor, mo) <= 1
  }

  /** At most one active record per month is kept, and afterwards the
      active record for c's month is c itself (none when c is inactive). */
  lemma InstallConditionsActivates(all: seq<ShiftConditions>, c: ShiftConditions)
    requires OneActivePerMonth(all)
    ensures OneActivePerMonth(InstallConditions(all, c))
    ensures ActiveConditions(InstallConditions(all, c), c.month) == if c.isActive then Some(c) else None
  {
    var u := InstallConditions(all, c);
    var prefix := match FindIndexWhere(all, ActiveFor, c.month)
      case None => all
      case Some(i) => all[i := all[i].(isActive := false)];
    assert u == prefix + [c];
    assert [c][..0] == [];
    forall mo ensures CountWhere(u, ActiveFor, mo) <= 1 && (mo == c.month ==> CountWhere(prefix, ActiveFor, mo) == 0) {
      CountWhereAppend(prefix, [c], ActiveFor, mo);
      match FindIndexWhere(all, ActiveFor, c.month)
      case None =>
        if mo == c.month {
          CountWhereZero(all, ActiveFor, mo);
        }
      case Some(i) =>
        CountWhereUpdate(all, i, all[i].(isActive := false), ActiveFor, mo);
    }
    if c.isActive {
      UniqueMatchIsFound(u, ActiveFor, c.month, c);
    } else {
      CountWhereZero(u, ActiveFor, c.month);
    }
  }

  /** Records of other months are not affected: their active record is
      still the one found before. */
  lemma InstallConditionsOtherMonths(all: seq<ShiftConditions>, c: ShiftConditions, mo: Month)
    requires mo != c.month
    ensures ActiveConditions(InstallConditions(all, c), mo) == ActiveConditions(all, mo)
  {
    var u := InstallConditions(all, c);
    assert |all| < |u|;
    assert forall j :: 0 <= j < |all| && u[j] != all[j] ==> !ActiveFor(u[j], mo) && !ActiveFor(all[j], mo);
    assert !ActiveFor(u[|all|], mo);
    match FindIndexWhere(all, ActiveFor, mo)
    case None =>
      forall x | x in u ensures !ActiveFor(x, mo) {
        var j :| 0 <= j < |u| && u[j] == x;
      }
    case Some(k) =>
      FirstMatchIsFound(u, ActiveFor, mo, k);
  }

  // ---- approveGeneratedShift ----

  predicate HasGeneratedId(g: GeneratedShift, id: string) { g.id == id }

  /** `!s.date.startsWith(month)` */
  predicate OutsideMonth(s: Shift, mo: Month) { MonthOf(s.date) != mo }

  predicate WithinMonth(s: Shift, mo: Month) { MonthOf(s.date) == mo }

  /** The live shifts after approving g: those of other months, in their
      order, followed by g's shifts. */
  function ReplaceMonth(live: seq<Shift>, g: GeneratedShift): seq<Shift> {
    Filter(live, OutsideMonth, g.month) + g.shifts
  }

  /** g marked approved by an administrator at a time. */
  function MarkApproved(g: GeneratedShift, adminId: string, approvedAt: string): GeneratedShift {
    g.(isApproved := true, approvedAt := Some(approvedAt), approvedBy := Some(adminId))
  }

  /** When g's shifts all lie in its month, approving leaves the shifts of
      every other month exactly as they were (same shifts, same order) and
      makes g's shifts the whole of its month. */
  lemma ReplaceMonthSplits(live: seq<Shift>, g: GeneratedShift)
    requires forall s :: s in g.shifts ==> WithinMonth(s, g.month)
    ensures Filter(ReplaceMonth(live, g), OutsideMonth, g.month) == Filter(live, OutsideMonth, g.month)
    ensures Filter(ReplaceMonth(live, g), WithinMonth, g.month) == g.shifts
  {
    var kept := Filter(live, OutsideMonth, g.month);
    assert forall i :: 0 <= i < |kept| ==> kept[i] in kept;
    assert forall i :: 0 <= i < |g.shifts| ==> g.shifts[i] in g.shifts;
    FilterSplit(kept, g.shifts, OutsideMonth, WithinMonth, g.month);
  }

  /** Approving the same result twice gives the same live shifts as
      approving it once, when its shifts all lie in its month. */
  lemma ReplaceMonthIdempotent(live: seq<Shift>, g: GeneratedShift)
    requires forall s :: s in g.shifts ==> WithinMonth(s, g.month)
    ensures ReplaceMonth(ReplaceMonth(live, g), g) == ReplaceMonth(live, g)
  {
    ReplaceMonthSplits(live, g);
  }

  /** A generated shift outside its own month survives a second approval
      twice over: the idempotence above needs its precondition. */
  lemma ReplaceMonthTwiceDuplicates(s: Shift, g: GeneratedShift)
    requires g.shifts == [s] && OutsideMonth(s, g.month)
    ensures ReplaceMonth(ReplaceMonth([], g), g) == [s, s]
  {
    assert ReplaceMonth([], g) == [s];
    assert Filter([s], OutsideMonth, g.month) == [s] by {
      FilterAllOrNone([s], OutsideMonth, g.month);
    }
  }

  /** Marking a result approved keeps it the one found by its id, with the
      same month and shifts, so a second approval replaces the month with
      the same shifts again. */
  lemma ApprovalKeepsLookup(gs: seq<GeneratedShift>, id: string, adminId: string, approvedAt: string)
    requires FindIndexWhere(gs, HasGeneratedId, id).Some?
    ensures var i := FindIndexWhere(gs, HasGeneratedId, id).value;
      var gs' := gs[i := MarkApproved(gs[i], adminId, approvedAt)];
      && FindIndexWhere(gs', HasGeneratedId, id) == Some(i)
      && gs'[i].month == gs[i].month && gs'[i].shifts == gs[i].shifts && gs'[i].isApproved
  {
    var i := FindIndexWhere(gs, HasGeneratedId, id).value;
    var gs' := gs[i := MarkApproved(gs[i], adminId, approvedAt)];
    FirstMatchIsFound(gs', HasGeneratedId, id, i);
  }

  class SalonStore {
    var staff: seq<Staff>
    var shifts: seq<Shift>
    var templates: seq<ShiftTemplate>
    var requests: seq<ShiftRequest>
    var conditions: seq<ShiftConditions>
    var generated: seq<GeneratedShift>

    /** At most one active conditions record per month and at most one
        request per member and month. */
    ghost predicate Valid()
      reads this
    {
      OneActivePerMonth(conditions) && OneRequestPerKey(requests)
    }

    /** A store holding a roster, live shifts and templates, with no
        requests, conditions or generated results yet. */
    constructor (staff0: seq<Staff>, shifts0: seq<Shift>, templates0: seq<ShiftTemplate>)
      ensures Valid()
      ensures staff == staff0 && shifts == shifts0 && templates == templates0
      ensures requests == [] && conditions == [] && generated == []
    {
      staff, shifts, templates := staff0, shifts0, templates0;
      requests, conditions, generated := [], [], [];
    }

    /** `createShiftRequest`: replaces the member's request for the month,
        or appends it. The id and the submission time are inputs. */
    method CreateShiftRequest(id: string, staffId: StaffId, month: Month, dayOffRequests: seq<Day>,
                              paidLeaveRequests: seq<Day>, status: Status, submittedAt: string)
      returns (newRequest: ShiftRequest)
      requires Valid()
      modifies this
      ensures Valid()
      ensures newRequest == ShiftRequest(id, staffId, month, dayOffRequests, paidLeaveRequests, status, submittedAt)
      ensures requests == UpsertRequest(old(requests), newRequest)
      ensures staff == old(staff) && shifts == old(shifts) && templates == old(templates)
      ensures conditions == old(conditions) && generated == old(generated)
    {
      newRequest := ShiftRequest(id, staffId, month, dayOffRequests, paidLeaveRequests, status, submittedAt);
      var existingIndex := FindIndexWhere(requests, RequestFor, (staffId, month));
      if existingIndex.Some? {
        requests := requests[existingIndex.value := newRequest];
      } else {
        requests := requests + [newRequest];
      }
      UpsertRequestKeepsOnePerKey(old(requests), newRequest);
    }

    /** `createShiftConditions`: deactivates the month's active record and
        appends the new one. The id and the creation time are part of c. */
    method CreateShiftConditions(c: ShiftConditions) returns (newConditions: ShiftConditions)
      requires Valid()
      modifies this
      ensures Valid()
      ensures newConditions == c
      ensures conditions == InstallConditions(old(conditions), c)
      ensures staff == old(staff) && shifts == old(shifts) && templates == old(templates)
      ensures requests == old(requests) && generated == old(generated)
    {
      newConditions := c;
      var existingIndex := FindIndexWhere(conditions, ActiveFor, c.month);
      if existingIndex.Some? {
        var i := existingIndex.value;
        conditions := conditions[i := conditions[i].(isActive := false)];
      }
      conditions := conditions + [c];
      InstallConditionsActivates(old(conditions), c);
    }

    /** `generateAutoShift` with its result saved: the run reads the stored
        roster, requests, conditions and templates, and a non-null result is
        appended to the generated results. */
    method GenerateAutoShift(month: Month, dates: seq<Day>, newId: string, generatedAt: string)
      returns (result: Option<GeneratedShift>)
      modifies this
      ensures result == Generate(month, dates, conditions, staff, requests, templates, newId, generatedAt)
      ensures generated == if result.Some? then old(generated) + [result.value] else old(generated)
      ensures staff == old(staff) && shifts == old(shifts) && templates == old(templates)
      ensures requests == old(requests) && conditions == old(conditions)
    {
      result := Generator.GenerateAutoShift(month, dates, conditions, staff, requests, templates, newId, generatedAt);
      if result.Some? {
        generated := generated + [result.value];
      }
    }

    /** `approveGeneratedShift`: false, with nothing changed, for an unknown
        id; otherwise the month of the first result with that id is replaced
        in the live shifts by its shifts, and the result is marked approved.
        There is no check that it was approved already. */
    method ApproveGeneratedShift(generatedShiftId: string, adminUserId: string, approvedAt: string)
      returns (ok: bool)
      modifies this
      ensures ok <==> exists g :: g in old(generated) && g.id == generatedShiftId
      ensures !ok ==> shifts == old(shifts) && generated == old(generated)
      ensures ok ==>
        var i := FindIndexWhere(old(generated), HasGeneratedId, generatedShiftId).value;
        && shifts == ReplaceMonth(old(shifts), old(generated)[i])
        && generated == old(generated)[i := MarkApproved(old(generated)[i], adminUserId, approvedAt)]
      ensures staff == old(staff) && templates == old(templates)
      ensures requests == old(requests) && conditions == old(conditions)
    {
      var index := FindIndexWhere(generated, HasGeneratedId, generatedShiftId);
      if index.None? {
        assert forall g :: g in generated ==> !HasGeneratedId(g, generatedShiftId);
        return false;
      }
      var generatedShift := generated[index.value];
      var otherShifts := Filter(shifts, OutsideMonth, generatedShift.month);
      shifts := otherShifts + generatedShift.shifts;
      generated := generated[index.value := MarkApproved(generatedShift, adminUserId, approvedAt)];
      ok := true;
    }
  }
}
