/** The quality score of a generated schedule: `calculateFinalScore` and
    `calculateRequestFulfillmentRate` (lib/data.ts). */
module Scoring {
  import opened Calendar
  import opened Seqs
  import opened Domain

  const CriticalPenalty := 20
  const ErrorPenalty := 10
  const WarningPenalty := 5
  const FulfillmentBonus: real := 20.0
  const MaxScore: real := 100.0

  /** Points deducted for one violation, by severity. */
  function Penalty(sev: Severity): (r: int)
    ensures r > 0
  {
    match sev
    case Critical => CriticalPenalty
    case Error => ErrorPenalty
    case Warning => WarningPenalty
  }

  /** Sum of the penalties of a violation list, first to last. */
  function TotalPenalty(vs: seq<LaborViolation>): int {
    if vs == [] then 0 else TotalPenalty(vs[..|vs| - 1]) + Penalty(vs[|vs| - 1].severity)
  }

  predicate HasSeverity(v: LaborViolation, sev: Severity) { v.severity == sev }

  /** The total penalty depends only on how many violations of each
      severity there are: 20 per critical, 10 per error, 5 per warning. */
  lemma {:induction false} TotalPenaltyBySeverity(vs: seq<LaborViolation>)
    ensures TotalPenalty(vs) == CriticalPenalty * CountWhere(vs, HasSeverity, Critical)
                              + ErrorPenalty * CountWhere(vs, HasSeverity, Error)
                              + WarningPenalty * CountWhere(vs, HasSeverity, Warning)
  {
    if vs != [] {
      TotalPenaltyBySeverity(vs[..|vs| - 1]);
    }
  }

  /** Penalties add up over a concatenation of violation lists. */
  lemma {:induction false} TotalPenaltyAppend(vs: seq<LaborViolation>, ws: seq<LaborViolation>)
    ensures TotalPenalty(vs + ws) == TotalPenalty(vs) + TotalPenalty(ws)
  {
    if ws != [] {
      var ws' := ws[..|ws| - 1];
      assert (vs + ws)[..|vs + ws| - 1] == vs + ws';
      TotalPenaltyAppend(vs, ws');
    } else {
      assert vs + ws == vs;
    }
  }

  /** Every listed violation costs at least five points. */
  lemma {:induction false} TotalPenaltyAtLeast(vs: seq<LaborViolation>)
    ensures TotalPenalty(vs) >= WarningPenalty * |vs|
  {
    if vs != [] {
      TotalPenaltyAtLeast(vs[..|vs| - 1]);
    }
  }

  /** All the dates one request asks to keep free, days off first, duplicates kept. */
  function RequestDates(r: ShiftRequest): seq<Day> {
    r.dayOffRequests + r.paidLeaveRequests
  }

  /** A requested date is honoured when the member has no shift on it. */
  predicate Honoured(d: Day, who: (StaffId, seq<Shift>)) {
    !HasShiftOn(who.1, who.0, d)
  }

  /** Number of requested dates, over all requests. */
  function TotalRequestDates(requests: seq<ShiftRequest>): nat {
    if requests == [] then 0
    else TotalRequestDates(requests[..|requests| - 1]) + |RequestDates(requests[|requests| - 1])|
  }

  /** Honoured dates of one request. */
  function HonouredDates(r: ShiftRequest, shifts: seq<Shift>): nat {
    CountWhere(RequestDates(r), Honoured, (r.staffId, shifts))
  }

  /** Number of honoured requested dates, over all requests. */
  function FulfilledRequestDates(requests: seq<ShiftRequest>, shifts: seq<Shift>): nat {
    if requests == [] then 0
    else FulfilledRequestDates(requests[..|requests| - 1], shifts) + HonouredDates(requests[|requests| - 1], shifts)
  }

  /** Every requested date of every request is honoured. */
  predicate AllHonoured(requests: seq<ShiftRequest>, shifts: seq<Shift>) {
    forall i, d :: 0 <= i < |requests| && d in RequestDates(requests[i]) ==> !HasShiftOn(shifts, requests[i].staffId, d)
  }

  lemma {:induction false} HonouredDatesBounds(r: ShiftRequest, shifts: seq<Shift>)
    ensures HonouredDates(r, shifts) <= |RequestDates(r)|
    ensures HonouredDates(r, shifts) == |RequestDates(r)| <==>
      forall d :: d in RequestDates(r) ==> !HasShiftOn(shifts, r.staffId, d)
  {
    var ds := RequestDates(r);
    var who := (r.staffId, shifts);
    CountAtMostLength(ds, who);
    if HonouredDates(r, shifts) == |ds| {
      forall d | d in ds ensures !HasShiftOn(shifts, r.staffId, d) {
        var k :| 0 <= k < |ds| && ds[k] == d;
        CountFullMeansAll(ds, who, k);
      }
    } else {
      CountAllMeansFull(ds, who);
    }
  }

  lemma {:induction false} CountAtMostLength(ds: seq<Day>, who: (StaffId, seq<Shift>))
    ensures CountWhere(ds, Honoured, who) <= |ds|
  {
    if ds != [] {
      CountAtMostLength(ds[..|ds| - 1], who);
    }
  }

  lemma {:induction false} CountFullMeansAll(ds: seq<Day>, who: (StaffId, seq<Shift>), k: int)
    requires 0 <= k < |ds| && CountWhere(ds, Honoured, who) == |ds|
    ensures Honoured(ds[k], who)
  {
    var init := ds[..|ds| - 1];
    CountAtMostLength(init, who);
    if k < |ds| - 1 {
      assert init[k] == ds[k];
      CountFullMeansAll(init, who, k);
    }
  }

  lemma {:induction false} CountAllMeansFull(ds: seq<Day>, who: (StaffId, seq<Shift>))
    requires CountWhere(ds, Honoured, who) != |ds|
    ensures exists d :: d in ds && !Honoured(d, who)
  {
    var init := ds[..|ds| - 1];
    if Honoured(ds[|ds| - 1], who) {
      CountAllMeansFull(init, who);
      var d :| d in init && !Honoured(d, who);
      assert d in ds;
    }
  }

  /** No more dates are honoured than were requested, and all of them are
      exactly when every requested date is free of the member's shifts. */
  lemma {:induction false} FulfilledBounds(requests: seq<ShiftRequest>, shifts: seq<Shift>)
    ensures FulfilledRequestDates(requests, shifts) <= TotalRequestDates(requests)
    ensures FulfilledRequestDates(requests, shifts) == TotalRequestDates(requests) <==> AllHonoured(requests, shifts)
  {
    if requests != [] {
      var init := requests[..|requests| - 1];
      var last := requests[|requests| - 1];
      FulfilledBounds(init, shifts);
      HonouredDatesBounds(last, shifts);
      if AllHonoured(requests, shifts) {
        assert AllHonoured(init, shifts) by {
          forall i, d | 0 <= i < |init| && d in RequestDates(init[i])
            ensures !HasShiftOn(shifts, init[i].staffId, d)
          {
            assert init[i] == requests[i];
          }
        }
        forall d | d in RequestDates(last) ensures !HasShiftOn(shifts, last.staffId, d) {
          assert last == requests[|requests| - 1];
        }
      }
      if AllHonoured(init, shifts) && HonouredDates(last, shifts) == |RequestDates(last)| {
        forall i, d | 0 <= i < |requests| && d in RequestDates(requests[i])
          ensures !HasShiftOn(shifts, requests[i].staffId, d)
        {
          if i < |init| {
            assert requests[i] == init[i];
          }
        }
      }
    }
  }

  /** The fulfillment rate: honoured over requested dates, or 1 when
      nothing was requested. */
  function FulfillmentRate(requests: seq<ShiftRequest>, shifts: seq<Shift>): real {
    var total := TotalRequestDates(requests);
    if total > 0 then FulfilledRequestDates(requests, shifts) as real / total as real else 1.0
  }

  /** The rate lies in [0, 1] and is 1 exactly when every request is honoured. */
  lemma RateBounds(requests: seq<ShiftRequest>, shifts: seq<Shift>)
    ensures 0.0 <= FulfillmentRate(requests, shifts) <= 1.0
    ensures FulfillmentRate(requests, shifts) == 1.0 <==> AllHonoured(requests, shifts)
  {
    FulfilledBounds(requests, shifts);
    var total := TotalRequestDates(requests);
    var f := FulfilledRequestDates(requests, shifts);
    if total > 0 {
      RatioBounds(f as real, total as real);
    } else {
      assert f == 0;
      assert AllHonoured(requests, shifts) by {
        NoDatesAllHonoured(requests, shifts);
      }
    }
  }

  lemma RatioBounds(a: real, b: real)
    requires 0.0 <= a <= b && b > 0.0
    ensures 0.0 <= a / b <= 1.0
    ensures a / b == 1.0 <==> a == b
  {
    assert (a / b) * b == a;
  }

  lemma {:induction false} NoDatesAllHonoured(requests: seq<ShiftRequest>, shifts: seq<Shift>)
    requires TotalRequestDates(requests) == 0
    ensures AllHonoured(requests, shifts)
  {
    if requests != [] {
      var init := requests[..|requests| - 1];
      NoDatesAllHonoured(init, shifts);
      forall i, d | 0 <= i < |requests| && d in RequestDates(requests[i])
        ensures !HasShiftOn(shifts, requests[i].staffId, d)
      {
        if i < |init| {
          assert requests[i] == init[i];
        }
      }
    }
  }

  /** `Math.max(0, Math.min(100, score))` */
  function Clamp(x: real): (r: real)
    ensures 0.0 <= r <= MaxScore
    ensures 0.0 <= x <= MaxScore ==> r == x
    ensures x < 0.0 ==> r == 0.0
    ensures x > MaxScore ==> r == MaxScore
  {
    if x < 0.0 then 0.0 else if x > MaxScore then MaxScore else x
  }

  /** The final score: the base, minus the violation penalties, plus twenty
      times the fulfillment rate, clamped into [0, 100]. */
  function FinalScore(base: real, violations: seq<LaborViolation>, requests: seq<ShiftRequest>, shifts: seq<Shift>): real {
    Clamp(base - TotalPenalty(violations) as real + FulfillmentRate(requests, shifts) * FulfillmentBonus)
  }

  /** The score lies in [0, 100]; more violations never raise it. */
  lemma ScoreMonotone(base: real, vs: seq<LaborViolation>, ws: seq<LaborViolation>, requests: seq<ShiftRequest>, shifts: seq<Shift>)
    ensures 0.0 <= FinalScore(base, vs, requests, shifts) <= MaxScore
    ensures FinalScore(base, vs + ws, requests, shifts) <= FinalScore(base, vs, requests, shifts)
  {
    TotalPenaltyAppend(vs, ws);
    TotalPenaltyAtLeast(ws);
  }

  /** With no violations and every request honoured, a base of 80 or more
      reaches the maximum score. */
  lemma PerfectSchedule(base: real, requests: seq<ShiftRequest>, shifts: seq<Shift>)
    requires base >= MaxScore - FulfillmentBonus
    requires AllHonoured(requests, shifts)
    ensures FinalScore(base, [], requests, shifts) == MaxScore
  {
    RateBounds(requests, shifts);
  }

  /** `calculateRequestFulfillmentRate` */
  method CalculateRequestFulfillmentRate(requests: seq<ShiftRequest>, generatedShifts: seq<Shift>)
    returns (rate: real)
    ensures rate == FulfillmentRate(requests, generatedShifts)
  {
    var totalRequests := 0;
    var fulfilledRequests := 0;
    for i := 0 to |requests|
      invariant totalRequests == TotalRequestDates(requests[..i])
      invariant fulfilledRequests == FulfilledRequestDates(requests[..i], generatedShifts)
    {
      var request := requests[i];
      var allRequests := RequestDates(request);
      totalRequests := totalRequests + |allRequests|;
      var honoured := CountHonoured(request, generatedShifts);
      fulfilledRequests := fulfilledRequests + honoured;
      assert requests[..i + 1][..i] == requests[..i];
    }
    assert requests[..|requests|] == requests;
    rate := if totalRequests > 0 then fulfilledRequests as real / totalRequests as real else 1.0;
  }

  /** The inner `allRequests.forEach`: counts the requested dates on which
      the member has no shift. */
  method CountHonoured(request: ShiftRequest, generatedShifts: seq<Shift>) returns (n: nat)
    ensures n == HonouredDates(request, generatedShifts)
  {
    var allRequests := RequestDates(request);
    n := 0;
    for j := 0 to |allRequests|
      invariant n == CountWhere(allRequests[..j], Honoured, (request.staffId, generatedShifts))
    {
      var hasShift := HasShiftOn(generatedShifts, request.staffId, allRequests[j]);
      if !hasShift {
        n := n + 1;
      }
      assert allRequests[..j + 1][..j] == allRequests[..j];
    }
    assert allRequests[..|allRequests|] == allRequests;
  }

  /** `calculateFinalScore` */
  method CalculateFinalScore(baseScore: real, violations: seq<LaborViolation>, requests: seq<ShiftRequest>, generatedShifts: seq<Shift>)
    returns (score: real)
    ensures score == FinalScore(baseScore, violations, requests, generatedShifts)
  {
    score := baseScore;
    for i := 0 to |violations|
      invariant score == baseScore - TotalPenalty(violations[..i]) as real
    {
      assert violations[..i + 1][..i] == violations[..i];
      assert TotalPenalty(violations[..i + 1]) == TotalPenalty(violations[..i]) + Penalty(violations[i].severity);
      match violations[i].severity
      case Critical => score := score - CriticalPenalty as real;
      case Error => score := score - ErrorPenalty as real;
      case Warning => score := score - WarningPenalty as real;
    }
    assert violations[..|violations|] == violations;
    var fulfillmentRate := CalculateRequestFulfillmentRate(requests, generatedShifts);
    score := score + fulfillmentRate * FulfillmentBonus;
    score := if score < 0.0 then 0.0 else if score > MaxScore then MaxScore else score;
  }
}
