/** `isReservationAvailable` (lib/data.ts): whether a staff member can take
    a reservation at a time on a date, given the live shifts and the
    stored reservations. */
module Reservations {
  import opened Calendar
  import opened Seqs
  import opened Domain

  /** The staff member's approved shift on the date. */
  predicate ApprovedShiftOn(s: Shift, key: (StaffId, Day)) {
    s.staffId == key.0 && s.date == key.1 && s.status == Approved
  }

  /** A requested slot: member, date, start and end. */
  datatype Slot = Slot(staffId: StaffId, date: Day, start: TimeOfDay, end: TimeOfDay)

  /** The three-clause overlap test against one stored reservation: the new
      start lies inside it, the new end lies inside it, or the new slot
      covers it; cancelled reservations never conflict. */
  predicate Conflicts(r: Reservation, q: Slot) {
    && r.staffId == q.staffId && r.date == q.date && r.status != Cancelled
    && (|| (q.start >= r.startTime && q.start < r.endTime)
        || (q.end > r.startTime && q.end <= r.endTime)
        || (q.start <= r.startTime && q.end >= r.endTime))
  }

  /** The slot lies within the shift's hours. */
  predicate WithinShift(q: Slot, s: Shift) {
    s.startTime <= q.start && q.end <= s.endTime
  }

  /** `isReservationAvailable`: the first approved shift of the member on
      the date must exist and contain the slot, and no non-cancelled
      reservation of the member on that date may conflict with it. */
  function IsReservationAvailable(staffId: StaffId, date: Day, startTime: TimeOfDay, endTime: TimeOfDay,
                                  shifts: seq<Shift>, reservations: seq<Reservation>): (ok: bool)
    ensures ok <==>
      var found := FindWhere(shifts, ApprovedShiftOn, (staffId, date));
      && found.Some?
      && WithinShift(Slot(staffId, date, startTime, endTime), found.value)
      && forall r :: r in reservations ==> !Conflicts(r, Slot(staffId, date, startTime, endTime))
    ensures ok ==> exists s :: s in shifts && ApprovedShiftOn(s, (staffId, date))
  {
    var q := Slot(staffId, date, startTime, endTime);
    match FindWhere(shifts, ApprovedShiftOn, (staffId, date))
    case None => false
    case Some(staffShift) =>
      if q.start < staffShift.startTime || q.end > staffShift.endTime then false
      else FindWhere(reservations, Conflicts, q).None?
  }

  /** For slots of positive length, the three-clause test is the usual
      interval overlap: each starts before the other ends. */
  lemma ConflictIsOverlap(r: Reservation, q: Slot)
    requires q.start < q.end && r.startTime < r.endTime
    ensures Conflicts(r, q) <==>
      r.staffId == q.staffId && r.date == q.date && r.status != Cancelled
      && q.start < r.endTime && r.startTime < q.end
  {
  }

  /** A zero-length slot at the start of a stored reservation conflicts with
      it, although it shares no time with it. */
  lemma EmptySlotConflicts(r: Reservation)
    requires r.status != Cancelled && r.startTime < r.endTime
    ensures Conflicts(r, Slot(r.staffId, r.date, r.startTime, r.startTime))
  {
  }

  /** Hence, for positive-length slots, the member is available exactly when
      the first approved shift on the date contains the slot and no
      non-cancelled reservation of the member that day overlaps it. */
  lemma AvailabilityByOverlap(staffId: StaffId, date: Day, startTime: TimeOfDay, endTime: TimeOfDay,
                              shifts: seq<Shift>, reservations: seq<Reservation>)
    requires startTime < endTime
    requires forall r :: r in reservations ==> r.startTime < r.endTime
    ensures IsReservationAvailable(staffId, date, startTime, endTime, shifts, reservations) <==>
      var found := FindWhere(shifts, ApprovedShiftOn, (staffId, date));
      && found.Some? && found.value.startTime <= startTime && endTime <= found.value.endTime
      && forall r :: r in reservations && r.staffId == staffId && r.date == date && r.status != Cancelled
           ==> endTime <= r.startTime || r.endTime <= startTime
  {
    var q := Slot(staffId, date, startTime, endTime);
    forall r | r in reservations ensures Conflicts(r, q) <==>
      r.staffId == staffId && r.date == date && r.status != Cancelled && startTime < r.endTime && r.startTime < endTime
    {
      ConflictIsOverlap(r, q);
    }
  }
}
