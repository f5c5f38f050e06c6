/** What becomes of a punch and of an approved correction, read off the stored records, the settings and
    the time. */
module PunchLaws {
  import opened Intervals
  import opened AttendanceRecords
  import opened DayProjection
  import opened DayStatus
  import opened ClockPunches

  /** An accepted, non-voided clock-in of that employee on that date, other than one to be ignored. */
  predicate ClockedIn(records: Records, employee: int, workDate: int, ignored: Option<int>) {
    exists id :: id in records && ignored != Some(id) && records[id].employee == employee
      && records[id].workDate == workDate && records[id].direction == ClockIn
      && records[id].status == Accepted && !records[id].voided
  }

  lemma ClockedInExactly(records: Records, employee: int, workDate: int)
    ensures HasClockIn(records, employee, workDate) <==> ClockedIn(records, employee, workDate, None)
  {
    if id :| id in records && IsClockIn(records[id], employee, workDate) {
      assert records[id].employee == employee;
    }
    if ClockedIn(records, employee, workDate, None) {
      var id :| id in records && records[id].employee == employee && records[id].workDate == workDate
        && records[id].direction == ClockIn && records[id].status == Accepted && !records[id].voided;
      assert IsClockIn(records[id], employee, workDate);
    }
  }

  // ------------------------------------------------------------ the window

  /** The settings a punch is held against: both flexible bounds under flexible hours, otherwise the
      standard time of its direction. */
  predicate WindowReadable(direction: Direction, wt: WorkTime) {
    if wt.clockMode == FlexibleMode then wt.flexibleEarliest >= 0 && wt.flexibleLatest >= 0
    else if direction == ClockIn then wt.standardStart >= 0
    else wt.standardEnd >= 0
  }

  /** In late or out early; under flexible hours, in too early or out too late. */
  predicate OffWindowAt(direction: Direction, wt: WorkTime, at: int) {
    if wt.clockMode == FlexibleMode then
      (direction == ClockIn && Earlier(at, wt.flexibleEarliest))
      || (direction == ClockOut && Later(at, wt.flexibleLatest))
    else
      (direction == ClockIn && Later(at, wt.standardStart)) || (direction == ClockOut && Earlier(at, wt.standardEnd))
  }

  lemma WindowExactly(direction: Direction, wt: WorkTime, at: int)
    ensures OutsideConfiguredWindow(direction, wt, at)
         == if WindowReadable(direction, wt) then Some(OffWindowAt(direction, wt, at)) else None
  {
    TimeOfDay(at, wt.flexibleEarliest);
    TimeOfDay(at, wt.flexibleLatest);
    TimeOfDay(at, wt.standardStart);
    TimeOfDay(at, wt.standardEnd);
  }

  // --------------------------------------------------------------- a punch

  /** Why a punch is turned down, first reason first: no clock-in to end, one already there, off the
      worksite, position too inaccurate. */
  lemma RejectedExactly(p: Punch, clockedIn: bool)
    ensures var r := ClockRejectionReason(p, clockedIn);
            var sequence := p.direction == ClockOut && !clockedIn;
            var duplicate := p.direction == ClockIn && clockedIn;
            var placed := p.requireWorksite && p.place.Measured?;
      && (r == Some(InvalidSequence) <==> sequence)
      && (r == Some(Duplicate) <==> duplicate)
      && (r == Some(OutsideGeofence) <==> !sequence && !duplicate && placed && p.place.outside)
      && (r == Some(LowAccuracy) <==> !sequence && !duplicate && placed && !p.place.outside && p.place.inaccurate)
      && (r == None <==> !sequence && !duplicate && !(placed && (p.place.outside || p.place.inaccurate)))
      && r != Some(OffWindow)
  {
  }

  ghost predicate SentBefore(records: Records, p: Punch) {
    p.clientEvent != None && exists id :: id in records && records[id].clientEvent == p.clientEvent
  }

  lemma SentExactly(records: Records, p: Punch)
    ensures SentBefore(records, p) <==>
      p.clientEvent.Some? && ByClientEvent(records, p.clientEvent.value) != {}
  {
    if p.clientEvent.Some? {
      var same := ByClientEvent(records, p.clientEvent.value);
      assert forall id | id in records && records[id].clientEvent == p.clientEvent :: id in same;
      if same != {} {
        var id := Pick(same);
        assert id in records && records[id].clientEvent == p.clientEvent;
      }
    }
  }

  /** A punch whose client event was stored before is answered with that very record, or refused if it is
      another employee's; nothing is stored again. */
  lemma ReplaysExactly(records: Records, p: Punch)
    requires WellKept(records)
    ensures var (next, outcome) := AfterPunch(records, p);
      && (SentBefore(records, p) ==> next == records)
      && (outcome.Replayed? <==>
            && SentBefore(records, p)
            && forall id | id in records && records[id].clientEvent == p.clientEvent ::
                 records[id].employee == p.employee)
      && (outcome.Replayed? ==>
            && outcome.record.clientEvent == p.clientEvent
            && outcome.record.id in records && records[outcome.record.id] == outcome.record)
      && (SentBefore(records, p) && !outcome.Replayed? ==> outcome == Refused)
  {
    SentExactly(records, p);
  }

  /** What is stored for a new punch: accepted unless one of the four reasons holds; a window finding is
      noted and leaves it accepted. Without a worksite where one is required, or with unreadable settings,
      it is refused. */
  lemma PunchesExactly(records: Records, p: Punch)
    requires !SentBefore(records, p)
    ensures var (next, outcome) := AfterPunch(records, p);
            var clockedIn := ClockedIn(records, p.employee, p.now / DAY, None);
            var hard := ClockRejectionReason(p, clockedIn);
            var off := OffWindowAt(p.direction, p.workTime, p.now);
      && (outcome == Refused <==>
            || (p.requireWorksite && p.place.NoWorksite?)
            || (hard == None && !WindowReadable(p.direction, p.workTime)))
      && (outcome == Refused ==> next == records)
      && (outcome != Refused ==>
            && outcome.Stored? && next == records[p.id := outcome.record]
            && outcome.reason == (if hard != None then hard else if off then Some(OffWindow) else None)
            && outcome.record == ClockRecord(p.id, p.employee, p.now / DAY, p.direction,
                                             if hard == None then Accepted else Rejected, false, p.now, p.now,
                                             p.clientEvent, p.detail, None))
  {
    SentExactly(records, p);
    ClockedInExactly(records, p.employee, p.now / DAY);
    WindowExactly(p.direction, p.workTime, p.now);
    RejectedExactly(p, HasClockIn(records, p.employee, p.now / DAY));
  }

  // ---------------------------------------------------------- a correction

  /** What an approval carries out is what was requested; the voided record gets the reviewer's reason, or
      the requester's if the reviewer gave none. The request then names the record it created. */
  lemma ApprovesExactly(q: Request, reason: ReviewReason, newId: int, now: int)
    ensures var c, done := Correcting(q, reason, newId, now), ApprovedAs(q, newId);
      && c.kind == q.kind && c.employee == q.employee && c.target == q.target && c.direction == q.direction
      && c.requestedAt == q.requestedAt && c.workDate == q.workDate && c.newId == newId && c.now == now
      && (reason == Blank ==> c.voidNote == q.reason) && (reason != Blank ==> c.voidNote == reason.text)
      && (q.kind != VoidRecord ==> done == q.(status := Approved, created := Some(newId)))
      && (q.kind == VoidRecord ==> done == q.(status := Approved))
  {
  }

  /** How a correction ends: its target must be the employee's, live and accepted, and a new clock-in must
      not meet another one of the day, the replaced one aside. */
  lemma CorrectsExactly(records: Records, c: Correction)
    ensures var (next, outcome) := AfterCorrection(records, c);
            var aims := c.kind != AddRecord;
            var own := c.target in records && records[c.target].employee == c.employee;
            var usable := !aims || (own && !records[c.target].voided && records[c.target].status == Accepted);
            var meets := c.direction == ClockIn
                         && ClockedIn(records, c.employee, c.workDate, if aims then Some(c.target) else None);
      && (outcome == NotFound <==> aims && !own)
      && (outcome == AlreadyVoided <==> aims && own && records[c.target].voided)
      && (outcome == NotAccepted <==>
            aims && own && !records[c.target].voided && records[c.target].status != Accepted)
      && (outcome == SequenceConflict <==> usable && c.kind != VoidRecord && meets)
      && (outcome == Applied <==> usable && (c.kind == VoidRecord || !meets))
  {
    if c.kind == AddRecord {
      ClockedInExactly(records, c.employee, c.workDate);
    } else if c.target in records {
      var cleared := records[c.target := records[c.target].(voided := true, voidNote := Some(c.voidNote))];
      ClockedInExactly(cleared, c.employee, c.workDate);
      ClearedExactly(records, c.target, Some(c.voidNote), c.employee, c.workDate);
    }
  }

  lemma ClearedExactly(records: Records, target: int, note: Option<int>, employee: int, workDate: int)
    requires target in records
    ensures var cleared := records[target := records[target].(voided := true, voidNote := note)];
      ClockedIn(cleared, employee, workDate, None) <==> ClockedIn(records, employee, workDate, Some(target))
  {
    var cleared := records[target := records[target].(voided := true, voidNote := note)];
    if ClockedIn(cleared, employee, workDate, None) {
      var id :| id in cleared && cleared[id].employee == employee && cleared[id].workDate == workDate
        && cleared[id].direction == ClockIn && cleared[id].status == Accepted && !cleared[id].voided;
      assert id != target && records[id] == cleared[id];
    }
    if ClockedIn(records, employee, workDate, Some(target)) {
      var id :| id in records && id != target && records[id].employee == employee && records[id].workDate == workDate
        && records[id].direction == ClockIn && records[id].status == Accepted && !records[id].voided;
      assert cleared[id] == records[id];
    }
  }

  /** What an applied correction leaves: its target voided with the note, the requested record stored. */
  lemma CorrectedExactly(records: Records, c: Correction)
    requires AfterCorrection(records, c).1 == Applied && c.newId !in records
    ensures var next := AfterCorrection(records, c).0;
      && (forall id :: id in next <==> id in records || (c.kind != VoidRecord && id == c.newId))
      && (c.kind != AddRecord ==>
            && c.target in records
            && next[c.target] == records[c.target].(voided := true, voidNote := Some(c.voidNote)))
      && (c.kind != VoidRecord ==>
            && c.newId in next
            && next[c.newId] == ClockRecord(c.newId, c.employee, c.workDate, c.direction, Accepted, false,
                                            c.requestedAt, c.now, None, 0, None))
  {
  }
}
