/** Accepting punches and applying approved corrections to the stored clock records. */
module ClockPunches {
  import opened Intervals
  import opened AttendanceRecords
  import opened Sorting
  import opened WorkSessions
  import opened DayProjection
  import LeaveCredit

  type Records = map<int, ClockRecord>

  datatype Rejection = Duplicate | InvalidSequence | OutsideGeofence | LowAccuracy | OffWindow

  /** Where the punch was made, as measured against the nearest worksite. */
  datatype Place = NoWorksite | Measured(outside: bool, inaccurate: bool)

  datatype Punch = Punch(
    id: int,
    employee: int,
    direction: Direction,
    clientEvent: Option<int>,
    now: int,
    place: Place,
    requireWorksite: bool,
    workTime: WorkTime,
    detail: int)

  datatype PunchOutcome = Stored(record: ClockRecord, reason: Option<Rejection>) | Replayed(record: ClockRecord)
    | Refused

  function WorkDateOf(now: int): int {
    now / DAY
  }

  /** An accepted, non-voided clock-in of the employee on that date. */
  predicate IsClockIn(r: ClockRecord, employee: int, workDate: int) {
    Effective(r, workDate) && r.employee == employee && r.direction == ClockIn
  }

  predicate HasClockIn(records: Records, employee: int, workDate: int) {
    exists id | id in records :: IsClockIn(records[id], employee, workDate)
  }

  /** Fixed mode: late in or early out; flexible mode: before the earliest in or after the latest out.
      Settings that do not parse are an error. */
  function OutsideConfiguredWindow(direction: Direction, wt: WorkTime, at: int): Option<bool> {
    var minute := MinuteOfDay(at);
    if wt.clockMode == FlexibleMode then
      if wt.flexibleEarliest < 0 || wt.flexibleLatest < 0 then None
      else Some(if direction == ClockIn then minute < wt.flexibleEarliest else minute > wt.flexibleLatest)
    else
      var boundary := if direction == ClockOut then wt.standardEnd else wt.standardStart;
      if boundary < 0 then None
      else Some(if direction == ClockIn then minute > boundary else minute < boundary)
  }

  function ClockRejectionReason(p: Punch, hasClockIn: bool): Option<Rejection> {
    if p.direction == ClockOut && !hasClockIn then Some(InvalidSequence)
    else if p.direction == ClockIn && hasClockIn then Some(Duplicate)
    else if p.requireWorksite && p.place.Measured? && p.place.outside then Some(OutsideGeofence)
    else if p.requireWorksite && p.place.Measured? && p.place.inaccurate then Some(LowAccuracy)
    else None
  }

  function ByClientEvent(records: Records, event: int): set<int> {
    set id | id in records && records[id].clientEvent == Some(event)
  }

  /** A punch: replayed by its client event, refused, or stored as accepted or rejected. A soft window
      finding leaves the record accepted. */
  ghost function AfterPunch(records: Records, p: Punch): (Records, PunchOutcome) {
    if p.clientEvent.Some? && ByClientEvent(records, p.clientEvent.value) != {} then
      var id := Pick(ByClientEvent(records, p.clientEvent.value));
      if records[id].employee != p.employee then (records, Refused) else (records, Replayed(records[id]))
    else if p.requireWorksite && p.place.NoWorksite? then (records, Refused)
    else
      var workDate := WorkDateOf(p.now);
      var hard := ClockRejectionReason(p, HasClockIn(records, p.employee, workDate));
      var window := OutsideConfiguredWindow(p.direction, p.workTime, p.now);
      if hard.None? && window.None? then (records, Refused)
      else
        var reason := if hard.Some? then hard else if window.value then Some(OffWindow) else None;
        var record := ClockRecord(p.id, p.employee, workDate, p.direction, if hard.Some? then Rejected else Accepted,
                                  false, p.now, p.now, p.clientEvent, p.detail, None);
        (records[p.id := record], Stored(record, reason))
  }

  datatype CorrectionType = AddRecord | VoidRecord | ReplaceRecord

  datatype Correction = Correction(
    kind: CorrectionType,
    employee: int,
    target: int,
    direction: Direction,
    requestedAt: int,
    workDate: int,
    newId: int,
    now: int,
    voidNote: int)

  datatype CorrectionOutcome = Applied | NotFound | AlreadyVoided | NotAccepted | SequenceConflict

  /** The effect of an approved correction; any failure leaves everything as it was. */
  function AfterCorrection(records: Records, c: Correction): (Records, CorrectionOutcome) {
    if c.kind != AddRecord && (c.target !in records || records[c.target].employee != c.employee)
        then (records, NotFound)
    else if c.kind != AddRecord && records[c.target].voided then (records, AlreadyVoided)
    else if c.kind != AddRecord && records[c.target].status != Accepted then (records, NotAccepted)
    else
      var cleared := if c.kind == AddRecord then records
        else records[c.target := records[c.target].(voided := true, voidNote := Some(c.voidNote))];
      if c.kind == VoidRecord then (cleared, Applied)
      else if c.direction == ClockIn && HasClockIn(cleared, c.employee, c.workDate) then (records, SequenceConflict)
      else
        (cleared[c.newId := ClockRecord(c.newId, c.employee, c.workDate, c.direction, Accepted, false,
                                        c.requestedAt, c.now, None, 0, None)], Applied)
  }

  // ------------------------------------------------------------ invariants

  predicate CountsAsClockIn(r: ClockRecord) {
    Effective(r, r.workDate) && r.direction == ClockIn
  }

  /** What every state keeps: records under their own id, client events unique, and at most one
      accepted, non-voided clock-in for an employee on a date. */
  ghost predicate WellKept(records: Records) {
    && (forall id | id in records :: records[id].id == id)
    && (forall i, j | i in records && j in records && records[i].clientEvent.Some?
          && records[i].clientEvent == records[j].clientEvent :: i == j)
    && (forall i, j | i in records && j in records && CountsAsClockIn(records[i]) && CountsAsClockIn(records[j])
          && records[i].employee == records[j].employee && records[i].workDate == records[j].workDate :: i == j)
  }

  /** A record keeps every column; it can only become voided, and stays so. */
  predicate OnlyVoided(before: ClockRecord, after: ClockRecord) {
    after == before || (!before.voided && before.status == Accepted
                        && after == before.(voided := true, voidNote := after.voidNote))
  }

  ghost predicate Keeps(before: Records, after: Records) {
    forall id | id in before :: id in after && OnlyVoided(before[id], after[id])
  }

  lemma PunchKeeps(records: Records, p: Punch)
    requires WellKept(records) && p.id !in records
    ensures var (next, outcome) := AfterPunch(records, p);
      WellKept(next) && Keeps(records, next)
  {
    var workDate := WorkDateOf(p.now);
    var (next, outcome) := AfterPunch(records, p);
    if outcome.Stored? {
      var record := outcome.record;
      if p.clientEvent.Some? {
        forall i | i in records ensures records[i].clientEvent != p.clientEvent {
          assert i !in ByClientEvent(records, p.clientEvent.value);
        }
      }
      if CountsAsClockIn(record) {
        assert !HasClockIn(records, p.employee, workDate);
        forall i | i in records && CountsAsClockIn(records[i]) && records[i].employee == p.employee
          ensures records[i].workDate != workDate
        {
          assert !IsClockIn(records[i], p.employee, workDate);
        }
      }
    }
  }

  lemma CorrectionKeeps(records: Records, c: Correction)
    requires WellKept(records) && c.newId !in records
    ensures var (next, outcome) := AfterCorrection(records, c);
      && WellKept(next) && Keeps(records, next)
      && (outcome != Applied ==> next == records)
      && (outcome == Applied && c.kind != AddRecord ==> !records[c.target].voided && next[c.target].voided)
      && (forall id | id in records && (c.kind == AddRecord || id != c.target) :: next[id] == records[id])
      && (forall id | id in next && id !in records :: id == c.newId)
      && (outcome == Applied && c.kind != VoidRecord ==>
            && c.newId in next && Effective(next[c.newId], c.workDate) && next[c.newId].employee == c.employee
            && next[c.newId].direction == c.direction && next[c.newId].clockedAt == c.requestedAt)
  {
    var (next, outcome) := AfterCorrection(records, c);
    if outcome == Applied && c.kind != VoidRecord && c.direction == ClockIn {
      var cleared := if c.kind == AddRecord then records
        else records[c.target := records[c.target].(voided := true, voidNote := Some(c.voidNote))];
      forall i | i in cleared && CountsAsClockIn(cleared[i]) && cleared[i].employee == c.employee
        ensures cleared[i].workDate != c.workDate
      {
        assert !IsClockIn(cleared[i], c.employee, c.workDate);
      }
    }
  }

  datatype Op = PunchOp(punch: Punch) | CorrectionOp(correction: Correction)

  function NewId(op: Op): int {
    if op.PunchOp? then op.punch.id else op.correction.newId
  }

  ghost function After(records: Records, op: Op): Records {
    if op.PunchOp? then AfterPunch(records, op.punch).0 else AfterCorrection(records, op.correction).0
  }

  /** States visited by a run; every operation brings an identifier not in use. */
  ghost predicate IsRun(states: seq<Records>, ops: seq<Op>) {
    && |states| == |ops| + 1
    && forall i | 0 <= i < |ops| :: NewId(ops[i]) !in states[i] && states[i + 1] == After(states[i], ops[i])
  }

  lemma StepKeeps(records: Records, op: Op)
    requires WellKept(records) && NewId(op) !in records
    ensures WellKept(After(records, op)) && Keeps(records, After(records, op))
  {
    if op.PunchOp? {
      PunchKeeps(records, op.punch);
    } else {
      CorrectionKeeps(records, op.correction);
    }
  }

  lemma KeepsOn(a: Records, b: Records, c: Records)
    requires Keeps(a, b) && Keeps(b, c)
    ensures Keeps(a, c)
  {
  }

  lemma {:induction false} EveryStateWellKept(states: seq<Records>, ops: seq<Op>, j: nat)
    requires IsRun(states, ops) && WellKept(states[0]) && j < |states|
    ensures WellKept(states[j])
  {
    if j > 0 {
      EveryStateWellKept(states, ops, j - 1);
      assert states[j] == After(states[j - 1], ops[j - 1]) && NewId(ops[j - 1]) !in states[j - 1];
      StepKeeps(states[j - 1], ops[j - 1]);
    }
  }

  /** Over every run of punches and corrections every state is well kept, and no record is ever
      removed, altered or un-voided. */
  lemma {:induction false} EveryRunKeeps(states: seq<Records>, ops: seq<Op>, i: nat, j: nat)
    requires IsRun(states, ops) && WellKept(states[0]) && i <= j < |states|
    ensures WellKept(states[j]) && Keeps(states[i], states[j])
    decreases j
  {
    EveryStateWellKept(states, ops, j);
    if i < j {
      EveryRunKeeps(states, ops, i, j - 1);
      assert states[j] == After(states[j - 1], ops[j - 1]) && NewId(ops[j - 1]) !in states[j - 1];
      StepKeeps(states[j - 1], ops[j - 1]);
      KeepsOn(states[i], states[j - 1], states[j]);
    }
  }

  /** A list of exactly the employee's records of a date, as the projection's loader returns it. */
  ghost predicate LoadedDay(day: seq<ClockRecord>, records: Records, employee: int, workDate: int) {
    forall r :: r in day <==> r.id in records && records[r.id] == r && r.employee == employee && r.workDate == workDate
  }

  /** The store's test for a clock-in and the projection's first clock-in say the same. */
  lemma ClockInSeen(records: Records, day: seq<ClockRecord>, employee: int, workDate: int)
    requires WellKept(records) && LoadedDay(day, records, employee, workDate)
    ensures HasClockIn(records, employee, workDate) <==> EarliestIn(SortedPunches(day, workDate)).Some?
  {
    var e := SortedPunches(day, workDate);
    BoundaryPunches(e);
    if HasClockIn(records, employee, workDate) {
      var id :| id in records && IsClockIn(records[id], employee, workDate);
      SortedPunchesMember(day, workDate, records[id]);
      assert records[id] in e;
    }
    if EarliestIn(e).Some? {
      var r := EarliestIn(e).value;
      SortedPunchesMember(day, workDate, r);
      assert IsClockIn(records[r.id], employee, workDate);
    }
  }

  /** What the projection advertises the punch path accepts: an offered clock-in is never turned away
      as a duplicate, an offered clock-out never as out of sequence. */
  lemma AdvertisedActionsAreAccepted(records: Records, day: seq<ClockRecord>, leaves: seq<LeaveCredit.Leave>,
                                     employee: int, workDate: int, wt: WorkTime, asOf: int, p: Punch)
    requires WellKept(records) && LoadedDay(day, records, employee, workDate)
    requires p.employee == employee && WorkDateOf(p.now) == workDate
    ensures var projection := ProjectionOf(day, leaves, workDate, wt, asOf);
            var reason := ClockRejectionReason(p, HasClockIn(records, employee, workDate));
      && (projection.canClockIn && p.direction == ClockIn ==> reason != Some(Duplicate))
      && (projection.canClockOut && p.direction == ClockOut ==> reason != Some(InvalidSequence))
  {
    BoundaryPunches(SortedPunches(day, workDate));
    ClockInSeen(records, day, employee, workDate);
  }

  // ----------------------------------------------------------- the service

  datatype ReviewStatus = Pending | Approved | Declined

  /** A stored request for a correction; an approval notes the record it created. */
  datatype Request = Request(
    status: ReviewStatus,
    kind: CorrectionType,
    employee: int,
    target: int,
    direction: Direction,
    requestedAt: int,
    workDate: int,
    reason: int,
    created: Option<int>)

  type Requests = map<int, Request>

  datatype SubmitOutcome = Submitted(request: Request) | TargetMissing | TargetVoided | UnfitReason

  /** What the reviewer gave as a reason, and whether its length is acceptable. */
  datatype ReviewReason = Blank | Given(text: int, fits: bool)

  datatype ReviewOutcome = NoSuchRequest | NotPending | UnfitReview | EffectFailed(effect: CorrectionOutcome)
                         | Reviewed(request: Request)

  /** The correction an approval carries out; without a review reason the voided record gets the
      requester's. */
  function Correcting(q: Request, reason: ReviewReason, newId: int, now: int): Correction {
    Correction(q.kind, q.employee, q.target, q.direction, q.requestedAt, q.workDate, newId, now,
               if reason.Given? then reason.text else q.reason)
  }

  /** An approved request has had its effect: its target is voided, its record stored. */
  ghost predicate InEffect(records: Records, q: Request) {
    q.status == Approved ==>
      && (q.kind != AddRecord ==> q.target in records && records[q.target].voided)
      && (q.kind != VoidRecord ==>
            && q.created.Some? && q.created.value in records
            && records[q.created.value].employee == q.employee && records[q.created.value].workDate == q.workDate
            && records[q.created.value].direction == q.direction
            && records[q.created.value].clockedAt == q.requestedAt)
  }

  predicate BothVoid(a: Request, b: Request) {
    a.status == Approved && b.status == Approved && a.kind != AddRecord && b.kind != AddRecord && a.target == b.target
  }

  /** Every approved request is in effect, and no two of them voided the same record. */
  ghost predicate RequestsKept(records: Records, requests: Requests) {
    && (forall i | i in requests :: InEffect(records, requests[i]))
    && (forall i, j | i in requests && j in requests && BothVoid(requests[i], requests[j]) :: i == j)
  }

  lemma RequestsStay(before: Records, after: Records, requests: Requests)
    requires Keeps(before, after) && RequestsKept(before, requests)
    ensures RequestsKept(after, requests)
  {
    forall i | i in requests ensures InEffect(after, requests[i]) {
      var q := requests[i];
      assert InEffect(before, q);
      if q.status == Approved && q.kind != VoidRecord {
        var made := q.created.value;
        assert made in before;
        assert made in after;
        assert OnlyVoided(before[made], after[made]);
      }
    }
  }

  /** Approving a pending request whose correction applies puts it into effect, once per target. */
  lemma ApprovalKeeps(records: Records, requests: Requests, id: int, reason: ReviewReason, newId: int, now: int)
    requires WellKept(records) && RequestsKept(records, requests) && newId !in records
    requires id in requests && requests[id].status == Pending
    requires AfterCorrection(records, Correcting(requests[id], reason, newId, now)).1 == Applied
    ensures RequestsKept(AfterCorrection(records, Correcting(requests[id], reason, newId, now)).0,
                         requests[id := ApprovedAs(requests[id], newId)])
  {
    var q, c := requests[id], Correcting(requests[id], reason, newId, now);
    var after := AfterCorrection(records, c).0;
    CorrectionKeeps(records, c);
    RequestsStay(records, after, requests);
    forall i | i in requests && i != id ensures !BothVoid(requests[i], ApprovedAs(q, newId)) {
      assert InEffect(records, requests[i]);
    }
  }

  function ApprovedAs(q: Request, newId: int): Request {
    q.(status := Approved, created := if q.kind == VoidRecord then q.created else Some(newId))
  }

  class ClockService {
    var records: Records
    var requests: Requests

    ghost predicate Valid()
      reads this
    {
      WellKept(records) && RequestsKept(records, requests)
    }

    constructor ()
      ensures Valid() && records == map[] && requests == map[]
    {
      records, requests := map[], map[];
    }

    method CreateAttendanceClockRecord(p: Punch) returns (outcome: PunchOutcome)
      requires Valid() && p.id !in records
      modifies this`records
      ensures Valid() && Keeps(old(records), records)
      ensures (records, outcome) == AfterPunch(old(records), p)
    {
      PunchKeeps(records, p);
      RequestsStay(records, AfterPunch(records, p).0, requests);
      if p.clientEvent.Some? {
        var same := ByClientEvent(records, p.clientEvent.value);
        if same != {} {
          ghost var chosen := Pick(same);
          var id :| id in same;
          assert id == chosen;
          if records[id].employee != p.employee {
            return Refused;
          }
          return Replayed(records[id]);
        }
      }
      if p.requireWorksite && p.place.NoWorksite? {
        return Refused;
      }
      var workDate := WorkDateOf(p.now);
      var hasClockIn := HasClockIn(records, p.employee, workDate);
      var reason := ClockRejectionReason(p, hasClockIn);
      if reason.None? {
        var outside := OutsideConfiguredWindow(p.direction, p.workTime, p.now);
        if outside.None? {
          return Refused;
        }
        if outside.value {
          reason := Some(OffWindow);
        }
      }
      var status := Accepted;
      if reason.Some? && reason.value != OffWindow {
        status := Rejected;
      }
      var record := ClockRecord(p.id, p.employee, workDate, p.direction, status, false, p.now, p.now, p.clientEvent,
                                p.detail, None);
      records := records[p.id := record];
      outcome := Stored(record, reason);
    }

    /** Applies an approved correction as one transaction: an error restores the records. */
    method ApplyApprovedAttendanceCorrection(c: Correction) returns (outcome: CorrectionOutcome)
      requires Valid() && c.newId !in records
      modifies this`records
      ensures Valid() && Keeps(old(records), records)
      ensures (records, outcome) == AfterCorrection(old(records), c)
    {
      CorrectionKeeps(records, c);
      RequestsStay(records, AfterCorrection(records, c).0, requests);
      var before := records;
      if c.kind == VoidRecord || c.kind == ReplaceRecord {
        if c.target !in records || records[c.target].employee != c.employee {
          return NotFound;
        }
        var target := records[c.target];
        if target.voided {
          return AlreadyVoided;
        }
        if target.status != Accepted {
          return NotAccepted;
        }
        records := records[c.target := target.(voided := true, voidNote := Some(c.voidNote))];
      }
      if c.kind == VoidRecord {
        return Applied;
      }
      if c.direction == ClockIn && HasClockIn(records, c.employee, c.workDate) {
        records := before;
        return SequenceConflict;
      }
      records := records[c.newId := ClockRecord(c.newId, c.employee, c.workDate, c.direction, Accepted, false,
                                                c.requestedAt, c.now, None, 0, None)];
      outcome := Applied;
    }

    /** Stores a request. One that voids needs a live record of the employee, whose date it takes over,
        and one that only voids its direction and time too. */
    method CreateAttendanceCorrection(id: int, kind: CorrectionType, employee: int, target: int,
                                      direction: Direction, requestedAt: int, reason: int, reasonFits: bool)
      returns (outcome: SubmitOutcome)
      requires Valid() && id !in requests
      modifies this`requests
      ensures Valid()
      ensures requests == if outcome.Submitted? then old(requests)[id := outcome.request] else old(requests)
      ensures outcome == TargetMissing <==>
        kind != AddRecord && (target !in records || records[target].employee != employee)
      ensures outcome == TargetVoided <==>
        kind != AddRecord && target in records && records[target].employee == employee && records[target].voided
      ensures outcome == UnfitReason ==> !reasonFits
      ensures outcome.Submitted? ==> reasonFits
      ensures outcome.Submitted? && kind == AddRecord ==>
        outcome.request
          == Request(Pending, kind, employee, target, direction, requestedAt, WorkDateOf(requestedAt), reason, None)
      ensures outcome.Submitted? && kind == ReplaceRecord ==>
        outcome.request
          == Request(Pending, kind, employee, target, direction, requestedAt, records[target].workDate, reason, None)
      ensures outcome.Submitted? && kind == VoidRecord ==>
        outcome.request
          == Request(Pending, kind, employee, target, records[target].direction, records[target].clockedAt,
                     records[target].workDate, reason, None)
    {
      var towards, at, workDate := direction, requestedAt, WorkDateOf(requestedAt);
      if kind != AddRecord {
        if target !in records || records[target].employee != employee {
          return TargetMissing;
        }
        if records[target].voided {
          return TargetVoided;
        }
        workDate := records[target].workDate;
        if kind == VoidRecord {
          towards, at := records[target].direction, records[target].clockedAt;
        }
      }
      if !reasonFits {
        return UnfitReason;
      }
      var request := Request(Pending, kind, employee, target, towards, at, workDate, reason, None);
      requests := requests[id := request];
      outcome := Submitted(request);
    }

    /** Reviews a request once: only a pending request changes, and an approval whose effect fails
        leaves it pending with the records untouched. */
    method ReviewAttendanceCorrection(id: int, approve: bool, reason: ReviewReason, newId: int, now: int)
      returns (outcome: ReviewOutcome)
      requires Valid() && newId !in records
      modifies this
      ensures Valid() && Keeps(old(records), records)
      ensures outcome == NoSuchRequest <==> id !in old(requests)
      ensures outcome == NotPending <==> id in old(requests) && old(requests)[id].status != Pending
      ensures outcome == UnfitReview <==>
        id in old(requests) && old(requests)[id].status == Pending && reason.Given? && !reason.fits
      ensures outcome.EffectFailed? || outcome.Reviewed? ==>
        var q := old(requests)[id];
        var (after, effect) := AfterCorrection(old(records), Correcting(q, reason, newId, now));
        if !approve then outcome == Reviewed(q.(status := Declined)) && records == old(records)
        else if effect == Applied then outcome == Reviewed(ApprovedAs(q, newId)) && records == after
        else outcome == EffectFailed(effect)
      ensures outcome.Reviewed? ==> requests == old(requests)[id := outcome.request]
      ensures !outcome.Reviewed? ==> records == old(records) && requests == old(requests)
    {
      if id !in requests {
        return NoSuchRequest;
      }
      var request := requests[id];
      if request.status != Pending {
        return NotPending;
      }
      if reason.Given? && !reason.fits {
        return UnfitReview;
      }
      if approve {
        var c := Correcting(request, reason, newId, now);
        CorrectionKeeps(records, c);
        if AfterCorrection(records, c).1 == Applied {
          ApprovalKeeps(records, requests, id, reason, newId, now);
        }
        var effect := ApplyApprovedAttendanceCorrection(c);
        if effect != Applied {
          return EffectFailed(effect);
        }
        request := ApprovedAs(request, newId);
      } else {
        request := request.(status := Declined);
      }
      requests := requests[id := request];
      outcome := Reviewed(request);
    }
  }
}
