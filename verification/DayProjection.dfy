/** The daily attendance projection: what one employee's punches and leave facts make of a day. */
module DayProjection {
  import opened Intervals
  import opened AttendanceRecords
  import opened Sorting
  import opened WorkSessions
  import opened LeaveCredit

  /** A parsed HH:MM setting in minutes after midnight; -1 when it does not parse. */
  type Setting = m: int | -1 <= m < 1440

  datatype ClockMode = FixedMode | FlexibleMode | OtherMode

  /** The policy's work-time settings; `rest` stands for those the projection does not read. */
  datatype WorkTime = WorkTime(
    clockMode: ClockMode,
    standardStart: Setting,
    standardEnd: Setting,
    breakStart: Setting,
    breakEnd: Setting,
    flexibleEarliest: Setting,
    flexibleLatest: Setting,
    rest: int)

  datatype DayStatus = NotStarted | Working | Complete | PendingLeave | Abnormal

  datatype Anomaly = InsufficientWorkHours | OutsideWindow | MissingClockOut

  datatype Projection = Projection(
    workDate: int,
    scheduledStartAt: Option<int>,
    scheduledEndAt: Option<int>,
    clockInRecordId: Option<int>,
    clockOutRecordId: Option<int>,
    lastPunchRecordId: Option<int>,
    punchCount: int,
    workedMinutes: int,
    approvedLeaveMinutes: int,
    pendingLeaveMinutes: int,
    requiredMinutes: int,
    dayStatus: DayStatus,
    anomalyReasons: seq<Anomaly>,
    clockIn: Option<ClockRecord>,
    clockOut: Option<ClockRecord>,
    lastPunch: Option<ClockRecord>,
    canClockIn: bool,
    canClockOut: bool)

  // -------------------------------------------------------------- schedule

  /** Instants count from business-time midnight of day zero. */
  function DayStart(workDate: int): int {
    workDate * DAY
  }

  /** The scheduled span; an end at or before the start belongs to the next day. */
  function ScheduleList(workDate: int, wt: WorkTime): seq<Interval> {
    if wt.standardStart < 0 || wt.standardEnd < 0 then []
    else
      var start, end := DayStart(workDate) + wt.standardStart * MINUTE, DayStart(workDate) + wt.standardEnd * MINUTE;
      [Interval(start, if end <= start then end + DAY else end)]
  }

  ghost function SchedulePoints(workDate: int, wt: WorkTime): set<int> {
    Points(ScheduleList(workDate, wt))
  }

  /** The break, if the policy has one, as far as it lies in the schedule. */
  ghost function BreakPoints(workDate: int, wt: WorkTime): set<int> {
    if 0 <= wt.breakStart < wt.breakEnd then
      Span(Interval(DayStart(workDate) + wt.breakStart * MINUTE, DayStart(workDate) + wt.breakEnd * MINUTE))
        * SchedulePoints(workDate, wt)
    else {}
  }

  lemma RunsOfNothing()
    ensures Runs({}) == []
  {
    EmptyCanonical(Runs({}));
  }

  method AttendanceScheduleIntervals(workDate: int, wt: WorkTime)
    returns (schedule: seq<Interval>, breaks: seq<Interval>)
    ensures schedule == ScheduleList(workDate, wt)
    ensures breaks == Runs(BreakPoints(workDate, wt))
  {
    RunsOfNothing();
    var day := DayStart(workDate);
    if wt.standardStart < 0 || wt.standardEnd < 0 {
      assert SchedulePoints(workDate, wt) == {};
      assert BreakPoints(workDate, wt) == {};
      return [], [];
    }
    var start := day + wt.standardStart * MINUTE;
    var end := day + wt.standardEnd * MINUTE;
    if end <= start {
      end := end + DAY;
    }
    schedule := [Interval(start, end)];
    if wt.breakStart < 0 || wt.breakEnd <= wt.breakStart {
      return schedule, [];
    }
    var breakStart := day + wt.breakStart * MINUTE;
    var breakEnd := day + wt.breakEnd * MINUTE;
    if breakEnd <= breakStart {
      breakEnd := breakEnd + DAY;
    }
    var whole := [Interval(breakStart, breakEnd)];
    assert Points(whole) == Span(whole[0]) + Points([]) == Span(whole[0]);
    assert BreakPoints(workDate, wt) == Points(whole) * Points(schedule);
    breaks := IntersectIntervals(whole, schedule);
  }

  lemma SettingOnMinute(workDate: int, minutes: int)
    ensures (DayStart(workDate) + minutes * MINUTE) % MINUTE == 0
  {
    assert DayStart(workDate) == (workDate * 1440) * MINUTE;
    ShiftedMinute(0, workDate * 1440);
    ShiftedMinute(DayStart(workDate), minutes);
  }

  /** The schedule consists of whole clock minutes. */
  lemma ScheduleOnMinutes(workDate: int, wt: WorkTime)
    ensures Cellwise(SchedulePoints(workDate, wt))
  {
    var schedule := ScheduleList(workDate, wt);
    if schedule != [] {
      SettingOnMinute(workDate, wt.standardStart);
      SettingOnMinute(workDate, wt.standardEnd);
      SettingOnMinute(workDate, wt.standardEnd + 1440);
      assert Points(schedule) == Span(schedule[0]) + Points([]);
      CellwiseSpan(schedule[0]);
    }
  }

  /** Schedule and breaks consist of whole clock minutes. */
  lemma ScheduleCellwise(workDate: int, wt: WorkTime)
    ensures Cellwise(SchedulePoints(workDate, wt)) && Cellwise(BreakPoints(workDate, wt))
    ensures BreakPoints(workDate, wt) <= SchedulePoints(workDate, wt)
  {
    ScheduleOnMinutes(workDate, wt);
    if 0 <= wt.breakStart < wt.breakEnd {
      var b := Interval(DayStart(workDate) + wt.breakStart * MINUTE, DayStart(workDate) + wt.breakEnd * MINUTE);
      SettingOnMinute(workDate, wt.breakStart);
      SettingOnMinute(workDate, wt.breakEnd);
      CellwiseSpan(b);
      forall t, u | t in BreakPoints(workDate, wt) && SameMinute(t, u) ensures u in BreakPoints(workDate, wt) {
        assert t in Span(b) && t in SchedulePoints(workDate, wt);
      }
    }
  }

  predicate BreakInside(wt: WorkTime) {
    wt.standardStart <= wt.breakStart && wt.breakEnd <= wt.standardEnd
  }

  /** Required minutes: the standard span less a break inside it, or eight hours if that is void. */
  function RequiredMinutes(wt: WorkTime): (r: int)
    ensures r > 0
  {
    if wt.standardStart < 0 || wt.standardEnd < 0 || wt.standardEnd <= wt.standardStart then 480
    else
      var span := wt.standardEnd - wt.standardStart;
      var net := if 0 <= wt.breakStart < wt.breakEnd && BreakInside(wt)
        then span - (wt.breakEnd - wt.breakStart) else span;
      if net <= 0 then 480 else net
  }

  function BreakSpan(workDate: int, wt: WorkTime): Interval {
    if 0 <= wt.breakStart < wt.breakEnd then
      Interval(DayStart(workDate) + wt.breakStart * MINUTE, DayStart(workDate) + wt.breakEnd * MINUTE)
    else Interval(0, 0)
  }

  lemma DaySets(workDate: int, wt: WorkTime, schedule: Interval)
    requires ScheduleList(workDate, wt) == [schedule]
    ensures SchedulePoints(workDate, wt) == Span(schedule)
    ensures BreakPoints(workDate, wt) == Span(BreakSpan(workDate, wt)) * Span(schedule)
  {
    assert Points([schedule]) == Span(schedule) + Points([]) == Span(schedule);
  }

  lemma SpanLessSpan(a: Interval, b: Interval)
    requires a.start < a.end && b.start < b.end
    ensures var left := |Span(a) - Span(b) * Span(a)|;
      && (b.end <= a.start || a.end <= b.start ==> left == a.end - a.start)
      && (b.start < a.end && a.start < b.end ==> left < a.end - a.start)
      && (a.start <= b.start && b.end <= a.end ==> left == (a.end - a.start) - (b.end - b.start))
  {
    var common := Span(b) * Span(a);
    SpanSize(a);
    SpanSize(b);
    assert Span(a) == (Span(a) - common) + common;
    if b.start < a.end && a.start < b.end {
      assert (if a.start < b.start then b.start else a.start) in common;
    } else {
      assert common == {};
    }
    if a.start <= b.start && b.end <= a.end {
      assert common == Span(b);
    }
  }

  /** How much is left of a span of minutes when another is taken out. */
  predicate Remains(start: int, end: int, leaving: int, back: int, left: int) {
    && (back <= start || end <= leaving ==> left == (end - start) * MINUTE)
    && (leaving < end && start < back ==> left < (end - start) * MINUTE)
    && (start <= leaving && back <= end ==> left == (end - start - (back - leaving)) * MINUTE)
  }

  lemma MinutesLessMinutes(a: Interval, b: Interval, start: int, end: int, leaving: int, back: int)
    requires start < end && leaving < back
    requires a.end - a.start == (end - start) * MINUTE && b.end - b.start == (back - leaving) * MINUTE
    requires b.start - a.start == (leaving - start) * MINUTE
    ensures Remains(start, end, leaving, back, |Span(a) - Span(b) * Span(a)|)
  {
    SpanLessSpan(a, b);
  }

  /** Whether the policy's break has any time in common with a schedule within one day. */
  predicate BreakMeets(wt: WorkTime) {
    0 <= wt.breakStart < wt.breakEnd && wt.breakStart < wt.standardEnd && wt.standardStart < wt.breakEnd
  }

  /** How much of a schedule within one day lies outside the break. */
  predicate NetSize(wt: WorkTime, left: int) {
    if 0 <= wt.breakStart < wt.breakEnd
    then Remains(wt.standardStart, wt.standardEnd, wt.breakStart, wt.breakEnd, left)
    else left == (wt.standardEnd - wt.standardStart) * MINUTE
  }

  lemma NetSchedule(workDate: int, wt: WorkTime)
    requires 0 <= wt.standardStart < wt.standardEnd
    ensures NetSize(wt, |SchedulePoints(workDate, wt) - BreakPoints(workDate, wt)|)
  {
    var day := DayStart(workDate);
    var a := Interval(day + wt.standardStart * MINUTE, day + wt.standardEnd * MINUTE);
    DaySets(workDate, wt, a);
    if 0 <= wt.breakStart < wt.breakEnd {
      MinutesLessMinutes(a, BreakSpan(workDate, wt), wt.standardStart, wt.standardEnd, wt.breakStart, wt.breakEnd);
    } else {
      SpanSize(a);
      assert SchedulePoints(workDate, wt) - {} == Span(a);
    }
  }

  lemma RequiredFromSize(wt: WorkTime, left: int)
    requires 0 <= wt.standardStart < wt.standardEnd && NetSize(wt, left)
    ensures RequiredMinutes(wt) * MINUTE == left <==>
      || !BreakMeets(wt)
      || (BreakInside(wt) && wt.breakEnd - wt.breakStart < wt.standardEnd - wt.standardStart)
  {
  }

  /** For a schedule within one day the required minutes are the schedule's time outside the break,
      unless the break sticks out of the schedule or takes all of it. */
  lemma RequiredExactly(workDate: int, wt: WorkTime)
    requires 0 <= wt.standardStart < wt.standardEnd
    ensures RequiredMinutes(wt) * MINUTE == |SchedulePoints(workDate, wt) - BreakPoints(workDate, wt)| <==>
      || !BreakMeets(wt)
      || (BreakInside(wt) && wt.breakEnd - wt.breakStart < wt.standardEnd - wt.standardStart)
  {
    NetSchedule(workDate, wt);
    RequiredFromSize(wt, |SchedulePoints(workDate, wt) - BreakPoints(workDate, wt)|);
  }

  /** What is required in the other cases: eight hours when there is no schedule within one day or the
      break is all of it, the whole schedule when the break sticks out of it. */
  lemma RequiredOtherwise(wt: WorkTime)
    ensures !(0 <= wt.standardStart < wt.standardEnd) ==> RequiredMinutes(wt) == 8 * 60
    ensures wt.breakStart == wt.standardStart && wt.breakEnd == wt.standardEnd ==> RequiredMinutes(wt) == 8 * 60
    ensures 0 <= wt.standardStart < wt.standardEnd && BreakMeets(wt) && !BreakInside(wt) ==>
              RequiredMinutes(wt) == wt.standardEnd - wt.standardStart
  {
  }

  function MinuteOfDay(at: int): int {
    (at % DAY) / MINUTE
  }

  /** The exclusive deadline of an open clock: the end of the day or of an overnight schedule. */
  function OpenClockDeadline(workDate: int, wt: WorkTime): int {
    var cutoff, schedule := DayStart(workDate) + DAY, ScheduleList(workDate, wt);
    if schedule != [] && schedule[|schedule| - 1].end > cutoff then schedule[|schedule| - 1].end + MINUTE else cutoff
  }

  // ------------------------------------------------------ effective punches

  function EffectiveOnly(records: seq<ClockRecord>, workDate: int): seq<ClockRecord> {
    if records == [] then []
    else
      EffectiveOnly(records[..|records| - 1], workDate) +
      (if Effective(records[|records| - 1], workDate) then [records[|records| - 1]] else [])
  }

  /** Order of punches: clock time, then creation time, then identifier. */
  predicate PunchBefore(a: ClockRecord, b: ClockRecord) {
    if a.clockedAt == b.clockedAt then
      if a.createdAt == b.createdAt then a.id < b.id else a.createdAt < b.createdAt
    else a.clockedAt < b.clockedAt
  }

  function SortedPunches(records: seq<ClockRecord>, workDate: int): seq<ClockRecord> {
    StableSort(PunchBefore, EffectiveOnly(records, workDate))
  }

  lemma {:induction false} EffectiveMember(records: seq<ClockRecord>, workDate: int, r: ClockRecord)
    ensures r in EffectiveOnly(records, workDate) <==> r in records && Effective(r, workDate)
  {
    if records != [] {
      EffectiveMember(records[..|records| - 1], workDate, r);
      assert r in records <==> r in records[..|records| - 1] || r == records[|records| - 1];
    }
  }

  lemma SortedPunchesMember(records: seq<ClockRecord>, workDate: int, r: ClockRecord)
    ensures r in SortedPunches(records, workDate) <==> r in records && Effective(r, workDate)
  {
    SortContents(PunchBefore, EffectiveOnly(records, workDate));
    EffectiveMember(records, workDate, r);
  }

  lemma PunchesTimeOrdered(records: seq<ClockRecord>, workDate: int)
    ensures Sorted(PunchBefore, SortedPunches(records, workDate))
    ensures TimeOrdered(SortedPunches(records, workDate))
  {
    SortSorted(PunchBefore, EffectiveOnly(records, workDate));
    var e := SortedPunches(records, workDate);
    forall i, j | 0 <= i < j < |e| ensures e[i].clockedAt <= e[j].clockedAt {
      assert !PunchBefore(e[j], e[i]);
    }
  }

  /** The earliest clock-in, the first listed among equals. */
  function EarliestIn(ps: seq<ClockRecord>): Option<ClockRecord> {
    if ps == [] then None
    else
      var r, p := EarliestIn(ps[..|ps| - 1]), ps[|ps| - 1];
      if p.direction == ClockIn && (r.None? || p.clockedAt < r.value.clockedAt) then Some(p) else r
  }

  /** The latest clock-out, the first listed among equals. */
  function LatestOut(ps: seq<ClockRecord>): Option<ClockRecord> {
    if ps == [] then None
    else
      var r, p := LatestOut(ps[..|ps| - 1]), ps[|ps| - 1];
      if p.direction == ClockOut && (r.None? || p.clockedAt > r.value.clockedAt) then Some(p) else r
  }

  lemma {:induction false} BoundaryPunches(ps: seq<ClockRecord>)
    ensures EarliestIn(ps).None? <==> forall p | p in ps :: p.direction == ClockOut
    ensures LatestOut(ps).None? <==> forall p | p in ps :: p.direction == ClockIn
    ensures EarliestIn(ps).Some? ==>
      EarliestIn(ps).value in ps && EarliestIn(ps).value.direction == ClockIn &&
      forall p | p in ps && p.direction == ClockIn :: EarliestIn(ps).value.clockedAt <= p.clockedAt
    ensures LatestOut(ps).Some? ==>
      LatestOut(ps).value in ps && LatestOut(ps).value.direction == ClockOut &&
      forall p | p in ps && p.direction == ClockOut :: p.clockedAt <= LatestOut(ps).value.clockedAt
  {
    if ps != [] {
      BoundaryPunches(ps[..|ps| - 1]);
      assert forall p :: p in ps <==> p in ps[..|ps| - 1] || p == ps[|ps| - 1];
    }
  }

  // -------------------------------------------------------------- anomalies

  /** A punch outside its window: tardiness counts only on a day short of hours. */
  predicate OutOfWindow(clockIn: Option<ClockRecord>, clockOut: Option<ClockRecord>, short: bool, wt: WorkTime) {
    match wt.clockMode
    case FixedMode =>
      short && (
        (clockIn.Some? && 0 <= wt.standardStart < MinuteOfDay(clockIn.value.clockedAt)) ||
        (clockOut.Some? && MinuteOfDay(clockOut.value.clockedAt) < wt.standardEnd))
    case FlexibleMode =>
      (clockIn.Some? && MinuteOfDay(clockIn.value.clockedAt) < wt.flexibleEarliest) ||
      (clockOut.Some? && 0 <= wt.flexibleLatest < MinuteOfDay(clockOut.value.clockedAt))
    case OtherMode => false
  }

  function Anomalies(clockIn: Option<ClockRecord>, clockOut: Option<ClockRecord>, short: bool,
                     wt: WorkTime): seq<Anomaly> {
    (if clockOut.Some? && short then [InsufficientWorkHours] else []) +
    (if OutOfWindow(clockIn, clockOut, short, wt) then [OutsideWindow] else [])
  }

  method AppendUnique(values: seq<Anomaly>, value: Anomaly) returns (out: seq<Anomaly>)
    ensures out == if value in values then values else values + [value]
  {
    for i := 0 to |values|
      invariant value !in values[..i]
    {
      if values[i] == value {
        return values;
      }
    }
    assert values[..|values|] == values;
    out := values + [value];
  }

  method AttendanceDayAnomalies(projection: Projection, wt: WorkTime) returns (reasons: seq<Anomaly>)
    ensures reasons == Anomalies(projection.clockIn, projection.clockOut, Short(projection), wt)
  {
    reasons := [];
    var credited := projection.workedMinutes + projection.approvedLeaveMinutes;
    if projection.clockOut.Some? && credited < projection.requiredMinutes {
      reasons := reasons + [InsufficientWorkHours];
    }
    if projection.clockIn.Some? && wt.clockMode == FixedMode && credited < projection.requiredMinutes {
      if wt.standardStart >= 0 && MinuteOfDay(projection.clockIn.value.clockedAt) > wt.standardStart {
        reasons := AppendUnique(reasons, OutsideWindow);
      }
    }
    if projection.clockOut.Some? && wt.clockMode == FixedMode {
      if wt.standardEnd >= 0 && MinuteOfDay(projection.clockOut.value.clockedAt) < wt.standardEnd
         && credited < projection.requiredMinutes {
        reasons := AppendUnique(reasons, OutsideWindow);
      }
    }
    if wt.clockMode == FlexibleMode {
      if projection.clockIn.Some? && wt.flexibleEarliest >= 0
         && MinuteOfDay(projection.clockIn.value.clockedAt) < wt.flexibleEarliest {
        reasons := AppendUnique(reasons, OutsideWindow);
      }
      if projection.clockOut.Some? && wt.flexibleLatest >= 0
         && MinuteOfDay(projection.clockOut.value.clockedAt) > wt.flexibleLatest {
        reasons := AppendUnique(reasons, OutsideWindow);
      }
    }
  }

  // ------------------------------------------------------------- projection

  ghost function ApprovedPoints(leaves: seq<Leave>, workDate: int, wt: WorkTime): set<int> {
    FactPoints(leaves, ApprovedFact, SchedulePoints(workDate, wt), BreakPoints(workDate, wt))
  }

  ghost function PendingPoints(leaves: seq<Leave>, workDate: int, wt: WorkTime): set<int> {
    FactPoints(leaves, PendingFact, SchedulePoints(workDate, wt), BreakPoints(workDate, wt))
  }

  /** The status rule over a day's boundary punches, minutes and anomalies. */
  function StatusOf(p: Projection, expired: bool): (DayStatus, seq<Anomaly>) {
    if p.clockIn.None? then
      if p.pendingLeaveMinutes > 0 then (PendingLeave, p.anomalyReasons)
      else if p.requiredMinutes > 0 && p.approvedLeaveMinutes >= p.requiredMinutes then (Complete, p.anomalyReasons)
      else if p.approvedLeaveMinutes > 0 then
        (Abnormal, if InsufficientWorkHours in p.anomalyReasons then p.anomalyReasons
           else p.anomalyReasons + [InsufficientWorkHours])
      else (NotStarted, p.anomalyReasons)
    else if p.clockOut.None? then
      if expired then
        (Abnormal, if MissingClockOut in p.anomalyReasons then p.anomalyReasons
           else p.anomalyReasons + [MissingClockOut])
      else (Working, p.anomalyReasons)
    else if p.anomalyReasons == [] then (Complete, [])
    else if p.pendingLeaveMinutes > 0 then (PendingLeave, p.anomalyReasons)
    else (Abnormal, p.anomalyReasons)
  }

  function IdOf(r: Option<ClockRecord>): Option<int> {
    if r.Some? then Some(r.value.id) else None
  }

  function PunchFigures(e: seq<ClockRecord>, workDate: int, wt: WorkTime): Projection {
    var last: Option<ClockRecord> := if e == [] then None else Some(e[|e| - 1]);
    Projection(workDate, None, None, IdOf(EarliestIn(e)), IdOf(LatestOut(e)), IdOf(last), |e|, 0, 0, 0,
               RequiredMinutes(wt),
               NotStarted, [], EarliestIn(e), LatestOut(e), last, e == [],
               EarliestIn(e).Some? && last.Some? && last.value.direction == ClockIn)
  }

  /** Everything but status and anomalies, from the ordered effective punches. */
  ghost function Figures(e: seq<ClockRecord>, leaves: seq<Leave>, workDate: int, wt: WorkTime, asOf: int): Projection {
    var approved := ApprovedPoints(leaves, workDate, wt);
    var schedule := ScheduleList(workDate, wt);
    PunchFigures(e, workDate, wt).(
      scheduledStartAt := if schedule == [] then None else Some(schedule[0].start),
      scheduledEndAt := if schedule == [] then None else Some(schedule[0].end),
      workedMinutes := RoundedMinutes(|NetWorked(WorkedPoints(e, asOf), BreakPoints(workDate, wt), approved)|),
      approvedLeaveMinutes := RoundedMinutes(|approved|),
      pendingLeaveMinutes := RoundedMinutes(|PendingPoints(leaves, workDate, wt)|))
  }

  predicate Short(p: Projection) {
    p.workedMinutes + p.approvedLeaveMinutes < p.requiredMinutes
  }

  function WithStatus(p: Projection, wt: WorkTime, expired: bool): Projection {
    var judged := p.(anomalyReasons := Anomalies(p.clockIn, p.clockOut, Short(p), wt));
    var (status, reasons) := StatusOf(judged, expired);
    judged.(dayStatus := status, anomalyReasons := reasons)
  }

  ghost function ProjectionOf(records: seq<ClockRecord>, leaves: seq<Leave>, workDate: int, wt: WorkTime,
                              asOf: int): Projection {
    WithStatus(Figures(SortedPunches(records, workDate), leaves, workDate, wt, asOf), wt,
               asOf >= OpenClockDeadline(workDate, wt))
  }

  method SelectEffective(records: seq<ClockRecord>, workDate: int) returns (effective: seq<ClockRecord>)
    ensures effective == EffectiveOnly(records, workDate)
  {
    effective := [];
    for i := 0 to |records|
      invariant effective == EffectiveOnly(records[..i], workDate)
    {
      var record := records[i];
      assert records[..i + 1][..i] == records[..i];
      if record.workDate != workDate || record.status != Accepted || record.voided {
        continue;
      }
      effective := effective + [record];
    }
    assert records[..|records|] == records;
  }

  method ScanPunches(effective: seq<ClockRecord>) returns (clockIn: Option<ClockRecord>, clockOut: Option<ClockRecord>)
    ensures clockIn == EarliestIn(effective) && clockOut == LatestOut(effective)
  {
    clockIn, clockOut := None, None;
    for i := 0 to |effective|
      invariant clockIn == EarliestIn(effective[..i]) && clockOut == LatestOut(effective[..i])
    {
      var record := effective[i];
      assert effective[..i + 1][..i] == effective[..i];
      match record.direction
      case ClockIn =>
        if clockIn.None? || record.clockedAt < clockIn.value.clockedAt {
          clockIn := Some(record);
        }
      case ClockOut =>
        if clockOut.None? || record.clockedAt > clockOut.value.clockedAt {
          clockOut := Some(record);
        }
    }
    assert effective[..|effective|] == effective;
  }

  method DecideStatus(figures: Projection, wt: WorkTime, expired: bool) returns (projection: Projection)
    ensures projection == WithStatus(figures, wt, expired)
  {
    projection := figures;
    var reasons := AttendanceDayAnomalies(projection, wt);
    projection := projection.(anomalyReasons := reasons);
    if projection.clockIn.None? && projection.pendingLeaveMinutes > 0 {
      projection := projection.(dayStatus := PendingLeave);
    } else if projection.clockIn.None? && projection.requiredMinutes > 0
              && projection.approvedLeaveMinutes >= projection.requiredMinutes {
      projection := projection.(dayStatus := Complete);
    } else if projection.clockIn.None? && projection.approvedLeaveMinutes > 0 {
      reasons := AppendUnique(projection.anomalyReasons, InsufficientWorkHours);
      projection := projection.(anomalyReasons := reasons, dayStatus := Abnormal);
    } else if projection.clockIn.None? {
      projection := projection.(dayStatus := NotStarted);
    } else if projection.clockOut.None? && expired {
      reasons := AppendUnique(projection.anomalyReasons, MissingClockOut);
      projection := projection.(anomalyReasons := reasons, dayStatus := Abnormal);
    } else if projection.clockOut.None? {
      projection := projection.(dayStatus := Working);
    } else if |projection.anomalyReasons| == 0 {
      projection := projection.(dayStatus := Complete);
    } else if projection.pendingLeaveMinutes > 0 {
      projection := projection.(dayStatus := PendingLeave);
    } else {
      projection := projection.(dayStatus := Abnormal);
    }
  }

  method CreditedMinutes(effective: seq<ClockRecord>, leaves: seq<Leave>, workDate: int, wt: WorkTime, asOf: int)
    returns (workedMinutes: int, approvedMinutes: int, pendingMinutes: int, schedule: seq<Interval>)
    ensures schedule == ScheduleList(workDate, wt)
    ensures approvedMinutes == RoundedMinutes(|ApprovedPoints(leaves, workDate, wt)|)
    ensures pendingMinutes == RoundedMinutes(|PendingPoints(leaves, workDate, wt)|)
    ensures workedMinutes == RoundedMinutes(|NetWorked(WorkedPoints(effective, asOf), BreakPoints(workDate, wt),
                                                       ApprovedPoints(leaves, workDate, wt))|)
  {
    var breaks: seq<Interval>;
    schedule, breaks := AttendanceScheduleIntervals(workDate, wt);
    var approvedLeave, pendingLeave := AttendanceEffectiveLeaveIntervals(leaves, schedule, breaks);
    approvedMinutes := IntervalMinutes(approvedLeave);
    pendingMinutes := IntervalMinutes(pendingLeave);
    var workIntervals := AttendanceWorkIntervals(effective, asOf);
    PointsConcat(breaks, approvedLeave);
    workIntervals := SubtractIntervals(workIntervals, breaks + approvedLeave);
    workedMinutes := IntervalMinutes(workIntervals);
  }

  /** The fields that come from the ordered punches alone. */
  method PunchFields(effective: seq<ClockRecord>, workDate: int, wt: WorkTime) returns (projection: Projection)
    ensures projection == PunchFigures(effective, workDate, wt)
  {
    var clockIn, clockOut := ScanPunches(effective);
    projection := Projection(workDate, None, None, None, None, None, |effective|, 0, 0, 0, RequiredMinutes(wt),
                             NotStarted, [], clockIn, clockOut, None, |effective| == 0, false);
    if |effective| > 0 {
      var last := effective[|effective| - 1];
      projection := projection.(lastPunch := Some(last), lastPunchRecordId := Some(last.id));
    }
    projection := projection.(canClockOut := clockIn.Some? && projection.lastPunch.Some?
                                             && projection.lastPunch.value.direction == ClockIn);
    if clockIn.Some? {
      projection := projection.(clockInRecordId := Some(clockIn.value.id));
    }
    if clockOut.Some? {
      projection := projection.(clockOutRecordId := Some(clockOut.value.id));
    }
  }

  method ProjectAttendanceDay(records: seq<ClockRecord>, leaves: seq<Leave>, workDate: int, wt: WorkTime, asOf: int)
    returns (projection: Projection)
    ensures projection == ProjectionOf(records, leaves, workDate, wt, asOf)
  {
    var effective := SelectEffective(records, workDate);
    effective := StableSort(PunchBefore, effective);
    projection := PunchFields(effective, workDate, wt);
    var worked, approved, pending, schedule := CreditedMinutes(effective, leaves, workDate, wt, asOf);
    if |schedule| > 0 {
      projection := projection.(scheduledStartAt := Some(schedule[0].start),
                                scheduledEndAt := Some(schedule[|schedule| - 1].end));
    }
    projection := projection.(workedMinutes := worked, approvedLeaveMinutes := approved,
                              pendingLeaveMinutes := pending);
    projection := DecideStatus(projection, wt, asOf >= OpenClockDeadline(workDate, wt));
  }

  // ------------------------------------------------------------ properties

  /** A day is reported complete exactly when its credit reaches the required minutes and either it
      has both boundary punches inside any flexible window, or it has no clock-in and no leave still
      pending. On a fixed schedule lateness is forgiven once the hours are made up. */
  lemma CompleteExactly(p: Projection, wt: WorkTime, expired: bool)
    requires p.requiredMinutes > 0 && p.pendingLeaveMinutes >= 0
    requires p.clockIn.None? ==> p.workedMinutes == 0
    ensures WithStatus(p, wt, expired).dayStatus == Complete <==>
      && p.workedMinutes + p.approvedLeaveMinutes >= p.requiredMinutes
      && (if p.clockIn.Some? then p.clockOut.Some? && !OutOfWindow(p.clockIn, p.clockOut, false, wt)
          else p.pendingLeaveMinutes == 0)
  {
    assert Short(p) || OutOfWindow(p.clockIn, p.clockOut, Short(p), wt)
             == OutOfWindow(p.clockIn, p.clockOut, false, wt);
  }

  lemma NothingWorked(e: seq<ClockRecord>, asOf: int)
    requires EarliestIn(e).None?
    ensures WorkedPoints(e, asOf) == {}
  {
    BoundaryPunches(e);
    SessionsOfClockOuts(e);
  }

  lemma FiguresWithoutClockIn(e: seq<ClockRecord>, leaves: seq<Leave>, workDate: int, wt: WorkTime, asOf: int)
    requires EarliestIn(e).None?
    ensures Figures(e, leaves, workDate, wt, asOf).workedMinutes == 0
  {
    NothingWorked(e, asOf);
    assert NetWorked({}, BreakPoints(workDate, wt), ApprovedPoints(leaves, workDate, wt)) == {};
  }

  /** The completeness rule on real days: complete days have their hours. */
  lemma CompleteDayHasItsHours(records: seq<ClockRecord>, leaves: seq<Leave>, workDate: int, wt: WorkTime, asOf: int)
    ensures var p := ProjectionOf(records, leaves, workDate, wt, asOf);
      && (p.clockIn.None? ==> p.workedMinutes == 0)
      && (p.dayStatus == Complete <==>
            && p.workedMinutes + p.approvedLeaveMinutes >= p.requiredMinutes
            && (if p.clockIn.Some? then p.clockOut.Some? && !OutOfWindow(p.clockIn, p.clockOut, false, wt)
                else p.pendingLeaveMinutes == 0))
  {
    var e := SortedPunches(records, workDate);
    if EarliestIn(e).None? {
      FiguresWithoutClockIn(e, leaves, workDate, wt, asOf);
    }
    CompleteExactly(Figures(e, leaves, workDate, wt, asOf), wt, asOf >= OpenClockDeadline(workDate, wt));
  }

  ghost predicate DistinctIds(records: seq<ClockRecord>) {
    forall x, y | x in records && y in records && x.id == y.id :: x == y
  }

  lemma {:induction false} EffectiveContents(a: seq<ClockRecord>, workDate: int, r: ClockRecord)
    ensures multiset(EffectiveOnly(a, workDate))[r] == if Effective(r, workDate) then multiset(a)[r] else 0
  {
    if a != [] {
      EffectiveContents(a[..|a| - 1], workDate, r);
      assert a == a[..|a| - 1] + [a[|a| - 1]];
    }
  }

  lemma PunchesIgnoreListing(a: seq<ClockRecord>, b: seq<ClockRecord>, workDate: int)
    requires multiset(a) == multiset(b) && DistinctIds(a)
    ensures SortedPunches(a, workDate) == SortedPunches(b, workDate)
  {
    var ea, eb := EffectiveOnly(a, workDate), EffectiveOnly(b, workDate);
    forall r ensures multiset(ea)[r] == multiset(eb)[r] {
      EffectiveContents(a, workDate, r);
      EffectiveContents(b, workDate, r);
    }
    assert multiset(ea) == multiset(eb);
    SortContents(PunchBefore, ea);
    SortContents(PunchBefore, eb);
    PunchesTimeOrdered(a, workDate);
    PunchesTimeOrdered(b, workDate);
    forall x | x in SortedPunches(a, workDate) ensures x in a {
      SortedPunchesMember(a, workDate, x);
    }
    SortedUnique(PunchBefore, SortedPunches(a, workDate), SortedPunches(b, workDate));
  }

  /** Leave facts count as a set. */
  lemma LeaveCountsAsASet(la: seq<Leave>, lb: seq<Leave>, workDate: int, wt: WorkTime)
    requires forall l | l in la :: l in lb
    ensures ApprovedPoints(la, workDate, wt) <= ApprovedPoints(lb, workDate, wt)
    ensures PendingPoints(la, workDate, wt) <= PendingPoints(lb, workDate, wt)
    ensures ApprovedPoints(la, workDate, wt) <= SchedulePoints(workDate, wt) - BreakPoints(workDate, wt)
  {
    FactsActAsASet(la, lb, ApprovedFact, SchedulePoints(workDate, wt), BreakPoints(workDate, wt));
    FactsActAsASet(la, lb, PendingFact, SchedulePoints(workDate, wt), BreakPoints(workDate, wt));
  }

  /** The order in which records and leave facts are listed has no influence on the projection, nor
      has listing a fact twice. */
  lemma ProjectionIgnoresListing(a: seq<ClockRecord>, b: seq<ClockRecord>, la: seq<Leave>, lb: seq<Leave>,
                                 workDate: int, wt: WorkTime, asOf: int)
    requires multiset(a) == multiset(b) && DistinctIds(a)
    requires forall l :: l in la <==> l in lb
    ensures ProjectionOf(a, la, workDate, wt, asOf) == ProjectionOf(b, lb, workDate, wt, asOf)
  {
    PunchesIgnoreListing(a, b, workDate);
    LeaveCountsAsASet(la, lb, workDate, wt);
    LeaveCountsAsASet(lb, la, workDate, wt);
    assert ApprovedPoints(la, workDate, wt) == ApprovedPoints(lb, workDate, wt);
    assert PendingPoints(la, workDate, wt) == PendingPoints(lb, workDate, wt);
  }

  ghost predicate OnMinutes(records: seq<ClockRecord>, leaves: seq<Leave>, asOf: int) {
    && (forall r | r in records :: r.clockedAt % MINUTE == 0)
    && (forall l | l in leaves :: l.startAt % MINUTE == 0 && l.endAt % MINUTE == 0)
    && asOf % MINUTE == 0
  }

  lemma StatusKeepsFigures(p: Projection, wt: WorkTime, expired: bool)
    ensures WithStatus(p, wt, expired).(dayStatus := p.dayStatus, anomalyReasons := p.anomalyReasons) == p
  {
  }

  ghost function NetOf(e: seq<ClockRecord>, approved: set<int>, workDate: int, wt: WorkTime, asOf: int): set<int> {
    NetWorked(WorkedPoints(e, asOf), BreakPoints(workDate, wt), approved)
  }

  lemma DayTotals(records: seq<ClockRecord>, leaves: seq<Leave>, workDate: int, wt: WorkTime, asOf: int)
    ensures var p, approved := ProjectionOf(records, leaves, workDate, wt, asOf), ApprovedPoints(leaves, workDate, wt);
      && p.workedMinutes == RoundedMinutes(|NetOf(SortedPunches(records, workDate), approved, workDate, wt, asOf)|)
      && p.approvedLeaveMinutes == RoundedMinutes(|approved|)
  {
    StatusKeepsFigures(Figures(SortedPunches(records, workDate), leaves, workDate, wt, asOf), wt,
                       asOf >= OpenClockDeadline(workDate, wt));
  }

  /** An extra approved fact never lowers the day's credit by more than the minute rounding can cost,
      and not at all when punches, leave and clock lie on whole minutes. */
  lemma ExtraLeaveKeepsCredit(records: seq<ClockRecord>, leaves: seq<Leave>, extra: Leave, workDate: int, wt: WorkTime,
                              asOf: int)
    ensures var p, q := ProjectionOf(records, leaves, workDate, wt, asOf),
                        ProjectionOf(records, leaves + [extra], workDate, wt, asOf);
      && TotalMinutes(q) >= TotalMinutes(p) - 1
      && (OnMinutes(records, leaves + [extra], asOf) ==> TotalMinutes(q) >= TotalMinutes(p))
  {
    var e, more := SortedPunches(records, workDate), leaves + [extra];
    LeaveCountsAsASet(leaves, more, workDate, wt);
    LeaveCountsAsASet(more, more, workDate, wt);
    if OnMinutes(records, more, asOf) {
      forall r | r in e ensures r.clockedAt % MINUTE == 0 {
        SortedPunchesMember(records, workDate, r);
      }
      WorkedCellwise(e, asOf);
      ScheduleCellwise(workDate, wt);
      assert forall l :: l in leaves ==> l in more;
      FactsCellwise(leaves, ApprovedFact, SchedulePoints(workDate, wt), BreakPoints(workDate, wt));
      FactsCellwise(more, ApprovedFact, SchedulePoints(workDate, wt), BreakPoints(workDate, wt));
    }
    MoreLeaveCreditsMore(WorkedPoints(e, asOf), BreakPoints(workDate, wt),
                         ApprovedPoints(leaves, workDate, wt), ApprovedPoints(more, workDate, wt));
    DayTotals(records, leaves, workDate, wt, asOf);
    DayTotals(records, more, workDate, wt, asOf);
  }

  /** What a fact adds to a day's approved time. */
  ghost function ApprovedCredit(l: Leave, workDate: int, wt: WorkTime): set<int> {
    if l.status == ApprovedFact then CreditedPoints(l, SchedulePoints(workDate, wt), BreakPoints(workDate, wt)) else {}
  }

  lemma ExtraFact(leaves: seq<Leave>, extra: Leave, workDate: int, wt: WorkTime)
    ensures ApprovedPoints(leaves + [extra], workDate, wt)
              == ApprovedPoints(leaves, workDate, wt) + ApprovedCredit(extra, workDate, wt)
    ensures ApprovedPoints(leaves, workDate, wt) !! BreakPoints(workDate, wt)
    ensures ApprovedCredit(extra, workDate, wt) !! BreakPoints(workDate, wt)
  {
    assert (leaves + [extra])[..|leaves|] == leaves;
    LeaveCountsAsASet(leaves, leaves, workDate, wt);
    CreditWithinSchedule(extra, SchedulePoints(workDate, wt), BreakPoints(workDate, wt));
  }

  function TotalMinutes(p: Projection): int {
    p.workedMinutes + p.approvedLeaveMinutes
  }

  /** When an extra fact lowers a day's total, exactly, from the day as it was and the fact's credit. */
  lemma ExtraLeaveDropsExactly(records: seq<ClockRecord>, leaves: seq<Leave>, extra: Leave, workDate: int, wt: WorkTime,
                               asOf: int)
    ensures var p, q := ProjectionOf(records, leaves, workDate, wt, asOf),
                        ProjectionOf(records, leaves + [extra], workDate, wt, asOf);
            var approved, credit := ApprovedPoints(leaves, workDate, wt), ApprovedCredit(extra, workDate, wt);
      TotalMinutes(q) < TotalMinutes(p) <==>
        LosesAMinute(NetOf(SortedPunches(records, workDate), approved, workDate, wt, asOf), approved, credit)
  {
    var e, more := SortedPunches(records, workDate), leaves + [extra];
    ExtraFact(leaves, extra, workDate, wt);
    RoundedCreditDrops(WorkedPoints(e, asOf), BreakPoints(workDate, wt), ApprovedPoints(leaves, workDate, wt),
                       ApprovedCredit(extra, workDate, wt));
    DayTotals(records, leaves, workDate, wt, asOf);
    DayTotals(records, more, workDate, wt, asOf);
  }

  // ------------------------------------------------- the cap on a real day

  function Solid(start: int, end: int): seq<Interval> {
    if start < end then [Interval(start, end)] else []
  }

  /** What is left of a stretch inside a day and outside a pause. */
  function Outside(leave: Interval, day: Interval, pause: Interval): seq<Interval> {
    var start := if leave.start < day.start then day.start else leave.start;
    var end := Min(leave.end, day.end);
    if pause.start < pause.end then
      Solid(start, Min(end, pause.start)) + Solid(if start < pause.end then pause.end else start, end)
    else Solid(start, end)
  }

  /** The at most two stretches of a leave inside the schedule, before and after the break. */
  function Stretches(l: Leave, workDate: int, wt: WorkTime): seq<Interval> {
    var schedule := ScheduleList(workDate, wt);
    if schedule == [] then []
    else
      Outside(Interval(l.startAt, l.endAt), schedule[0], BreakSpan(workDate, wt))
  }

  lemma TwoStretches(a: Interval, b: Interval)
    requires a.start < a.end < b.start < b.end
    ensures Canonical([a]) && Points([a]) == Span(a)
    ensures Canonical([a, b]) && Points([a, b]) == Span(a) + Span(b)
  {
    assert [a][1..] == [] && [a, b][1..] == [b] && [b][1..] == [];
    assert Points([a]) == Span(a) + Points([]);
    assert Points([b]) == Span(b) + Points([]);
    assert Points([a, b]) == Span(a) + Points([b]);
  }

  lemma OneStretch(start: int, end: int)
    ensures Canonical(Solid(start, end)) && Points(Solid(start, end)) == Span(Interval(start, end))
  {
    if start < end {
      TwoStretches(Interval(start, end), Interval(end + 1, end + 2));
    }
  }

  /** Two stretches that leave room between them. */
  lemma SolidPair(a: int, b: int, c: int, d: int)
    requires b < c
    ensures Canonical(Solid(a, b) + Solid(c, d))
    ensures Points(Solid(a, b) + Solid(c, d)) == Span(Interval(a, b)) + Span(Interval(c, d))
  {
    OneStretch(a, b);
    OneStretch(c, d);
    if a < b && c < d {
      TwoStretches(Interval(a, b), Interval(c, d));
      assert Solid(a, b) + Solid(c, d) == [Interval(a, b), Interval(c, d)];
    } else if a < b {
      assert Solid(a, b) + Solid(c, d) == Solid(a, b);
    } else {
      assert Solid(a, b) + Solid(c, d) == Solid(c, d);
    }
  }

  lemma ClipToDay(leave: Interval, day: Interval, start: int, end: int)
    requires start == (if leave.start < day.start then day.start else leave.start) && end == Min(leave.end, day.end)
    ensures Span(leave) * Span(day) == Span(Interval(start, end))
  {
  }

  lemma ClipAround(start: int, end: int, leaving: int, back: int)
    requires leaving < back
    ensures Span(Interval(start, end)) - Span(Interval(leaving, back))
         == Span(Interval(start, Min(end, leaving))) + Span(Interval(if start < back then back else start, end))
  {
  }

  lemma OutsideCovers(leave: Interval, day: Interval, pause: Interval)
    ensures Canonical(Outside(leave, day, pause))
    ensures Points(Outside(leave, day, pause)) == Span(leave) * Span(day) - Span(pause) * Span(day)
  {
    var start := if leave.start < day.start then day.start else leave.start;
    var end := Min(leave.end, day.end);
    ClipToDay(leave, day, start, end);
    if pause.start < pause.end {
      ClipAround(start, end, pause.start, pause.end);
      SolidPair(start, Min(end, pause.start), if start < pause.end then pause.end else start, end);
    } else {
      OneStretch(start, end);
      assert Span(pause) == {};
    }
  }

  lemma StretchesCover(l: Leave, workDate: int, wt: WorkTime)
    ensures Canonical(Stretches(l, workDate, wt))
    ensures Points(Stretches(l, workDate, wt))
              == ClippedPoints(l, SchedulePoints(workDate, wt), BreakPoints(workDate, wt))
  {
    var list, pause := ScheduleList(workDate, wt), BreakSpan(workDate, wt);
    if list == [] {
      assert SchedulePoints(workDate, wt) == {};
    } else {
      DaySets(workDate, wt, list[0]);
      OutsideCovers(Interval(l.startAt, l.endAt), list[0], pause);
    }
  }

  /** They are what is left of the leave after the schedule and the break. */
  lemma StretchesAreClipped(l: Leave, workDate: int, wt: WorkTime)
    ensures Runs(ClippedPoints(l, SchedulePoints(workDate, wt), BreakPoints(workDate, wt)))
              == Stretches(l, workDate, wt)
  {
    StretchesCover(l, workDate, wt);
    RunsUnique(Stretches(l, workDate, wt));
  }

  /** When a leave fact stays within its net minutes on a given day, from its two times, the schedule and
      the break alone. */
  lemma LeaveCapExactly(l: Leave, workDate: int, wt: WorkTime)
    requires l.netMinutes > 0
    ensures var stretches := Stretches(l, workDate, wt);
            var credited := CreditedPoints(l, SchedulePoints(workDate, wt), BreakPoints(workDate, wt));
      && Measure(stretches) >= 0
      && (|credited| <= l.netMinutes * MINUTE <==>
            || Measure(stretches) <= l.netMinutes * MINUTE
            || (l.netMinutes < RoundedMinutes(Measure(stretches)) && Spill(stretches, l.netMinutes) == 0))
      && (RoundedMinutes(|credited|) <= l.netMinutes <==>
            RoundedMinutes(Measure(stretches)) <= l.netMinutes || 2 * Spill(stretches, l.netMinutes) < MINUTE)
  {
    var clipped := ClippedPoints(l, SchedulePoints(workDate, wt), BreakPoints(workDate, wt));
    StretchesAreClipped(l, workDate, wt);
    MeasureCountsPoints(Runs(clipped));
    CapHoldsExactly(l, SchedulePoints(workDate, wt), BreakPoints(workDate, wt));
  }

  /** Nine to six with a break from twelve to one. */
  const OFFICE_HOURS := WorkTime(FixedMode, 540, 1080, 720, 780, -1, -1, 0)

  /** From ninety seconds before that break to ninety seconds after it, two net minutes. */
  const AROUND_BREAK := Leave(7, 1, 718 * MINUTE + 30_000_000_000, 781 * MINUTE + 30_000_000_000, 2, ApprovedFact, 1)

  const BEFORE_BREAK := Interval(718 * MINUTE + 30_000_000_000, 720 * MINUTE)
  const AFTER_BREAK := Interval(780 * MINUTE, 781 * MINUTE + 30_000_000_000)

  lemma AroundBreakStretches()
    ensures Stretches(AROUND_BREAK, 0, OFFICE_HOURS) == [BEFORE_BREAK, AFTER_BREAK]
  {
  }

  lemma AroundBreakKept()
    ensures Capped([BEFORE_BREAK, AFTER_BREAK], 2) == [BEFORE_BREAK, AFTER_BREAK]
    ensures Measure([BEFORE_BREAK, AFTER_BREAK]) == 3 * MINUTE
  {
    var s := [BEFORE_BREAK, AFTER_BREAK];
    assert s[1..] == [AFTER_BREAK] && [AFTER_BREAK][1..] == [];
    assert Measure([AFTER_BREAK]) == 90_000_000_000;
    assert Capped([AFTER_BREAK], 1) == [AFTER_BREAK] + Capped([], 0);
  }

  lemma OneFact(l: Leave, workDate: int, wt: WorkTime)
    requires l.status == ApprovedFact
    ensures ApprovedPoints([l], workDate, wt)
              == CreditedPoints(l, SchedulePoints(workDate, wt), BreakPoints(workDate, wt))
  {
    assert [l][..0] == [];
    assert FactPoints([], ApprovedFact, SchedulePoints(workDate, wt), BreakPoints(workDate, wt)) == {};
  }

  /** The overshoot is real: a leave that grants two minutes is credited three. */
  lemma LeaveOvershoots(asOf: int)
    ensures AROUND_BREAK.netMinutes == 2
    ensures ProjectionOf([], [AROUND_BREAK], 0, OFFICE_HOURS, asOf).approvedLeaveMinutes == 3
  {
    var l, wt := AROUND_BREAK, OFFICE_HOURS;
    var clipped := ClippedPoints(l, SchedulePoints(0, wt), BreakPoints(0, wt));
    AroundBreakStretches();
    AroundBreakKept();
    StretchesAreClipped(l, 0, wt);
    assert Runs(clipped) == [BEFORE_BREAK, AFTER_BREAK];
    MeasureCountsPoints(Runs(clipped));
    OneFact(l, 0, wt);
    DayTotals([], [l], 0, wt, asOf);
  }

  // ------------------------------------------- a lost minute on a real day

  /** In at nine, out ninety seconds later. */
  const SHORT_DAY := [
    ClockRecord(1, 7, 0, ClockIn, Accepted, false, 540 * MINUTE, 540 * MINUTE, None, 0, None),
    ClockRecord(2, 7, 0, ClockOut, Accepted, false,
                541 * MINUTE + 30_000_000_000, 541 * MINUTE + 30_000_000_000, None, 0, None)]

  /** Leave for the first twenty of those seconds. */
  const FIRST_SECONDS := Leave(7, 1, 540 * MINUTE, 540 * MINUTE + 20_000_000_000, 0, ApprovedFact, 1)

  lemma ShortDayWorked(asOf: int)
    ensures SortedPunches(SHORT_DAY, 0) == SHORT_DAY
    ensures WorkedPoints(SHORT_DAY, asOf) == Span(Interval(540 * MINUTE, 541 * MINUTE + 30_000_000_000))
  {
    var x, y := SHORT_DAY[0], SHORT_DAY[1];
    assert SHORT_DAY == [x, y] && [x, y][..1] == [x] && [x][..0] == [];
    assert EffectiveOnly([x], 0) == EffectiveOnly([], 0) + [x] == [x];
    assert StableSort(PunchBefore, [x]) == Place(PunchBefore, StableSort(PunchBefore, []), x) == [x];
    assert Sessions([x]) == Advance(Sessions([]), x) == [Session(x.clockedAt, None)];
    assert Sessions([x, y]) == [Session(x.clockedAt, Some(y.clockedAt))];
    var span := Interval(x.clockedAt, y.clockedAt);
    assert SessionSpans(Sessions([x, y]), asOf) == [span];
    assert Points([span]) == Span(span) + Points([]);
  }

  lemma FirstSecondsCredit()
    ensures ApprovedPoints([FIRST_SECONDS], 0, OFFICE_HOURS)
              == Span(Interval(540 * MINUTE, 540 * MINUTE + 20_000_000_000))
  {
    var l := FIRST_SECONDS;
    OneFact(l, 0, OFFICE_HOURS);
    var stretch := Interval(l.startAt, l.endAt);
    assert Stretches(l, 0, OFFICE_HOURS) == [stretch];
    StretchesAreClipped(l, 0, OFFICE_HOURS);
    assert Points([stretch]) == Span(stretch) + Points([]);
  }

  lemma NinetySeconds(worked: set<int>, breaks: set<int>)
    requires worked == Span(Interval(540 * MINUTE, 541 * MINUTE + 30_000_000_000))
    requires forall t | t in breaks :: t >= 720 * MINUTE
    ensures RoundedMinutes(|NetWorked(worked, breaks, {})|) == 2
  {
    SpanSize(Interval(540 * MINUTE, 541 * MINUTE + 30_000_000_000));
    assert NetWorked(worked, breaks, {}) == worked;
  }

  lemma SeventySeconds(worked: set<int>, breaks: set<int>, leave: set<int>)
    requires worked == Span(Interval(540 * MINUTE, 541 * MINUTE + 30_000_000_000))
    requires leave == Span(Interval(540 * MINUTE, 540 * MINUTE + 20_000_000_000))
    requires forall t | t in breaks :: t >= 720 * MINUTE
    ensures RoundedMinutes(|NetWorked(worked, breaks, leave)|) == 1 && RoundedMinutes(|leave|) == 0
  {
    var rest := Interval(540 * MINUTE + 20_000_000_000, 541 * MINUTE + 30_000_000_000);
    SpanSize(Interval(540 * MINUTE, 540 * MINUTE + 20_000_000_000));
    SpanSize(rest);
    assert NetWorked(worked, breaks, leave) == Span(rest);
  }

  lemma CountsTwo(records: seq<ClockRecord>, asOf: int)
    requires WorkedPoints(SortedPunches(records, 0), asOf)
               == Span(Interval(540 * MINUTE, 541 * MINUTE + 30_000_000_000))
    ensures TotalMinutes(ProjectionOf(records, [], 0, OFFICE_HOURS, asOf)) == 2
  {
    assert ApprovedPoints([], 0, OFFICE_HOURS) == {};
    NinetySeconds(WorkedPoints(SortedPunches(records, 0), asOf), BreakPoints(0, OFFICE_HOURS));
    DayTotals(records, [], 0, OFFICE_HOURS, asOf);
  }

  lemma CountsOne(records: seq<ClockRecord>, asOf: int)
    requires WorkedPoints(SortedPunches(records, 0), asOf)
               == Span(Interval(540 * MINUTE, 541 * MINUTE + 30_000_000_000))
    ensures TotalMinutes(ProjectionOf(records, [FIRST_SECONDS], 0, OFFICE_HOURS, asOf)) == 1
  {
    FirstSecondsCredit();
    SeventySeconds(WorkedPoints(SortedPunches(records, 0), asOf), BreakPoints(0, OFFICE_HOURS),
                   ApprovedPoints([FIRST_SECONDS], 0, OFFICE_HOURS));
    DayTotals(records, [FIRST_SECONDS], 0, OFFICE_HOURS, asOf);
  }

  /** The lost minute is real: the day counts two minutes without the leave, and one with it. */
  lemma RoundingCanCostAMinute(asOf: int)
    ensures TotalMinutes(ProjectionOf(SHORT_DAY, [], 0, OFFICE_HOURS, asOf)) == 2
    ensures TotalMinutes(ProjectionOf(SHORT_DAY, [FIRST_SECONDS], 0, OFFICE_HOURS, asOf)) == 1
  {
    ShortDayWorked(asOf);
    CountsTwo(SHORT_DAY, asOf);
    CountsOne(SHORT_DAY, asOf);
  }
}
