/** What a projected day says about its employee: status and reasons read off the punches, the minute
    counts, the policy's settings and the clock, in terms of their own. */
module DayStatus {
  import opened Intervals
  import opened AttendanceRecords
  import opened Sorting
  import opened WorkSessions
  import opened LeaveCredit
  import opened DayProjection

  // ------------------------------------------------------------ vocabulary

  /** A record that counts on a date: accepted and not voided. */
  predicate CountsOn(r: ClockRecord, workDate: int) {
    r.workDate == workDate && r.status == Accepted && !r.voided
  }

  /** Whether the date has a punch of that direction. */
  predicate HasPunch(records: seq<ClockRecord>, workDate: int, direction: Direction) {
    exists r | r in records :: CountsOn(r, workDate) && r.direction == direction
  }

  /** Order of punches: clock time, creation time, identifier. */
  predicate NotAfter(a: ClockRecord, b: ClockRecord) {
    || a.clockedAt < b.clockedAt
    || (a.clockedAt == b.clockedAt && a.createdAt < b.createdAt)
    || (a.clockedAt == b.clockedAt && a.createdAt == b.createdAt && a.id <= b.id)
  }

  predicate IsFirstIn(v: ClockRecord, records: seq<ClockRecord>, workDate: int) {
    && v in records && CountsOn(v, workDate) && v.direction == ClockIn
    && forall r | r in records && CountsOn(r, workDate) && r.direction == ClockIn :: NotAfter(v, r)
  }

  predicate IsLastOut(v: ClockRecord, records: seq<ClockRecord>, workDate: int) {
    && v in records && CountsOn(v, workDate) && v.direction == ClockOut
    && forall r | r in records && CountsOn(r, workDate) && r.direction == ClockOut ::
         r.clockedAt < v.clockedAt || (r.clockedAt == v.clockedAt && NotAfter(v, r))
  }

  /** An open clock runs to midnight, or through the last minute of a schedule that ends after it. */
  predicate StillOpen(workDate: int, wt: WorkTime, asOf: int) {
    || asOf < (workDate + 1) * DAY
    || (0 < wt.standardEnd <= wt.standardStart && asOf < (workDate + 1) * DAY + (wt.standardEnd + 1) * MINUTE)
  }

  /** A time of day before a setting's minute begins. */
  predicate Earlier(at: int, setting: int) {
    at % DAY < setting * MINUTE
  }

  /** A time of day after a setting's minute has ended. */
  predicate Later(at: int, setting: int) {
    setting >= 0 && at % DAY >= (setting + 1) * MINUTE
  }

  predicate Lacking(p: Projection) {
    p.workedMinutes + p.approvedLeaveMinutes < p.requiredMinutes
  }

  /** Under flexible hours: in too early or out too late. */
  predicate OffFlexible(p: Projection, wt: WorkTime) {
    wt.clockMode == FlexibleMode
    && ((p.clockIn.Some? && Earlier(p.clockIn.value.clockedAt, wt.flexibleEarliest))
        || (p.clockOut.Some? && Later(p.clockOut.value.clockedAt, wt.flexibleLatest)))
  }

  /** Under fixed hours: in late or out early. */
  predicate OffFixed(p: Projection, wt: WorkTime) {
    wt.clockMode == FixedMode
    && ((p.clockIn.Some? && Later(p.clockIn.value.clockedAt, wt.standardStart))
        || (p.clockOut.Some? && Earlier(p.clockOut.value.clockedAt, wt.standardEnd)))
  }

  // ------------------------------------------------------- the rule's cases

  lemma TimeOfDay(at: int, setting: int)
    ensures 0 <= MinuteOfDay(at) < 1440
    ensures MinuteOfDay(at) < setting <==> Earlier(at, setting)
    ensures 0 <= setting < MinuteOfDay(at) <==> Later(at, setting)
  {
    var t := at % DAY;
    assert MinuteOfDay(at) == t / MINUTE;
    assert t / MINUTE < setting <==> t < setting * MINUTE;
    assert setting < t / MINUTE <==> t >= (setting + 1) * MINUTE;
  }

  lemma WindowCases(p: Projection, short: bool, wt: WorkTime)
    ensures OutOfWindow(p.clockIn, p.clockOut, short, wt) <==> (short && OffFixed(p, wt)) || OffFlexible(p, wt)
  {
    if p.clockIn.Some? {
      TimeOfDay(p.clockIn.value.clockedAt, wt.standardStart);
      TimeOfDay(p.clockIn.value.clockedAt, wt.flexibleEarliest);
    }
    if p.clockOut.Some? {
      TimeOfDay(p.clockOut.value.clockedAt, wt.standardEnd);
      TimeOfDay(p.clockOut.value.clockedAt, wt.flexibleLatest);
    }
  }

  /** The status of a day, case by case. */
  ghost predicate StatusCases(p: Projection, wt: WorkTime, open: bool) {
    var both := p.clockIn.Some? && p.clockOut.Some?;
    var wanting := Lacking(p) || OffFlexible(p, wt);
    && (p.dayStatus == Working <==> p.clockIn.Some? && p.clockOut.None? && open)
    && (p.dayStatus == NotStarted <==>
          p.clockIn.None? && p.pendingLeaveMinutes == 0 && p.approvedLeaveMinutes == 0)
    && (p.dayStatus == PendingLeave <==> p.pendingLeaveMinutes > 0 && (p.clockIn.None? || (both && wanting)))
    && (p.dayStatus == Complete <==>
          || (p.clockIn.None? && p.pendingLeaveMinutes == 0 && p.approvedLeaveMinutes >= p.requiredMinutes)
          || (both && !wanting))
    && (p.dayStatus == Abnormal <==>
          || (p.clockIn.None? && p.pendingLeaveMinutes == 0 && 0 < p.approvedLeaveMinutes < p.requiredMinutes)
          || (p.clockIn.Some? && p.clockOut.None? && !open)
          || (both && wanting && p.pendingLeaveMinutes == 0))
  }

  /** The reasons of a day, each on its own, each once; hours before windows, the missing punch last. */
  ghost predicate ReasonCases(p: Projection, wt: WorkTime, open: bool) {
    && (MissingClockOut in p.anomalyReasons <==> p.clockIn.Some? && p.clockOut.None? && !open)
    && (InsufficientWorkHours in p.anomalyReasons <==>
          Lacking(p) && (p.clockOut.Some?
                         || (p.clockIn.None? && p.pendingLeaveMinutes == 0 && p.approvedLeaveMinutes > 0)))
    && (OutsideWindow in p.anomalyReasons <==> (Lacking(p) && OffFixed(p, wt)) || OffFlexible(p, wt))
    && (forall i, j | 0 <= i < j < |p.anomalyReasons| ::
          && p.anomalyReasons[i] != p.anomalyReasons[j]
          && p.anomalyReasons[i] != MissingClockOut && p.anomalyReasons[j] != InsufficientWorkHours)
  }

  /** Figures before they are judged. */
  ghost predicate Unjudged(p: Projection) {
    && p.requiredMinutes > 0 && p.pendingLeaveMinutes >= 0 && p.approvedLeaveMinutes >= 0
    && (p.clockIn.None? ==> p.workedMinutes == 0)
  }

  lemma JudgedStatus(f: Projection, wt: WorkTime, expired: bool)
    requires Unjudged(f)
    ensures StatusCases(WithStatus(f, wt, expired), wt, !expired)
  {
    WindowCases(f, Short(f), wt);
  }

  lemma JudgedReasons(f: Projection, wt: WorkTime, expired: bool)
    requires Unjudged(f)
    ensures ReasonCases(WithStatus(f, wt, expired), wt, !expired)
  {
    WindowCases(f, Short(f), wt);
  }

  // ------------------------------------------------------------ real days

  lemma OvernightEnd(workDate: int, wt: WorkTime)
    ensures OpenClockDeadline(workDate, wt)
         == if 0 < wt.standardEnd <= wt.standardStart
            then (workDate + 1) * DAY + (wt.standardEnd + 1) * MINUTE else (workDate + 1) * DAY
  {
  }

  lemma DeadlineExactly(workDate: int, wt: WorkTime, asOf: int)
    ensures StillOpen(workDate, wt, asOf) <==> asOf < OpenClockDeadline(workDate, wt)
  {
    OvernightEnd(workDate, wt);
  }

  lemma NoneAfterLast(ps: seq<ClockRecord>, r: ClockRecord)
    requires Sorted(PunchBefore, ps) && ps != [] && r in ps[..|ps| - 1] && r.clockedAt == ps[|ps| - 1].clockedAt
    ensures NotAfter(r, ps[|ps| - 1])
  {
    var i :| 0 <= i < |ps| - 1 && ps[..|ps| - 1][i] == r;
    assert !PunchBefore(ps[|ps| - 1], ps[i]);
  }

  /** Among punches of one time the first created, then the first by identifier, is the boundary. */
  lemma {:induction false} FirstOfTies(ps: seq<ClockRecord>)
    requires Sorted(PunchBefore, ps)
    ensures EarliestIn(ps).Some? ==>
      forall p | p in ps && p.direction == ClockIn && p.clockedAt == EarliestIn(ps).value.clockedAt ::
        NotAfter(EarliestIn(ps).value, p)
  {
    if ps != [] {
      var init, last := ps[..|ps| - 1], ps[|ps| - 1];
      FirstOfTies(init);
      BoundaryPunches(init);
      assert ps == init + [last];
      if EarliestIn(init).Some? && EarliestIn(init).value.clockedAt == last.clockedAt {
        NoneAfterLast(ps, EarliestIn(init).value);
      }
    }
  }

  lemma {:induction false} LastOfTies(ps: seq<ClockRecord>)
    requires Sorted(PunchBefore, ps)
    ensures LatestOut(ps).Some? ==>
      forall p | p in ps && p.direction == ClockOut && p.clockedAt == LatestOut(ps).value.clockedAt ::
        NotAfter(LatestOut(ps).value, p)
  {
    if ps != [] {
      var init, last := ps[..|ps| - 1], ps[|ps| - 1];
      LastOfTies(init);
      BoundaryPunches(init);
      assert ps == init + [last];
      if LatestOut(init).Some? && LatestOut(init).value.clockedAt == last.clockedAt {
        NoneAfterLast(ps, LatestOut(init).value);
      }
    }
  }

  /** The earliest clock-in and the latest clock-out of a day, from its records; of several at one time
      the first by creation and identifier. */
  lemma BoundariesExactly(records: seq<ClockRecord>, leaves: seq<Leave>, workDate: int, wt: WorkTime, asOf: int)
    ensures var p := ProjectionOf(records, leaves, workDate, wt, asOf);
      && (p.clockIn.Some? <==> HasPunch(records, workDate, ClockIn))
      && (p.clockOut.Some? <==> HasPunch(records, workDate, ClockOut))
      && (p.clockIn.Some? ==> IsFirstIn(p.clockIn.value, records, workDate))
      && (p.clockOut.Some? ==> IsLastOut(p.clockOut.value, records, workDate))
  {
    var e := SortedPunches(records, workDate);
    BoundaryPunches(e);
    PunchesTimeOrdered(records, workDate);
    FirstOfTies(e);
    LastOfTies(e);
    forall r ensures r in e <==> r in records && CountsOn(r, workDate) {
      SortedPunchesMember(records, workDate, r);
    }
  }

  lemma FiguresUnjudged(records: seq<ClockRecord>, leaves: seq<Leave>, workDate: int, wt: WorkTime, asOf: int)
    ensures Unjudged(Figures(SortedPunches(records, workDate), leaves, workDate, wt, asOf))
  {
    var e := SortedPunches(records, workDate);
    if EarliestIn(e).None? {
      FiguresWithoutClockIn(e, leaves, workDate, wt, asOf);
    }
  }

  /** The status of every projected day, from its punches, minute counts, settings and the clock. */
  lemma StatusExactly(records: seq<ClockRecord>, leaves: seq<Leave>, workDate: int, wt: WorkTime, asOf: int)
    ensures StatusCases(ProjectionOf(records, leaves, workDate, wt, asOf), wt, StillOpen(workDate, wt, asOf))
  {
    FiguresUnjudged(records, leaves, workDate, wt, asOf);
    DeadlineExactly(workDate, wt, asOf);
    JudgedStatus(Figures(SortedPunches(records, workDate), leaves, workDate, wt, asOf), wt,
                 asOf >= OpenClockDeadline(workDate, wt));
  }

  /** The reasons of every projected day likewise, each listed once. */
  lemma ReasonsExactly(records: seq<ClockRecord>, leaves: seq<Leave>, workDate: int, wt: WorkTime, asOf: int)
    ensures ReasonCases(ProjectionOf(records, leaves, workDate, wt, asOf), wt, StillOpen(workDate, wt, asOf))
  {
    FiguresUnjudged(records, leaves, workDate, wt, asOf);
    DeadlineExactly(workDate, wt, asOf);
    JudgedReasons(Figures(SortedPunches(records, workDate), leaves, workDate, wt, asOf), wt,
                  asOf >= OpenClockDeadline(workDate, wt));
  }

  /** So a day with a clock-in alone is running on its own date and lacks its clock-out two days later. */
  lemma RunningThenMissing(records: seq<ClockRecord>, leaves: seq<Leave>, workDate: int, wt: WorkTime, asOf: int)
    requires HasPunch(records, workDate, ClockIn) && !HasPunch(records, workDate, ClockOut)
    ensures asOf < (workDate + 1) * DAY ==> ProjectionOf(records, leaves, workDate, wt, asOf).dayStatus == Working
    ensures asOf >= (workDate + 2) * DAY ==>
      var p := ProjectionOf(records, leaves, workDate, wt, asOf);
      p.dayStatus == Abnormal && MissingClockOut in p.anomalyReasons
  {
    BoundariesExactly(records, leaves, workDate, wt, asOf);
    StatusExactly(records, leaves, workDate, wt, asOf);
    ReasonsExactly(records, leaves, workDate, wt, asOf);
  }

  lemma RoundedGrows(n: nat, m: nat)
    requires n <= m
    ensures RoundedMinutes(n) <= RoundedMinutes(m)
  {
    RoundedIsNearest(n);
    RoundedIsNearest(m);
  }

  /** Worked minutes never shrink as the clock runs on, and nothing else of the figures moves. */
  lemma FiguresGrow(e: seq<ClockRecord>, leaves: seq<Leave>, workDate: int, wt: WorkTime, a: int, b: int)
    requires TimeOrdered(e) && a <= b
    ensures var f, g := Figures(e, leaves, workDate, wt, a), Figures(e, leaves, workDate, wt, b);
      f.workedMinutes <= g.workedMinutes && f == g.(workedMinutes := f.workedMinutes)
  {
    var breaks, approved := BreakPoints(workDate, wt), ApprovedPoints(leaves, workDate, wt);
    if Waiting(Sessions(e)) {
      WaitingGrows(e, a, b);
      var early := NetWorked(WorkedPoints(e, a), breaks, approved);
      var late := NetWorked(WorkedPoints(e, b), breaks, approved);
      SubsetSize(early, late);
      RoundedGrows(|early|, |late|);
    } else {
      DependsOnClock(e);
    }
  }

  lemma GrowingStatus(f: Projection, g: Projection, wt: WorkTime, x: bool, y: bool)
    requires Unjudged(f) && Unjudged(g) && (x ==> y)
    requires f.workedMinutes <= g.workedMinutes && f == g.(workedMinutes := f.workedMinutes)
    ensures var p, q := WithStatus(f, wt, x).dayStatus, WithStatus(g, wt, y).dayStatus;
      && (p == q || (p == Working && q == Abnormal && f.clockOut.None?)
          || ((p == Abnormal || p == PendingLeave) && q == Complete && f.clockOut.Some?))
  {
    JudgedStatus(f, wt, x);
    JudgedStatus(g, wt, y);
  }

  /** As the clock runs on a day's status changes in two ways only: a running day's deadline passes, or a
      day that has its clock-out comes to have its hours. */
  lemma ClockRunsOn(records: seq<ClockRecord>, leaves: seq<Leave>, workDate: int, wt: WorkTime, a: int, b: int)
    requires a <= b
    ensures var p, q := ProjectionOf(records, leaves, workDate, wt, a), ProjectionOf(records, leaves, workDate, wt, b);
      || p.dayStatus == q.dayStatus
      || (p.dayStatus == Working && q.dayStatus == Abnormal
          && HasPunch(records, workDate, ClockIn) && !HasPunch(records, workDate, ClockOut))
      || ((p.dayStatus == Abnormal || p.dayStatus == PendingLeave) && q.dayStatus == Complete
          && HasPunch(records, workDate, ClockOut))
  {
    var e := SortedPunches(records, workDate);
    PunchesTimeOrdered(records, workDate);
    FiguresGrow(e, leaves, workDate, wt, a, b);
    FiguresUnjudged(records, leaves, workDate, wt, a);
    FiguresUnjudged(records, leaves, workDate, wt, b);
    GrowingStatus(Figures(e, leaves, workDate, wt, a), Figures(e, leaves, workDate, wt, b), wt,
                  a >= OpenClockDeadline(workDate, wt), b >= OpenClockDeadline(workDate, wt));
    BoundariesExactly(records, leaves, workDate, wt, a);
    StatusExactly(records, leaves, workDate, wt, a);
  }

  // --------------------------------------------------- schedule by the clock

  /** Which instants are scheduled, from date and time of day. */
  predicate OnSchedule(t: int, workDate: int, wt: WorkTime) {
    wt.standardStart >= 0 && wt.standardEnd >= 0 &&
    if wt.standardStart < wt.standardEnd
    then t / DAY == workDate && wt.standardStart * MINUTE <= t % DAY < wt.standardEnd * MINUTE
    else (t / DAY == workDate && wt.standardStart * MINUTE <= t % DAY)
         || (t / DAY == workDate + 1 && t % DAY < wt.standardEnd * MINUTE)
  }

  lemma SplitDay(t: int, day: int, start: int, end: int)
    requires 0 <= start <= DAY && 0 <= end <= DAY
    ensures (day * DAY + start <= t < day * DAY + end) <==> (t / DAY == day && start <= t % DAY < end)
    ensures (day * DAY + start <= t < (day + 1) * DAY + end) <==>
      (t / DAY == day && start <= t % DAY) || (t / DAY == day + 1 && t % DAY < end)
  {
    assert t == (t / DAY) * DAY + t % DAY && 0 <= t % DAY < DAY;
  }

  /** The schedule is what the settings say in terms of dates and times of day, overnight shifts
      included; the projection reports its two ends. */
  lemma ScheduleExactly(workDate: int, wt: WorkTime, t: int)
    ensures t in SchedulePoints(workDate, wt) <==> OnSchedule(t, workDate, wt)
  {
    if wt.standardStart >= 0 && wt.standardEnd >= 0 {
      var s := ScheduleList(workDate, wt);
      assert Points(s) == Span(s[0]) + Points([]);
      SplitDay(t, workDate, wt.standardStart * MINUTE, wt.standardEnd * MINUTE);
    }
  }

  /** The break is taken on the work date itself and only as far as it is scheduled, so one after the
      midnight of an overnight shift is never taken. */
  lemma BreakExactly(workDate: int, wt: WorkTime, t: int)
    ensures t in BreakPoints(workDate, wt) <==>
      && OnSchedule(t, workDate, wt) && wt.breakStart >= 0
      && t / DAY == workDate && wt.breakStart * MINUTE <= t % DAY < wt.breakEnd * MINUTE
  {
    ScheduleExactly(workDate, wt, t);
    if 0 <= wt.breakStart < wt.breakEnd {
      SplitDay(t, workDate, wt.breakStart * MINUTE, wt.breakEnd * MINUTE);
    }
  }

  /** So a break in the small hours of an overnight shift is scheduled time like any other: nothing of it
      is taken off. */
  lemma NightBreakIsLost(workDate: int, wt: WorkTime, t: int)
    requires 0 <= wt.breakStart < wt.breakEnd <= wt.standardEnd <= wt.standardStart
    requires t / DAY == workDate + 1 && wt.breakStart * MINUTE <= t % DAY < wt.breakEnd * MINUTE
    ensures t in SchedulePoints(workDate, wt) && BreakPoints(workDate, wt) == {}
  {
    ScheduleExactly(workDate, wt, t);
    forall u ensures u !in BreakPoints(workDate, wt) {
      BreakExactly(workDate, wt, u);
    }
  }

  // ----------------------------------------------------- the other columns

  /** The last punch of a day and the two actions it offers: a clock-in on a day without punches, a
      clock-out when the last punch is a clock-in. */
  lemma ActionsExactly(records: seq<ClockRecord>, leaves: seq<Leave>, workDate: int, wt: WorkTime, asOf: int)
    ensures var p := ProjectionOf(records, leaves, workDate, wt, asOf);
      && (p.lastPunch.Some? <==> exists r :: r in records && CountsOn(r, workDate))
      && (p.lastPunch.Some? ==>
            && p.lastPunch.value in records && CountsOn(p.lastPunch.value, workDate)
            && forall r | r in records && CountsOn(r, workDate) :: NotAfter(r, p.lastPunch.value))
      && (p.canClockIn <==> p.lastPunch.None?)
      && (p.canClockOut <==> p.lastPunch.Some? && p.lastPunch.value.direction == ClockIn)
  {
    var e := SortedPunches(records, workDate);
    forall r ensures r in e <==> r in records && CountsOn(r, workDate) {
      SortedPunchesMember(records, workDate, r);
    }
    PunchesTimeOrdered(records, workDate);
    BoundaryPunches(e);
    if e != [] {
      var last := e[|e| - 1];
      assert last in e;
      forall r | r in e ensures NotAfter(r, last) {
        var i :| 0 <= i < |e| && e[i] == r;
        assert i < |e| - 1 ==> !PunchBefore(last, r);
      }
    }
  }

  /** The date of a projection and the identifiers of the records it names. */
  lemma NamesExactly(records: seq<ClockRecord>, leaves: seq<Leave>, workDate: int, wt: WorkTime, asOf: int)
    ensures var p := ProjectionOf(records, leaves, workDate, wt, asOf);
      && p.workDate == workDate
      && (p.clockInRecordId.Some? <==> p.clockIn.Some?) && (p.clockOutRecordId.Some? <==> p.clockOut.Some?)
      && (p.lastPunchRecordId.Some? <==> p.lastPunch.Some?)
      && (p.clockIn.Some? ==> p.clockInRecordId.value == p.clockIn.value.id)
      && (p.clockOut.Some? ==> p.clockOutRecordId.value == p.clockOut.value.id)
      && (p.lastPunch.Some? ==> p.lastPunchRecordId.value == p.lastPunch.value.id)
  {
  }

  ghost function Counting(records: seq<ClockRecord>, workDate: int): set<ClockRecord> {
    set r | r in records && CountsOn(r, workDate)
  }

  lemma LastIsNew(records: seq<ClockRecord>)
    requires records != [] && forall i, j | 0 <= i < j < |records| :: records[i] != records[j]
    ensures records[|records| - 1] !in records[..|records| - 1]
    ensures forall r :: r in records <==> r in records[..|records| - 1] || r == records[|records| - 1]
  {
    var init, last := records[..|records| - 1], records[|records| - 1];
    assert records == init + [last];
    forall i | 0 <= i < |init| ensures init[i] != last {
      assert records[i] != records[|records| - 1];
    }
  }

  lemma {:induction false} EffectiveCount(records: seq<ClockRecord>, workDate: int)
    requires forall i, j | 0 <= i < j < |records| :: records[i] != records[j]
    ensures |EffectiveOnly(records, workDate)| == |Counting(records, workDate)|
  {
    if records != [] {
      var init, last := records[..|records| - 1], records[|records| - 1];
      LastIsNew(records);
      EffectiveCount(init, workDate);
      assert Counting(records, workDate)
          == Counting(init, workDate) + (if CountsOn(last, workDate) then {last} else {});
    }
  }

  /** The number of punches a day reports is that of its records that count. */
  lemma PunchesCounted(records: seq<ClockRecord>, leaves: seq<Leave>, workDate: int, wt: WorkTime, asOf: int)
    requires forall i, j | 0 <= i < j < |records| :: records[i] != records[j]
    ensures ProjectionOf(records, leaves, workDate, wt, asOf).punchCount == |Counting(records, workDate)|
  {
    EffectiveCount(records, workDate);
    SortContents(PunchBefore, EffectiveOnly(records, workDate));
  }

  /** A number of instants in minutes, to the nearest, halves up. */
  predicate Nearest(minutes: int, instants: int) {
    minutes * MINUTE <= instants + MINUTE / 2 < (minutes + 1) * MINUTE
  }

  lemma NearestMinutes(n: nat)
    ensures Nearest(RoundedMinutes(n), n)
  {
    RoundedIsNearest(n);
  }

  /** The three minute counts: time in sessions off break and leave, approved leave, pending leave. */
  lemma MinutesExactly(records: seq<ClockRecord>, leaves: seq<Leave>, workDate: int, wt: WorkTime, asOf: int)
    ensures var p, approved := ProjectionOf(records, leaves, workDate, wt, asOf), ApprovedPoints(leaves, workDate, wt);
            var worked := WorkedPoints(SortedPunches(records, workDate), asOf);
      && Nearest(p.workedMinutes, |worked - BreakPoints(workDate, wt) - approved|)
      && Nearest(p.approvedLeaveMinutes, |approved|)
      && Nearest(p.pendingLeaveMinutes, |PendingPoints(leaves, workDate, wt)|)
      && p.requiredMinutes == RequiredMinutes(wt)
  {
    var e, approved := SortedPunches(records, workDate), ApprovedPoints(leaves, workDate, wt);
    var worked, breaks := WorkedPoints(e, asOf), BreakPoints(workDate, wt);
    assert worked - breaks - approved == NetWorked(worked, breaks, approved);
    NearestMinutes(|NetWorked(worked, breaks, approved)|);
    NearestMinutes(|approved|);
    NearestMinutes(|PendingPoints(leaves, workDate, wt)|);
  }

  /** The two ends a projection reports are those of its schedule. */
  lemma ReportedSchedule(records: seq<ClockRecord>, leaves: seq<Leave>, workDate: int, wt: WorkTime, asOf: int, t: int)
    ensures var p := ProjectionOf(records, leaves, workDate, wt, asOf);
      && (p.scheduledStartAt.Some? <==> p.scheduledEndAt.Some?)
      && (p.scheduledStartAt.Some? <==> wt.standardStart >= 0 && wt.standardEnd >= 0)
      && (p.scheduledStartAt.Some? ==>
            (p.scheduledStartAt.value <= t < p.scheduledEndAt.value <==> OnSchedule(t, workDate, wt)))
  {
    EndsExactly(workDate, wt);
  }

  lemma EndsExactly(workDate: int, wt: WorkTime)
    ensures ScheduleList(workDate, wt) == [] <==> !(wt.standardStart >= 0 && wt.standardEnd >= 0)
    ensures ScheduleList(workDate, wt) != [] ==>
      forall t :: Holds(ScheduleList(workDate, wt)[0], t) <==> OnSchedule(t, workDate, wt)
  {
    var s := ScheduleList(workDate, wt);
    if s != [] {
      assert Points(s) == Span(s[0]) + Points([]);
      forall t ensures Holds(s[0], t) <==> OnSchedule(t, workDate, wt) {
        ScheduleExactly(workDate, wt, t);
      }
    }
  }

  /** Which instants are credited as leave: those some fact of the status credits. */
  lemma CreditExactly(leaves: seq<Leave>, workDate: int, wt: WorkTime, t: int)
    ensures t in ApprovedPoints(leaves, workDate, wt) <==>
      exists l :: l in leaves && l.status == ApprovedFact
                  && t in CreditedPoints(l, SchedulePoints(workDate, wt), BreakPoints(workDate, wt))
    ensures t in PendingPoints(leaves, workDate, wt) <==>
      exists l :: l in leaves && l.status == PendingFact
                  && t in CreditedPoints(l, SchedulePoints(workDate, wt), BreakPoints(workDate, wt))
  {
    FactMember(leaves, ApprovedFact, SchedulePoints(workDate, wt), BreakPoints(workDate, wt), t);
    FactMember(leaves, PendingFact, SchedulePoints(workDate, wt), BreakPoints(workDate, wt), t);
  }
}
