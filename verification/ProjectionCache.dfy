/** The fingerprint-validated read-through cache of the daily projection. */
module ProjectionCache {
  import opened Intervals
  import opened AttendanceRecords
  import opened Sorting
  import opened WorkSessions
  import opened LeaveCredit
  import opened DayProjection

  datatype Policy = Policy(version: int, workTime: WorkTime)

  /** The columns of a record that enter the fingerprint. */
  datatype ClockKey = ClockKey(id: int, direction: Direction, status: RecordStatus, voided: bool, clockedAt: int,
                               createdAt: int)

  datatype LeaveKey = LeaveKey(factId: int, status: FactStatus, leaveType: int, startAt: int, endAt: int,
                               netMinutes: int)

  /** The text that is hashed. The hash is taken to be injective, so equal hashes are equal texts. */
  datatype Fingerprint = Fingerprint(
    workDate: int,
    version: int,
    workTime: WorkTime,
    clocks: seq<ClockKey>,
    leaves: seq<LeaveKey>,
    openAsOf: Option<int>)

  function KeyOf(r: ClockRecord): ClockKey {
    ClockKey(r.id, r.direction, r.status, r.voided, r.clockedAt, r.createdAt)
  }

  function LeaveKeyOf(l: Leave): LeaveKey {
    LeaveKey(l.factId, l.status, l.leaveType, l.startAt, l.endAt, l.netMinutes)
  }

  predicate PrintBefore(a: ClockRecord, b: ClockRecord) {
    if a.clockedAt == b.clockedAt then a.id < b.id else a.clockedAt < b.clockedAt
  }

  predicate LeaveBefore(a: Leave, b: Leave) {
    if a.startAt == b.startAt then a.factId < b.factId else a.startAt < b.startAt
  }

  function Keys(rs: seq<ClockRecord>): seq<ClockKey> {
    seq(|rs|, i requires 0 <= i < |rs| => KeyOf(rs[i]))
  }

  function LeaveKeys(ls: seq<Leave>): seq<LeaveKey> {
    seq(|ls|, i requires 0 <= i < |ls| => LeaveKeyOf(ls[i]))
  }

  /** Whether the last effective punch, by clock time and identifier, is a clock-in. */
  function HasOpenClock(records: seq<ClockRecord>, workDate: int): bool {
    var e := StableSort(PrintBefore, EffectiveOnly(records, workDate));
    e != [] && e[|e| - 1].direction == ClockIn
  }

  function FingerprintOf(records: seq<ClockRecord>, leaves: seq<Leave>, workDate: int, policy: Policy,
                         asOf: int): Fingerprint {
    var sorted := StableSort(PrintBefore, records);
    Fingerprint(workDate, policy.version, policy.workTime, Keys(sorted), LeaveKeys(StableSort(LeaveBefore, leaves)),
                if HasOpenClock(sorted, workDate) then Some(asOf / MINUTE) else None)
  }

  // ------------------------------------- what a fingerprint pins down

  ghost predicate SameKeys(a: seq<ClockRecord>, b: seq<ClockRecord>) {
    |a| == |b| && forall i | 0 <= i < |a| :: KeyOf(a[i]) == KeyOf(b[i])
  }

  ghost predicate OnDay(records: seq<ClockRecord>, workDate: int) {
    forall r | r in records :: r.workDate == workDate
  }

  lemma {:induction false} EffectiveSameKeys(a: seq<ClockRecord>, b: seq<ClockRecord>, workDate: int)
    requires SameKeys(a, b) && OnDay(a, workDate) && OnDay(b, workDate)
    ensures SameKeys(EffectiveOnly(a, workDate), EffectiveOnly(b, workDate))
  {
    if a != [] {
      assert KeyOf(a[|a| - 1]) == KeyOf(b[|b| - 1]);
      EffectiveSameKeys(a[..|a| - 1], b[..|b| - 1], workDate);
    }
  }

  lemma {:induction false} PlaceSameKeys(a: seq<ClockRecord>, b: seq<ClockRecord>, x: ClockRecord, y: ClockRecord)
    requires SameKeys(a, b) && KeyOf(x) == KeyOf(y)
    ensures SameKeys(Place(PunchBefore, a, x), Place(PunchBefore, b, y))
  {
    if a != [] {
      assert KeyOf(a[|a| - 1]) == KeyOf(b[|b| - 1]);
      PlaceSameKeys(a[..|a| - 1], b[..|b| - 1], x, y);
    }
  }

  lemma {:induction false} SortSameKeys(a: seq<ClockRecord>, b: seq<ClockRecord>)
    requires SameKeys(a, b)
    ensures SameKeys(StableSort(PunchBefore, a), StableSort(PunchBefore, b))
  {
    if a != [] {
      assert KeyOf(a[|a| - 1]) == KeyOf(b[|b| - 1]);
      SortSameKeys(a[..|a| - 1], b[..|b| - 1]);
      PlaceSameKeys(StableSort(PunchBefore, a[..|a| - 1]), StableSort(PunchBefore, b[..|b| - 1]), a[|a| - 1],
                    b[|b| - 1]);
    }
  }

  lemma {:induction false} SessionsSameKeys(a: seq<ClockRecord>, b: seq<ClockRecord>)
    requires SameKeys(a, b)
    ensures Sessions(a) == Sessions(b)
  {
    if a != [] {
      assert KeyOf(a[|a| - 1]) == KeyOf(b[|b| - 1]);
      SessionsSameKeys(a[..|a| - 1], b[..|b| - 1]);
    }
  }

  ghost predicate SameKey(a: Option<ClockRecord>, b: Option<ClockRecord>) {
    if a.None? || b.None? then a == b else KeyOf(a.value) == KeyOf(b.value)
  }

  lemma {:induction false} BoundariesSameKeys(a: seq<ClockRecord>, b: seq<ClockRecord>)
    requires SameKeys(a, b)
    ensures SameKey(EarliestIn(a), EarliestIn(b)) && SameKey(LatestOut(a), LatestOut(b))
  {
    if a != [] {
      assert KeyOf(a[|a| - 1]) == KeyOf(b[|b| - 1]);
      BoundariesSameKeys(a[..|a| - 1], b[..|b| - 1]);
    }
  }

  /** Equal fingerprints mean the same ordered punches, column by column. */
  lemma FingerprintFixesPunches(r1: seq<ClockRecord>, l1: seq<Leave>, p1: Policy, asOf1: int,
                                r2: seq<ClockRecord>, l2: seq<Leave>, p2: Policy, asOf2: int, workDate: int)
    requires DistinctIds(r1) && DistinctIds(r2) && OnDay(r1, workDate) && OnDay(r2, workDate)
    requires FingerprintOf(r1, l1, workDate, p1, asOf1) == FingerprintOf(r2, l2, workDate, p2, asOf2)
    ensures SameKeys(SortedPunches(r1, workDate), SortedPunches(r2, workDate))
  {
    var s1, s2 := StableSort(PrintBefore, r1), StableSort(PrintBefore, r2);
    SortContents(PrintBefore, r1);
    SortContents(PrintBefore, r2);
    assert SameKeys(s1, s2) by {
      assert Keys(s1) == Keys(s2);
      assert |Keys(s1)| == |s1| && |Keys(s2)| == |s2|;
      forall i | 0 <= i < |s1| ensures KeyOf(s1[i]) == KeyOf(s2[i]) {
        assert Keys(s1)[i] == Keys(s2)[i];
      }
    }
    EffectiveSameKeys(s1, s2, workDate);
    SortSameKeys(EffectiveOnly(s1, workDate), EffectiveOnly(s2, workDate));
    PunchesIgnoreListing(s1, r1, workDate);
    PunchesIgnoreListing(s2, r2, workDate);
  }

  lemma {:induction false} FactsSameKeys(a: seq<Leave>, b: seq<Leave>, status: FactStatus, schedule: set<int>,
                                         breaks: set<int>)
    requires |a| == |b| && forall i | 0 <= i < |a| :: LeaveKeyOf(a[i]) == LeaveKeyOf(b[i])
    ensures FactPoints(a, status, schedule, breaks) == FactPoints(b, status, schedule, breaks)
  {
    if a != [] {
      assert LeaveKeyOf(a[|a| - 1]) == LeaveKeyOf(b[|b| - 1]);
      FactsSameKeys(a[..|a| - 1], b[..|b| - 1], status, schedule, breaks);
    }
  }

  lemma SortedFacts(l: seq<Leave>, status: FactStatus, schedule: set<int>, breaks: set<int>)
    ensures FactPoints(StableSort(LeaveBefore, l), status, schedule, breaks) == FactPoints(l, status, schedule, breaks)
  {
    SortContents(LeaveBefore, l);
    FactsActAsASet(l, StableSort(LeaveBefore, l), status, schedule, breaks);
    FactsActAsASet(StableSort(LeaveBefore, l), l, status, schedule, breaks);
  }

  /** Equal fingerprints mean the same credited leave. */
  lemma FingerprintFixesLeave(l1: seq<Leave>, l2: seq<Leave>, workDate: int, wt: WorkTime)
    requires LeaveKeys(StableSort(LeaveBefore, l1)) == LeaveKeys(StableSort(LeaveBefore, l2))
    ensures ApprovedPoints(l1, workDate, wt) == ApprovedPoints(l2, workDate, wt)
    ensures PendingPoints(l1, workDate, wt) == PendingPoints(l2, workDate, wt)
  {
    var s1, s2 := StableSort(LeaveBefore, l1), StableSort(LeaveBefore, l2);
    assert |LeaveKeys(s1)| == |s1| && |LeaveKeys(s2)| == |s2|;
    forall i | 0 <= i < |s1| ensures LeaveKeyOf(s1[i]) == LeaveKeyOf(s2[i]) {
      assert LeaveKeys(s1)[i] == LeaveKeys(s2)[i];
    }
    var s, k := SchedulePoints(workDate, wt), BreakPoints(workDate, wt);
    FactsSameKeys(s1, s2, ApprovedFact, s, k);
    FactsSameKeys(s1, s2, PendingFact, s, k);
    SortedFacts(l1, ApprovedFact, s, k);
    SortedFacts(l2, ApprovedFact, s, k);
    SortedFacts(l1, PendingFact, s, k);
    SortedFacts(l2, PendingFact, s, k);
  }

  // ------------------------------------------- persisting, materializing

  /** The stored row keeps record identifiers; the attached records and flags are not stored. */
  function Persist(p: Projection): Projection {
    p.(clockIn := None, clockOut := None, lastPunch := None, canClockIn := false, canClockOut := false)
  }

  /** The record of an identifier, the last listed if there are several. */
  function Lookup(records: seq<ClockRecord>, id: int): Option<ClockRecord> {
    if records == [] then None
    else if records[|records| - 1].id == id then Some(records[|records| - 1])
    else Lookup(records[..|records| - 1], id)
  }

  function Attach(records: seq<ClockRecord>, id: Option<int>): Option<ClockRecord> {
    if id.Some? then Lookup(records, id.value) else None
  }

  function Materialized(stored: Projection, records: seq<ClockRecord>): Projection {
    var last := Attach(records, stored.lastPunchRecordId);
    stored.(clockIn := Attach(records, stored.clockInRecordId),
            clockOut := Attach(records, stored.clockOutRecordId),
            lastPunch := last,
            canClockIn := stored.punchCount == 0,
            canClockOut := stored.clockInRecordId.Some? && last.Some? && last.value.direction == ClockIn)
  }

  method MaterializeRecords(stored: Projection, records: seq<ClockRecord>) returns (projection: Projection)
    requires stored == Persist(stored)
    ensures projection == Materialized(stored, records)
  {
    var byId: map<int, ClockRecord> := map[];
    for i := 0 to |records|
      invariant forall id :: (if id in byId then Some(byId[id]) else None) == Lookup(records[..i], id)
    {
      var record := records[i];
      assert records[..i + 1][..i] == records[..i];
      byId := byId[record.id := record];
    }
    assert records[..|records|] == records;
    projection := stored;
    if projection.clockInRecordId.Some? && projection.clockInRecordId.value in byId {
      projection := projection.(clockIn := Some(byId[projection.clockInRecordId.value]));
    }
    if projection.clockOutRecordId.Some? && projection.clockOutRecordId.value in byId {
      projection := projection.(clockOut := Some(byId[projection.clockOutRecordId.value]));
    }
    if projection.lastPunchRecordId.Some? && projection.lastPunchRecordId.value in byId {
      projection := projection.(lastPunch := Some(byId[projection.lastPunchRecordId.value]));
    }
    projection := projection.(canClockIn := projection.punchCount == 0,
                              canClockOut := projection.clockInRecordId.Some? && projection.lastPunch.Some?
                                             && projection.lastPunch.value.direction == ClockIn);
  }

  lemma {:induction false} LookupFinds(records: seq<ClockRecord>, r: ClockRecord)
    requires r in records && DistinctIds(records)
    ensures Lookup(records, r.id) == Some(r)
  {
    if records[|records| - 1].id == r.id {
      assert records[|records| - 1] in records;
    } else {
      assert r in records[..|records| - 1];
      assert forall x | x in records[..|records| - 1] :: x in records;
      LookupFinds(records[..|records| - 1], r);
    }
  }

  /** Storing a projection and attaching the records again gives the projection back. */
  lemma MaterializeUndoesPersist(records: seq<ClockRecord>, leaves: seq<Leave>, workDate: int, wt: WorkTime, asOf: int)
    requires DistinctIds(records)
    ensures var p := ProjectionOf(records, leaves, workDate, wt, asOf); Materialized(Persist(p), records) == p
  {
    var e := SortedPunches(records, workDate);
    BoundaryPunches(e);
    forall r | r in e ensures Lookup(records, r.id) == Some(r) {
      SortedPunchesMember(records, workDate, r);
      LookupFinds(records, r);
    }
    StatusKeepsFigures(Figures(e, leaves, workDate, wt, asOf), wt, asOf >= OpenClockDeadline(workDate, wt));
  }

  // --------------------------------------------------- soundness of a hit

  lemma MaterializeReadsStored(p: Projection, q: Projection, records: seq<ClockRecord>)
    requires Persist(p) == Persist(q)
    ensures Materialized(Persist(p), records) == Materialized(Persist(q), records)
  {
  }

  lemma FiguresSameKeys(e1: seq<ClockRecord>, l1: seq<Leave>, asOf1: int,
                        e2: seq<ClockRecord>, l2: seq<Leave>, asOf2: int, workDate: int, wt: WorkTime)
    requires SameKeys(e1, e2)
    requires ApprovedPoints(l1, workDate, wt) == ApprovedPoints(l2, workDate, wt)
    requires PendingPoints(l1, workDate, wt) == PendingPoints(l2, workDate, wt)
    requires WorkedPoints(e1, asOf1) == WorkedPoints(e2, asOf2)
    ensures Persist(Figures(e1, l1, workDate, wt, asOf1)) == Persist(Figures(e2, l2, workDate, wt, asOf2))
    ensures SameKey(EarliestIn(e1), EarliestIn(e2)) && SameKey(LatestOut(e1), LatestOut(e2))
  {
    BoundariesSameKeys(e1, e2);
    if e1 != [] {
      assert KeyOf(e1[|e1| - 1]) == KeyOf(e2[|e2| - 1]);
    }
  }

  lemma StatusSameKeys(p: Projection, x: bool, q: Projection, y: bool, wt: WorkTime)
    requires Persist(p) == Persist(q)
    requires SameKey(p.clockIn, q.clockIn) && SameKey(p.clockOut, q.clockOut)
    requires x == y || p.clockIn.None? || p.clockOut.Some?
    ensures Persist(WithStatus(p, wt, x)) == Persist(WithStatus(q, wt, y))
  {
    assert Short(p) == Short(q);
    assert Anomalies(p.clockIn, p.clockOut, Short(p), wt) == Anomalies(q.clockIn, q.clockOut, Short(q), wt);
  }

  /** The stored columns are a function of the ordered keys, the credited leave and the worked time. */
  lemma StoredColumns(e1: seq<ClockRecord>, l1: seq<Leave>, asOf1: int, x1: bool,
                      e2: seq<ClockRecord>, l2: seq<Leave>, asOf2: int, x2: bool, workDate: int, wt: WorkTime)
    requires SameKeys(e1, e2)
    requires ApprovedPoints(l1, workDate, wt) == ApprovedPoints(l2, workDate, wt)
    requires PendingPoints(l1, workDate, wt) == PendingPoints(l2, workDate, wt)
    requires WorkedPoints(e1, asOf1) == WorkedPoints(e2, asOf2)
    requires x1 == x2 || EarliestIn(e1).None? || LatestOut(e1).Some?
    ensures Persist(WithStatus(Figures(e1, l1, workDate, wt, asOf1), wt, x1))
         == Persist(WithStatus(Figures(e2, l2, workDate, wt, asOf2), wt, x2))
  {
    FiguresSameKeys(e1, l1, asOf1, e2, l2, asOf2, workDate, wt);
    StatusSameKeys(Figures(e1, l1, workDate, wt, asOf1), x1, Figures(e2, l2, workDate, wt, asOf2), x2, wt);
  }

  /** A day none of whose sessions is waiting has a clock-out, or no clock-in at all. */
  lemma {:induction false} SettledDay(ps: seq<ClockRecord>)
    ensures Sessions(ps) == [] ==> EarliestIn(ps).None?
    ensures Sessions(ps) != [] && !Waiting(Sessions(ps)) ==> LatestOut(ps).Some?
    ensures |Sessions(ps)| > 1 ==> LatestOut(ps).Some?
  {
    if ps != [] {
      SettledDay(ps[..|ps| - 1]);
    }
  }

  /** Cache soundness. When no session of the day is waiting for its clock-out, a stored row whose
      fingerprint matches, with the current records attached, equals a fresh computation in every
      field, whenever either was made. */
  lemma HitEqualsFresh(r1: seq<ClockRecord>, l1: seq<Leave>, p1: Policy, asOf1: int,
                       r2: seq<ClockRecord>, l2: seq<Leave>, p2: Policy, asOf2: int, workDate: int)
    requires DistinctIds(r1) && DistinctIds(r2) && OnDay(r1, workDate) && OnDay(r2, workDate)
    requires FingerprintOf(r1, l1, workDate, p1, asOf1) == FingerprintOf(r2, l2, workDate, p2, asOf2)
    requires !Waiting(Sessions(SortedPunches(r2, workDate)))
    ensures Materialized(Persist(ProjectionOf(r1, l1, workDate, p1.workTime, asOf1)), r2)
         == ProjectionOf(r2, l2, workDate, p2.workTime, asOf2)
  {
    var e1, e2, wt := SortedPunches(r1, workDate), SortedPunches(r2, workDate), p2.workTime;
    FingerprintFixesPunches(r1, l1, p1, asOf1, r2, l2, p2, asOf2, workDate);
    FingerprintFixesLeave(l1, l2, workDate, wt);
    SessionsSameKeys(e1, e2);
    PunchesTimeOrdered(r1, workDate);
    DependsOnClock(e1);
    SettledDay(e1);
    assert WorkedPoints(e1, asOf1) == WorkedPoints(e1, asOf2) == WorkedPoints(e2, asOf2);
    StoredColumns(e1, l1, asOf1, asOf1 >= OpenClockDeadline(workDate, wt),
                  e2, l2, asOf2, asOf2 >= OpenClockDeadline(workDate, wt), workDate, wt);
    MaterializeUndoesPersist(r2, l2, workDate, wt, asOf2);
    MaterializeReadsStored(ProjectionOf(r1, l1, workDate, wt, asOf1), ProjectionOf(r2, l2, workDate, wt, asOf2), r2);
  }

  // ----------------------------------------------- when a hit can be stale

  ghost predicate DistinctTimes(records: seq<ClockRecord>, workDate: int) {
    forall x, y | x in records && y in records && Effective(x, workDate) && Effective(y, workDate)
      && x.clockedAt == y.clockedAt
      :: x == y
  }

  predicate TimeBefore(a: ClockRecord, b: ClockRecord) {
    a.clockedAt < b.clockedAt
  }

  /** With distinct times the two tie-breaking orders list the effective punches alike. */
  lemma OneOrder(records: seq<ClockRecord>, workDate: int)
    requires DistinctTimes(records, workDate)
    ensures StableSort(PrintBefore, EffectiveOnly(records, workDate)) == SortedPunches(records, workDate)
  {
    var e := EffectiveOnly(records, workDate);
    var a, b := StableSort(PrintBefore, e), SortedPunches(records, workDate);
    SortContents(PrintBefore, e);
    SortContents(PunchBefore, e);
    SortSorted(PrintBefore, e);
    PunchesTimeOrdered(records, workDate);
    forall i, j | 0 <= i < j < |a| ensures !TimeBefore(a[j], a[i]) {
      assert !PrintBefore(a[j], a[i]);
    }
    forall x | x in a ensures x in records && Effective(x, workDate) {
      EffectiveMember(records, workDate, x);
    }
    SortedUnique(TimeBefore, a, b);
  }

  /** With distinct times the fingerprint's open-clock test is exactly whether a session waits. */
  lemma OpenClockTestIsExact(records: seq<ClockRecord>, workDate: int)
    requires DistinctTimes(records, workDate)
    ensures HasOpenClock(records, workDate) <==> Waiting(Sessions(SortedPunches(records, workDate)))
  {
    OneOrder(records, workDate);
    PunchesTimeOrdered(records, workDate);
    var e := SortedPunches(records, workDate);
    forall q | q in e && q.direction == ClockIn && e[|e| - 1].direction == ClockOut
      ensures q.clockedAt != e[|e| - 1].clockedAt
    {
      SortedPunchesMember(records, workDate, q);
      SortedPunchesMember(records, workDate, e[|e| - 1]);
    }
    LastPunchTells(e);
  }

  lemma {:induction false} Bounded(s: set<int>) returns (n: int)
    ensures forall t | t in s :: t < n
    decreases s
  {
    if s == {} {
      n := 0;
    } else {
      var x := Pick(s);
      var m := Bounded(s - {x});
      assert forall t :: t in s <==> t == x || t in s - {x};
      n := if m <= x then x + 1 else m;
    }
  }

  /** The projection is the same whenever it is computed exactly if no session is waiting. */
  lemma ClockFreeExactly(records: seq<ClockRecord>, leaves: seq<Leave>, workDate: int, wt: WorkTime)
    ensures (forall a, b :: ProjectionOf(records, leaves, workDate, wt, a)
               == ProjectionOf(records, leaves, workDate, wt, b))
      <==> !Waiting(Sessions(SortedPunches(records, workDate)))
  {
    var e := SortedPunches(records, workDate);
    PunchesTimeOrdered(records, workDate);
    if Waiting(Sessions(e)) {
      var a, b := WaitingShows(e, BreakPoints(workDate, wt), ApprovedPoints(leaves, workDate, wt));
      StatusKeepsFigures(Figures(e, leaves, workDate, wt, a), wt, a >= OpenClockDeadline(workDate, wt));
      StatusKeepsFigures(Figures(e, leaves, workDate, wt, b), wt, b >= OpenClockDeadline(workDate, wt));
      assert ProjectionOf(records, leaves, workDate, wt, a).workedMinutes
               != ProjectionOf(records, leaves, workDate, wt, b).workedMinutes;
    } else {
      DependsOnClock(e);
      SettledDay(e);
      forall a, b
        ensures ProjectionOf(records, leaves, workDate, wt, a) == ProjectionOf(records, leaves, workDate, wt, b)
      {
        assert WorkedPoints(e, a) == WorkedPoints(e, b);
        assert Figures(e, leaves, workDate, wt, a) == Figures(e, leaves, workDate, wt, b);
      }
    }
  }

  function Max(x: int, y: int): int {
    if x < y then y else x
  }

  /** Two clock readings late enough for nothing but the waiting session to lie between them. */
  lemma LateReadings(breaks: set<int>, approved: set<int>, earlier: set<int>, start: int) returns (a: int, b: int)
    ensures start <= a && b == a + 2 * MINUTE
    ensures (forall t | t in earlier :: t < a) && (forall t | t in breaks :: t < a)
            && (forall t | t in approved :: t < a)
  {
    var n := Bounded(breaks);
    var m := Bounded(approved);
    var k := Bounded(earlier);
    a := Max(Max(start, n), Max(m, k));
    b := a + 2 * MINUTE;
  }

  /** A waiting session earns minutes as the clock runs, whatever breaks and leave there are. */
  lemma WaitingShows(e: seq<ClockRecord>, breaks: set<int>, approved: set<int>) returns (a: int, b: int)
    requires Waiting(Sessions(e))
    ensures RoundedMinutes(|NetWorked(WorkedPoints(e, a), breaks, approved)|)
         != RoundedMinutes(|NetWorked(WorkedPoints(e, b), breaks, approved)|)
  {
    var earlier, start := EarlierPoints(Sessions(e), 0), Sessions(e)[|Sessions(e)| - 1].start;
    a, b := LateReadings(breaks, approved, earlier, start);
    WaitingWorked(e, a);
    WaitingWorked(e, b);
    RunningOn(earlier, breaks, approved, start, a, b, WorkedPoints(e, a), WorkedPoints(e, b));
  }

  lemma RunningOn(earlier: set<int>, breaks: set<int>, approved: set<int>, start: int, a: int, b: int,
                  atA: set<int>, atB: set<int>)
    requires (forall t | t in earlier :: t < a) && (forall t | t in breaks :: t < a)
             && (forall t | t in approved :: t < a)
    requires start <= a && b == a + 2 * MINUTE
    requires atA == earlier + Span(Interval(start, a)) && atB == earlier + Span(Interval(start, b))
    ensures RoundedMinutes(|NetWorked(atA, breaks, approved)|) != RoundedMinutes(|NetWorked(atB, breaks, approved)|)
  {
    var extra, early, late := Span(Interval(a, b)), NetWorked(atA, breaks, approved), NetWorked(atB, breaks, approved);
    SpanSize(Interval(a, b));
    forall t ensures t in early ==> t !in extra {
      assert t in early ==> t < a;
    }
    forall t ensures t in late <==> t in early + extra {
      assert t in Span(Interval(start, b)) <==> t in Span(Interval(start, a)) || t in extra;
    }
    assert late == early + extra;
    RoundedIsNearest(|early|);
    RoundedIsNearest(|late|);
  }

  /** A clock-in and a clock-out carrying the same time. */
  function SimultaneousPunches(): seq<ClockRecord> {
    [ClockRecord(1, 7, 0, ClockIn, Accepted, false, 540 * MINUTE, 540 * MINUTE, None, 0, None),
     ClockRecord(2, 7, 0, ClockOut, Accepted, false, 540 * MINUTE, 540 * MINUTE, None, 0, None)]
  }

  lemma EffectiveOfTwo(x: ClockRecord, y: ClockRecord, workDate: int)
    requires Effective(x, workDate) && Effective(y, workDate)
    ensures EffectiveOnly([x, y], workDate) == [x, y]
  {
    assert [x, y][..1] == [x] && [x][..0] == [];
    assert EffectiveOnly([x], workDate) == EffectiveOnly([], workDate) + [x] == [x];
  }

  lemma SessionsOfTwo(x: ClockRecord, y: ClockRecord)
    requires x.direction == ClockIn && y.direction == ClockOut && x.clockedAt == y.clockedAt
    ensures Waiting(Sessions([x, y]))
  {
    assert [x, y][..1] == [x] && [x][..0] == [];
    assert Sessions([x]) == Advance(Sessions([]), x) == [Session(x.clockedAt, None)];
  }

  lemma SimultaneousFacts()
    ensures var r := SimultaneousPunches();
      && SortedPunches(r, 0) == r && StableSort(PrintBefore, r) == r
      && !HasOpenClock(r, 0) && DistinctIds(r) && Waiting(Sessions(r))
  {
    var r := SimultaneousPunches();
    EffectiveOfTwo(r[0], r[1], 0);
    SortOfTwo(PrintBefore, r[0], r[1]);
    SortOfTwo(PunchBefore, r[0], r[1]);
    SessionsOfTwo(r[0], r[1]);
  }

  /** The gap in the test: a clock-in and a clock-out with the same time leave the session waiting,
      yet the fingerprint calls the day closed, so a row computed early is served late. */
  lemma SimultaneousPunchesGoStale(wt: WorkTime)
    ensures var r, p := SimultaneousPunches(), Policy(1, wt);
      exists early, late ::
        && FingerprintOf(r, [], 0, p, early) == FingerprintOf(r, [], 0, p, late)
        && Materialized(Persist(ProjectionOf(r, [], 0, wt, early)), r) != ProjectionOf(r, [], 0, wt, late)
  {
    var r := SimultaneousPunches();
    SimultaneousFacts();
    UncachedClock(r, [], 0, Policy(1, wt));
  }

  /** Whenever a session waits on a day the fingerprint calls closed, some row is served stale. */
  lemma UncachedClock(r: seq<ClockRecord>, l: seq<Leave>, workDate: int, p: Policy)
    requires DistinctIds(r) && Waiting(Sessions(SortedPunches(r, workDate)))
    requires !HasOpenClock(StableSort(PrintBefore, r), workDate)
    ensures exists early, late ::
      && FingerprintOf(r, l, workDate, p, early) == FingerprintOf(r, l, workDate, p, late)
      && Materialized(Persist(ProjectionOf(r, l, workDate, p.workTime, early)), r)
        != ProjectionOf(r, l, workDate, p.workTime, late)
  {
    ClockFreeExactly(r, l, workDate, p.workTime);
    var early, late :| ProjectionOf(r, l, workDate, p.workTime, early)
        != ProjectionOf(r, l, workDate, p.workTime, late);
    MaterializeUndoesPersist(r, l, workDate, p.workTime, early);
    assert FingerprintOf(r, l, workDate, p, early) == FingerprintOf(r, l, workDate, p, late);
  }

  lemma SortOfTwo<T>(before: (T, T) -> bool, x: T, y: T)
    requires !before(y, x)
    ensures StableSort(before, [x, y]) == [x, y]
  {
    assert [x, y][..1] == [x] && [x][..0] == [];
    assert StableSort(before, [x]) == Place(before, StableSort(before, []), x) == [x];
  }

  // ------------------------------------------- hits on a running day

  /** The deadline lies on a minute, so passing it depends only on the clock's minute. */
  lemma DeadlineByMinute(workDate: int, wt: WorkTime, a: int, b: int)
    requires SameMinute(a, b)
    ensures a >= OpenClockDeadline(workDate, wt) <==> b >= OpenClockDeadline(workDate, wt)
  {
    var minutes := workDate * 1440 +
      (if OpenClockDeadline(workDate, wt) == DayStart(workDate) + DAY then 1440
       else wt.standardEnd + 1 + (if wt.standardEnd <= wt.standardStart then 1440 else 0));
    assert OpenClockDeadline(workDate, wt) == minutes * MINUTE;
    OnMinuteThreshold(minutes, a, b);
  }

  lemma OnMinuteThreshold(minutes: int, a: int, b: int)
    requires SameMinute(a, b)
    ensures a >= minutes * MINUTE <==> b >= minutes * MINUTE
  {
    assert a >= minutes * MINUTE <==> a / MINUTE >= minutes;
    assert b >= minutes * MINUTE <==> b / MINUTE >= minutes;
  }

  lemma NearMinutes(n: nat, m: nat)
    requires n <= m < n + MINUTE
    ensures RoundedMinutes(n) <= RoundedMinutes(m) <= RoundedMinutes(n) + 1
  {
  }

  /** Within one clock minute the worked minutes of a day change by at most one. */
  lemma WorkedWithinAMinute(e: seq<ClockRecord>, a: int, b: int, breaks: set<int>, approved: set<int>)
    requires TimeOrdered(e) && a <= b && SameMinute(a, b)
    ensures var x, y := RoundedMinutes(|NetWorked(WorkedPoints(e, a), breaks, approved)|),
                        RoundedMinutes(|NetWorked(WorkedPoints(e, b), breaks, approved)|);
      x <= y <= x + 1
  {
    if Waiting(Sessions(e)) {
      WaitingGrows(e, a, b);
      var early := NetWorked(WorkedPoints(e, a), breaks, approved);
      var late := NetWorked(WorkedPoints(e, b), breaks, approved);
      SpanSize(Interval(a, b));
      assert early <= late && late - early <= Span(Interval(a, b));
      SubsetSize(late - early, Span(Interval(a, b)));
      assert late == early + (late - early);
      NearMinutes(|early|, |late|);
    } else {
      DependsOnClock(e);
    }
  }

  /** A projection without the columns that follow from the worked minutes. */
  function Settled(p: Projection): Projection {
    p.(workedMinutes := 0, anomalyReasons := [], dayStatus := NotStarted)
  }

  lemma StatusFromExpiry(p: Projection, x: bool, q: Projection, y: bool, wt: WorkTime)
    requires Settled(Persist(p)) == Settled(Persist(q)) && x == y
    requires SameKey(p.clockIn, q.clockIn) && SameKey(p.clockOut, q.clockOut)
    ensures Settled(Persist(WithStatus(p, wt, x))) == Settled(Persist(WithStatus(q, wt, y)))
    ensures p.clockOut.None? ==> WithStatus(p, wt, x).dayStatus == WithStatus(q, wt, y).dayStatus
  {
  }

  /** While a session is waiting the fingerprint carries the clock's minute. A hit then agrees with a
      fresh computation on everything but the worked minutes, which are off by at most one, and what
      is judged from them; before the first clock-out the status agrees too. */
  lemma OpenHitIsNear(r1: seq<ClockRecord>, l1: seq<Leave>, p1: Policy, asOf1: int,
                      r2: seq<ClockRecord>, l2: seq<Leave>, p2: Policy, asOf2: int, workDate: int)
    requires DistinctIds(r1) && DistinctIds(r2) && OnDay(r1, workDate) && OnDay(r2, workDate)
    requires FingerprintOf(r1, l1, workDate, p1, asOf1) == FingerprintOf(r2, l2, workDate, p2, asOf2)
    requires FingerprintOf(r2, l2, workDate, p2, asOf2).openAsOf.Some?
    ensures var hit, anew := Materialized(Persist(ProjectionOf(r1, l1, workDate, p1.workTime, asOf1)), r2),
                              ProjectionOf(r2, l2, workDate, p2.workTime, asOf2);
      && Settled(hit) == Settled(anew)
      && anew.workedMinutes - 1 <= hit.workedMinutes <= anew.workedMinutes + 1
      && (anew.clockOut.None? ==> hit.dayStatus == anew.dayStatus)
  {
    var e1, e2, wt := SortedPunches(r1, workDate), SortedPunches(r2, workDate), p2.workTime;
    FingerprintFixesPunches(r1, l1, p1, asOf1, r2, l2, p2, asOf2, workDate);
    FingerprintFixesLeave(l1, l2, workDate, wt);
    PunchesTimeOrdered(r2, workDate);
    StatusNear(e1, l1, asOf1, e2, l2, asOf2, workDate, wt);
    MaterializeUndoesPersist(r2, l2, workDate, wt, asOf2);
    MaterializeSettled(ProjectionOf(r1, l1, workDate, wt, asOf1), ProjectionOf(r2, l2, workDate, wt, asOf2), r2);
  }

  lemma StatusNear(e1: seq<ClockRecord>, l1: seq<Leave>, asOf1: int,
                   e2: seq<ClockRecord>, l2: seq<Leave>, asOf2: int, workDate: int, wt: WorkTime)
    requires SameKeys(e1, e2) && TimeOrdered(e2) && SameMinute(asOf1, asOf2)
    requires ApprovedPoints(l1, workDate, wt) == ApprovedPoints(l2, workDate, wt)
    requires PendingPoints(l1, workDate, wt) == PendingPoints(l2, workDate, wt)
    ensures var p := WithStatus(Figures(e1, l1, workDate, wt, asOf1), wt, asOf1 >= OpenClockDeadline(workDate, wt));
            var q := WithStatus(Figures(e2, l2, workDate, wt, asOf2), wt, asOf2 >= OpenClockDeadline(workDate, wt));
      && Settled(Persist(p)) == Settled(Persist(q))
      && q.workedMinutes - 1 <= p.workedMinutes <= q.workedMinutes + 1
      && (q.clockOut.None? ==> p.dayStatus == q.dayStatus)
  {
    var f1, f2 := Figures(e1, l1, workDate, wt, asOf1), Figures(e2, l2, workDate, wt, asOf2);
    FiguresNear(e1, l1, asOf1, e2, l2, asOf2, workDate, wt);
    DeadlineByMinute(workDate, wt, asOf1, asOf2);
    StatusFromExpiry(f1, asOf1 >= OpenClockDeadline(workDate, wt), f2, asOf2 >= OpenClockDeadline(workDate, wt), wt);
  }

  lemma FiguresNear(e1: seq<ClockRecord>, l1: seq<Leave>, asOf1: int,
                    e2: seq<ClockRecord>, l2: seq<Leave>, asOf2: int, workDate: int, wt: WorkTime)
    requires SameKeys(e1, e2) && TimeOrdered(e2) && SameMinute(asOf1, asOf2)
    requires ApprovedPoints(l1, workDate, wt) == ApprovedPoints(l2, workDate, wt)
    requires PendingPoints(l1, workDate, wt) == PendingPoints(l2, workDate, wt)
    ensures var f1, f2 := Figures(e1, l1, workDate, wt, asOf1), Figures(e2, l2, workDate, wt, asOf2);
      && Settled(Persist(f1)) == Settled(Persist(f2))
      && SameKey(f1.clockIn, f2.clockIn) && SameKey(f1.clockOut, f2.clockOut)
      && f2.workedMinutes - 1 <= f1.workedMinutes <= f2.workedMinutes + 1
  {
    SessionsSameKeys(e1, e2);
    FiguresSameKeys(e1, l1, asOf1, e2, l2, asOf1, workDate, wt);
    var k, a := BreakPoints(workDate, wt), ApprovedPoints(l2, workDate, wt);
    if asOf1 <= asOf2 {
      WorkedWithinAMinute(e2, asOf1, asOf2, k, a);
    } else {
      WorkedWithinAMinute(e2, asOf2, asOf1, k, a);
    }
  }

  lemma MaterializeSettled(p: Projection, q: Projection, records: seq<ClockRecord>)
    requires Settled(Persist(p)) == Settled(Persist(q))
    ensures Settled(Materialized(Persist(p), records)) == Settled(Materialized(Persist(q), records))
    ensures Materialized(Persist(p), records).workedMinutes == p.workedMinutes
    ensures Materialized(Persist(p), records).dayStatus == p.dayStatus
  {
  }

  // ------------------------------------------- when an open hit is exact

  ghost function WorkedMinutesAt(e: seq<ClockRecord>, breaks: set<int>, approved: set<int>, asOf: int): nat {
    RoundedMinutes(|NetWorked(WorkedPoints(e, asOf), breaks, approved)|)
  }

  /** What a waiting session earns between the first and the last clock reading of a minute. */
  ghost function Earned(ss: seq<Session>, breaks: set<int>, approved: set<int>, minute: int): set<int>
    requires Waiting(ss)
  {
    var from := Max(ss[|ss| - 1].start, minute * MINUTE);
    NetWorked(Span(Interval(from, minute * MINUTE + MINUTE - 1)), breaks, approved)
  }

  /** Nothing is earned in the minute that would carry the worked time past the next half minute. */
  ghost predicate Steady(e: seq<ClockRecord>, breaks: set<int>, approved: set<int>, minute: int) {
    Waiting(Sessions(e)) ==>
      Rest(|NetWorked(WorkedPoints(e, minute * MINUTE), breaks, approved)|)
        + |Earned(Sessions(e), breaks, approved, minute)| < MINUTE
  }

  lemma RunOn(earlier: set<int>, start: int, a: int, b: int, breaks: set<int>, approved: set<int>)
    requires a <= b && forall t | t in earlier :: t < start
    ensures |NetWorked(earlier + Span(Interval(start, b)), breaks, approved)|
         == |NetWorked(earlier + Span(Interval(start, a)), breaks, approved)|
            + |NetWorked(Span(Interval(Max(start, a), b)), breaks, approved)|
  {
    var extra := Span(Interval(Max(start, a), b));
    var early := earlier + Span(Interval(start, a));
    assert earlier + Span(Interval(start, b)) == early + extra;
    assert early !! extra;
    assert NetWorked(early + extra, breaks, approved)
        == NetWorked(early, breaks, approved) + NetWorked(extra, breaks, approved);
  }

  lemma EarnedBetween(e: seq<ClockRecord>, breaks: set<int>, approved: set<int>, first: int, last: int)
    requires TimeOrdered(e) && Waiting(Sessions(e)) && first <= last
    ensures |NetWorked(WorkedPoints(e, last), breaks, approved)|
         == |NetWorked(WorkedPoints(e, first), breaks, approved)|
            + |NetWorked(Span(Interval(Max(Sessions(e)[|Sessions(e)| - 1].start, first), last)), breaks, approved)|
  {
    var ss := Sessions(e);
    SessionsInSequence(e, e[|e| - 1].clockedAt);
    EarlierIsBefore(ss, e[|e| - 1].clockedAt, 0);
    WaitingWorked(e, first);
    WaitingWorked(e, last);
    RunOn(EarlierPoints(ss, 0), ss[|ss| - 1].start, first, last, breaks, approved);
  }

  lemma NetSpanSize(v: Interval, breaks: set<int>, approved: set<int>)
    ensures |NetWorked(Span(v), breaks, approved)| <= Max(v.end - v.start, 0)
  {
    if v.start <= v.end {
      SpanSize(v);
      SubsetSize(NetWorked(Span(v), breaks, approved), Span(v));
    }
  }

  lemma EarnedByTheMinute(e: seq<ClockRecord>, breaks: set<int>, approved: set<int>, minute: int)
    requires TimeOrdered(e) && Waiting(Sessions(e))
    ensures |NetWorked(WorkedPoints(e, minute * MINUTE + MINUTE - 1), breaks, approved)|
         == |NetWorked(WorkedPoints(e, minute * MINUTE), breaks, approved)|
            + |Earned(Sessions(e), breaks, approved, minute)|
    ensures |Earned(Sessions(e), breaks, approved, minute)| < MINUTE
  {
    var ss, first, last := Sessions(e), minute * MINUTE, minute * MINUTE + MINUTE - 1;
    EarnedBetween(e, breaks, approved, first, last);
    NetSpanSize(Interval(Max(ss[|ss| - 1].start, first), last), breaks, approved);
  }

  lemma RoundsAlike(n: nat, gain: nat)
    requires gain < MINUTE
    ensures RoundedMinutes(n + gain) == RoundedMinutes(n) <==> Rest(n) + gain < MINUTE
  {
    RoundedAndRest(n);
    RoundedAndRest(n + gain);
  }

  /** All readings within a minute count the same worked minutes exactly if the minute is steady. */
  lemma SteadyExactly(e: seq<ClockRecord>, breaks: set<int>, approved: set<int>, minute: int)
    requires TimeOrdered(e)
    ensures Steady(e, breaks, approved, minute) <==>
      (forall a, b | a / MINUTE == minute && b / MINUTE == minute ::
         WorkedMinutesAt(e, breaks, approved, a) == WorkedMinutesAt(e, breaks, approved, b))
  {
    var first, last := minute * MINUTE, minute * MINUTE + MINUTE - 1;
    if Waiting(Sessions(e)) {
      EarnedByTheMinute(e, breaks, approved, minute);
      RoundsAlike(|NetWorked(WorkedPoints(e, first), breaks, approved)|,
                  |Earned(Sessions(e), breaks, approved, minute)|);
      assert Steady(e, breaks, approved, minute) <==>
        WorkedMinutesAt(e, breaks, approved, first) == WorkedMinutesAt(e, breaks, approved, last);
    } else {
      DependsOnClock(e);
    }
    forall a | a / MINUTE == minute
      ensures WorkedMinutesAt(e, breaks, approved, first) <= WorkedMinutesAt(e, breaks, approved, a)
           <= WorkedMinutesAt(e, breaks, approved, last)
    {
      WorkedWithinAMinute(e, first, a, breaks, approved);
      WorkedWithinAMinute(e, a, last, breaks, approved);
    }
  }

  lemma WholeMinuteEarned(breaks: set<int>, approved: set<int>, first: int)
    requires Cellwise(breaks) && Cellwise(approved) && first % MINUTE == 0
    ensures |NetWorked(Span(Interval(first, first + MINUTE - 1)), breaks, approved)|
         == if first in breaks + approved then 0 else MINUTE - 1
  {
    var v := Interval(first, first + MINUTE - 1);
    SpanSize(v);
    forall t | t in Span(v) ensures t in breaks + approved <==> first in breaks + approved {
      assert SameMinute(t, first) && SameMinute(first, t);
    }
    assert NetWorked(Span(v), breaks, approved) == if first in breaks + approved then {} else Span(v);
  }

  lemma EarnedOnMinutes(ss: seq<Session>, breaks: set<int>, approved: set<int>, minute: int)
    requires Waiting(ss) && Cellwise(breaks) && Cellwise(approved)
    requires ss[|ss| - 1].start / MINUTE == minute ==> ss[|ss| - 1].start % MINUTE == 0
    ensures |Earned(ss, breaks, approved, minute)|
         == if minute * MINUTE in breaks + approved || minute * MINUTE < ss[|ss| - 1].start then 0 else MINUTE - 1
  {
    var start, first := ss[|ss| - 1].start, minute * MINUTE;
    if first < start {
      assert start >= first + MINUTE;
      NetSpanSize(Interval(start, first + MINUTE - 1), breaks, approved);
    } else {
      WholeMinuteEarned(breaks, approved, first);
    }
  }

  /** When breaks and leave are on whole minutes and no session opens inside the minute, the minute is
      steady exactly if it is off work, or the worked time stood at half a minute past a whole one. */
  lemma SteadyOnMinutes(e: seq<ClockRecord>, breaks: set<int>, approved: set<int>, minute: int)
    requires Waiting(Sessions(e)) && Cellwise(breaks) && Cellwise(approved)
    requires var start := Sessions(e)[|Sessions(e)| - 1].start; start / MINUTE == minute ==> start % MINUTE == 0
    ensures Steady(e, breaks, approved, minute) <==>
      || minute * MINUTE in breaks + approved
      || minute * MINUTE < Sessions(e)[|Sessions(e)| - 1].start
      || |NetWorked(WorkedPoints(e, minute * MINUTE), breaks, approved)| % MINUTE == MINUTE / 2
  {
    EarnedOnMinutes(Sessions(e), breaks, approved, minute);
    RestIsZero(|NetWorked(WorkedPoints(e, minute * MINUTE), breaks, approved)|);
  }

  lemma RestIsZero(n: nat)
    ensures 0 <= Rest(n) < MINUTE
    ensures Rest(n) == 0 <==> n % MINUTE == MINUTE / 2
  {
  }

  /** A hit taken while the fingerprint carries the clock's minute equals a fresh computation exactly
      if the two clock readings count the same worked minutes. */
  lemma OpenHitExactly(r1: seq<ClockRecord>, l1: seq<Leave>, p1: Policy, asOf1: int,
                       r2: seq<ClockRecord>, l2: seq<Leave>, p2: Policy, asOf2: int, workDate: int)
    requires DistinctIds(r1) && DistinctIds(r2) && OnDay(r1, workDate) && OnDay(r2, workDate)
    requires FingerprintOf(r1, l1, workDate, p1, asOf1) == FingerprintOf(r2, l2, workDate, p2, asOf2)
    requires FingerprintOf(r2, l2, workDate, p2, asOf2).openAsOf.Some?
    ensures
      var e, breaks := SortedPunches(r2, workDate), BreakPoints(workDate, p2.workTime);
      var approved := ApprovedPoints(l2, workDate, p2.workTime);
      var hit := Materialized(Persist(ProjectionOf(r1, l1, workDate, p1.workTime, asOf1)), r2);
      hit == ProjectionOf(r2, l2, workDate, p2.workTime, asOf2) <==>
      WorkedMinutesAt(e, breaks, approved, asOf1) == WorkedMinutesAt(e, breaks, approved, asOf2)
  {
    var e1, e2, wt := SortedPunches(r1, workDate), SortedPunches(r2, workDate), p2.workTime;
    FingerprintFixesPunches(r1, l1, p1, asOf1, r2, l2, p2, asOf2, workDate);
    FingerprintFixesLeave(l1, l2, workDate, wt);
    PunchesTimeOrdered(r2, workDate);
    StoredExactly(e1, l1, asOf1, e2, l2, asOf2, workDate, wt);
    MaterializeUndoesPersist(r2, l2, workDate, wt, asOf2);
    var p, q := ProjectionOf(r1, l1, workDate, wt, asOf1), ProjectionOf(r2, l2, workDate, wt, asOf2);
    if Persist(p) == Persist(q) {
      MaterializeReadsStored(p, q, r2);
    } else {
      MaterializedWorked(p, r2);
    }
  }

  lemma MaterializedWorked(p: Projection, records: seq<ClockRecord>)
    ensures Materialized(Persist(p), records).workedMinutes == p.workedMinutes
  {
  }

  /** The stored columns agree exactly if the worked minutes do. */
  lemma StoredExactly(e1: seq<ClockRecord>, l1: seq<Leave>, asOf1: int,
                      e2: seq<ClockRecord>, l2: seq<Leave>, asOf2: int, workDate: int, wt: WorkTime)
    requires SameKeys(e1, e2) && TimeOrdered(e2) && SameMinute(asOf1, asOf2)
    requires ApprovedPoints(l1, workDate, wt) == ApprovedPoints(l2, workDate, wt)
    requires PendingPoints(l1, workDate, wt) == PendingPoints(l2, workDate, wt)
    ensures var p := WithStatus(Figures(e1, l1, workDate, wt, asOf1), wt, asOf1 >= OpenClockDeadline(workDate, wt));
            var q := WithStatus(Figures(e2, l2, workDate, wt, asOf2), wt, asOf2 >= OpenClockDeadline(workDate, wt));
            var breaks, approved := BreakPoints(workDate, wt), ApprovedPoints(l2, workDate, wt);
      && p.workedMinutes == WorkedMinutesAt(e2, breaks, approved, asOf1)
      && q.workedMinutes == WorkedMinutesAt(e2, breaks, approved, asOf2)
      && (p.workedMinutes == q.workedMinutes ==> Persist(p) == Persist(q))
  {
    var f1, f2 := Figures(e1, l1, workDate, wt, asOf1), Figures(e2, l2, workDate, wt, asOf2);
    SessionsSameKeys(e1, e2);
    FiguresNear(e1, l1, asOf1, e2, l2, asOf2, workDate, wt);
    DeadlineByMinute(workDate, wt, asOf1, asOf2);
    if f1.workedMinutes == f2.workedMinutes {
      StatusSameKeys(f1, asOf1 >= OpenClockDeadline(workDate, wt), f2, asOf2 >= OpenClockDeadline(workDate, wt), wt);
    }
  }

  /** What a stored row was computed from. */
  datatype Origin = Origin(records: seq<ClockRecord>, leaves: seq<Leave>, policy: Policy, asOf: int)

  /** What a row computed from `o` gives when served with the current records. */
  ghost function HitOf(o: Origin, records: seq<ClockRecord>, workDate: int): Projection {
    Materialized(Persist(ProjectionOf(o.records, o.leaves, workDate, o.policy.workTime, o.asOf)), records)
  }

  ghost predicate Matches(o: Origin, records: seq<ClockRecord>, leaves: seq<Leave>, workDate: int, policy: Policy,
                          asOf: int) {
    && DistinctIds(o.records) && OnDay(o.records, workDate)
    && FingerprintOf(o.records, o.leaves, workDate, o.policy, o.asOf)
         == FingerprintOf(records, leaves, workDate, policy, asOf)
  }

  /** Whatever matching row is served within a clock minute equals a fresh computation. */
  ghost predicate HitsAreFresh(records: seq<ClockRecord>, leaves: seq<Leave>, workDate: int, policy: Policy,
                               minute: int) {
    forall o, asOf | asOf / MINUTE == minute && Matches(o, records, leaves, workDate, policy, asOf) ::
      HitOf(o, records, workDate) == ProjectionOf(records, leaves, workDate, policy.workTime, asOf)
  }

  ghost predicate SteadyDay(records: seq<ClockRecord>, leaves: seq<Leave>, workDate: int, wt: WorkTime, minute: int) {
    Steady(SortedPunches(records, workDate), BreakPoints(workDate, wt), ApprovedPoints(leaves, workDate, wt), minute)
  }

  lemma SteadyHit(o: Origin, r: seq<ClockRecord>, l: seq<Leave>, workDate: int, p: Policy, asOf: int)
    requires DistinctIds(r) && OnDay(r, workDate) && HasOpenClock(StableSort(PrintBefore, r), workDate)
    requires Matches(o, r, l, workDate, p, asOf) && SteadyDay(r, l, workDate, p.workTime, asOf / MINUTE)
    ensures HitOf(o, r, workDate) == ProjectionOf(r, l, workDate, p.workTime, asOf)
  {
    var e := SortedPunches(r, workDate);
    PunchesTimeOrdered(r, workDate);
    SteadyExactly(e, BreakPoints(workDate, p.workTime), ApprovedPoints(l, workDate, p.workTime), asOf / MINUTE);
    OpenHitExactly(o.records, o.leaves, o.policy, o.asOf, r, l, p, asOf, workDate);
  }

  lemma UnsteadyHit(r: seq<ClockRecord>, l: seq<Leave>, workDate: int, p: Policy, minute: int)
    returns (o: Origin, asOf: int)
    requires DistinctIds(r) && OnDay(r, workDate) && HasOpenClock(StableSort(PrintBefore, r), workDate)
    requires !SteadyDay(r, l, workDate, p.workTime, minute)
    ensures asOf / MINUTE == minute && Matches(o, r, l, workDate, p, asOf)
    ensures HitOf(o, r, workDate) != ProjectionOf(r, l, workDate, p.workTime, asOf)
  {
    var e, breaks := SortedPunches(r, workDate), BreakPoints(workDate, p.workTime);
    var approved := ApprovedPoints(l, workDate, p.workTime);
    PunchesTimeOrdered(r, workDate);
    SteadyExactly(e, breaks, approved, minute);
    var a, b :| a / MINUTE == minute && b / MINUTE == minute
      && WorkedMinutesAt(e, breaks, approved, a) != WorkedMinutesAt(e, breaks, approved, b);
    OpenHitExactly(r, l, p, a, r, l, p, b, workDate);
    o, asOf := Origin(r, l, p, a), b;
  }

  /** The exact condition of the open cache: every hit of a clock minute equals a fresh computation if
      and only if the minute is steady. */
  lemma OpenHitsExactly(r: seq<ClockRecord>, l: seq<Leave>, workDate: int, p: Policy, minute: int)
    requires DistinctIds(r) && OnDay(r, workDate) && HasOpenClock(StableSort(PrintBefore, r), workDate)
    ensures HitsAreFresh(r, l, workDate, p, minute) <==> SteadyDay(r, l, workDate, p.workTime, minute)
  {
    if SteadyDay(r, l, workDate, p.workTime, minute) {
      forall o, asOf | asOf / MINUTE == minute && Matches(o, r, l, workDate, p, asOf)
        ensures HitOf(o, r, workDate) == ProjectionOf(r, l, workDate, p.workTime, asOf)
      {
        SteadyHit(o, r, l, workDate, p, asOf);
      }
    } else {
      var o, asOf := UnsteadyHit(r, l, workDate, p, minute);
    }
  }

  lemma WholeNet(e: seq<ClockRecord>, breaks: set<int>, approved: set<int>, asOf: int)
    requires (forall q | q in e :: q.clockedAt % MINUTE == 0) && asOf % MINUTE == 0
    requires Cellwise(breaks) && Cellwise(approved)
    ensures |NetWorked(WorkedPoints(e, asOf), breaks, approved)| % MINUTE == 0
  {
    WorkedCellwise(e, asOf);
    CellwiseNet(WorkedPoints(e, asOf), breaks, approved);
    CellwiseSize(NetWorked(WorkedPoints(e, asOf), breaks, approved));
  }

  lemma SteadyWhenOff(e: seq<ClockRecord>, breaks: set<int>, approved: set<int>, minute: int)
    requires Waiting(Sessions(e)) && Cellwise(breaks) && Cellwise(approved)
    requires forall q | q in e :: q.clockedAt % MINUTE == 0
    ensures Steady(e, breaks, approved, minute) <==>
      minute * MINUTE in breaks + approved || minute * MINUTE < Sessions(e)[|Sessions(e)| - 1].start
  {
    WholeNet(e, breaks, approved, minute * MINUTE);
    SessionsOnMinutes(e);
    SteadyOnMinutes(e, breaks, approved, minute);
  }

  lemma DayOnMinutes(r: seq<ClockRecord>, l: seq<Leave>, workDate: int, wt: WorkTime)
    requires OnMinutes(r, l, 0)
    ensures forall q | q in SortedPunches(r, workDate) :: q.clockedAt % MINUTE == 0
    ensures Cellwise(BreakPoints(workDate, wt)) && Cellwise(ApprovedPoints(l, workDate, wt))
  {
    forall q | q in SortedPunches(r, workDate) ensures q.clockedAt % MINUTE == 0 {
      SortedPunchesMember(r, workDate, q);
    }
    ScheduleCellwise(workDate, wt);
    FactsCellwise(l, ApprovedFact, SchedulePoints(workDate, wt), BreakPoints(workDate, wt));
  }

  /** On a day whose punches and leave lie on whole minutes, hits are exact only in the minutes off
      work: in every other one the worked minutes turn over at the half. */
  lemma OpenHitsOnMinutes(r: seq<ClockRecord>, l: seq<Leave>, workDate: int, p: Policy, minute: int)
    requires DistinctIds(r) && OnDay(r, workDate) && HasOpenClock(StableSort(PrintBefore, r), workDate)
    requires OnMinutes(r, l, 0) && Waiting(Sessions(SortedPunches(r, workDate)))
    ensures
      var ss := Sessions(SortedPunches(r, workDate));
      HitsAreFresh(r, l, workDate, p, minute) <==>
      || minute * MINUTE in BreakPoints(workDate, p.workTime) + ApprovedPoints(l, workDate, p.workTime)
      || minute * MINUTE < ss[|ss| - 1].start
  {
    var e, wt := SortedPunches(r, workDate), p.workTime;
    DayOnMinutes(r, l, workDate, wt);
    SteadyWhenOff(e, BreakPoints(workDate, wt), ApprovedPoints(l, workDate, wt), minute);
    OpenHitsExactly(r, l, workDate, p, minute);
  }

  /** A single clock-in, at nine. */
  const NINE_SHARP := [ClockRecord(1, 7, 0, ClockIn, Accepted, false, 540 * MINUTE, 540 * MINUTE, None, 0, None)]

  lemma OpenSince(r: seq<ClockRecord>, asOf: int)
    requires r == NINE_SHARP
    ensures SortedPunches(r, 0) == r && DistinctIds(r) && OnDay(r, 0)
    ensures HasOpenClock(StableSort(PrintBefore, r), 0)
    ensures WorkedPoints(r, asOf) == Span(Interval(540 * MINUTE, asOf))
  {
    var x := r[0];
    assert r == [x] && r[..0] == [];
    assert EffectiveOnly(r, 0) == EffectiveOnly([], 0) + [x] == [x];
    assert StableSort(PunchBefore, [x]) == Place(PunchBefore, StableSort(PunchBefore, []), x) == [x];
    assert StableSort(PrintBefore, [x]) == Place(PrintBefore, StableSort(PrintBefore, []), x) == [x];
    assert Sessions([x]) == Advance(Sessions([]), x) == [Session(x.clockedAt, None)];
    var span := Interval(540 * MINUTE, asOf);
    assert SessionSpans(Sessions([x]), asOf) == [span];
    assert Points([span]) == Span(span) + Points([]);
  }

  lemma WorkedSinceNine(worked: set<int>, breaks: set<int>, seconds: nat)
    requires seconds < 60 && worked == Span(Interval(540 * MINUTE, 540 * MINUTE + seconds * 1_000_000_000))
    requires forall t | t in breaks :: t >= 720 * MINUTE
    ensures RoundedMinutes(|NetWorked(worked, breaks, {})|) == if seconds < 30 then 0 else 1
  {
    SpanSize(Interval(540 * MINUTE, 540 * MINUTE + seconds * 1_000_000_000));
    assert NetWorked(worked, breaks, {}) == worked;
  }

  lemma CountedSinceNine(r: seq<ClockRecord>, seconds: nat)
    requires r == NINE_SHARP && seconds < 60
    ensures ProjectionOf(r, [], 0, OFFICE_HOURS, 540 * MINUTE + seconds * 1_000_000_000).workedMinutes
         == if seconds < 30 then 0 else 1
  {
    var asOf := 540 * MINUTE + seconds * 1_000_000_000;
    OpenSince(r, asOf);
    assert ApprovedPoints([], 0, OFFICE_HOURS) == {};
    WorkedSinceNine(WorkedPoints(r, asOf), BreakPoints(0, OFFICE_HOURS), seconds);
    DayTotals(r, [], 0, OFFICE_HOURS, asOf);
  }

  lemma WithinTheMinute(minute: int, a: nat, b: nat)
    requires a < MINUTE && b < MINUTE
    ensures SameMinute(minute * MINUTE + a, minute * MINUTE + b)
  {
    assert (minute * MINUTE + a) / MINUTE == minute == (minute * MINUTE + b) / MINUTE;
  }

  lemma SameMinuteMatches(o: Origin, workDate: int, asOf: int)
    requires DistinctIds(o.records) && OnDay(o.records, workDate) && SameMinute(o.asOf, asOf)
    ensures Matches(o, o.records, o.leaves, workDate, o.policy, asOf)
  {
  }

  /** A row computed at 09:00:29 with nothing worked is served at 09:00:31, when a minute counts. */
  lemma OpenHitIsOff(version: int)
    ensures
      var p, early, late := Policy(version, OFFICE_HOURS), 540 * MINUTE + 29_000_000_000, 540 * MINUTE + 31_000_000_000;
      && Matches(Origin(NINE_SHARP, [], p, early), NINE_SHARP, [], 0, p, late)
      && HitOf(Origin(NINE_SHARP, [], p, early), NINE_SHARP, 0).workedMinutes == 0
      && ProjectionOf(NINE_SHARP, [], 0, OFFICE_HOURS, late).workedMinutes == 1
  {
    OpenSince(NINE_SHARP, 0);
    CountedSinceNine(NINE_SHARP, 29);
    CountedSinceNine(NINE_SHARP, 31);
    WithinTheMinute(540, 29_000_000_000, 31_000_000_000);
    var o := Origin(NINE_SHARP, [], Policy(version, OFFICE_HOURS), 540 * MINUTE + 29_000_000_000);
    SameMinuteMatches(o, 0, 540 * MINUTE + 31_000_000_000);
    MaterializedWorked(ProjectionOf(NINE_SHARP, [], 0, OFFICE_HOURS, o.asOf), NINE_SHARP);
  }

  // ------------------------------------------------------------- the store

  datatype Row = Row(fingerprint: Fingerprint, projection: Projection)

  /** The leave facts a day is computed from: the employee's facts that touch the schedule. */
  function DayLeaves(leaves: seq<Leave>, employee: int, workDate: int, wt: WorkTime): seq<Leave> {
    var schedule := ScheduleList(workDate, wt);
    if schedule == [] then [] else Relevant(leaves, employee, schedule[0].start, schedule[|schedule| - 1].end)
  }

  method SelectDayLeaves(leaves: seq<Leave>, employee: int, workDate: int, wt: WorkTime) returns (out: seq<Leave>)
    ensures out == DayLeaves(leaves, employee, workDate, wt)
  {
    var schedule, _ := AttendanceScheduleIntervals(workDate, wt);
    out := AttendanceEffectiveLeavesForProjection(leaves, employee, schedule);
  }

  ghost predicate RowOf(row: Row, o: Origin, workDate: int) {
    && DistinctIds(o.records) && OnDay(o.records, workDate)
    && row.fingerprint == FingerprintOf(o.records, o.leaves, workDate, o.policy, o.asOf)
    && row.projection == Persist(ProjectionOf(o.records, o.leaves, workDate, o.policy.workTime, o.asOf))
  }

  /** A served projection agrees with a fresh one: exactly when no session waits, and to the minute
      while one is waiting under an open-clock fingerprint, exactly if the minute is steady. */
  ghost predicate Serves(p: Projection, records: seq<ClockRecord>, leaves: seq<Leave>, workDate: int, policy: Policy,
                         asOf: int) {
    var anew := ProjectionOf(records, leaves, workDate, policy.workTime, asOf);
    && (!Waiting(Sessions(SortedPunches(records, workDate))) ==> p == anew)
    && (FingerprintOf(records, leaves, workDate, policy, asOf).openAsOf.Some? ==>
          && Settled(p) == Settled(anew)
          && anew.workedMinutes - 1 <= p.workedMinutes <= anew.workedMinutes + 1
          && (anew.clockOut.None? ==> p.dayStatus == anew.dayStatus)
          && (SteadyDay(records, leaves, workDate, policy.workTime, asOf / MINUTE) ==> p == anew))
  }

  class ProjectionStore {
    /** Stored rows by employee and work date. */
    var rows: map<(int, int), Row>
    ghost var origins: map<(int, int), Origin>

    ghost predicate Valid()
      reads this
    {
      && origins.Keys == rows.Keys
      && forall k | k in rows :: RowOf(rows[k], origins[k], k.1)
    }

    constructor ()
      ensures Valid() && rows == map[]
    {
      rows, origins := map[], map[];
    }

    /** Answers from the stored row. */
    method Hit(key: (int, int), records: seq<ClockRecord>, leaves: seq<Leave>, policy: Policy, asOf: int)
      returns (projection: Projection)
      requires Valid() && DistinctIds(records) && OnDay(records, key.1)
      requires key in rows && rows[key].fingerprint == FingerprintOf(records, leaves, key.1, policy, asOf)
      ensures Serves(projection, records, leaves, key.1, policy, asOf)
    {
      HitServes(rows[key], origins[key], records, leaves, key.1, policy, asOf);
      projection := MaterializeRecords(rows[key].projection, records);
    }

    /** Computes the day and stores its row. */
    method Miss(key: (int, int), records: seq<ClockRecord>, leaves: seq<Leave>, policy: Policy, asOf: int)
      returns (projection: Projection)
      requires Valid() && DistinctIds(records) && OnDay(records, key.1)
      modifies this
      ensures Valid()
      ensures Serves(projection, records, leaves, key.1, policy, asOf)
      ensures rows == old(rows)[key := Row(FingerprintOf(records, leaves, key.1, policy, asOf), Persist(projection))]
    {
      projection := ProjectAttendanceDay(records, leaves, key.1, policy.workTime, asOf);
      ghost var o := Origin(records, leaves, policy, asOf);
      FreshServes(o, key.1);
      rows := rows[key := Row(FingerprintOf(records, leaves, key.1, policy, asOf), Persist(projection))];
      origins := origins[key := o];
    }

    /** Serves a day from its row if the fingerprint still matches, else computes and stores it. */
    method ProjectAndPersistAttendanceDay(employee: int, records: seq<ClockRecord>, allLeaves: seq<Leave>,
                                          workDate: int, policy: Policy, asOf: int) returns (projection: Projection)
      requires Valid()
      requires DistinctIds(records) && OnDay(records, workDate)
      modifies this
      ensures Valid()
      ensures Serves(projection, records, DayLeaves(allLeaves, employee, workDate, policy.workTime), workDate, policy,
                     asOf)
      ensures
        var key := (employee, workDate);
        var fingerprint := FingerprintOf(records, DayLeaves(allLeaves, employee, workDate, policy.workTime), workDate,
                                         policy, asOf);
        rows == if key in old(rows) && old(rows)[key].fingerprint == fingerprint then old(rows)
                else old(rows)[key := Row(fingerprint, Persist(projection))]
    {
      var leaves := SelectDayLeaves(allLeaves, employee, workDate, policy.workTime);
      var fingerprint := FingerprintOf(records, leaves, workDate, policy, asOf);
      var key := (employee, workDate);
      if key in rows && rows[key].fingerprint == fingerprint {
        projection := Hit(key, records, leaves, policy, asOf);
      } else {
        projection := Miss(key, records, leaves, policy, asOf);
      }
    }
  }

  lemma FreshServes(o: Origin, workDate: int)
    requires DistinctIds(o.records) && OnDay(o.records, workDate)
    ensures var p := ProjectionOf(o.records, o.leaves, workDate, o.policy.workTime, o.asOf);
      && Serves(p, o.records, o.leaves, workDate, o.policy, o.asOf)
      && RowOf(Row(FingerprintOf(o.records, o.leaves, workDate, o.policy, o.asOf), Persist(p)), o, workDate)
  {
  }

  lemma HitServes(row: Row, o: Origin, records: seq<ClockRecord>, leaves: seq<Leave>, workDate: int, policy: Policy,
                  asOf: int)
    requires RowOf(row, o, workDate) && DistinctIds(records) && OnDay(records, workDate)
    requires row.fingerprint == FingerprintOf(records, leaves, workDate, policy, asOf)
    ensures Serves(Materialized(row.projection, records), records, leaves, workDate, policy, asOf)
  {
    if !Waiting(Sessions(SortedPunches(records, workDate))) {
      HitEqualsFresh(o.records, o.leaves, o.policy, o.asOf, records, leaves, policy, asOf, workDate);
    }
    if FingerprintOf(records, leaves, workDate, policy, asOf).openAsOf.Some? {
      OpenHitIsNear(o.records, o.leaves, o.policy, o.asOf, records, leaves, policy, asOf, workDate);
      OpenHitsExactly(records, leaves, workDate, policy, asOf / MINUTE);
      assert Matches(o, records, leaves, workDate, policy, asOf);
    }
  }

  /** Narrowing an employee's facts to those that touch the schedule changes no projection. */
  lemma DayLeavesSuffice(records: seq<ClockRecord>, leaves: seq<Leave>, employee: int, workDate: int, wt: WorkTime,
                         asOf: int)
    requires forall l | l in leaves :: l.employee == employee
    ensures ProjectionOf(records, DayLeaves(leaves, employee, workDate, wt), workDate, wt, asOf)
         == ProjectionOf(records, leaves, workDate, wt, asOf)
  {
    var schedule, kept := ScheduleList(workDate, wt), DayLeaves(leaves, employee, workDate, wt);
    var breaks := BreakPoints(workDate, wt);
    if schedule == [] {
      LeaveCountsAsASet(leaves, leaves, workDate, wt);
      FactsActAsASet(leaves, leaves, PendingFact, {}, breaks);
      FactsActAsASet(leaves, leaves, ApprovedFact, {}, breaks);
    } else {
      assert Points(schedule) == Span(schedule[0]) + Points([]);
      assert SchedulePoints(workDate, wt) == Span(Interval(schedule[0].start, schedule[0].end));
      IrrelevantFactsCreditNothing(leaves, employee, ApprovedFact, schedule[0].start, schedule[0].end, breaks);
      IrrelevantFactsCreditNothing(leaves, employee, PendingFact, schedule[0].start, schedule[0].end, breaks);
    }
    assert ApprovedPoints(kept, workDate, wt) == ApprovedPoints(leaves, workDate, wt);
    assert PendingPoints(kept, workDate, wt) == PendingPoints(leaves, workDate, wt);
  }
}
