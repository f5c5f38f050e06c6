/** Pairing punches into work sessions. */
module WorkSessions {
  import opened Intervals
  import opened AttendanceRecords

  /** A session opened at `start`; `stop` is its closing punch once there is one. */
  datatype Session = Session(start: int, stop: Option<int>)

  ghost predicate TimeOrdered(ps: seq<ClockRecord>) {
    forall i, j | 0 <= i < j < |ps| :: ps[i].clockedAt <= ps[j].clockedAt
  }

  /** The pairing automaton: a clock-in opens a session unless one is waiting for its clock-out,
      a clock-out later than the opening closes the session or replaces its closing. */
  function Advance(ss: seq<Session>, p: ClockRecord): seq<Session> {
    match p.direction
    case ClockIn =>
      if ss == [] || ss[|ss| - 1].stop.Some? then ss + [Session(p.clockedAt, None)] else ss
    case ClockOut =>
      if ss != [] && p.clockedAt > ss[|ss| - 1].start
      then ss[|ss| - 1 := ss[|ss| - 1].(stop := Some(p.clockedAt))] else ss
  }

  function Sessions(ps: seq<ClockRecord>): seq<Session> {
    if ps == [] then [] else Advance(Sessions(ps[..|ps| - 1]), ps[|ps| - 1])
  }

  predicate Waiting(ss: seq<Session>) {
    ss != [] && ss[|ss| - 1].stop.None?
  }

  function SessionSpan(s: Session, asOf: int): Interval {
    Interval(s.start, if s.stop.Some? then s.stop.value else asOf)
  }

  function SessionSpans(ss: seq<Session>, asOf: int): seq<Interval> {
    seq(|ss|, i requires 0 <= i < |ss| => SessionSpan(ss[i], asOf))
  }

  /** The instants worked; a session still waiting for its clock-out runs to `asOf`. */
  ghost function WorkedPoints(ps: seq<ClockRecord>, asOf: int): set<int> {
    Points(SessionSpans(Sessions(ps), asOf))
  }

  lemma SessionsSnoc(ps: seq<ClockRecord>, p: ClockRecord)
    ensures Sessions(ps + [p]) == Advance(Sessions(ps), p)
  {
    assert (ps + [p])[..|ps|] == ps;
  }

  function Init<T>(s: seq<T>): seq<T> {
    if s == [] then [] else s[..|s| - 1]
  }

  /** What all sessions but the last one cover. */
  ghost function EarlierPoints(ss: seq<Session>, asOf: int): set<int> {
    Points(SessionSpans(Init(ss), asOf))
  }

  lemma AllPoints(ss: seq<Session>, asOf: int)
    requires ss != []
    ensures Points(SessionSpans(ss, asOf)) == EarlierPoints(ss, asOf) + Span(SessionSpan(ss[|ss| - 1], asOf))
  {
    var last := SessionSpan(ss[|ss| - 1], asOf);
    assert SessionSpans(ss, asOf) == SessionSpans(Init(ss), asOf) + [last];
    PointsSnoc(SessionSpans(Init(ss), asOf), last);
  }

  lemma EarlierAfter(ss: seq<Session>, s: Session, asOf: int)
    ensures EarlierPoints(ss + [s], asOf) == Points(SessionSpans(ss, asOf))
    ensures ss != [] ==> EarlierPoints(ss[|ss| - 1 := s], asOf) == EarlierPoints(ss, asOf)
  {
    assert Init(ss + [s]) == ss;
    assert ss != [] ==> Init(ss[|ss| - 1 := s]) == Init(ss);
  }

  /** Emits the interval of one session if it has any length. */
  method Flush(open: Option<ClockRecord>, closeCandidate: Option<ClockRecord>, asOf: int, out: seq<Interval>)
    returns (next: seq<Interval>)
    ensures open.None? ==> next == out
    ensures open.Some? ==>
      var stop := if closeCandidate.Some? then Some(closeCandidate.value.clockedAt) else None;
      Points(next) == Points(out) + Span(SessionSpan(Session(open.value.clockedAt, stop), asOf))
  {
    next := out;
    if open.None? {
      return;
    }
    var end := asOf;
    if closeCandidate.Some? {
      end := closeCandidate.value.clockedAt;
    }
    PointsSnoc(out, Interval(open.value.clockedAt, end));
    if end > open.value.clockedAt {
      next := out + [Interval(open.value.clockedAt, end)];
    }
  }

  /** What the loop's two pointers say about the sessions read so far. */
  ghost predicate Tracks(ss: seq<Session>, open: Option<ClockRecord>, closeCandidate: Option<ClockRecord>) {
    && (open.None? <==> ss == [])
    && (open.None? ==> closeCandidate.None?)
    && (open.Some? ==>
          ss[|ss| - 1] == Session(open.value.clockedAt,
                                  if closeCandidate.Some? then Some(closeCandidate.value.clockedAt) else None))
  }

  method AttendanceWorkIntervals(records: seq<ClockRecord>, asOf: int) returns (merged: seq<Interval>)
    ensures merged == Runs(WorkedPoints(records, asOf))
  {
    var open: Option<ClockRecord> := None;
    var closeCandidate: Option<ClockRecord> := None;
    var out: seq<Interval> := [];
    ghost var ss: seq<Session> := [];
    for i := 0 to |records|
      invariant ss == Sessions(records[..i])
      invariant Tracks(ss, open, closeCandidate)
      invariant Points(out) == EarlierPoints(ss, asOf)
    {
      var record := records[i];
      assert records[..i + 1] == records[..i] + [record];
      SessionsSnoc(records[..i], record);
      ghost var before := ss;
      ss := Advance(ss, record);
      match record.direction
      case ClockIn =>
        EarlierAfter(before, Session(record.clockedAt, None), asOf);
        if open.None? {
          open := Some(record);
          closeCandidate := None;
        } else if closeCandidate.Some? {
          out := Flush(open, closeCandidate, asOf, out);
          AllPoints(before, asOf);
          open := Some(record);
          closeCandidate := None;
        }
      case ClockOut =>
        if open.Some? && record.clockedAt > open.value.clockedAt {
          closeCandidate := Some(record);
          EarlierAfter(before, ss[|ss| - 1], asOf);
        }
    }
    assert records[..|records|] == records;
    out := Flush(open, closeCandidate, asOf, out);
    if ss != [] {
      AllPoints(ss, asOf);
    }
    merged := MergeIntervals(out);
  }

  // ------------------------------------------- the declarative pairing rule

  /** A clock-out that counts for the session opened by `open`. */
  predicate Closes(open: ClockRecord, p: ClockRecord) {
    p.direction == ClockOut && p.clockedAt > open.clockedAt
  }

  /** A run of punches that forms one session: it begins with a clock-in, and once a clock-out has
      closed it only closing clock-outs follow. */
  ghost predicate IsRun(b: seq<ClockRecord>) {
    && b != [] && b[0].direction == ClockIn
    && forall i, j | 0 < i < j < |b| :: Closes(b[0], b[i]) ==> Closes(b[0], b[j])
  }

  predicate ClosedRun(b: seq<ClockRecord>) {
    b != [] && Closes(b[0], b[|b| - 1])
  }

  /** The punches split into leading clock-outs and then runs, every run but the last one closed:
      the list ends with the last run and what precedes that splits the same way. */
  ghost predicate IsPairing(ps: seq<ClockRecord>, runs: seq<seq<ClockRecord>>)
    decreases |runs|
  {
    if runs == [] then forall p | p in ps :: p.direction == ClockOut
    else
      var b := runs[|runs| - 1];
      && IsRun(b) && |b| <= |ps| && ps[|ps| - |b|..] == b
      && (|runs| > 1 ==> ClosedRun(runs[|runs| - 2]))
      && IsPairing(ps[..|ps| - |b|], runs[..|runs| - 1])
  }

  /** A run's session: its first clock-in to its last clock-out, if that closes it. */
  function RunSession(b: seq<ClockRecord>): Session
    requires b != []
  {
    Session(b[0].clockedAt, if ClosedRun(b) then Some(b[|b| - 1].clockedAt) else None)
  }

  function RunSessions(runs: seq<seq<ClockRecord>>): seq<Session>
    requires forall i | 0 <= i < |runs| :: runs[i] != []
    decreases |runs|
  {
    if runs == [] then [] else RunSessions(runs[..|runs| - 1]) + [RunSession(runs[|runs| - 1])]
  }

  lemma {:induction false} PairingRunsNonEmpty(ps: seq<ClockRecord>, runs: seq<seq<ClockRecord>>)
    requires IsPairing(ps, runs)
    ensures forall i | 0 <= i < |runs| :: runs[i] != []
    decreases |runs|
  {
    if runs != [] {
      PairingRunsNonEmpty(ps[..|ps| - |runs[|runs| - 1]|], runs[..|runs| - 1]);
    }
  }

  lemma {:induction false} SessionsOfClockOuts(ps: seq<ClockRecord>)
    requires forall p | p in ps :: p.direction == ClockOut
    ensures Sessions(ps) == []
  {
    if ps != [] {
      SessionsOfClockOuts(ps[..|ps| - 1]);
    }
  }

  /** One more punch of a run moves its session from what it was to what it is then. */
  lemma RunAdvances(ss: seq<Session>, b: seq<ClockRecord>)
    requires |b| > 1 && TimeOrdered(b) && IsRun(b)
    ensures IsRun(b[..|b| - 1]) && TimeOrdered(b[..|b| - 1])
    ensures Advance(ss + [RunSession(b[..|b| - 1])], b[|b| - 1]) == ss + [RunSession(b)]
  {
    var shorter, p := b[..|b| - 1], b[|b| - 1];
    assert forall i | 0 <= i < |shorter| :: shorter[i] == b[i];
    assert shorter[|shorter| - 1] == b[|b| - 2];
    assert ClosedRun(shorter) ==> Closes(b[0], p);
  }

  /** Reading a run after sessions that wait for nothing adds exactly the run's session. */
  lemma {:induction false} RunAddsOneSession(before: seq<ClockRecord>, b: seq<ClockRecord>)
    requires TimeOrdered(b) && IsRun(b) && !Waiting(Sessions(before))
    ensures Sessions(before + b) == Sessions(before) + [RunSession(b)]
    decreases |b|
  {
    var shorter, p := b[..|b| - 1], b[|b| - 1];
    assert before + b == (before + shorter) + [p];
    SessionsSnoc(before + shorter, p);
    if |b| == 1 {
      assert before + shorter == before;
    } else {
      RunAdvances(Sessions(before), b);
      RunAddsOneSession(before, shorter);
    }
  }

  /** Any way of splitting time-ordered punches into runs yields the automaton's sessions. */
  lemma {:induction false} PairingDeterminesSessions(ps: seq<ClockRecord>, runs: seq<seq<ClockRecord>>)
    requires TimeOrdered(ps) && IsPairing(ps, runs)
    ensures (forall i | 0 <= i < |runs| :: runs[i] != []) && Sessions(ps) == RunSessions(runs)
    decreases |runs|
  {
    PairingRunsNonEmpty(ps, runs);
    if runs == [] {
      SessionsOfClockOuts(ps);
    } else {
      var older, b := runs[..|runs| - 1], runs[|runs| - 1];
      var before := ps[..|ps| - |b|];
      assert ps == before + b;
      PairingDeterminesSessions(before, older);
      RunAddsOneSession(before, b);
    }
  }

  /** Every punch list splits, so the rule and the automaton define the same sessions. */
  lemma {:induction false} PairingExists(ps: seq<ClockRecord>) returns (runs: seq<seq<ClockRecord>>)
    requires TimeOrdered(ps)
    ensures IsPairing(ps, runs)
  {
    if ps == [] {
      runs := [];
    } else {
      var init, p := ps[..|ps| - 1], ps[|ps| - 1];
      assert ps == init + [p];
      runs := PairingExists(init);
      if runs != [] && (p.direction == ClockOut || !ClosedRun(runs[|runs| - 1])) {
        runs := GrowLastRun(init, p, runs);
      } else if p.direction == ClockIn {
        runs := OpenRun(init, p, runs);
      }
    }
  }

  lemma OpenRun(init: seq<ClockRecord>, p: ClockRecord, runs: seq<seq<ClockRecord>>)
    returns (longer: seq<seq<ClockRecord>>)
    requires IsPairing(init, runs) && p.direction == ClockIn
    requires runs != [] ==> ClosedRun(runs[|runs| - 1])
    ensures IsPairing(init + [p], longer)
  {
    longer := runs + [[p]];
    var ps := init + [p];
    assert longer[..|longer| - 1] == runs;
    assert ps[..|ps| - 1] == init && ps[|ps| - 1..] == [p];
    assert IsRun([p]);
  }

  lemma GrowLastRun(init: seq<ClockRecord>, p: ClockRecord, runs: seq<seq<ClockRecord>>)
    returns (grown: seq<seq<ClockRecord>>)
    requires TimeOrdered(init + [p]) && IsPairing(init, runs)
    requires runs != [] && (p.direction == ClockOut || !ClosedRun(runs[|runs| - 1]))
    ensures IsPairing(init + [p], grown)
  {
    var older, b := runs[..|runs| - 1], runs[|runs| - 1];
    var ps, longer := init + [p], b + [p];
    grown := older + [longer];
    assert grown[..|grown| - 1] == older;
    assert ps[..|ps| - |longer|] == init[..|init| - |b|];
    assert ps[|ps| - |longer|..] == longer;
    GrownRun(b, p, ps, |init| - |b|);
    assert |grown| > 1 ==> grown[|grown| - 2] == runs[|runs| - 2];
  }

  lemma GrownRun(b: seq<ClockRecord>, p: ClockRecord, ps: seq<ClockRecord>, at: nat)
    requires IsRun(b) && TimeOrdered(ps) && at + |b| + 1 == |ps| && ps[at..] == b + [p]
    requires p.direction == ClockIn ==> !ClosedRun(b)
    ensures IsRun(b + [p])
  {
    var r := b + [p];
    forall i | 0 < i < |b| && Closes(r[0], r[i]) ensures Closes(r[0], p) {
      assert Closes(b[0], b[|b| - 1]);
      assert ps[at..][i] == ps[at + i] == b[i] && ps[at..][|b|] == ps[at + |b|] == p;
    }
  }

  // ------------------------------------------------------------- consequences

  /** Clock-outs before the first clock-in add nothing. */
  lemma {:induction false} LeadingClockOutsAddNothing(lead: seq<ClockRecord>, ps: seq<ClockRecord>)
    requires forall p | p in lead :: p.direction == ClockOut
    ensures Sessions(lead + ps) == Sessions(ps)
  {
    if ps == [] {
      assert lead + ps == lead;
      SessionsOfClockOuts(lead);
    } else {
      LeadingClockOutsAddNothing(lead, ps[..|ps| - 1]);
      assert (lead + ps)[..|lead + ps| - 1] == lead + ps[..|ps| - 1];
    }
  }

  /** A clock-in while a session waits for its clock-out adds nothing, whatever follows. */
  lemma {:induction false} RepeatedClockInAddsNothing(before: seq<ClockRecord>, again: ClockRecord,
                                                      after: seq<ClockRecord>)
    requires again.direction == ClockIn && Waiting(Sessions(before))
    ensures Sessions(before + [again] + after) == Sessions(before + after)
  {
    if after == [] {
      assert before + [again] + after == before + [again] && before + after == before;
      SessionsSnoc(before, again);
    } else {
      var shorter, p := after[..|after| - 1], after[|after| - 1];
      RepeatedClockInAddsNothing(before, again, shorter);
      assert before + [again] + after == (before + [again] + shorter) + [p];
      assert before + after == (before + shorter) + [p];
      SessionsSnoc(before + [again] + shorter, p);
      SessionsSnoc(before + shorter, p);
    }
  }

  /** Sessions end before the next one starts, and nothing starts or stops after the last punch. */
  ghost predicate InSequence(ss: seq<Session>, latest: int) {
    && (forall i | 0 <= i < |ss| ::
          ss[i].start <= latest && (ss[i].stop.Some? ==> ss[i].start < ss[i].stop.value <= latest))
    && (forall i, j | 0 <= i < j < |ss| :: ss[i].stop.Some? && ss[i].stop.value <= ss[j].start)
  }

  lemma {:induction false} SessionsInSequence(ps: seq<ClockRecord>, latest: int)
    requires TimeOrdered(ps)
    requires forall i | 0 <= i < |ps| :: ps[i].clockedAt <= latest
    ensures InSequence(Sessions(ps), latest)
  {
    if ps != [] {
      var init, p := ps[..|ps| - 1], ps[|ps| - 1];
      SessionsInSequence(init, p.clockedAt);
    }
  }

  lemma WorkedMember(ss: seq<Session>, asOf: int, t: int)
    ensures t in Points(SessionSpans(ss, asOf)) <==> exists i :: 0 <= i < |ss| && t in Span(SessionSpan(ss[i], asOf))
  {
    var spans := SessionSpans(ss, asOf);
    PointsMember(spans, t);
    if i :| 0 <= i < |ss| && t in Span(SessionSpan(ss[i], asOf)) {
      assert spans[i] in spans;
    }
  }

  /** Instants at or after the last session's start belong to no earlier session. */
  lemma EarlierIsBefore(ss: seq<Session>, latest: int, asOf: int)
    requires InSequence(ss, latest) && ss != []
    ensures forall t | t in EarlierPoints(ss, asOf) :: t < ss[|ss| - 1].start
  {
    forall t | t in EarlierPoints(ss, asOf) ensures t < ss[|ss| - 1].start {
      WorkedMember(Init(ss), asOf, t);
      var i :| 0 <= i < |ss| - 1 && t in Span(SessionSpan(ss[i], asOf));
    }
  }

  /** Appending a later clock-out loses no worked time exactly unless it closes a session that was
      still running and does so before `asOf`. In particular a closed day never shrinks. */
  lemma LaterClockOut(ps: seq<ClockRecord>, p: ClockRecord, asOf: int)
    requires TimeOrdered(ps) && p.direction == ClockOut
    requires forall i | 0 <= i < |ps| :: ps[i].clockedAt <= p.clockedAt
    ensures var ss := Sessions(ps);
      WorkedPoints(ps, asOf) <= WorkedPoints(ps + [p], asOf) <==>
      !(Waiting(ss) && ss[|ss| - 1].start < p.clockedAt < asOf)
  {
    var ss := Sessions(ps);
    SessionsSnoc(ps, p);
    if ss != [] && p.clockedAt > ss[|ss| - 1].start {
      SessionsInSequence(ps, p.clockedAt);
      ClosingKeeps(ss, p.clockedAt, asOf);
    }
  }

  lemma ClosingKeeps(ss: seq<Session>, at: int, asOf: int)
    requires InSequence(ss, at) && ss != [] && at > ss[|ss| - 1].start
    ensures var next := ss[|ss| - 1 := ss[|ss| - 1].(stop := Some(at))];
      Points(SessionSpans(ss, asOf)) <= Points(SessionSpans(next, asOf)) <==> !(Waiting(ss) && at < asOf)
  {
    var last := ss[|ss| - 1];
    var closed := last.(stop := Some(at));
    EarlierAfter(ss, closed, asOf);
    AllPoints(ss, asOf);
    AllPoints(ss[|ss| - 1 := closed], asOf);
    EarlierIsBefore(ss, at, asOf);
    if last.stop.None? && at < asOf {
      assert at in Span(SessionSpan(last, asOf));
      assert at !in Span(SessionSpan(closed, asOf));
    } else {
      assert Span(SessionSpan(last, asOf)) <= Span(SessionSpan(closed, asOf));
    }
  }

  lemma {:induction false} OnlyLastWaits(ps: seq<ClockRecord>)
    ensures forall i | 0 <= i < |Sessions(ps)| - 1 :: Sessions(ps)[i].stop.Some?
  {
    if ps != [] {
      OnlyLastWaits(ps[..|ps| - 1]);
    }
  }

  /** Worked time depends on the clock exactly while a session waits for its clock-out. */
  lemma DependsOnClock(ps: seq<ClockRecord>)
    requires TimeOrdered(ps)
    ensures (forall a, b :: WorkedPoints(ps, a) == WorkedPoints(ps, b)) <==> !Waiting(Sessions(ps))
  {
    var ss := Sessions(ps);
    OnlyLastWaits(ps);
    if !Waiting(ss) {
      forall a, b ensures WorkedPoints(ps, a) == WorkedPoints(ps, b) {
        assert SessionSpans(ss, a) == SessionSpans(ss, b);
      }
    } else {
      var start, latest := ss[|ss| - 1].start, ps[|ps| - 1].clockedAt;
      SessionsInSequence(ps, latest);
      EarlierIsBefore(ss, latest, start);
      AllPoints(ss, start);
      AllPoints(ss, start + 1);
      assert start in Span(SessionSpan(ss[|ss| - 1], start + 1));
      assert start in WorkedPoints(ps, start + 1) && start !in WorkedPoints(ps, start);
    }
  }

  /** The last punch decides whether a session is waiting: a clock-in always leaves one waiting; a
      clock-out does only if it carries the very time at which the waiting session opened. */
  lemma LastPunchDecides(ps: seq<ClockRecord>, p: ClockRecord)
    requires TimeOrdered(ps)
    requires forall i | 0 <= i < |ps| :: ps[i].clockedAt <= p.clockedAt
    ensures p.direction == ClockIn ==> Waiting(Sessions(ps + [p]))
    ensures p.direction == ClockOut ==>
      (Waiting(Sessions(ps + [p])) <==>
       Waiting(Sessions(ps)) && Sessions(ps)[|Sessions(ps)| - 1].start == p.clockedAt)
  {
    SessionsSnoc(ps, p);
    SessionsInSequence(ps, p.clockedAt);
  }

  /** Of a waiting day only the last session depends on the clock. */
  lemma WaitingWorked(ps: seq<ClockRecord>, asOf: int)
    requires Waiting(Sessions(ps))
    ensures WorkedPoints(ps, asOf) ==
      EarlierPoints(Sessions(ps), 0) + Span(Interval(Sessions(ps)[|Sessions(ps)| - 1].start, asOf))
  {
    var ss := Sessions(ps);
    OnlyLastWaits(ps);
    AllPoints(ss, asOf);
    assert SessionSpans(Init(ss), asOf) == SessionSpans(Init(ss), 0);
  }

  /** Letting the clock run on while a session waits adds exactly time between the two readings. */
  lemma WaitingGrows(ps: seq<ClockRecord>, a: int, b: int)
    requires Waiting(Sessions(ps)) && a <= b
    ensures WorkedPoints(ps, a) <= WorkedPoints(ps, b)
    ensures WorkedPoints(ps, b) - WorkedPoints(ps, a) <= Span(Interval(a, b))
  {
    WaitingWorked(ps, a);
    WaitingWorked(ps, b);
  }

  ghost predicate ClockInAt(ps: seq<ClockRecord>, t: int) {
    exists p :: p in ps && p.direction == ClockIn && p.clockedAt == t
  }

  lemma {:induction false} SessionsStartAtClockIns(ps: seq<ClockRecord>)
    ensures forall i | 0 <= i < |Sessions(ps)| :: ClockInAt(ps, Sessions(ps)[i].start)
  {
    if ps != [] {
      var init, p := ps[..|ps| - 1], ps[|ps| - 1];
      SessionsStartAtClockIns(init);
      forall t | ClockInAt(init, t) ensures ClockInAt(ps, t) {
        var q :| q in init && q.direction == ClockIn && q.clockedAt == t;
        assert q in ps;
      }
      assert p in ps;
      assert p.direction == ClockIn ==> ClockInAt(ps, p.clockedAt);
    }
  }

  lemma {:induction false} SpansCellwise(s: seq<Interval>)
    requires forall v | v in s :: v.start % MINUTE == 0 && v.end % MINUTE == 0
    ensures Cellwise(Points(s))
  {
    if s != [] {
      CellwiseSpan(s[0]);
      SpansCellwise(s[1..]);
    }
  }

  lemma {:induction false} SessionsOnMinutes(ps: seq<ClockRecord>)
    requires forall p | p in ps :: p.clockedAt % MINUTE == 0
    ensures forall s | s in Sessions(ps) :: s.start % MINUTE == 0 && (s.stop.Some? ==> s.stop.value % MINUTE == 0)
  {
    if ps != [] {
      SessionsOnMinutes(ps[..|ps| - 1]);
    }
  }

  /** Punches on whole minutes, read on a whole minute, work whole minutes. */
  lemma WorkedCellwise(ps: seq<ClockRecord>, asOf: int)
    requires forall p | p in ps :: p.clockedAt % MINUTE == 0
    requires asOf % MINUTE == 0
    ensures Cellwise(WorkedPoints(ps, asOf))
  {
    SessionsOnMinutes(ps);
    SpansCellwise(SessionSpans(Sessions(ps), asOf));
  }

  /** No session can have opened at a time that only a clock-out carries. */
  lemma NoSessionOpensAt(init: seq<ClockRecord>, p: ClockRecord)
    requires p.direction == ClockOut
    requires forall q | q in init && q.direction == ClockIn :: q.clockedAt != p.clockedAt
    ensures Waiting(Sessions(init)) ==> Sessions(init)[|Sessions(init)| - 1].start != p.clockedAt
  {
    SessionsStartAtClockIns(init);
    if Waiting(Sessions(init)) {
      var start := Sessions(init)[|Sessions(init)| - 1].start;
      assert ClockInAt(init, start);
    }
  }

  /** Unless a clock-in shares its time, the last punch alone tells whether a session waits. */
  lemma LastPunchTells(e: seq<ClockRecord>)
    requires TimeOrdered(e)
    requires forall q | q in e && q.direction == ClockIn && e[|e| - 1].direction == ClockOut ::
      q.clockedAt != e[|e| - 1].clockedAt
    ensures Waiting(Sessions(e)) <==> e != [] && e[|e| - 1].direction == ClockIn
  {
    if e != [] {
      var init, p := e[..|e| - 1], e[|e| - 1];
      assert e == init + [p];
      LastPunchDecides(init, p);
      if p.direction == ClockOut {
        NoSessionOpensAt(init, p);
      }
    }
  }
}
