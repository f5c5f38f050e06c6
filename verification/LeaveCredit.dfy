/** Crediting leave: clipping to the schedule, removing breaks, capping, and uniting the facts. */
module LeaveCredit {
  import opened Intervals

  datatype FactStatus = ApprovedFact | PendingFact | OtherFact

  /** One leave fact: an interval, its status, and the net minutes its source grants (0 = no cap). */
  datatype Leave = Leave(
    employee: int,
    leaveType: int,
    startAt: int,
    endAt: int,
    netMinutes: int,
    status: FactStatus,
    factId: int)

  ghost function ClippedPoints(l: Leave, schedule: set<int>, breaks: set<int>): set<int> {
    Span(Interval(l.startAt, l.endAt)) * schedule - breaks
  }

  /** What one fact credits: its clipped time, cut to its earliest net minutes if it grants fewer. */
  ghost function CreditedPoints(l: Leave, schedule: set<int>, breaks: set<int>): set<int> {
    var clipped := ClippedPoints(l, schedule, breaks);
    if 0 < l.netMinutes < RoundedMinutes(|clipped|) then Points(Capped(Runs(clipped), l.netMinutes)) else clipped
  }

  /** What all facts of one status credit together, overlaps once. */
  ghost function FactPoints(leaves: seq<Leave>, status: FactStatus, schedule: set<int>, breaks: set<int>): set<int> {
    if leaves == [] then {}
    else
      FactPoints(leaves[..|leaves| - 1], status, schedule, breaks) +
      (if leaves[|leaves| - 1].status == status then CreditedPoints(leaves[|leaves| - 1], schedule, breaks) else {})
  }

  method ClipLeave(leave: Leave, schedule: seq<Interval>, breaks: seq<Interval>) returns (clipped: seq<Interval>)
    ensures clipped == Runs(CreditedPoints(leave, Points(schedule), Points(breaks)))
  {
    var whole := [Interval(leave.startAt, leave.endAt)];
    assert Points(whole) == Span(whole[0]) + Points([]);
    clipped := IntersectIntervals(whole, schedule);
    clipped := SubtractIntervals(clipped, breaks);
    var minutes := IntervalMinutes(clipped);
    if leave.netMinutes > 0 && leave.netMinutes < minutes {
      CappedIsTimePrefix(clipped, leave.netMinutes);
      RunsUnique(Capped(clipped, leave.netMinutes));
      clipped := CapIntervals(clipped, leave.netMinutes);
    }
  }

  method AttendanceEffectiveLeaveIntervals(leaves: seq<Leave>, schedule: seq<Interval>, breaks: seq<Interval>)
    returns (approvedMerged: seq<Interval>, pendingMerged: seq<Interval>)
    ensures approvedMerged == Runs(FactPoints(leaves, ApprovedFact, Points(schedule), Points(breaks)))
    ensures pendingMerged == Runs(FactPoints(leaves, PendingFact, Points(schedule), Points(breaks)))
  {
    var approved: seq<Interval> := [];
    var pending: seq<Interval> := [];
    ghost var s, b := Points(schedule), Points(breaks);
    for i := 0 to |leaves|
      invariant Points(approved) == FactPoints(leaves[..i], ApprovedFact, s, b)
      invariant Points(pending) == FactPoints(leaves[..i], PendingFact, s, b)
    {
      var leave := leaves[i];
      assert leaves[..i + 1][..i] == leaves[..i];
      if leave.endAt <= leave.startAt {
        EmptyLeaveCreditsNothing(leave, s, b);
      } else {
        var clipped := ClipLeave(leave, schedule, breaks);
        PointsConcat(approved, clipped);
        PointsConcat(pending, clipped);
        match leave.status
        case ApprovedFact => approved := approved + clipped;
        case PendingFact => pending := pending + clipped;
        case OtherFact =>
      }
    }
    assert leaves[..|leaves|] == leaves;
    approvedMerged := MergeIntervals(approved);
    pendingMerged := MergeIntervals(pending);
  }

  /** Credit is a time prefix of the fact's clipped time, hence inside the schedule and off the breaks. */
  lemma CreditWithinSchedule(l: Leave, schedule: set<int>, breaks: set<int>)
    ensures TimePrefix(CreditedPoints(l, schedule, breaks), ClippedPoints(l, schedule, breaks))
    ensures CreditedPoints(l, schedule, breaks) <= schedule - breaks
  {
    CappedIsTimePrefix(Runs(ClippedPoints(l, schedule, breaks)), l.netMinutes);
  }

  lemma EmptyLeaveCreditsNothing(l: Leave, schedule: set<int>, breaks: set<int>)
    requires l.endAt <= l.startAt
    ensures CreditedPoints(l, schedule, breaks) == {}
  {
    CreditWithinSchedule(l, schedule, breaks);
    assert ClippedPoints(l, schedule, breaks) == {};
  }

  lemma {:induction false} FactMember(leaves: seq<Leave>, status: FactStatus, schedule: set<int>, breaks: set<int>,
                                      t: int)
    ensures t in FactPoints(leaves, status, schedule, breaks) <==>
      exists l :: l in leaves && l.status == status && t in CreditedPoints(l, schedule, breaks)
  {
    if leaves != [] {
      FactMember(leaves[..|leaves| - 1], status, schedule, breaks, t);
      assert forall l :: l in leaves <==> l in leaves[..|leaves| - 1] || l == leaves[|leaves| - 1];
    }
  }

  /** Facts act as a set: order and repetition do not matter, more facts never credit less, and all
      credit lies inside the schedule and off the breaks. */
  lemma FactsActAsASet(a: seq<Leave>, b: seq<Leave>, status: FactStatus, schedule: set<int>, breaks: set<int>)
    requires forall l | l in a && l.status == status && CreditedPoints(l, schedule, breaks) != {} :: l in b
    ensures FactPoints(a, status, schedule, breaks) <= FactPoints(b, status, schedule, breaks)
    ensures FactPoints(a, status, schedule, breaks) <= schedule - breaks
  {
    forall t | t in FactPoints(a, status, schedule, breaks)
      ensures t in FactPoints(b, status, schedule, breaks) && t in schedule - breaks
    {
      FactMember(a, status, schedule, breaks, t);
      FactMember(b, status, schedule, breaks, t);
      var l :| l in a && l.status == status && t in CreditedPoints(l, schedule, breaks);
      CreditWithinSchedule(l, schedule, breaks);
    }
  }

  /** On whole-minute time a fact with positive net minutes credits exactly the smaller of its net
      minutes and its clipped time, so never more than it was granted. */
  lemma NetMinutesRespected(l: Leave, schedule: set<int>, breaks: set<int>)
    requires l.netMinutes > 0 && Cellwise(ClippedPoints(l, schedule, breaks))
    ensures var clipped := |ClippedPoints(l, schedule, breaks)|;
      |CreditedPoints(l, schedule, breaks)|
        == if l.netMinutes * MINUTE <= clipped then l.netMinutes * MINUTE else clipped
    ensures RoundedMinutes(|CreditedPoints(l, schedule, breaks)|) <= l.netMinutes
  {
    var clipped := ClippedPoints(l, schedule, breaks);
    CellwiseSize(clipped);
    RoundedWhole(|clipped|);
    CappedSizeAligned(clipped, l.netMinutes);
    RoundedWhole(|CreditedPoints(l, schedule, breaks)|);
  }

  lemma CapInMinutes(clipped: nat, net: nat, spill: nat, credited: nat)
    requires net > 0
    requires credited == if net < RoundedMinutes(clipped) then Min(clipped, net * MINUTE + spill) else clipped
    ensures credited <= net * MINUTE <==> clipped <= net * MINUTE || (net < RoundedMinutes(clipped) && spill == 0)
    ensures RoundedMinutes(credited) <= net <==> RoundedMinutes(clipped) <= net || 2 * spill < MINUTE
  {
    RoundedIsNearest(clipped);
    RoundedIsNearest(credited);
  }

  /** In general, for a fact that grants net minutes: it credits no more than them exactly if there is
      no more to credit, or it is cut and lets no seconds through; the minutes it reports exceed them
      exactly if there are more to report and it lets through half a minute or more. */
  lemma CapHoldsExactly(l: Leave, schedule: set<int>, breaks: set<int>)
    requires l.netMinutes > 0
    ensures var clipped, credited := ClippedPoints(l, schedule, breaks), CreditedPoints(l, schedule, breaks);
            var spill := Spill(Runs(clipped), l.netMinutes);
      && (|credited| <= l.netMinutes * MINUTE <==>
            |clipped| <= l.netMinutes * MINUTE || (l.netMinutes < RoundedMinutes(|clipped|) && spill == 0))
      && (RoundedMinutes(|credited|) <= l.netMinutes <==>
            RoundedMinutes(|clipped|) <= l.netMinutes || 2 * spill < MINUTE)
  {
    var clipped := ClippedPoints(l, schedule, breaks);
    CappedSizeExact(clipped, l.netMinutes);
    CapInMinutes(|clipped|, l.netMinutes, Spill(Runs(clipped), l.netMinutes), |CreditedPoints(l, schedule, breaks)|);
  }

  lemma CreditCellwise(l: Leave, schedule: set<int>, breaks: set<int>)
    requires l.startAt % MINUTE == 0 && l.endAt % MINUTE == 0
    requires Cellwise(schedule) && Cellwise(breaks)
    ensures Cellwise(ClippedPoints(l, schedule, breaks))
    ensures Cellwise(CreditedPoints(l, schedule, breaks))
  {
    CellwiseSpan(Interval(l.startAt, l.endAt));
    var clipped := ClippedPoints(l, schedule, breaks);
    forall t, u | t in clipped && SameMinute(t, u) ensures u in clipped {
      assert SameMinute(u, t);
    }
    CellwiseRuns(Runs(clipped));
    CappedCellwise(Runs(clipped), l.netMinutes);
  }

  lemma {:induction false} FactsCellwise(leaves: seq<Leave>, status: FactStatus, schedule: set<int>, breaks: set<int>)
    requires forall l | l in leaves :: l.startAt % MINUTE == 0 && l.endAt % MINUTE == 0
    requires Cellwise(schedule) && Cellwise(breaks)
    ensures Cellwise(FactPoints(leaves, status, schedule, breaks))
  {
    if leaves != [] {
      FactsCellwise(leaves[..|leaves| - 1], status, schedule, breaks);
      CreditCellwise(leaves[|leaves| - 1], schedule, breaks);
    }
  }

  // -------------------------------------------------------- credit balance

  /** Time worked, once breaks and approved leave are taken out of the sessions. */
  ghost function NetWorked(worked: set<int>, breaks: set<int>, approved: set<int>): set<int> {
    worked - (breaks + approved)
  }

  /** No instant is credited twice: worked and approved time together measure their union. */
  lemma CreditIsConserved(worked: set<int>, breaks: set<int>, approved: set<int>)
    requires approved !! breaks
    ensures NetWorked(worked, breaks, approved) !! approved
    ensures NetWorked(worked, breaks, approved) !! breaks
    ensures |NetWorked(worked, breaks, approved)| + |approved| == |(worked - breaks) + approved|
  {
    assert NetWorked(worked, breaks, approved) + approved == (worked - breaks) + approved;
  }

  lemma SubsetSize<T>(a: set<T>, b: set<T>)
    requires a <= b
    ensures |a| <= |b|
  {
    assert b == a + (b - a);
  }

  /** More approved leave never lowers the credited time; in rounded minutes it costs at most one,
      and none when everything lies on whole minutes. */
  lemma MoreLeaveCreditsMore(worked: set<int>, breaks: set<int>, approved: set<int>, more: set<int>)
    requires approved <= more && more !! breaks
    ensures var before, after := NetWorked(worked, breaks, approved), NetWorked(worked, breaks, more);
      && |before| + |approved| <= |after| + |more|
      && RoundedMinutes(|before|) + RoundedMinutes(|approved|) <= RoundedMinutes(|after|) + RoundedMinutes(|more|) + 1
      && (Cellwise(worked) && Cellwise(breaks) && Cellwise(approved) && Cellwise(more) ==>
            RoundedMinutes(|before|) + RoundedMinutes(|approved|) <= RoundedMinutes(|after|) + RoundedMinutes(|more|))
  {
    CreditIsConserved(worked, breaks, approved);
    CreditIsConserved(worked, breaks, more);
    SubsetSize((worked - breaks) + approved, (worked - breaks) + more);
    var before, after := NetWorked(worked, breaks, approved), NetWorked(worked, breaks, more);
    RoundedSums(|before|, |approved|, |after|, |more|);
    if Cellwise(worked) && Cellwise(breaks) && Cellwise(approved) && Cellwise(more) {
      CellwiseNet(worked, breaks, approved);
      CellwiseNet(worked, breaks, more);
      CellwiseSize(before);
      CellwiseSize(after);
      CellwiseSize(approved);
      CellwiseSize(more);
    }
  }

  lemma CellwiseNet(worked: set<int>, breaks: set<int>, approved: set<int>)
    requires Cellwise(worked) && Cellwise(breaks) && Cellwise(approved)
    ensures Cellwise(NetWorked(worked, breaks, approved))
  {
    var net := NetWorked(worked, breaks, approved);
    forall t, u | t in net && SameMinute(t, u) ensures u in net {
      assert SameMinute(u, t);
    }
  }

  /** What rounding to the nearest minute leaves over, counted from half a minute below. */
  function Rest(n: nat): nat {
    (n + MINUTE / 2) % MINUTE
  }

  lemma RoundedAndRest(n: nat)
    ensures RoundedMinutes(n) * MINUTE + Rest(n) == n + MINUTE / 2
  {
    RoundedIsNearest(n);
    assert n + MINUTE / 2 == ((n + MINUTE / 2) / MINUTE) * MINUTE + Rest(n);
  }

  /** When two rounded parts come to less than two others: when their rests outgrow what they gained. */
  lemma RoundedTotalsDrop(a: nat, b: nat, c: nat, d: nat)
    ensures RoundedMinutes(c) + RoundedMinutes(d) < RoundedMinutes(a) + RoundedMinutes(b) <==>
      Rest(c) + Rest(d) > Rest(a) + Rest(b) + (c + d - a - b)
  {
    RoundedAndRest(a);
    RoundedAndRest(b);
    RoundedAndRest(c);
    RoundedAndRest(d);
  }

  /** An extra credit turns some worked time into leave and gains some time. It loses a minute if what
      rounding leaves over grows by more than the gain. */
  ghost predicate LosesAMinute(net: set<int>, approved: set<int>, credit: set<int>) {
    var turned, gained := |net * credit|, |credit - approved - net|;
    SubsetSize(net * credit, net);
    Rest(|net| - turned) + Rest(|approved| + turned + gained) > Rest(|net|) + Rest(|approved|) + gained
  }

  lemma CreditSizes(worked: set<int>, breaks: set<int>, approved: set<int>, credit: set<int>)
    requires approved !! breaks && credit !! breaks
    ensures var before, after := NetWorked(worked, breaks, approved), NetWorked(worked, breaks, approved + credit);
            var turned, gained := |before * credit|, |credit - approved - before|;
      |after| == |before| - turned && |approved + credit| == |approved| + turned + gained
  {
    var before, after := NetWorked(worked, breaks, approved), NetWorked(worked, breaks, approved + credit);
    var turned, gained := before * credit, credit - approved - before;
    assert before == after + turned && after !! turned;
    assert approved + credit == (approved + turned) + gained;
    assert approved !! turned && (approved + turned) !! gained;
  }

  /** The rounded total drops exactly if the credit loses a minute. */
  lemma RoundedCreditDrops(worked: set<int>, breaks: set<int>, approved: set<int>, credit: set<int>)
    requires approved !! breaks && credit !! breaks
    ensures var before, after := NetWorked(worked, breaks, approved), NetWorked(worked, breaks, approved + credit);
      LosesAMinute(before, approved, credit) <==>
        RoundedMinutes(|after|) + RoundedMinutes(|approved + credit|)
          < RoundedMinutes(|before|) + RoundedMinutes(|approved|)
  {
    var before, after := NetWorked(worked, breaks, approved), NetWorked(worked, breaks, approved + credit);
    CreditSizes(worked, breaks, approved, credit);
    RoundedTotalsDrop(|before|, |approved|, |after|, |approved + credit|);
  }

  // -------------------------------------------- facts relevant to one day

  /** The facts of one employee that touch the scheduled span. */
  function Relevant(leaves: seq<Leave>, employee: int, start: int, end: int): seq<Leave> {
    if leaves == [] then []
    else
      var last := leaves[|leaves| - 1];
      Relevant(leaves[..|leaves| - 1], employee, start, end) +
      (if last.employee == employee && last.startAt < end && last.endAt > start then [last] else [])
  }

  method AttendanceEffectiveLeavesForProjection(leaves: seq<Leave>, employee: int, schedule: seq<Interval>)
    returns (out: seq<Leave>)
    ensures out == if schedule == [] then []
              else Relevant(leaves, employee, schedule[0].start, schedule[|schedule| - 1].end)
  {
    out := [];
    if |schedule| == 0 {
      return;
    }
    var start, end := schedule[0].start, schedule[|schedule| - 1].end;
    for i := 0 to |leaves|
      invariant out == Relevant(leaves[..i], employee, start, end)
    {
      var leave := leaves[i];
      assert leaves[..i + 1][..i] == leaves[..i];
      if leave.employee == employee && leave.startAt < end && leave.endAt > start {
        out := out + [leave];
      }
    }
    assert leaves[..|leaves|] == leaves;
  }

  lemma {:induction false} RelevantMember(leaves: seq<Leave>, employee: int, start: int, end: int, l: Leave)
    ensures l in Relevant(leaves, employee, start, end) <==>
      l in leaves && l.employee == employee && l.startAt < end && l.endAt > start
  {
    if leaves != [] {
      RelevantMember(leaves[..|leaves| - 1], employee, start, end, l);
      assert l in leaves <==> l in leaves[..|leaves| - 1] || l == leaves[|leaves| - 1];
    }
  }

  /** Dropping an employee's facts that miss the schedule changes no credit. */
  lemma IrrelevantFactsCreditNothing(leaves: seq<Leave>, employee: int, status: FactStatus, start: int, end: int,
                                     breaks: set<int>)
    requires forall l | l in leaves :: l.employee == employee
    ensures FactPoints(Relevant(leaves, employee, start, end), status, Span(Interval(start, end)), breaks)
      == FactPoints(leaves, status, Span(Interval(start, end)), breaks)
  {
    var schedule, kept := Span(Interval(start, end)), Relevant(leaves, employee, start, end);
    forall l | l in leaves && CreditedPoints(l, schedule, breaks) != {} ensures l in kept {
      RelevantMember(leaves, employee, start, end, l);
      CreditWithinSchedule(l, schedule, breaks);
      var t := Pick(CreditedPoints(l, schedule, breaks));
      assert t in ClippedPoints(l, schedule, breaks);
    }
    forall l | l in kept ensures l in leaves {
      RelevantMember(leaves, employee, start, end, l);
    }
    FactsActAsASet(leaves, kept, status, schedule, breaks);
    FactsActAsASet(kept, leaves, status, schedule, breaks);
  }
}
