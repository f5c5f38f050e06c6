/** One-time agent confirmations: any number of callers claim a confirmation, run the protected action,
    and write how it ended. A write may be lost, or take effect although its caller was told it
    failed, or take effect long after; a caller may stop at any point. Every step carries the clock
    its caller read. */
module Confirmations {
  import opened AttendanceRecords

  datatype Status = Pending | Executing | Completed | Failed | Cancelled | Expired
  {
    predicate Terminal() {
      this == Completed || this == Failed || this == Cancelled || this == Expired
    }

    predicate CanTransitionTo(next: Status) {
      || this == next
      || (this == Pending && (next == Executing || next == Cancelled || next == Expired))
      || (this == Executing && next != Executing)
    }
  }

  datatype Confirmation = Confirmation(
    id: int,
    account: int,
    segment: int,
    action: Option<int>,
    status: Status,
    result: Option<int>,
    lastError: string,
    expiresAt: int,
    consumedAt: Option<int>,
    updatedAt: int)

  /** What the service can tell about an error. */
  datatype Error = Error(
    text: string,
    nonRetryable: bool,
    canceled: bool,
    appStatus: Option<int>,
    deadlineExceeded: bool,
    timeout: bool,
    temporary: bool)

  datatype Outcome = Success(result: int) | Failure(error: Error)

  predicate Retryable(e: Error) {
    if e.nonRetryable then false
    else if e.appStatus.Some? then e.appStatus.value >= 500
    else e.deadlineExceeded || e.timeout || e.temporary
  }

  /** The record a caller writes after its attempt. */
  function Settlement(record: Confirmation, outcome: Outcome, now: int): Confirmation {
    match outcome
    case Success(result) =>
      record.(status := Completed, result := Some(result), lastError := "", consumedAt := Some(now), updatedAt := now)
    case Failure(e) =>
      var r := record.(lastError := e.text, updatedAt := now, result := None);
      if record.expiresAt <= now then r.(status := Expired, consumedAt := Some(now))
      else if e.canceled then r.(status := Cancelled, consumedAt := Some(now))
      else if Retryable(e) then r.(status := Pending, consumedAt := None)
      else r.(status := Failed, consumedAt := Some(now))
  }

  // ------------------------------------------------------ transition system

  datatype Phase = Holding | Acted(outcome: Outcome) | Writing(outcome: Outcome, sentAt: int) | Done

  datatype Caller = Caller(record: Confirmation, phase: Phase)

  /** The stored records, the callers that ever held one, who took each record last, and the successful
      runs of each record's action. */
  datatype State = State(
    rows: map<int, Confirmation>,
    callers: map<int, Caller>,
    holder: map<int, int>,
    successes: multiset<int>)

  const EMPTY := State(map[], map[], map[], multiset{})

  datatype Step =
    | Save(record: Confirmation)
    | Take(caller: int, id: int, account: int, segment: int, now: int)
    | Act(caller: int, outcome: Outcome)
    | Send(caller: int, now: int)
    | Apply(caller: int)

  /** The claim: only the owner, only on the current segment, only a pending record; past its expiry the
      record expires instead. */
  predicate Takeable(s: State, id: int, account: int, segment: int) {
    id in s.rows && s.rows[id].account == account && s.rows[id].segment == segment && s.rows[id].status == Pending
  }

  function Taken(r: Confirmation, now: int): Confirmation {
    if r.expiresAt <= now then r.(updatedAt := now, status := Expired, consumedAt := Some(now))
    else r.(updatedAt := now, status := Executing)
  }

  predicate Writable(rows: map<int, Confirmation>, update: Confirmation) {
    && update.id in rows && rows[update.id].account == update.account
    && rows[update.id].status.CanTransitionTo(update.status)
  }

  function Written(existing: Confirmation, update: Confirmation): Confirmation {
    existing.(result := update.result, status := update.status, lastError := update.lastError,
              consumedAt := update.consumedAt, updatedAt := update.updatedAt)
  }

  /** An undecodable action never runs: its caller settles a plain failure. */
  predicate MayEnd(record: Confirmation, outcome: Outcome) {
    record.action.None? ==> outcome.Failure? && !Retryable(outcome.error) && !outcome.error.canceled
  }

  /** One step; a step that is not possible changes nothing. */
  function Next(s: State, step: Step): State {
    match step
    case Save(r) =>
      if r.id in s.rows || r.status != Pending then s else s.(rows := s.rows[r.id := r])
    case Take(c, id, account, segment, now) =>
      if c in s.callers || !Takeable(s, id, account, segment) then s
      else
        var r := Taken(s.rows[id], now);
        var s' := s.(rows := s.rows[id := r]);
        if r.status == Executing then
          s'.(callers := s.callers[c := Caller(r, Holding)], holder := s.holder[id := c])
        else s'
    case Act(c, outcome) =>
      if c in s.callers && s.callers[c].phase == Holding && MayEnd(s.callers[c].record, outcome) then
        s.(callers := s.callers[c := s.callers[c].(phase := Acted(outcome))],
           successes := if outcome.Success? then s.successes + multiset{s.callers[c].record.id} else s.successes)
      else s
    case Send(c, now) =>
      if c in s.callers && s.callers[c].phase.Acted? then
        s.(callers := s.callers[c := s.callers[c].(phase := Writing(s.callers[c].phase.outcome, now))])
      else s
    case Apply(c) =>
      if c in s.callers && s.callers[c].phase.Writing? then
        var update := Settlement(s.callers[c].record, s.callers[c].phase.outcome, s.callers[c].phase.sentAt);
        s.(callers := s.callers[c := s.callers[c].(phase := Done)],
           rows := if Writable(s.rows, update) then s.rows[update.id := Written(s.rows[update.id], update)] else s.rows)
      else s
  }

  function After(s: State, steps: seq<Step>): State
    decreases |steps|
  {
    if steps == [] then s else After(Next(s, steps[0]), steps[1..])
  }

  lemma {:induction false} AfterConcat(s: State, a: seq<Step>, b: seq<Step>)
    ensures After(s, a + b) == After(After(s, a), b)
    decreases |a|
  {
    if a == [] {
      assert a + b == b;
    } else {
      AfterConcat(Next(s, a[0]), a[1..], b);
      assert (a + b)[1..] == a[1..] + b;
    }
  }

  // ------------------------------------------------------------- invariant

  function Outcomes(p: Phase): Option<Outcome> {
    match p
    case Holding => None
    case Done => None
    case Acted(o) => Some(o)
    case Writing(o, _) => Some(o)
  }

  /** A caller that has not finished is its record's only one, and the record is executing, exactly as
      the caller was handed it. */
  predicate CallerKept(s: State, c: int)
    requires c in s.callers
  {
    var k := s.callers[c];
    k.phase == Done ||
    (&& k.record.id in s.rows && s.rows[k.record.id] == k.record && k.record.status == Executing
     && k.record.id in s.holder && s.holder[k.record.id] == c
     && (s.successes[k.record.id] == 1 <==> Outcomes(k.phase).Some? && Outcomes(k.phase).value.Success?))
  }

  predicate RowKept(s: State, id: int)
    requires id in s.rows
  {
    && s.rows[id].id == id
    && s.successes[id] <= 1
    && (s.rows[id].status == Completed ==> s.successes[id] == 1)
    && (s.rows[id].status != Completed && s.rows[id].status != Executing ==> s.successes[id] == 0)
  }

  predicate Inv(s: State) {
    && (forall id | id in s.rows :: RowKept(s, id))
    && (forall c | c in s.callers :: CallerKept(s, c))
    && (forall id | id in s.successes :: id in s.rows)
  }

  lemma TakeKeeps(s: State, c: int, id: int, account: int, segment: int, now: int)
    requires Inv(s)
    ensures Inv(Next(s, Take(c, id, account, segment, now)))
  {
    var n := Next(s, Take(c, id, account, segment, now));
    if c !in s.callers && Takeable(s, id, account, segment) {
      forall d | d in n.callers ensures CallerKept(n, d) {
        assert RowKept(s, id);
        if d in s.callers {
          assert CallerKept(s, d);
        }
      }
      forall i | i in n.rows ensures RowKept(n, i) {
        assert RowKept(s, i);
      }
    }
  }

  lemma ActKeeps(s: State, c: int, outcome: Outcome)
    requires Inv(s)
    ensures Inv(Next(s, Act(c, outcome)))
  {
    var n := Next(s, Act(c, outcome));
    if c in s.callers {
      assert CallerKept(s, c);
    }
    forall d | d in n.callers ensures CallerKept(n, d) {
      assert CallerKept(s, d);
    }
    forall i | i in n.rows ensures RowKept(n, i) {
      assert RowKept(s, i);
    }
  }

  lemma ApplyKeeps(s: State, c: int)
    requires Inv(s)
    ensures Inv(Next(s, Apply(c)))
  {
    var n := Next(s, Apply(c));
    if c in s.callers && s.callers[c].phase.Writing? {
      assert CallerKept(s, c) && RowKept(s, s.callers[c].record.id);
      forall d | d in n.callers ensures CallerKept(n, d) {
        assert CallerKept(s, d);
      }
      forall i | i in n.rows ensures RowKept(n, i) {
        assert RowKept(s, i);
      }
    }
  }

  lemma StepKeeps(s: State, step: Step)
    requires Inv(s)
    ensures Inv(Next(s, step))
  {
    match step
    case Take(c, id, account, segment, now) => TakeKeeps(s, c, id, account, segment, now);
    case Act(c, outcome) => ActKeeps(s, c, outcome);
    case Apply(c) => ApplyKeeps(s, c);
    case Save(r) =>
      var n := Next(s, step);
      forall i | i in n.rows ensures RowKept(n, i) {
        if i in s.rows {
          assert RowKept(s, i);
        }
      }
      forall d | d in n.callers ensures CallerKept(n, d) {
        assert CallerKept(s, d);
      }
    case Send(c, now) =>
      var n := Next(s, step);
      forall d | d in n.callers ensures CallerKept(n, d) {
        assert CallerKept(s, d);
      }
      forall i | i in n.rows ensures RowKept(n, i) {
        assert RowKept(s, i);
      }
  }

  lemma {:induction false} EveryRunKeeps(s: State, steps: seq<Step>)
    requires Inv(s)
    ensures Inv(After(s, steps))
    decreases |steps|
  {
    if steps != [] {
      StepKeeps(s, steps[0]);
      EveryRunKeeps(Next(s, steps[0]), steps[1..]);
    }
  }

  // -------------------------------------------------------------- theorems

  /** Over every run of any callers, lost and late writes included, the protected action of one
      confirmation succeeds at most once, and a completed record is one that did. */
  lemma SucceedsAtMostOnce(steps: seq<Step>, id: int)
    ensures var s := After(EMPTY, steps);
      && s.successes[id] <= 1
      && (id in s.rows && s.rows[id].status == Completed ==> s.successes[id] == 1)
      && (id in s.rows && s.rows[id].status == Pending ==> s.successes[id] == 0)
  {
    EveryRunKeeps(EMPTY, steps);
    var s := After(EMPTY, steps);
    if id in s.rows {
      assert RowKept(s, id);
    }
  }

  /** Two callers are never inside the action, or between it and their write, at once. */
  lemma OneCallerAtATime(steps: seq<Step>, c: int, d: int)
    ensures var s := After(EMPTY, steps);
      (c in s.callers && d in s.callers && s.callers[c].phase != Done && s.callers[d].phase != Done
       && s.callers[c].record.id == s.callers[d].record.id) ==> c == d
  {
    EveryRunKeeps(EMPTY, steps);
    var s := After(EMPTY, steps);
    if c in s.callers && d in s.callers {
      assert CallerKept(s, c) && CallerKept(s, d);
    }
  }

  /** Every step moves a record along the transition relation, and back from executing to pending only
      for a caller whose action failed retryably while the record had not expired. */
  lemma StepsObeyTransitions(s: State, step: Step, id: int)
    requires Inv(s) && id in s.rows
    ensures var n := Next(s, step);
      && id in n.rows && s.rows[id].status.CanTransitionTo(n.rows[id].status)
      && (s.rows[id].status == Executing && n.rows[id].status == Pending ==>
            && step.Apply? && s.callers[step.caller].phase.outcome.Failure?
            && Retryable(s.callers[step.caller].phase.outcome.error)
            && s.callers[step.caller].phase.sentAt < s.rows[id].expiresAt
            && s.successes[id] == 0)
  {
    assert RowKept(s, id);
    if step.Apply? && step.caller in s.callers {
      assert CallerKept(s, step.caller);
    }
  }

  /** The transition relation: a pending record may start, be cancelled or expire; an executing one may end
      in any way or wait again; the others are the ends, which have no way out. */
  lemma TransitionsExactly(a: Status, b: Status)
    ensures a.CanTransitionTo(b) <==>
      || a == b
      || (a == Pending && b in {Executing, Cancelled, Expired})
      || (a == Executing && b in {Pending, Completed, Failed, Cancelled, Expired})
    ensures a.Terminal() <==> !a.CanTransitionTo(Cancelled) || a == Cancelled
    ensures a.Terminal() && a.CanTransitionTo(b) ==> a == b
  {
  }

  /** Who gets to run an action: a new caller naming the owner and the current segment of a pending record
      before its expiry. From the expiry on the same claim expires the record, and any other claim changes
      nothing. */
  lemma ClaimsExactly(s: State, c: int, id: int, account: int, segment: int, now: int)
    requires id in s.rows && c !in s.callers
    ensures var r, n := s.rows[id], Next(s, Take(c, id, account, segment, now));
            var mayClaim := r.status == Pending && r.account == account && r.segment == segment;
      && (c in n.callers <==> mayClaim && now < r.expiresAt)
      && (c in n.callers ==>
            && n.rows == s.rows[id := r.(status := Executing, updatedAt := now)]
            && n.callers[c] == Caller(n.rows[id], Holding))
      && (mayClaim && now >= r.expiresAt ==>
            n.rows == s.rows[id := r.(status := Expired, consumedAt := Some(now), updatedAt := now)])
      && (!mayClaim ==> n == s)
  {
  }

  /** How a failed attempt ends, whichever way it is written: expired if sent at or after the expiry, else
      cancelled if the call was cancelled, else pending again for a server-side, timed-out or temporary
      error, else failed for good. Only a record put back to pending is left unconsumed. */
  lemma FailureEndsExactly(s: State, c: int)
    requires Inv(s) && c in s.callers && s.callers[c].phase.Writing? && s.callers[c].phase.outcome.Failure?
    ensures var k := s.callers[c];
            var e, at, r := k.phase.outcome.error, k.phase.sentAt, k.record;
            var n := Next(s, Apply(c)).rows;
            var passing := if e.appStatus.Some? then e.appStatus.value >= 500
                           else e.deadlineExceeded || e.timeout || e.temporary;
      && r.id in n
      && (n[r.id].status == Expired <==> r.expiresAt <= at)
      && (n[r.id].status == Cancelled <==> at < r.expiresAt && e.canceled)
      && (n[r.id].status == Pending <==> at < r.expiresAt && !e.canceled && !e.nonRetryable && passing)
      && (n[r.id].status == Failed <==> at < r.expiresAt && !e.canceled && (e.nonRetryable || !passing))
      && n[r.id].consumedAt == (if n[r.id].status == Pending then None else Some(at))
      && n == s.rows[r.id := r.(status := n[r.id].status, consumedAt := n[r.id].consumedAt, lastError := e.text,
                                result := None, updatedAt := at)]
  {
    assert CallerKept(s, c) && RowKept(s, s.callers[c].record.id);
  }

  /** How a successful attempt ends: completed with its result, even when the expiry has passed. */
  lemma SuccessEndsExactly(s: State, c: int)
    requires Inv(s) && c in s.callers && s.callers[c].phase.Writing? && s.callers[c].phase.outcome.Success?
    ensures var k, n := s.callers[c], Next(s, Apply(c)).rows;
      && k.record.id in n
      && n == s.rows[k.record.id := k.record.(status := Completed, result := Some(k.phase.outcome.result),
                                              lastError := "", consumedAt := Some(k.phase.sentAt),
                                              updatedAt := k.phase.sentAt)]
  {
    assert CallerKept(s, c) && RowKept(s, s.callers[c].record.id);
  }

  /** A record's action counts as run only through a caller that holds it, and never if it does not
      decode. */
  lemma SuccessesExactly(s: State, step: Step, id: int)
    ensures Next(s, step).successes[id] == s.successes[id] +
      (if step.Act? && step.outcome.Success? && step.caller in s.callers
          && s.callers[step.caller].phase == Holding && s.callers[step.caller].record.id == id
          && s.callers[step.caller].record.action.Some? then 1 else 0)
  {
  }

  lemma StepKeepsTerminal(s: State, step: Step, id: int)
    requires Inv(s) && id in s.rows && s.rows[id].status.Terminal()
    ensures id in Next(s, step).rows && Next(s, step).rows[id] == s.rows[id]
  {
    assert RowKept(s, id);
    if step.Apply? && step.caller in s.callers {
      assert CallerKept(s, step.caller);
    }
  }

  /** A terminal record is final in every column. The store itself would accept a second write of the
      same status; in no run is there one left to make. */
  lemma {:induction false} TerminalIsFinal(s: State, steps: seq<Step>, id: int)
    requires Inv(s) && id in s.rows && s.rows[id].status.Terminal()
    ensures id in After(s, steps).rows && After(s, steps).rows[id] == s.rows[id]
    decreases |steps|
  {
    if steps != [] {
      StepKeeps(s, steps[0]);
      StepKeepsTerminal(s, steps[0], id);
      TerminalIsFinal(Next(s, steps[0]), steps[1..], id);
    }
  }

  lemma SuccessStep(s: State, step: Step, id: int)
    requires Inv(s) && id in s.rows && s.successes[id] == 1
    ensures var n := Next(s, step);
      id in n.rows && n.successes[id] == 1 && (n.rows[id].status == Executing || n.rows[id].status == Completed)
  {
    assert RowKept(s, id);
    StepKeeps(s, step);
    StepsObeyTransitions(s, step, id);
    var n := Next(s, step);
    assert RowKept(n, id);
    if step.Act? && step.caller in s.callers {
      assert CallerKept(s, step.caller);
    }
  }

  /** Once the action has succeeded the record is executing or completed for good, whether or not the
      completion was ever written: nobody can take it again. */
  lemma {:induction false} SuccessIsNeverReclaimed(s: State, steps: seq<Step>, id: int, c: int, account: int,
                                                   segment: int, now: int)
    requires Inv(s) && id in s.rows && s.successes[id] == 1
    ensures var later := After(s, steps);
      && id in later.rows && (later.rows[id].status == Executing || later.rows[id].status == Completed)
      && later.successes[id] == 1
      && Next(later, Take(c, id, account, segment, now)) == later
    decreases |steps|
  {
    assert RowKept(s, id);
    if steps != [] {
      StepKeeps(s, steps[0]);
      SuccessStep(s, steps[0], id);
      SuccessIsNeverReclaimed(Next(s, steps[0]), steps[1..], id, c, account, segment, now);
    }
  }

  predicate NoApply(steps: seq<Step>, c: int) {
    forall step | step in steps :: step != Apply(c)
  }

  /** While its caller's write has not taken effect a record stays as taken, past its expiry too. */
  lemma {:induction false} HeldUntilWritten(s: State, steps: seq<Step>, c: int)
    requires Inv(s) && c in s.callers && s.callers[c].phase != Done && NoApply(steps, c)
    ensures var later := After(s, steps);
      && c in later.callers && later.callers[c].record == s.callers[c].record && later.callers[c].phase != Done
      && s.callers[c].record.id in later.rows
      && later.rows[s.callers[c].record.id] == s.callers[c].record && s.callers[c].record.status == Executing
    decreases |steps|
  {
    assert CallerKept(s, c);
    if steps != [] {
      assert steps[0] in steps;
      assert NoApply(steps[1..], c) by {
        forall step | step in steps[1..] ensures step != Apply(c) {
          assert step in steps;
        }
      }
      StepKeeps(s, steps[0]);
      assert CallerKept(Next(s, steps[0]), c);
      HeldUntilWritten(Next(s, steps[0]), steps[1..], c);
    }
  }

  // ----------------------------------------------------------- the service

  const DECODE_ERROR := Error("confirmation payload is invalid", false, false, None, false, false, false)

  /** Whether the final write took effect, and whether its caller heard so. */
  datatype Reply = Answered | ReportedFailed | Lost

  /** One call: what everybody else does before the action, during it, and before its write lands. */
  datatype Attempt = Attempt(
    takenAt: int,
    before: seq<Step>,
    outcome: Outcome,
    during: seq<Step>,
    settledAt: int,
    late: seq<Step>,
    reply: Reply)

  datatype Result = Executed(result: int) | Invalid | HasExpired | ActionFailed(error: Error) | CompletionFailed
    | ChangedDuringExecution

  predicate By(step: Step, c: int) {
    match step
    case Save(_) => false
    case Take(d, _, _, _, _) => d == c
    case Act(d, _) => d == c
    case Send(d, _) => d == c
    case Apply(d) => d == c
  }

  predicate Foreign(steps: seq<Step>, c: int) {
    forall step | step in steps :: !By(step, c)
  }

  lemma {:induction false} ForeignLeavesCaller(s: State, steps: seq<Step>, c: int)
    requires Foreign(steps, c)
    ensures c in After(s, steps).callers <==> c in s.callers
    ensures c in s.callers ==> After(s, steps).callers[c] == s.callers[c]
    decreases |steps|
  {
    if steps != [] {
      assert steps[0] in steps;
      assert Foreign(steps[1..], c) by {
        forall step | step in steps[1..] ensures !By(step, c) {
          assert step in steps;
        }
      }
      ForeignLeavesCaller(Next(s, steps[0]), steps[1..], c);
    }
  }

  function EndOf(record: Confirmation, outcome: Outcome): Outcome {
    if record.action.None? then Failure(DECODE_ERROR) else outcome
  }

  /** The steps of a call that got hold of the record, after its claim. */
  function HeldSteps(c: int, outcome: Outcome, a: Attempt): seq<Step> {
    var final := a.late + (if a.reply == Lost then [] else [Apply(c)]);
    a.before + ([Act(c, outcome)] + (a.during + ([Send(c, a.settledAt)] + final)))
  }

  lemma HeldStepsCompose(s: State, c: int, outcome: Outcome, a: Attempt)
    ensures After(s, HeldSteps(c, outcome, a))
         == After(After(Next(After(Next(After(s, a.before), Act(c, outcome)), a.during), Send(c, a.settledAt)), a.late),
                  if a.reply == Lost then [] else [Apply(c)])
  {
    var ending := if a.reply == Lost then [] else [Apply(c)];
    var s1 := After(s, a.before);
    AfterConcat(s, a.before, [Act(c, outcome)] + (a.during + ([Send(c, a.settledAt)] + (a.late + ending))));
    OneThenRest(s1, Act(c, outcome), a.during + ([Send(c, a.settledAt)] + (a.late + ending)));
    var s2 := Next(s1, Act(c, outcome));
    AfterConcat(s2, a.during, [Send(c, a.settledAt)] + (a.late + ending));
    OneThenRest(After(s2, a.during), Send(c, a.settledAt), a.late + ending);
    AfterConcat(Next(After(s2, a.during), Send(c, a.settledAt)), a.late, ending);
  }

  lemma OneThenRest(s: State, step: Step, rest: seq<Step>)
    ensures After(s, [step] + rest) == After(Next(s, step), rest)
  {
    assert ([step] + rest)[0] == step && ([step] + rest)[1..] == rest;
  }

  class ConfirmationService {
    var rows: map<int, Confirmation>
    var callers: map<int, Caller>
    var holder: map<int, int>
    var successes: multiset<int>

    function System(): State
      reads this
    {
      State(rows, callers, holder, successes)
    }

    constructor ()
      ensures System() == EMPTY && Inv(System())
    {
      rows, callers, holder, successes := map[], map[], map[], multiset{};
    }

    method SaveAgentConfirmation(record: Confirmation)
      requires Inv(System()) && record.status == Pending
      modifies this`rows
      ensures Inv(System()) && System() == Next(old(System()), Save(record))
    {
      StepKeeps(System(), Save(record));
      if record.id in rows {
        return;
      }
      rows := rows[record.id := record];
    }

    /** Expires the pending record or hands it out as executing, in one write. */
    method ClaimAgentConfirmation(c: int, id: int, account: int, segment: int, now: int)
      returns (claimed: Option<Confirmation>)
      requires Inv(System()) && c !in callers
      modifies this
      ensures Inv(System()) && System() == Next(old(System()), Take(c, id, account, segment, now))
      ensures claimed == if Takeable(old(System()), id, account, segment) then Some(Taken(old(rows)[id], now)) else None
    {
      StepKeeps(System(), Take(c, id, account, segment, now));
      if id !in rows {
        return None;
      }
      var confirmation := rows[id];
      if confirmation.account != account || confirmation.status != Pending || confirmation.segment != segment {
        return None;
      }
      confirmation := confirmation.(updatedAt := now);
      if confirmation.expiresAt <= now {
        confirmation := confirmation.(status := Expired, consumedAt := Some(now));
      } else {
        confirmation := confirmation.(status := Executing);
        callers, holder := callers[c := Caller(confirmation, Holding)], holder[id := c];
      }
      rows := rows[id := confirmation];
      return Some(confirmation);
    }

    /** Copies the settlement's columns into a record that may still move to its status. */
    method UpdateAgentConfirmation(update: Confirmation) returns (updated: bool)
      modifies this`rows
      ensures updated == Writable(old(rows), update)
      ensures rows == if updated then old(rows)[update.id := Written(old(rows)[update.id], update)] else old(rows)
    {
      if update.id !in rows {
        return false;
      }
      var existing := rows[update.id];
      if existing.account != update.account || !existing.status.CanTransitionTo(update.status) {
        return false;
      }
      existing := existing.(result := update.result, status := update.status, lastError := update.lastError);
      existing := existing.(consumedAt := update.consumedAt, updatedAt := update.updatedAt);
      rows := rows[update.id := existing];
      return true;
    }

    /** What everybody else does meanwhile. */
    method Meanwhile(steps: seq<Step>, c: int)
      requires Inv(System()) && Foreign(steps, c)
      modifies this
      ensures Inv(System()) && System() == After(old(System()), steps)
      ensures c in callers <==> c in old(callers)
      ensures c in callers ==> callers[c] == old(callers)[c]
    {
      EveryRunKeeps(System(), steps);
      ForeignLeavesCaller(System(), steps, c);
      var s := After(State(rows, callers, holder, successes), steps);
      rows, callers, holder, successes := s.rows, s.callers, s.holder, s.successes;
    }

    method RunAction(c: int, outcome: Outcome)
      requires Inv(System()) && c in callers && callers[c].phase == Holding && MayEnd(callers[c].record, outcome)
      modifies this`callers, this`successes
      ensures Inv(System()) && System() == Next(old(System()), Act(c, outcome))
      ensures c in callers && callers[c] == Caller(old(callers)[c].record, Acted(outcome))
    {
      StepKeeps(System(), Act(c, outcome));
      if outcome.Success? {
        successes := successes + multiset{callers[c].record.id};
      }
      callers := callers[c := callers[c].(phase := Acted(outcome))];
    }

    /** Builds the settlement field by field and sends it off. */
    method SendSettlement(c: int, record: Confirmation, outcome: Outcome, now: int) returns (update: Confirmation)
      requires Inv(System()) && c in callers && callers[c] == Caller(record, Acted(outcome))
      modifies this`callers
      ensures Inv(System()) && System() == Next(old(System()), Send(c, now))
      ensures c in callers && callers[c] == Caller(record, Writing(outcome, now))
      ensures update == Settlement(record, outcome, now)
    {
      StepKeeps(System(), Send(c, now));
      update := record;
      if outcome.Failure? {
        update := update.(lastError := outcome.error.text, updatedAt := now, result := None);
        if update.expiresAt <= now {
          update := update.(status := Expired, consumedAt := Some(now));
        } else if outcome.error.canceled {
          update := update.(status := Cancelled, consumedAt := Some(now));
        } else if Retryable(outcome.error) {
          update := update.(status := Pending, consumedAt := None);
        } else {
          update := update.(status := Failed, consumedAt := Some(now));
        }
      } else {
        update := update.(status := Completed, result := Some(outcome.result), lastError := "", consumedAt := Some(now),
                          updatedAt := now);
      }
      callers := callers[c := callers[c].(phase := Writing(outcome, now))];
    }

    /** The write of a settlement always finds its record still movable. */
    method LandSettlement(c: int, update: Confirmation) returns (updated: bool)
      requires Inv(System()) && c in callers && callers[c].phase.Writing?
      requires update == Settlement(callers[c].record, callers[c].phase.outcome, callers[c].phase.sentAt)
      modifies this`rows, this`callers
      ensures Inv(System()) && System() == Next(old(System()), Apply(c))
      ensures updated && update.id in rows && rows[update.id] == update
    {
      StepKeeps(System(), Apply(c));
      assert CallerKept(System(), c);
      updated := UpdateAgentConfirmation(update);
      callers := callers[c := callers[c].(phase := Done)];
    }

    /** From the claim to the moment the settlement is on its way. */
    method ActAndSend(c: int, record: Confirmation, outcome: Outcome, a: Attempt) returns (update: Confirmation)
      requires Inv(System()) && c in callers && callers[c] == Caller(record, Holding) && MayEnd(record, outcome)
      requires Foreign(a.before, c) && Foreign(a.during, c)
      modifies this
      ensures Inv(System())
      ensures System() == Next(After(Next(After(old(System()), a.before), Act(c, outcome)), a.during),
                               Send(c, a.settledAt))
      ensures c in callers && callers[c] == Caller(record, Writing(outcome, a.settledAt))
      ensures update == Settlement(record, outcome, a.settledAt)
    {
      Meanwhile(a.before, c);
      RunAction(c, outcome);
      Meanwhile(a.during, c);
      update := SendSettlement(c, record, outcome, a.settledAt);
    }

    /** From the claim to the final write: the action, then a settlement that, if it lands, lands. */
    method RunHeld(c: int, record: Confirmation, outcome: Outcome, a: Attempt) returns (updated: bool)
      requires Inv(System()) && c in callers && callers[c] == Caller(record, Holding) && MayEnd(record, outcome)
      requires Foreign(a.before, c) && Foreign(a.during, c) && Foreign(a.late, c)
      modifies this
      ensures Inv(System()) && System() == After(old(System()), HeldSteps(c, outcome, a))
      ensures updated
      ensures a.reply != Lost ==> record.id in rows && rows[record.id] == Settlement(record, outcome, a.settledAt)
    {
      ghost var start := System();
      var update := ActAndSend(c, record, outcome, a);
      Meanwhile(a.late, c);
      ghost var sent := System();
      assert After(sent, [Apply(c)]) == Next(sent, Apply(c));
      updated := true;
      if a.reply != Lost {
        updated := LandSettlement(c, update);
      }
      HeldStepsCompose(start, c, outcome, a);
    }

    /** One call from start to finish, whatever others do in between. It reports success only for an
        action that succeeded and whose completion is stored, and it never finds the record changed
        under its hands. */
    method ExecuteAgentConfirmation(c: int, id: int, account: int, segment: int, a: Attempt) returns (result: Result)
      requires Inv(System()) && c !in callers
      requires Foreign(a.before, c) && Foreign(a.during, c) && Foreign(a.late, c)
      modifies this
      ensures Inv(System())
      ensures var s := old(System()); var take := Take(c, id, account, segment, a.takenAt);
        if Takeable(s, id, account, segment) && Taken(s.rows[id], a.takenAt).status == Executing then
          var outcome := EndOf(s.rows[id], a.outcome);
          && System() == After(Next(s, take), HeldSteps(c, outcome, a))
          && result == (if outcome.Failure?
                          then (if s.rows[id].action.None? then Invalid else ActionFailed(outcome.error))
                        else if a.reply == Answered then Executed(outcome.result) else CompletionFailed)
          && (result.Executed? ==> id in rows && rows[id].status == Completed && rows[id].result == Some(result.result))
        else
          System() == Next(s, take) && result == if Takeable(s, id, account, segment) then HasExpired else Invalid
      ensures result != ChangedDuringExecution
    {
      ghost var start := System();
      var claimed := ClaimAgentConfirmation(c, id, account, segment, a.takenAt);
      if claimed.None? {
        return Invalid;
      }
      var record := claimed.value;
      if record.status == Expired {
        return HasExpired;
      }
      var outcome := if record.action.None? then Failure(DECODE_ERROR) else a.outcome;
      assert RowKept(start, id);
      var updated := RunHeld(c, record, outcome, a);
      if outcome.Failure? {
        return if record.action.None? then Invalid else ActionFailed(outcome.error);
      }
      if a.reply != Answered {
        return CompletionFailed;
      }
      if !updated {
        return ChangedDuringExecution;
      }
      return Executed(outcome.result);
    }
  }
}
