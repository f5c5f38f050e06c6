/** The outbox as a lease protocol. Any number of workers claim batches of events under tokens whose
    leases expire, run the handlers, and settle each event; operators retry, producers append, a
    janitor deletes. Every step carries the clock its own caller read, so nothing below assumes that
    clocks agree or move forward. A worker that dies is one whose steps stop. Times are in seconds,
    one tenant. */
module OutboxProtocol {
  import opened AttendanceRecords

  datatype Status = Pending | Processing | Succeeded | Failed | Parked | DeadLettered

  /** A claim's token: fresh per claim call, then qualified by the event. */
  datatype Token = Token(batch: nat, event: int)

  datatype Event = Event(
    id: int,
    eventType: int,
    payload: int,
    key: Option<int>,
    limit: nat,
    createdAt: int,
    status: Status,
    retryCount: nat,
    attemptCount: nat,
    lastError: string,
    nextAttemptAt: int,
    claimToken: Option<Token>,
    claimExpiresAt: Option<int>,
    lastAttemptAt: Option<int>,
    updatedAt: int,
    processedAt: Option<int>,
    deadLetteredAt: Option<int>)

  /** How the attempt at an event ended. Unsupported means no handler is registered for its type. */
  datatype Outcome = Success | NotConfigured(error: string) | Permanent(error: string)
                   | Unsupported(error: string) | Transient(error: string)

  type Rows = map<int, Event>

  const DEFAULT_MAX_ATTEMPTS: nat := 5
  const INITIAL_BACKOFF: int := 30
  const MAXIMUM_BACKOFF: int := 600

  // --------------------------------------------------------------- backoff

  function Pow2(n: nat): (p: nat)
    ensures p >= 1
  {
    if n == 0 then 1 else 2 * Pow2(n - 1)
  }

  function Min(a: int, b: int): int {
    if a < b then a else b
  }

  /** The delay before the next attempt: thirty seconds doubled per earlier attempt, at most ten minutes. */
  function Backoff(attemptCount: int): int {
    Min(INITIAL_BACKOFF * Pow2(if attemptCount <= 1 then 0 else attemptCount - 1), MAXIMUM_BACKOFF)
  }

  lemma {:induction false} Pow2Grows(m: nat, n: nat)
    requires m <= n
    ensures Pow2(m) <= Pow2(n)
    decreases n
  {
    if m < n {
      Pow2Grows(m, n - 1);
    }
  }

  lemma BackoffBounds(m: int, n: int)
    requires m <= n
    ensures INITIAL_BACKOFF <= Backoff(m) <= Backoff(n) <= MAXIMUM_BACKOFF
    ensures n >= 6 ==> Backoff(n) == MAXIMUM_BACKOFF
  {
    Pow2Grows(if m <= 1 then 0 else m - 1, if n <= 1 then 0 else n - 1);
    if n >= 6 {
      Pow2Grows(5, n - 1);
      assert Pow2(5) == 32;
    }
  }

  method OutboxRetryBackoff(attemptCount: int) returns (delay: int)
    ensures delay == Backoff(attemptCount)
  {
    delay := INITIAL_BACKOFF;
    var attempt := 1;
    while attempt < attemptCount && delay < MAXIMUM_BACKOFF
      invariant 1 <= attempt && (attempt <= attemptCount || attempt == 1)
      invariant delay == INITIAL_BACKOFF * Pow2(attempt - 1)
      invariant delay < MAXIMUM_BACKOFF
    {
      delay := delay * 2;
      if delay >= MAXIMUM_BACKOFF {
        Pow2Grows(attempt, attemptCount - 1);
        return MAXIMUM_BACKOFF;
      }
      attempt := attempt + 1;
    }
  }

  // ------------------------------------------------------- effects on a row

  predicate Exhausted(e: Event) {
    e.limit > 0 && e.attemptCount >= e.limit
  }

  /** What a claim may take: a due event, or one whose lease has run out, with attempts left. */
  predicate Claimable(e: Event, claimedAt: int) {
    && !Exhausted(e)
    && (((e.status == Pending || e.status == Failed) && e.nextAttemptAt <= claimedAt)
        || (e.status == Processing && e.claimExpiresAt.Some? && e.claimExpiresAt.value <= claimedAt))
  }

  function Claimed(e: Event, token: Token, claimedAt: int, leaseUntil: int): Event {
    e.(status := Processing, attemptCount := e.attemptCount + 1, lastError := "",
       claimToken := Some(token), claimExpiresAt := Some(leaseUntil),
       lastAttemptAt := Some(claimedAt), updatedAt := claimedAt, processedAt := None, deadLetteredAt := None)
  }

  /** The event a worker hands to the store after an attempt, its claim cleared by the store. */
  function Settled(copy: Event, outcome: Outcome, now: int): Event {
    var e := copy.(updatedAt := now, claimToken := None, claimExpiresAt := None, deadLetteredAt := None);
    match outcome
    case Success => e.(status := Succeeded, lastError := "", processedAt := Some(now))
    case NotConfigured(error) =>
      e.(status := Pending, attemptCount := if e.attemptCount > 0 then e.attemptCount - 1 else 0,
         nextAttemptAt := now + INITIAL_BACKOFF, processedAt := None, lastError := error)
    case Permanent(error) => e.(status := Parked, processedAt := None, lastError := error)
    case Unsupported(error) => e.(status := Parked, processedAt := None, lastError := error)
    case Transient(error) =>
      if Exhausted(copy) then
        e.(status := DeadLettered, retryCount := copy.retryCount + 1, lastError := error,
           processedAt := Some(now), deadLetteredAt := Some(now))
      else
        e.(status := Failed, retryCount := copy.retryCount + 1, lastError := error,
           nextAttemptAt := now + Backoff(copy.attemptCount), processedAt := None)
  }

  predicate OperatorMayRetry(e: Event) {
    e.status == Failed || e.status == Parked || e.status == DeadLettered
  }

  function Retried(e: Event, now: int): Event {
    e.(status := Pending, retryCount := 0, attemptCount := 0, lastError := "", nextAttemptAt := now,
       claimToken := None, claimExpiresAt := None, lastAttemptAt := None, updatedAt := now,
       processedAt := None, deadLetteredAt := None)
  }

  datatype NewEvent = NewEvent(id: int, eventType: int, payload: int, key: Option<int>, limit: Option<nat>,
                               createdAt: int)

  function Appended(n: NewEvent): Event {
    Event(n.id, n.eventType, n.payload, n.key, if n.limit.Some? then n.limit.value else DEFAULT_MAX_ATTEMPTS,
          n.createdAt, Pending, 0, 0, "", n.createdAt, None, None, None, n.createdAt, None, None)
  }

  // ------------------------------------------------------ transition system

  /** The table, the copies handed out with each claim, what each claim's handler returned, the number
      of claims made, the identifiers ever appended, and the claim that last settled each event. */
  datatype State = State(
    rows: Rows,
    issued: map<Token, Event>,
    returned: map<Token, Outcome>,
    batches: nat,
    used: set<int>,
    writer: map<int, Token>)

  const EMPTY := State(map[], map[], map[], 0, {}, map[])

  datatype Step =
    | Append(event: NewEvent)
    | Claim(ids: set<int>, claimedAt: int, leaseUntil: int)
    | Dispatch(token: Token, outcome: Outcome)
    | Settle(token: Token, now: int)
    | Retry(id: int, now: int)
    | DeleteSucceeded(before: int)

  predicate KeyTaken(rows: Rows, n: NewEvent) {
    n.key.Some? && exists id :: id in rows && rows[id].eventType == n.eventType && rows[id].key == n.key
  }

  predicate AllClaimable(rows: Rows, ids: set<int>, claimedAt: int) {
    forall id | id in ids :: id in rows && Claimable(rows[id], claimedAt)
  }

  /** Whether a claim is still the one its event is leased under. */
  predicate Current(s: State, t: Token) {
    t.event in s.rows && s.rows[t.event].claimToken == Some(t)
  }

  function Copies(rows: Rows, ids: set<int>, batch: nat, claimedAt: int, leaseUntil: int): Rows
    requires forall id | id in ids :: id in rows
  {
    map id | id in ids :: Claimed(rows[id], Token(batch, id), claimedAt, leaseUntil)
  }

  function Tokens(copies: Rows, batch: nat): map<Token, Event> {
    map id | id in copies :: Token(batch, id) := copies[id]
  }

  function AfterClaim(s: State, ids: set<int>, claimedAt: int, leaseUntil: int): State
    requires AllClaimable(s.rows, ids, claimedAt)
  {
    var copies := Copies(s.rows, ids, s.batches, claimedAt, leaseUntil);
    s.(rows := s.rows + copies, issued := s.issued + Tokens(copies, s.batches), batches := s.batches + 1)
  }

  function AfterSettle(s: State, t: Token, now: int): State
    requires t in s.issued && t in s.returned && Current(s, t)
  {
    s.(rows := s.rows[t.event := Settled(s.issued[t], s.returned[t], now)], writer := s.writer[t.event := t])
  }

  predicate Deletable(e: Event, before: int) {
    e.status == Succeeded && e.createdAt < before
  }

  /** One step; a step that is not possible changes nothing. */
  function Next(s: State, step: Step): State {
    match step
    case Append(n) =>
      if n.id in s.used || KeyTaken(s.rows, n) then s
      else s.(rows := s.rows[n.id := Appended(n)], used := s.used + {n.id})
    case Claim(ids, claimedAt, leaseUntil) =>
      if AllClaimable(s.rows, ids, claimedAt) then AfterClaim(s, ids, claimedAt, leaseUntil) else s
    case Dispatch(t, outcome) =>
      if t in s.issued && t !in s.returned then s.(returned := s.returned[t := outcome]) else s
    case Settle(t, now) =>
      if t in s.issued && t in s.returned && Current(s, t) then AfterSettle(s, t, now) else s
    case Retry(id, now) =>
      if id in s.rows && OperatorMayRetry(s.rows[id]) then s.(rows := s.rows[id := Retried(s.rows[id], now)]) else s
    case DeleteSucceeded(before) =>
      s.(rows := map id | id in s.rows && !Deletable(s.rows[id], before) :: s.rows[id])
  }

  function After(s: State, steps: seq<Step>): State
    decreases |steps|
  {
    if steps == [] then s else After(Next(s, steps[0]), steps[1..])
  }

  lemma {:induction false} AfterConcat(s: State, a: seq<Step>, b: seq<Step>)
    ensures After(s, a + b) == After(After(s, a), b)
    decreases |a|
  {
    if a == [] {
      assert a + b == b;
    } else {
      AfterConcat(Next(s, a[0]), a[1..], b);
      assert (a + b)[1..] == a[1..] + b;
    }
  }

  // ------------------------------------------------------------- invariant

  predicate Attributed(s: State, id: int, good: Outcome -> bool) {
    && id in s.writer && s.writer[id].event == id && s.writer[id] in s.returned
    && good(s.returned[s.writer[id]])
  }

  /** What holds of every stored event. Its status says how the claim that wrote it ended, and while it
      is leased it is exactly the copy its holder carries. */
  predicate RowKept(s: State, id: int)
    requires id in s.rows
  {
    var r := s.rows[id];
    && r.id == id && id in s.used
    && (r.status == Processing <==> r.claimToken.Some?)
    && (r.claimToken.Some? ==>
          var t := r.claimToken.value; t in s.issued && s.issued[t] == r && t.event == id)
    && r.retryCount <= r.attemptCount
    && (r.limit > 0 ==> r.attemptCount <= r.limit)
    && (r.status == Succeeded ==> Attributed(s, id, (o: Outcome) => o == Success))
    && (r.status == Failed ==> Attributed(s, id, (o: Outcome) => o.Transient?))
    && (r.status == Parked ==> Attributed(s, id, (o: Outcome) => o.Permanent? || o.Unsupported?))
    && (r.status == DeadLettered ==> Exhausted(r) && Attributed(s, id, (o: Outcome) => o.Transient?))
  }

  predicate CopyKept(s: State, t: Token)
    requires t in s.issued
  {
    var c := s.issued[t];
    && c.id == t.event && t.batch < s.batches && c.claimToken == Some(t) && c.claimExpiresAt.Some?
    && c.status == Processing && c.retryCount < c.attemptCount
    && (c.limit > 0 ==> c.attemptCount <= c.limit)
  }

  predicate Inv(s: State) {
    && (forall id | id in s.rows :: RowKept(s, id))
    && (forall t | t in s.issued :: CopyKept(s, t))
    && (forall t | t in s.returned :: t in s.issued)
  }

  lemma ClaimKeeps(s: State, ids: set<int>, claimedAt: int, leaseUntil: int)
    requires Inv(s) && AllClaimable(s.rows, ids, claimedAt)
    ensures Inv(AfterClaim(s, ids, claimedAt, leaseUntil))
  {
    var s' := AfterClaim(s, ids, claimedAt, leaseUntil);
    forall t | t in s'.issued ensures CopyKept(s', t) {
      if t in s.issued {
        assert CopyKept(s, t);
        assert t.batch < s.batches;
      } else {
        assert RowKept(s, t.event);
      }
    }
    forall id | id in s'.rows ensures RowKept(s', id) {
      assert RowKept(s, id);
      if id in ids {
        assert Token(s.batches, id) in s'.issued;
      } else if s.rows[id].claimToken.Some? {
        assert CopyKept(s, s.rows[id].claimToken.value);
      }
    }
  }

  lemma SettleKeeps(s: State, t: Token, now: int)
    requires Inv(s) && t in s.issued && t in s.returned && Current(s, t)
    ensures Inv(AfterSettle(s, t, now))
  {
    var s' := AfterSettle(s, t, now);
    assert CopyKept(s, t) && RowKept(s, t.event);
    forall id | id in s'.rows ensures RowKept(s', id) {
      assert RowKept(s, id);
    }
    forall u | u in s'.issued ensures CopyKept(s', u) {
      assert CopyKept(s, u);
    }
  }

  lemma DispatchKeeps(s: State, t: Token, outcome: Outcome)
    requires Inv(s)
    ensures Inv(Next(s, Dispatch(t, outcome)))
  {
    var s' := Next(s, Dispatch(t, outcome));
    forall id | id in s'.rows ensures RowKept(s', id) {
      assert RowKept(s, id);
    }
    forall u | u in s'.issued ensures CopyKept(s', u) {
      assert CopyKept(s, u);
    }
  }

  lemma AppendKeeps(s: State, n: NewEvent)
    requires Inv(s)
    ensures Inv(Next(s, Append(n)))
  {
    var s' := Next(s, Append(n));
    forall id | id in s'.rows ensures RowKept(s', id) {
      if id in s.rows {
        assert RowKept(s, id);
      }
    }
    forall t | t in s'.issued ensures CopyKept(s', t) {
      assert CopyKept(s, t);
    }
  }

  lemma RetryKeeps(s: State, id: int, now: int)
    requires Inv(s)
    ensures Inv(Next(s, Retry(id, now)))
  {
    var s' := Next(s, Retry(id, now));
    forall i | i in s'.rows ensures RowKept(s', i) {
      assert RowKept(s, i);
    }
    forall t | t in s'.issued ensures CopyKept(s', t) {
      assert CopyKept(s, t);
    }
  }

  lemma DeleteKeeps(s: State, before: int)
    requires Inv(s)
    ensures Inv(Next(s, DeleteSucceeded(before)))
  {
    var s' := Next(s, DeleteSucceeded(before));
    forall id | id in s'.rows ensures RowKept(s', id) {
      assert RowKept(s, id);
    }
    forall t | t in s'.issued ensures CopyKept(s', t) {
      assert CopyKept(s, t);
    }
  }

  lemma StepKeeps(s: State, step: Step)
    requires Inv(s)
    ensures Inv(Next(s, step))
  {
    match step
    case Claim(ids, at, lease) => if AllClaimable(s.rows, ids, at) { ClaimKeeps(s, ids, at, lease); }
    case Settle(t, now) => if t in s.issued && t in s.returned && Current(s, t) { SettleKeeps(s, t, now); }
    case Dispatch(t, outcome) => DispatchKeeps(s, t, outcome);
    case Append(n) => AppendKeeps(s, n);
    case Retry(id, now) => RetryKeeps(s, id, now);
    case DeleteSucceeded(before) => DeleteKeeps(s, before);
  }

  lemma {:induction false} EveryRunKeeps(s: State, steps: seq<Step>)
    requires Inv(s)
    ensures Inv(After(s, steps))
    decreases |steps|
  {
    if steps != [] {
      StepKeeps(s, steps[0]);
      EveryRunKeeps(Next(s, steps[0]), steps[1..]);
    }
  }

  /** The safety of every run from an empty table: a succeeded event had its handler succeed under the
      very claim that wrote it, a parked one a permanent refusal, a dead-lettered one a failure on its
      last allowed attempt, and an event without a limit is never dead-lettered. */
  lemma SettledStatusesAreEarned(steps: seq<Step>, id: int)
    requires id in After(EMPTY, steps).rows
    ensures var s := After(EMPTY, steps); var r := s.rows[id];
      && (r.status == Succeeded ==> Attributed(s, id, (o: Outcome) => o == Success))
      && (r.status == Parked ==> Attributed(s, id, (o: Outcome) => o.Permanent? || o.Unsupported?))
      && (r.status == DeadLettered ==>
            r.limit > 0 && r.attemptCount == r.limit && Attributed(s, id, (o: Outcome) => o.Transient?))
      && r.retryCount <= r.attemptCount
      && (r.limit > 0 ==> r.attemptCount <= r.limit)
  {
    EveryRunKeeps(EMPTY, steps);
    assert RowKept(After(EMPTY, steps), id);
  }

  // --------------------------------------------------------------- fencing

  /** The store's two finalize statements: one writes the whole handed-in event, the other only some
      columns of the stored one. */
  function WholeRow(settled: Event): Event {
    settled.(claimToken := None, claimExpiresAt := None)
  }

  function SomeColumns(row: Event, settled: Event): Event {
    row.(status := settled.status, retryCount := settled.retryCount, attemptCount := settled.attemptCount,
         lastError := settled.lastError, nextAttemptAt := settled.nextAttemptAt, claimToken := None,
         claimExpiresAt := None, updatedAt := settled.updatedAt, processedAt := settled.processedAt,
         deadLetteredAt := settled.deadLetteredAt)
  }

  /** They always agree, because a leased row is still the copy its holder carries. */
  lemma FinalizeStatementsAgree(s: State, t: Token, now: int)
    requires Inv(s) && t in s.issued && t in s.returned && Current(s, t)
    ensures var settled := Settled(s.issued[t], s.returned[t], now);
      SomeColumns(s.rows[t.event], settled) == WholeRow(settled) == Next(s, Settle(t, now)).rows[t.event]
  {
    assert RowKept(s, t.event);
  }

  lemma StepNeverRevives(s: State, step: Step, t: Token)
    requires Inv(s) && t.batch < s.batches && !Current(s, t)
    ensures !Current(Next(s, step), t) && t.batch < Next(s, step).batches
  {
  }

  /** A claim that is no longer the event's current one never becomes it again, whatever the workers,
      the operators and the clocks do, and settling under it changes nothing. */
  lemma {:induction false} LostClaimStaysLost(s: State, steps: seq<Step>, t: Token, now: int)
    requires Inv(s) && t.batch < s.batches && !Current(s, t)
    ensures !Current(After(s, steps), t)
    ensures Next(After(s, steps), Settle(t, now)) == After(s, steps)
    decreases |steps|
  {
    if steps != [] {
      StepKeeps(s, steps[0]);
      StepNeverRevives(s, steps[0], t);
      LostClaimStaysLost(Next(s, steps[0]), steps[1..], t, now);
    }
  }

  /** So a claim settles its event at most once, and not at all once somebody reclaimed the event. */
  lemma SettleOnlyOnce(s: State, t: Token, first: int, between: seq<Step>, again: int)
    requires Inv(s) && t in s.issued && t in s.returned && Current(s, t)
    ensures var later := After(Next(s, Settle(t, first)), between);
      Next(later, Settle(t, again)) == later
  {
    assert CopyKept(s, t);
    StepKeeps(s, Settle(t, first));
    LostClaimStaysLost(Next(s, Settle(t, first)), between, t, again);
  }

  lemma ReclaimFencesTheFormerHolder(s: State, t: Token, ids: set<int>, at: int, lease: int, between: seq<Step>,
                                     now: int)
    requires Inv(s) && Current(s, t) && t.event in ids && AllClaimable(s.rows, ids, at)
    ensures var later := After(Next(s, Claim(ids, at, lease)), between);
      Next(later, Settle(t, now)) == later
  {
    assert RowKept(s, t.event) && CopyKept(s, t);
    StepKeeps(s, Claim(ids, at, lease));
    LostClaimStaysLost(Next(s, Claim(ids, at, lease)), between, t, now);
  }

  // ------------------------------------------------------- absorbing states

  predicate NoRetryOf(steps: seq<Step>, id: int) {
    forall i | 0 <= i < |steps| :: !(steps[i].Retry? && steps[i].id == id)
  }

  lemma NoRetryTail(steps: seq<Step>, id: int)
    requires steps != [] && NoRetryOf(steps, id)
    ensures NoRetryOf(steps[1..], id) && !(steps[0].Retry? && steps[0].id == id)
  {
    forall i | 0 <= i < |steps[1..]| ensures !(steps[1..][i].Retry? && steps[1..][i].id == id) {
      assert steps[1..][i] == steps[i + 1];
    }
  }

  lemma GoneStep(s: State, step: Step, id: int)
    requires id in s.used && id !in s.rows
    ensures id in Next(s, step).used && id !in Next(s, step).rows && !FailsNow(s, step, id)
    ensures !Takes(s, step, id) && !GivesBack(s, step, id)
  {
  }

  lemma {:induction false} GoneStaysGone(s: State, steps: seq<Step>, id: int)
    requires Inv(s) && id in s.used && id !in s.rows
    ensures id !in After(s, steps).rows
    decreases |steps|
  {
    if steps != [] {
      StepKeeps(s, steps[0]);
      GoneStep(s, steps[0], id);
      GoneStaysGone(Next(s, steps[0]), steps[1..], id);
    }
  }

  /** Rows no step can change: settled for good, or leased for the last allowed time. */
  predicate Frozen(r: Event, step: Step) {
    || r.status == Succeeded
    || ((r.status == Parked || r.status == DeadLettered) && !(step.Retry? && step.id == r.id))
    || (r.status == Processing && Exhausted(r) && !(step.Settle? && Some(step.token) == r.claimToken))
  }

  lemma FrozenStays(s: State, step: Step, id: int)
    requires id in s.rows && RowKept(s, id) && Frozen(s.rows[id], step)
    ensures id in Next(s, step).used
    ensures if id in Next(s, step).rows then Next(s, step).rows[id] == s.rows[id] else s.rows[id].status == Succeeded
  {
  }

  /** Success is never left: the row stays as written until it is deleted, and then stays deleted. */
  lemma {:induction false} SuccessIsFinal(s: State, steps: seq<Step>, id: int)
    requires Inv(s) && id in s.rows && s.rows[id].status == Succeeded
    ensures id in After(s, steps).rows ==> After(s, steps).rows[id] == s.rows[id]
    decreases |steps|
  {
    if steps != [] {
      var n := Next(s, steps[0]);
      assert RowKept(s, id);
      StepKeeps(s, steps[0]);
      FrozenStays(s, steps[0], id);
      if id in n.rows {
        SuccessIsFinal(n, steps[1..], id);
      } else {
        GoneStaysGone(n, steps[1..], id);
      }
    }
  }

  /** A parked or dead-lettered event stays exactly so until an operator retries it. */
  lemma {:induction false} OnlyOperatorsRevive(s: State, steps: seq<Step>, id: int)
    requires Inv(s) && id in s.rows && (s.rows[id].status == Parked || s.rows[id].status == DeadLettered)
    requires NoRetryOf(steps, id)
    ensures id in After(s, steps).rows && After(s, steps).rows[id] == s.rows[id]
    decreases |steps|
  {
    if steps != [] {
      assert RowKept(s, id);
      NoRetryTail(steps, id);
      StepKeeps(s, steps[0]);
      FrozenStays(s, steps[0], id);
      OnlyOperatorsRevive(Next(s, steps[0]), steps[1..], id);
    }
  }

  // ------------------------------------------------------- retry accounting

  predicate FailsNow(s: State, step: Step, id: int) {
    && step.Settle? && step.token.event == id
    && step.token in s.issued && step.token in s.returned && Current(s, step.token)
    && s.returned[step.token].Transient?
  }

  /** How often a run records a failure of an event. */
  function Failures(s: State, steps: seq<Step>, id: int): nat
    decreases |steps|
  {
    if steps == [] then 0
    else (if FailsNow(s, steps[0], id) then 1 else 0) + Failures(Next(s, steps[0]), steps[1..], id)
  }

  lemma {:induction false} NoFailuresWhenGone(s: State, steps: seq<Step>, id: int)
    requires Inv(s) && id in s.used && id !in s.rows
    ensures Failures(s, steps, id) == 0
    decreases |steps|
  {
    if steps != [] {
      StepKeeps(s, steps[0]);
      GoneStep(s, steps[0], id);
      NoFailuresWhenGone(Next(s, steps[0]), steps[1..], id);
    }
  }

  lemma StepCountsFailures(s: State, step: Step, id: int)
    requires Inv(s) && id in s.rows && !(step.Retry? && step.id == id)
    ensures var n := Next(s, step);
      if id in n.rows then
        n.rows[id].limit == s.rows[id].limit
        && n.rows[id].retryCount == s.rows[id].retryCount + (if FailsNow(s, step, id) then 1 else 0)
      else id in n.used && !FailsNow(s, step, id)
  {
    assert RowKept(s, id);
  }

  /** Between two operator retries an event with limit N records at most N failures, counting those
      already on the row; the stored counter is the number of them. */
  lemma {:induction false} FailuresWithinLimit(s: State, steps: seq<Step>, id: int)
    requires Inv(s) && id in s.rows && NoRetryOf(steps, id)
    ensures s.rows[id].limit > 0 ==> s.rows[id].retryCount + Failures(s, steps, id) <= s.rows[id].limit
    ensures id in After(s, steps).rows ==>
              After(s, steps).rows[id].retryCount == s.rows[id].retryCount + Failures(s, steps, id)
    decreases |steps|
  {
    assert RowKept(s, id);
    if steps != [] {
      var n := Next(s, steps[0]);
      NoRetryTail(steps, id);
      StepKeeps(s, steps[0]);
      StepCountsFailures(s, steps[0], id);
      if id in n.rows {
        FailuresWithinLimit(n, steps[1..], id);
      } else {
        GoneStaysGone(n, steps[1..], id);
        NoFailuresWhenGone(n, steps[1..], id);
      }
    }
  }

  lemma AfterThree(s: State, a: Step, b: Step, c: Step)
    ensures After(s, [a, b, c]) == Next(Next(Next(s, a), b), c)
  {
    assert [a, b, c][1..] == [b, c] && [b, c][1..] == [c];
    assert After(Next(Next(s, a), b), [c]) == Next(Next(Next(s, a), b), c);
    assert After(Next(s, a), [b, c]) == After(Next(Next(s, a), b), [c]);
  }

  lemma ClaimHandsOut(s: State, ids: set<int>, id: int, at: int, lease: int)
    requires Inv(s) && AllClaimable(s.rows, ids, at) && id in ids
    ensures var t := Token(s.batches, id); var n := Next(s, Claim(ids, at, lease));
      t in n.issued && n.issued[t] == Claimed(s.rows[id], t, at, lease) && Current(n, t) && t !in n.returned
  {
    assert Token(s.batches, id) !in s.issued;
  }

  lemma DispatchAndSettle(s: State, t: Token, outcome: Outcome, now: int)
    requires t in s.issued && t !in s.returned && Current(s, t)
    ensures var rows := Next(Next(s, Dispatch(t, outcome)), Settle(t, now)).rows;
      t.event in rows && rows[t.event] == Settled(s.issued[t], outcome, now)
  {
  }

  /** An attempt nobody interferes with. */
  lemma OneAttempt(s: State, ids: set<int>, id: int, at: int, lease: int, outcome: Outcome, now: int)
    requires Inv(s) && AllClaimable(s.rows, ids, at) && id in ids
    ensures var t := Token(s.batches, id);
            var rows := After(s, [Claim(ids, at, lease), Dispatch(t, outcome), Settle(t, now)]).rows;
      id in rows && rows[id] == Settled(Claimed(s.rows[id], t, at, lease), outcome, now)
  {
    var t := Token(s.batches, id);
    AfterThree(s, Claim(ids, at, lease), Dispatch(t, outcome), Settle(t, now));
    ClaimHandsOut(s, ids, id, at, lease);
    DispatchAndSettle(Next(s, Claim(ids, at, lease)), t, outcome, now);
  }

  lemma StillTheCopy(s: State, ids: set<int>, id: int, at: int, lease: int, between: seq<Step>)
    requires Inv(s) && AllClaimable(s.rows, ids, at) && id in ids
    ensures var t, later := Token(s.batches, id), After(Next(s, Claim(ids, at, lease)), between);
      && Inv(later) && t in later.issued && later.issued[t] == Claimed(s.rows[id], t, at, lease)
      && (Current(later, t) ==> later.rows[id] == later.issued[t])
  {
    var t, n := Token(s.batches, id), Next(s, Claim(ids, at, lease));
    StepKeeps(s, Claim(ids, at, lease));
    ClaimHandsOut(s, ids, id, at, lease);
    EveryRunKeeps(n, between);
    IssuedStays(n, between, t);
    if Current(After(n, between), t) {
      assert RowKept(After(n, between), id);
    }
  }

  /** Meeting a missing configuration costs nothing exactly if the claim still holds when it is settled,
      whatever was done in between: the event then has the counters it had before the claim, and is no
      closer to being dead-lettered. Once the claim is lost, settling gives nothing back. */
  lemma NotConfiguredIsFree(s: State, ids: set<int>, id: int, at: int, lease: int, between: seq<Step>, now: int)
    requires Inv(s) && AllClaimable(s.rows, ids, at) && id in ids
    requires var t, later := Token(s.batches, id), After(Next(s, Claim(ids, at, lease)), between);
      t in later.returned && later.returned[t].NotConfigured?
    ensures var t, later := Token(s.batches, id), After(Next(s, Claim(ids, at, lease)), between);
            var settled := Next(later, Settle(t, now));
      && (Current(later, t) ==>
            && id in settled.rows && settled.rows[id].status == Pending
            && settled.rows[id].attemptCount == s.rows[id].attemptCount
            && settled.rows[id].retryCount == s.rows[id].retryCount
            && settled.rows[id].nextAttemptAt == now + INITIAL_BACKOFF)
      && (!Current(later, t) ==> settled == later)
      && (id in later.rows && id in settled.rows ==>
            (Current(later, t) <==> settled.rows[id].attemptCount < later.rows[id].attemptCount))
  {
    StillTheCopy(s, ids, id, at, lease, between);
  }

  /** The other half: a claim taken over before it was settled has cost its attempt for good. The row
      carries both attempts, and nothing its former holder settles later changes anything. */
  lemma ReclaimKeepsTheAttempt(s: State, ids: set<int>, id: int, at: int, lease: int, between: seq<Step>,
                               again: set<int>, later: int, until: int, rest: seq<Step>, now: int)
    requires Inv(s) && AllClaimable(s.rows, ids, at) && id in ids
    requires var held := After(Next(s, Claim(ids, at, lease)), between);
      Current(held, Token(s.batches, id)) && AllClaimable(held.rows, again, later) && id in again
    ensures var t, held := Token(s.batches, id), After(Next(s, Claim(ids, at, lease)), between);
            var taken := Next(held, Claim(again, later, until));
      && taken.rows[id].attemptCount == s.rows[id].attemptCount + 2
      && Next(After(taken, rest), Settle(t, now)) == After(taken, rest)
  {
    var held := After(Next(s, Claim(ids, at, lease)), between);
    StillTheCopy(s, ids, id, at, lease, between);
    ReclaimFencesTheFormerHolder(held, Token(s.batches, id), again, later, until, rest, now);
  }

  predicate Takes(s: State, step: Step, id: int) {
    step.Claim? && id in step.ids && AllClaimable(s.rows, step.ids, step.claimedAt)
  }

  predicate GivesBack(s: State, step: Step, id: int) {
    && step.Settle? && step.token.event == id
    && step.token in s.issued && step.token in s.returned && Current(s, step.token)
    && s.returned[step.token].NotConfigured?
  }

  /** How many attempts a run spends on an event: its claims, less the not-configured outcomes that
      were settled while their claim held. */
  function Spent(s: State, steps: seq<Step>, id: int): int
    decreases |steps|
  {
    if steps == [] then 0
    else
      (if Takes(s, steps[0], id) then 1 else if GivesBack(s, steps[0], id) then -1 else 0)
        + Spent(Next(s, steps[0]), steps[1..], id)
  }

  lemma {:induction false} NothingSpentWhenGone(s: State, steps: seq<Step>, id: int)
    requires Inv(s) && id in s.used && id !in s.rows
    ensures Spent(s, steps, id) == 0
    decreases |steps|
  {
    if steps != [] {
      StepKeeps(s, steps[0]);
      GoneStep(s, steps[0], id);
      NothingSpentWhenGone(Next(s, steps[0]), steps[1..], id);
    }
  }

  lemma StepCountsAttempts(s: State, step: Step, id: int)
    requires Inv(s) && id in s.rows && !(step.Retry? && step.id == id)
    ensures var n := Next(s, step);
      if id in n.rows then
        n.rows[id].attemptCount == s.rows[id].attemptCount
          + (if Takes(s, step, id) then 1 else if GivesBack(s, step, id) then -1 else 0)
      else !Takes(s, step, id) && !GivesBack(s, step, id)
  {
    assert RowKept(s, id);
    if step.Settle? && step.token in s.issued {
      assert CopyKept(s, step.token);
    }
  }

  /** Retry accounting over a whole run: between two operator retries the stored attempt count is what
      was there, plus claims, less refunds. It never passes the limit, and a dead-lettered event has
      spent exactly its limit, so refunded attempts never brought it there. */
  lemma {:induction false} AttemptsWithinLimit(s: State, steps: seq<Step>, id: int)
    requires Inv(s) && id in s.rows && NoRetryOf(steps, id)
    ensures s.rows[id].limit > 0 ==> s.rows[id].attemptCount + Spent(s, steps, id) <= s.rows[id].limit
    ensures var rows := After(s, steps).rows;
      id in rows ==>
        && rows[id].attemptCount == s.rows[id].attemptCount + Spent(s, steps, id)
        && (rows[id].status == DeadLettered ==> s.rows[id].attemptCount + Spent(s, steps, id) == s.rows[id].limit)
    decreases |steps|
  {
    assert RowKept(s, id);
    if steps != [] {
      var n := Next(s, steps[0]);
      NoRetryTail(steps, id);
      StepKeeps(s, steps[0]);
      StepCountsAttempts(s, steps[0], id);
      StepCountsFailures(s, steps[0], id);
      if id in n.rows {
        AttemptsWithinLimit(n, steps[1..], id);
      } else {
        GoneStaysGone(n, steps[1..], id);
        NothingSpentWhenGone(n, steps[1..], id);
      }
    }
  }

  // ------------------------------------------------------ abandoned leases

  predicate NeverSettles(steps: seq<Step>, t: Token) {
    forall i | 0 <= i < |steps| :: !(steps[i].Settle? && steps[i].token == t)
  }

  lemma NeverSettlesTail(steps: seq<Step>, t: Token)
    requires steps != [] && NeverSettles(steps, t)
    ensures NeverSettles(steps[1..], t) && !(steps[0].Settle? && steps[0].token == t)
  {
    forall i | 0 <= i < |steps[1..]| ensures !(steps[1..][i].Settle? && steps[1..][i].token == t) {
      assert steps[1..][i] == steps[i + 1];
    }
  }

  /** A lease whose holder stopped stays exactly as it was handed out until somebody else claims the event. */
  lemma {:induction false} LeasedUntilReclaimed(s: State, steps: seq<Step>, t: Token)
    requires Inv(s) && t in s.issued && NeverSettles(steps, t)
    ensures Current(After(s, steps), t) ==> After(s, steps).rows[t.event] == s.issued[t]
  {
    EveryRunKeeps(s, steps);
    IssuedStays(s, steps, t);
    if Current(After(s, steps), t) {
      assert RowKept(After(s, steps), t.event);
    }
  }

  lemma IssuedStep(s: State, step: Step, t: Token)
    requires t in s.issued && CopyKept(s, t)
    ensures t in Next(s, step).issued && Next(s, step).issued[t] == s.issued[t]
  {
  }

  lemma {:induction false} IssuedStays(s: State, steps: seq<Step>, t: Token)
    requires Inv(s) && t in s.issued
    ensures t in After(s, steps).issued && After(s, steps).issued[t] == s.issued[t]
    decreases |steps|
  {
    if steps != [] {
      assert CopyKept(s, t);
      StepKeeps(s, steps[0]);
      IssuedStep(s, steps[0], t);
      IssuedStays(Next(s, steps[0]), steps[1..], t);
    }
  }

  /** Once claimed for the last time, an event whose holder never settles it never changes again: no
      claim takes it, and not even an operator can retry it. */
  lemma {:induction false} LastAttemptIsStuck(s: State, steps: seq<Step>, t: Token)
    requires Inv(s) && Current(s, t) && Exhausted(s.rows[t.event]) && NeverSettles(steps, t)
    ensures Current(After(s, steps), t) && After(s, steps).rows[t.event] == s.rows[t.event]
    decreases |steps|
  {
    if steps != [] {
      assert RowKept(s, t.event);
      NeverSettlesTail(steps, t);
      StepKeeps(s, steps[0]);
      FrozenStays(s, steps[0], t.event);
      LastAttemptIsStuck(Next(s, steps[0]), steps[1..], t);
    }
  }

  /** An expired lease is claimable exactly when the event has attempts left. */
  lemma ExpiredLeaseClaimable(s: State, t: Token, at: int)
    requires Inv(s) && Current(s, t) && s.rows[t.event].claimExpiresAt.Some?
             && s.rows[t.event].claimExpiresAt.value <= at
    ensures Claimable(s.rows[t.event], at) <==>
              s.rows[t.event].limit == 0 || s.rows[t.event].attemptCount < s.rows[t.event].limit
  {
    assert RowKept(s, t.event);
  }

  /** The exact condition for a dropped event to be picked up again: some continuation in which its
      holder does nothing changes the row if and only if the event was not on its last attempt. */
  lemma RecoverableExactly(s: State, t: Token)
    requires Inv(s) && Current(s, t)
    ensures (exists steps :: NeverSettles(steps, t) && !Current(After(s, steps), t)) <==> !Exhausted(s.rows[t.event])
  {
    if Exhausted(s.rows[t.event]) {
      forall steps | NeverSettles(steps, t) ensures Current(After(s, steps), t) {
        LastAttemptIsStuck(s, steps, t);
      }
    } else {
      assert RowKept(s, t.event) && CopyKept(s, t);
      var at := s.rows[t.event].claimExpiresAt.value;
      var steps := [Claim({t.event}, at, at)];
      ExpiredLeaseClaimable(s, t, at);
      assert After(s, steps) == Next(s, steps[0]);
      assert Next(s, steps[0]).rows[t.event].claimToken == Some(Token(s.batches, t.event));
      assert NeverSettles(steps, t) && !Current(After(s, steps), t);
    }
  }

  /** Such an event exists: one allowed attempt, claimed by a worker that then stops. */
  lemma LastAttemptCanBeLost(later: seq<Step>)
    requires NeverSettles(later, Token(0, 1))
    ensures var s := After(EMPTY, [Append(NewEvent(1, 0, 0, None, Some(1), 0)), Claim({1}, 0, 300)]);
      1 in s.rows && s.rows[1].status == Processing && 1 in After(s, later).rows && After(s, later).rows[1] == s.rows[1]
  {
    var a, c := Append(NewEvent(1, 0, 0, None, Some(1), 0)), Claim({1}, 0, 300);
    var s1 := Next(EMPTY, a);
    var s := Next(s1, c);
    assert After(s1, [c]) == s;
    assert [a, c][1..] == [c];
    assert After(EMPTY, [a, c]) == s;
    EveryRunKeeps(EMPTY, [a, c]);
    LastAttemptIsStuck(s, later, Token(0, 1));
  }
}
