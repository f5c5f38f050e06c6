/** What each step of the outbox does to the stored events, in terms of their columns: which events a
    claim takes, how an attempt ends, when a failed one is tried again, what operators and the janitor
    touch. */
module OutboxLaws {
  import opened AttendanceRecords
  import opened OutboxProtocol
  import opened OutboxDispatcher
  import Intervals

  // ----------------------------------------------------------------- claims

  /** Attempts are left: there is no limit, or it is not used up. */
  predicate AttemptsLeft(r: Event) {
    r.limit == 0 || r.attemptCount < r.limit
  }

  /** Waiting for its turn and due, first time or after a failure; or leased and abandoned. */
  predicate Due(r: Event, at: int) {
    || (r.status == Pending && r.nextAttemptAt <= at)
    || (r.status == Failed && r.nextAttemptAt <= at)
    || (r.status == Processing && r.claimExpiresAt != None && r.claimExpiresAt.value <= at)
  }

  lemma ClaimableExactly(r: Event, at: int)
    ensures Claimable(r, at) <==> Due(r, at) && AttemptsLeft(r)
  {
  }

  /** A claim takes effect exactly if every event it names is stored, due and has attempts left. */
  lemma ClaimsExactly(s: State, ids: set<int>, at: int, lease: int)
    ensures var n := Next(s, Claim(ids, at, lease));
      if forall id | id in ids :: id in s.rows && Due(s.rows[id], at) && AttemptsLeft(s.rows[id])
      then n.batches == s.batches + 1 && n.rows.Keys == s.rows.Keys else n == s
  {
    forall id | id in ids && id in s.rows ensures Claimable(s.rows[id], at) <==>
      Due(s.rows[id], at) && AttemptsLeft(s.rows[id])
    {
      ClaimableExactly(s.rows[id], at);
    }
    if AllClaimable(s.rows, ids, at) {
      var n := Next(s, Claim(ids, at, lease));
      assert forall id :: id in n.rows <==> id in s.rows;
    }
  }

  /** What a claim does to each event it takes, and that it leaves the others alone. */
  lemma ClaimedRows(s: State, ids: set<int>, at: int, lease: int, id: int)
    requires id in s.rows
    requires forall i | i in ids :: i in s.rows && Due(s.rows[i], at) && AttemptsLeft(s.rows[i])
    ensures var n := Next(s, Claim(ids, at, lease));
      id in n.rows && n.rows[id] == if id !in ids then s.rows[id] else
        s.rows[id].(status := Processing, attemptCount := s.rows[id].attemptCount + 1, lastError := "",
                    claimToken := Some(Token(s.batches, id)), claimExpiresAt := Some(lease),
                    lastAttemptAt := Some(at), updatedAt := at, processedAt := None, deadLetteredAt := None)
  {
    forall i | i in ids ensures Claimable(s.rows[i], at) {
      ClaimableExactly(s.rows[i], at);
    }
  }

  /** A waiting event, new or failed, is leased by a claim exactly if its time has come and attempts are
      left; otherwise the claim changes nothing. */
  lemma WaitingIsTakenExactly(s: State, id: int, at: int, lease: int)
    requires Inv(s) && id in s.rows && (s.rows[id].status == Pending || s.rows[id].status == Failed)
    ensures var r, n := s.rows[id], Next(s, Claim({id}, at, lease));
      && (Current(n, Token(s.batches, id)) <==>
            r.nextAttemptAt <= at && (r.limit == 0 || r.attemptCount < r.limit))
      && (Current(n, Token(s.batches, id)) || n == s)
  {
    ClaimsExactly(s, {id}, at, lease);
    assert RowKept(s, id);
    if Due(s.rows[id], at) && AttemptsLeft(s.rows[id]) {
      ClaimedRows(s, {id}, at, lease, id);
    }
  }

  /** Succeeded, parked and dead-lettered events are never leased: a claim naming one changes nothing. */
  lemma SettledIsNeverTaken(s: State, ids: set<int>, id: int, at: int, lease: int)
    requires id in s.rows && id in ids
    requires s.rows[id].status == Succeeded || s.rows[id].status == Parked || s.rows[id].status == DeadLettered
    ensures Next(s, Claim(ids, at, lease)) == s
  {
    ClaimsExactly(s, ids, at, lease);
    assert !Due(s.rows[id], at);
  }

  // ---------------------------------------------------------------- outcomes

  /** How an attempt ends: the status of every outcome, and what is counted and stamped. `r` is the event
      as it was leased, `n` as it is stored then. */
  predicate Ends(r: Event, o: Outcome, now: int, n: Event) {
    var last := r.limit > 0 && r.attemptCount == r.limit;
    && (n.status == Succeeded <==> o.Success?)
    && (n.status == Pending <==> o.NotConfigured?)
    && (n.status == Parked <==> o.Permanent? || o.Unsupported?)
    && (n.status == DeadLettered <==> o.Transient? && last)
    && (n.status == Failed <==> o.Transient? && !last)
    && n.retryCount == r.retryCount + (if o.Transient? then 1 else 0)
    && n.attemptCount == r.attemptCount - (if o.NotConfigured? then 1 else 0)
    && n.lastError == (if o.Success? then "" else o.error)
    && n.processedAt == (if o.Success? || (o.Transient? && last) then Some(now) else None)
    && n.deadLetteredAt == (if o.Transient? && last then Some(now) else None)
    && n.claimToken == None && n.claimExpiresAt == None && n.updatedAt == now
    && n.id == r.id && n.payload == r.payload && n.limit == r.limit
  }

  lemma SettlesExactly(s: State, t: Token, now: int)
    requires Inv(s) && t in s.issued && t in s.returned && Current(s, t)
    ensures var n := Next(s, Settle(t, now)).rows;
      t.event in n && n == s.rows[t.event := n[t.event]] && Ends(s.rows[t.event], s.returned[t], now, n[t.event])
  {
    assert RowKept(s, t.event) && CopyKept(s, t);
  }

  /** The waiting time after a number of attempts, in seconds. */
  function Delay(attempts: nat): int {
    if attempts <= 1 then 30
    else if attempts == 2 then 60
    else if attempts == 3 then 120
    else if attempts == 4 then 240
    else if attempts == 5 then 480
    else 600
  }

  lemma BackoffTable(attempts: nat)
    ensures Backoff(attempts) == Delay(attempts)
  {
    if attempts >= 6 {
      BackoffBounds(6, attempts);
    } else {
      assert Pow2(0) == 1 && Pow2(1) == 2 && Pow2(2) == 4 && Pow2(3) == 8 && Pow2(4) == 16;
    }
  }

  lemma SettledFailure(s: State, t: Token, now: int)
    requires Inv(s) && t in s.issued && t in s.returned && Current(s, t) && s.returned[t].Transient?
    requires AttemptsLeft(s.rows[t.event])
    ensures var n := Next(s, Settle(t, now));
      Inv(n) && t.event in n.rows && n.rows[t.event].status == Failed
      && n.rows[t.event].nextAttemptAt == now + Delay(s.rows[t.event].attemptCount)
      && n.rows[t.event].attemptCount == s.rows[t.event].attemptCount
      && n.rows[t.event].limit == s.rows[t.event].limit
  {
    assert RowKept(s, t.event);
    StepKeeps(s, Settle(t, now));
    BackoffTable(s.rows[t.event].attemptCount);
  }

  /** Failed attempts are retried. Whatever happened since an event was claimed: if its claim still holds
      when a transient failure is settled and attempts are left, a claim takes the event again exactly
      from thirty seconds doubled per earlier attempt, at most ten minutes, after the settling. Without
      attempts left it is dead-lettered. */
  lemma RetriedAfterBackoff(s: State, ids: set<int>, id: int, at: int, lease: int, between: seq<Step>, now: int,
                            again: int, until: int)
    requires Inv(s) && AllClaimable(s.rows, ids, at) && id in ids
    requires var t, later := Token(s.batches, id), After(Next(s, Claim(ids, at, lease)), between);
      t in later.returned && later.returned[t].Transient? && Current(later, t)
    ensures var t, later := Token(s.batches, id), After(Next(s, Claim(ids, at, lease)), between);
            var settled := Next(later, Settle(t, now));
            var attempts := s.rows[id].attemptCount + 1;
      && id in settled.rows
      && (s.rows[id].limit > 0 && attempts == s.rows[id].limit ==> settled.rows[id].status == DeadLettered)
      && (s.rows[id].limit == 0 || attempts < s.rows[id].limit ==>
            (Current(Next(settled, Claim({id}, again, until)), Token(settled.batches, id)) <==>
               again >= now + Delay(attempts)))
  {
    var t, later := Token(s.batches, id), After(Next(s, Claim(ids, at, lease)), between);
    StillTheCopy(s, ids, id, at, lease, between);
    SettlesExactly(later, t, now);
    if AttemptsLeft(later.rows[id]) {
      SettledFailure(later, t, now);
      WaitingIsTakenExactly(Next(later, Settle(t, now)), id, again, until);
    }
  }

  // ------------------------------------------------ producers and operators

  /** An operator's retry takes effect exactly on a failed, parked or dead-lettered event, which starts
      over with no attempts, due at once. */
  lemma RetriesExactly(s: State, id: int, now: int)
    requires id in s.rows
    ensures var r, n := s.rows[id], Next(s, Retry(id, now));
      if r.status == Failed || r.status == Parked || r.status == DeadLettered then
        n == s.(rows := s.rows[id := r.(status := Pending, retryCount := 0, attemptCount := 0, lastError := "",
                                        nextAttemptAt := now, claimToken := None, claimExpiresAt := None,
                                        lastAttemptAt := None, updatedAt := now, processedAt := None,
                                        deadLetteredAt := None)])
      else n == s
  {
  }

  /** So an event that ran out of attempts can be taken again at once. */
  lemma RetriedIsTaken(s: State, id: int, now: int, at: int, lease: int)
    requires Inv(s) && id in s.rows && s.rows[id].status in {Failed, Parked, DeadLettered} && now <= at
    ensures var n := Next(s, Retry(id, now));
      Current(Next(n, Claim({id}, at, lease)), Token(n.batches, id))
  {
    StepKeeps(s, Retry(id, now));
    RetriesExactly(s, id, now);
    WaitingIsTakenExactly(Next(s, Retry(id, now)), id, at, lease);
  }

  /** The janitor removes exactly the succeeded events created before its bound. */
  lemma DeletesExactly(s: State, before: int, id: int)
    requires id in s.rows
    ensures var n := Next(s, DeleteSucceeded(before));
      && (id in n.rows <==> s.rows[id].status != Succeeded || s.rows[id].createdAt >= before)
      && (id in n.rows ==> n.rows[id] == s.rows[id])
  {
  }

  /** An append stores a new event, waiting and due from its creation, with five attempts unless it names
      its own number; under a type and key already stored it changes nothing. */
  lemma AppendsExactly(s: State, e: NewEvent)
    requires e.id !in s.used
    ensures var n := Next(s, Append(e)).rows;
      if exists id :: id in s.rows && s.rows[id].eventType == e.eventType && e.key.Some? && s.rows[id].key == e.key
      then n == s.rows
      else
        && e.id in n && n == s.rows[e.id := n[e.id]]
        && n[e.id].id == e.id && n[e.id].eventType == e.eventType && n[e.id].payload == e.payload
        && n[e.id].key == e.key && n[e.id].limit == (if e.limit.Some? then e.limit.value else 5)
        && n[e.id].status == Pending && n[e.id].attemptCount == 0 && n[e.id].retryCount == 0
        && n[e.id].nextAttemptAt == e.createdAt && n[e.id].createdAt == e.createdAt
  {
    if id :| id in s.rows && s.rows[id].eventType == e.eventType && e.key.Some? && s.rows[id].key == e.key {
      assert KeyTaken(s.rows, e);
    }
  }

  // -------------------------------------------------------- a worker's pass

  /** The number of events a pass reports: those it settled for which a handler is registered. */
  lemma {:induction false} ProcessedExactly(turns: seq<Turn>)
    ensures Handled(turns) == |set i | 0 <= i < |turns| && !turns[i].outcome.Unsupported?|
  {
    if turns != [] {
      var n := |turns| - 1;
      var init := turns[..n];
      ProcessedExactly(init);
      var before := set i | 0 <= i < |init| && !init[i].outcome.Unsupported?;
      assert (set i | 0 <= i < |turns| && !turns[i].outcome.Unsupported?)
          == before + (if turns[n].outcome.Unsupported? then {} else {n});
    }
  }

  /** Due earlier, or as early and created earlier, or that too and with the smaller identifier. */
  predicate Sooner(a: Event, b: Event) {
    if a.nextAttemptAt != b.nextAttemptAt then a.nextAttemptAt < b.nextAttemptAt
    else if a.createdAt != b.createdAt then a.createdAt < b.createdAt
    else a.id < b.id
  }

  /** The events a claim may take. */
  function Ready(rows: Rows, at: int, locked: set<int>): set<int> {
    set id | id in rows && id !in locked && Due(rows[id], at) && AttemptsLeft(rows[id])
  }

  /** What a claim takes: the soonest of the ready events, as many as the limit allows. */
  lemma TakesTheSoonest(rows: Rows, batch: nat, events: seq<Event>, ids: set<int>, limit: int, at: int, lease: int,
                        locked: set<int>)
    requires Chosen(rows, batch, events, ids, limit, at, lease, locked)
    ensures ids <= Ready(rows, at, locked) && |events| == |ids|
    ensures |ids| == if limit <= 0 then 0 else if |Ready(rows, at, locked)| <= limit
                     then |Ready(rows, at, locked)| else limit
    ensures forall i, j | 0 <= i < j < |events| :: Sooner(events[i], events[j])
    ensures limit > 0 ==>
      forall i, id | 0 <= i < |events| && id in Ready(rows, at, locked) && id !in ids :: Sooner(events[i], rows[id])
  {
    forall id | id in rows ensures Claimable(rows[id], at) <==> Due(rows[id], at) && AttemptsLeft(rows[id]) {
      ClaimableExactly(rows[id], at);
    }
    var ready := Ready(rows, at, locked);
    forall id | id in ids ensures id in ready {
      assert Claimable(rows[id], at);
    }
    assert ready == ids + (ready - ids);
    forall i, j | 0 <= i < j < |events| ensures Sooner(events[i], events[j]) {
      assert Precedes(events[i], events[j]);
    }
    if limit > 0 && ready != ids {
      var id := Intervals.Pick(ready - ids);
      assert |events| == limit;
    }
  }

  /** Nobody else acts, and the store answers. */
  predicate Quiet(turns: seq<Turn>) {
    forall turn | turn in turns :: turn.before == [] && turn.during == [] && turn.reply == Answered
  }

  predicate NoRepeats(events: seq<Event>) {
    forall i, j | 0 <= i < j < |events| :: events[i].id != events[j].id
  }

  /** A batch part way: the first n events have ended as their handlers answered, the others are leased
      as handed out and not yet handled. */
  ghost predicate PartWay(s: State, events: seq<Event>, turns: seq<Turn>, batch: nat, n: nat)
    requires n <= |events| <= |turns|
  {
    && Inv(s)
    && (forall k | 0 <= k < n ::
          events[k].id in s.rows && Ends(events[k], turns[k].outcome, turns[k].finishedAt, s.rows[events[k].id]))
    && (forall k | n <= k < |events| ::
          var t := Token(batch, events[k].id);
          Current(s, t) && t in s.issued && s.issued[t] == events[k] == s.rows[events[k].id] && t !in s.returned)
  }

  lemma TwoSteps(s: State, turn: Turn, t: Token)
    requires turn.before == [] && turn.during == [] && turn.reply == Answered
    ensures After(s, TurnSteps(turn, t)) == Next(Next(s, Dispatch(t, turn.outcome)), Settle(t, turn.finishedAt))
  {
    var d, e := Dispatch(t, turn.outcome), Settle(t, turn.finishedAt);
    assert TurnSteps(turn, t) == [d, e] && [d, e][1..] == [e];
    assert After(Next(s, d), [e]) == Next(Next(s, d), e);
  }

  lemma QuietTurn(s: State, turn: Turn, t: Token)
    requires Inv(s) && Current(s, t) && t in s.issued && t !in s.returned
    requires turn.before == [] && turn.during == [] && turn.reply == Answered
    ensures var n := After(s, TurnSteps(turn, t));
      && Inv(n) && n.rows.Keys == s.rows.Keys && n.issued == s.issued && n.returned == s.returned[t := turn.outcome]
      && Ends(s.rows[t.event], turn.outcome, turn.finishedAt, n.rows[t.event])
      && forall id | id in s.rows && id != t.event :: n.rows[id] == s.rows[id]
  {
    var d, e := Dispatch(t, turn.outcome), Settle(t, turn.finishedAt);
    TwoSteps(s, turn, t);
    StepKeeps(s, d);
    StepKeeps(Next(s, d), e);
    SettlesExactly(Next(s, d), t, turn.finishedAt);
  }

  lemma QuietStep(s: State, m: State, events: seq<Event>, turns: seq<Turn>, batch: nat, n: nat)
    requires 0 < n <= |events| <= |turns| && PartWay(s, events, turns, batch, n - 1)
    requires turns[n - 1].before == [] && turns[n - 1].during == [] && turns[n - 1].reply == Answered
    requires m == After(s, TurnSteps(turns[n - 1], Token(batch, events[n - 1].id)))
    requires NoRepeats(events)
    ensures PartWay(m, events, turns, batch, n)
  {
    var t := Token(batch, events[n - 1].id);
    QuietTurn(s, turns[n - 1], t);
    forall k | 0 <= k < n
      ensures events[k].id in m.rows && Ends(events[k], turns[k].outcome, turns[k].finishedAt, m.rows[events[k].id])
    {
      if k < n - 1 {
        assert events[k].id != t.event;
      }
    }
    forall k | n <= k < |events| ensures var u := Token(batch, events[k].id);
      Current(m, u) && u in m.issued && m.issued[u] == events[k] == m.rows[events[k].id] && u !in m.returned
    {
      assert events[n - 1].id != events[k].id;
    }
  }

  /** The states a batch goes through, turn by turn. */
  function AfterTurns(s: State, events: seq<Event>, turns: seq<Turn>, batch: nat, n: nat): State
    requires n <= |events| && n <= |turns|
  {
    if n == 0 then s
    else After(AfterTurns(s, events, turns, batch, n - 1), TurnSteps(turns[n - 1], Token(batch, events[n - 1].id)))
  }

  lemma {:induction false} TurnByTurn(s: State, events: seq<Event>, turns: seq<Turn>, batch: nat, n: nat)
    requires n <= |events| && n <= |turns|
    ensures After(s, BatchSteps(events, turns, batch, n)) == AfterTurns(s, events, turns, batch, n)
  {
    if n > 0 {
      TurnByTurn(s, events, turns, batch, n - 1);
      AfterConcat(s, BatchSteps(events, turns, batch, n - 1), TurnSteps(turns[n - 1], Token(batch, events[n - 1].id)));
    }
  }

  lemma {:induction false} QuietBatch(s: State, events: seq<Event>, turns: seq<Turn>, batch: nat, n: nat)
    requires n <= |events| <= |turns| && Quiet(turns)
    requires PartWay(s, events, turns, batch, 0)
    requires NoRepeats(events)
    ensures PartWay(AfterTurns(s, events, turns, batch, n), events, turns, batch, n)
  {
    if n > 0 {
      var p := AfterTurns(s, events, turns, batch, n - 1);
      QuietBatch(s, events, turns, batch, n - 1);
      assert turns[n - 1] in turns;
      assert AfterTurns(s, events, turns, batch, n)
          == After(p, TurnSteps(turns[n - 1], Token(batch, events[n - 1].id)));
      QuietStep(p, AfterTurns(s, events, turns, batch, n), events, turns, batch, n);
    }
  }

  /** A pass nobody interferes with: every event it takes ends as its handler answered. */
  lemma QuietPass(s: State, events: seq<Event>, ids: set<int>, limit: int, at: int, lease: int, locked: set<int>,
                  turns: seq<Turn>)
    requires Inv(s) && Chosen(s.rows, s.batches, events, ids, limit, at, lease, locked)
    requires |events| <= |turns| && Quiet(turns)
    ensures var rows := After(s, [Claim(ids, at, lease)] + BatchSteps(events, turns, s.batches, |events|)).rows;
      forall k | 0 <= k < |events| ::
        && events[k].id in rows
        && Ends(events[k], turns[k].outcome, turns[k].finishedAt, rows[events[k].id])
        && events[k].attemptCount == s.rows[events[k].id].attemptCount + 1
  {
    var n := Next(s, Claim(ids, at, lease));
    StepKeeps(s, Claim(ids, at, lease));
    TakesTheSoonest(s.rows, s.batches, events, ids, limit, at, lease, locked);
    forall k | 0 <= k < |events| ensures var t := Token(s.batches, events[k].id);
      Current(n, t) && t in n.issued && n.issued[t] == events[k] == n.rows[events[k].id] && t !in n.returned
    {
      assert IsClaimed(s.rows, s.batches, events[k], ids, at, lease);
      ClaimHandsOut(s, ids, events[k].id, at, lease);
    }
    forall i, j | 0 <= i < j < |events| ensures events[i].id != events[j].id {
      assert IsClaimed(s.rows, s.batches, events[i], ids, at, lease);
      assert IsClaimed(s.rows, s.batches, events[j], ids, at, lease);
      assert Sooner(events[i], events[j]);
    }
    QuietBatch(n, events, turns, s.batches, |events|);
    TurnByTurn(n, events, turns, s.batches, |events|);
    ClaimThenBatch(s, Claim(ids, at, lease), events, turns, s.batches, |events|);
  }
}
