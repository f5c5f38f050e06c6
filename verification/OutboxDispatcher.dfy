/** The outbox table and one worker's pass over it, as steps of the lease protocol. */
module OutboxDispatcher {
  import opened AttendanceRecords
  import opened OutboxProtocol
  import Intervals

  /** The order a claim takes events in: due first, then oldest, then by identifier. */
  predicate Precedes(a: Event, b: Event) {
    || a.nextAttemptAt < b.nextAttemptAt
    || (a.nextAttemptAt == b.nextAttemptAt
        && (a.createdAt < b.createdAt || (a.createdAt == b.createdAt && a.id < b.id)))
  }

  ghost predicate IsFirst(rows: Rows, ids: set<int>, id: int)
    requires ids <= rows.Keys
  {
    id in ids && forall j | j in ids && j != id :: Precedes(rows[id], rows[j])
  }

  lemma {:induction false} FirstExists(rows: Rows, ids: set<int>) returns (first: int)
    requires ids != {} && ids <= rows.Keys && forall id | id in ids :: rows[id].id == id
    ensures IsFirst(rows, ids, first)
    decreases |ids|
  {
    var x := Intervals.Pick(ids);
    if ids == {x} {
      first := x;
    } else {
      var f := FirstExists(rows, ids - {x});
      first := if Precedes(rows[x], rows[f]) then x else f;
    }
  }

  /** Whether the handler ran to an answer the store acknowledged; a failed write may or may not have
      been applied. */
  datatype Reply = Answered | FailedUnapplied | FailedApplied

  /** One event of a batch: what everybody else does before the handler runs and while it runs, what
      the handler answers and when, and whether the store answers the final write. */
  datatype Turn = Turn(before: seq<Step>, during: seq<Step>, outcome: Outcome, finishedAt: int, reply: Reply)

  datatype Failure = Fine | ClaimLost(event: int) | StoreFailed(event: int)

  predicate Foreign(steps: seq<Step>, batch: nat) {
    forall step | step in steps ::
      (step.Dispatch? ==> step.token.batch != batch) && (step.Settle? ==> step.token.batch != batch)
  }

  /** Events of the first turns for which a handler was registered. */
  function Handled(turns: seq<Turn>): nat {
    if turns == [] then 0
    else Handled(turns[..|turns| - 1]) + (if turns[|turns| - 1].outcome.Unsupported? then 0 else 1)
  }

  lemma OneMoreHandled(turns: seq<Turn>, n: nat)
    requires n < |turns|
    ensures Handled(turns[..n + 1]) == Handled(turns[..n]) + (if turns[n].outcome.Unsupported? then 0 else 1)
  {
    assert turns[..n + 1][..n] == turns[..n];
  }

  /** The steps one event of a batch amounts to. */
  function TurnSteps(turn: Turn, t: Token): seq<Step> {
    var ending := if turn.reply == FailedUnapplied then [] else [Settle(t, turn.finishedAt)];
    turn.before + ([Dispatch(t, turn.outcome)] + (turn.during + ending))
  }

  function BatchSteps(events: seq<Event>, turns: seq<Turn>, batch: nat, n: nat): seq<Step>
    requires n <= |events| && n <= |turns|
  {
    if n == 0 then []
    else BatchSteps(events, turns, batch, n - 1) + TurnSteps(turns[n - 1], Token(batch, events[n - 1].id))
  }

  lemma OneMoreTurn(s: State, events: seq<Event>, turns: seq<Turn>, batch: nat, n: nat)
    requires n < |events| && n < |turns|
    ensures After(s, BatchSteps(events, turns, batch, n + 1))
         == After(After(s, BatchSteps(events, turns, batch, n)), TurnSteps(turns[n], Token(batch, events[n].id)))
  {
    AfterConcat(s, BatchSteps(events, turns, batch, n), TurnSteps(turns[n], Token(batch, events[n].id)));
  }

  lemma ClaimThenBatch(s: State, claim: Step, events: seq<Event>, turns: seq<Turn>, batch: nat, n: nat)
    requires n <= |events| && n <= |turns|
    ensures After(s, [claim] + BatchSteps(events, turns, batch, n))
              == After(Next(s, claim), BatchSteps(events, turns, batch, n))
  {
    AfterConcat(s, [claim], BatchSteps(events, turns, batch, n));
    assert After(s, [claim]) == Next(s, claim);
  }

  lemma {:induction false} ForeignLeavesMine(s: State, steps: seq<Step>, t: Token)
    requires Inv(s) && t in s.issued && Foreign(steps, t.batch)
    ensures t in After(s, steps).issued && After(s, steps).issued[t] == s.issued[t]
    ensures t in After(s, steps).returned <==> t in s.returned
    ensures t in s.returned ==> After(s, steps).returned[t] == s.returned[t]
    decreases |steps|
  {
    if steps != [] {
      assert steps[0] in steps;
      StepKeeps(s, steps[0]);
      IssuedStays(s, [steps[0]], t);
      assert After(s, [steps[0]]) == Next(s, steps[0]);
      assert Foreign(steps[1..], t.batch);
      ForeignLeavesMine(Next(s, steps[0]), steps[1..], t);
    }
  }

  /** A claim's copy and answer as they were. */
  predicate Kept(before: State, after: State, u: Token) {
    && (u in before.issued ==> u in after.issued && after.issued[u] == before.issued[u])
    && (u in after.returned <==> u in before.returned)
    && (u in before.returned ==> after.returned[u] == before.returned[u])
  }

  predicate HandedOut(s: State, batch: nat, copy: Event, leaseUntil: int) {
    var t := Token(batch, copy.id);
    t in s.issued && s.issued[t] == copy && copy.claimExpiresAt == Some(leaseUntil)
  }

  predicate AllHandedOut(s: State, batch: nat, events: seq<Event>, leaseUntil: int) {
    forall k | 0 <= k < |events| :: HandedOut(s, batch, events[k], leaseUntil)
  }

  predicate Lost(s: State, batch: nat, events: seq<Event>) {
    forall k | 0 <= k < |events| :: !Current(s, Token(batch, events[k].id))
  }

  lemma ChosenHandedOut(s: State, events: seq<Event>, ids: set<int>, limit: int, claimedAt: int, leaseUntil: int,
                        locked: set<int>)
    requires Inv(s) && Chosen(s.rows, s.batches, events, ids, limit, claimedAt, leaseUntil, locked)
    ensures var n := Next(s, Claim(ids, claimedAt, leaseUntil));
      AllHandedOut(n, s.batches, events, leaseUntil) && Untouched(n, s.batches, events)
  {
    forall k | 0 <= k < |events|
      ensures var n := Next(s, Claim(ids, claimedAt, leaseUntil));
        HandedOut(n, s.batches, events[k], leaseUntil) && Token(s.batches, events[k].id) !in n.returned
    {
      assert IsClaimed(s.rows, s.batches, events[k], ids, claimedAt, leaseUntil);
      ClaimHandsOut(s, ids, events[k].id, claimedAt, leaseUntil);
    }
  }

  /** After the first n events of a batch: each settled or lost, the others waiting as handed out. */
  ghost predicate Underway(start: State, s: State, events: seq<Event>, turns: seq<Turn>, batch: nat, n: nat,
                           leaseUntil: int)
    requires n <= |events| && n <= |turns|
  {
    && Inv(s) && s == After(start, BatchSteps(events, turns, batch, n))
    && AllHandedOut(s, batch, events, leaseUntil)
    && Lost(s, batch, events[..n])
    && Untouched(s, batch, events[n..])
  }

  /** The batch was given up at event n, whose settlement may or may not have been written. */
  ghost predicate Stopped(start: State, s: State, events: seq<Event>, turns: seq<Turn>, batch: nat, n: nat,
                          leaseUntil: int)
    requires n < |events| && n < |turns|
  {
    && Inv(s) && s == After(start, BatchSteps(events, turns, batch, n + 1))
    && AllHandedOut(s, batch, events, leaseUntil)
    && Lost(s, batch, events[..n])
    && Untouched(s, batch, events[n + 1..])
  }

  lemma LostExtends(s: State, batch: nat, events: seq<Event>, n: nat)
    requires n < |events| && Lost(s, batch, events[..n]) && !Current(s, Token(batch, events[n].id))
    ensures Lost(s, batch, events[..n + 1])
  {
    assert events[..n + 1] == events[..n] + [events[n]];
  }

  predicate Untouched(s: State, batch: nat, events: seq<Event>) {
    forall k | 0 <= k < |events| :: Token(batch, events[k].id) !in s.returned
  }

  lemma LostStaysLost(s: State, steps: seq<Step>, batch: nat, events: seq<Event>, n: nat, leaseUntil: int)
    requires Inv(s) && n <= |events| && AllHandedOut(s, batch, events, leaseUntil) && Lost(s, batch, events[..n])
    ensures Lost(After(s, steps), batch, events[..n])
    ensures AllHandedOut(After(s, steps), batch, events, leaseUntil)
  {
    forall k | 0 <= k < |events[..n]| ensures !Current(After(s, steps), Token(batch, events[..n][k].id)) {
      var t := Token(batch, events[..n][k].id);
      assert HandedOut(s, batch, events[k], leaseUntil) && CopyKept(s, t);
      LostClaimStaysLost(s, steps, t, 0);
    }
    forall k | 0 <= k < |events| ensures HandedOut(After(s, steps), batch, events[k], leaseUntil) {
      assert HandedOut(s, batch, events[k], leaseUntil);
      IssuedStays(s, steps, Token(batch, events[k].id));
    }
  }

  lemma UntouchedStays(before: State, after: State, batch: nat, events: seq<Event>, n: nat, leaseUntil: int)
    requires n < |events| && AllHandedOut(before, batch, events, leaseUntil) && Untouched(before, batch, events[n..])
    requires InOrder(events)
    requires forall u | u in before.issued && u.batch == batch && u != Token(batch, events[n].id)
             && u !in before.returned ::
      u !in after.returned
    ensures Untouched(after, batch, events[n + 1..])
  {
    var rest := events[n + 1..];
    forall k | 0 <= k < |rest| ensures Token(batch, rest[k].id) !in after.returned {
      assert rest[k] == events[n + 1 + k] == events[n..][k + 1];
      assert HandedOut(before, batch, events[n + 1 + k], leaseUntil);
      DistinctEvents(before, batch, events, leaseUntil, n, n + 1 + k);
    }
  }

  lemma DistinctEvents(s: State, batch: nat, events: seq<Event>, leaseUntil: int, i: nat, j: nat)
    requires i < j < |events| && AllHandedOut(s, batch, events, leaseUntil) && Precedes(events[i], events[j])
    ensures events[i].id != events[j].id
  {
    assert HandedOut(s, batch, events[i], leaseUntil) && HandedOut(s, batch, events[j], leaseUntil);
  }

  /** What is still under its claim is exactly the copy handed out. */
  lemma StillAsLeased(s: State, batch: nat, events: seq<Event>, leaseUntil: int)
    requires Inv(s) && AllHandedOut(s, batch, events, leaseUntil)
    ensures forall k | 0 <= k < |events| && Current(s, Token(batch, events[k].id)) ::
      events[k].id in s.rows && s.rows[events[k].id] == events[k] && events[k].claimExpiresAt == Some(leaseUntil)
  {
    forall k | 0 <= k < |events| && Current(s, Token(batch, events[k].id))
      ensures events[k].id in s.rows && s.rows[events[k].id] == events[k]
              && events[k].claimExpiresAt == Some(leaseUntil)
    {
      assert HandedOut(s, batch, events[k], leaseUntil) && RowKept(s, events[k].id);
    }
  }

  lemma Composed(s: State, a: seq<Step>, b: Step, c: seq<Step>, d: seq<Step>)
    ensures After(s, a + ([b] + (c + d))) == After(After(Next(After(s, a), b), c), d)
  {
    AfterConcat(s, a, [b] + (c + d));
    AfterConcat(After(s, a), [b], c + d);
    assert After(After(s, a), [b]) == Next(After(s, a), b);
    AfterConcat(Next(After(s, a), b), c, d);
  }

  /** What a claim hands out: at most `limit` claimable events under fresh tokens, in claim order, and
      nothing claimable and unlocked is passed over in favour of an event that comes after it. */
  ghost predicate Chosen(rows: Rows, batch: nat, events: seq<Event>, ids: set<int>,
                         limit: int, claimedAt: int, leaseUntil: int, locked: set<int>) {
    && AllClaimable(rows, ids, claimedAt) && ids !! locked
    && |events| == |ids| <= (if limit > 0 then limit else 0)
    && (forall i | 0 <= i < |events| :: IsClaimed(rows, batch, events[i], ids, claimedAt, leaseUntil))
    && InOrder(events)
    && (limit > 0 ==> forall id | id in rows && id !in locked && id !in ids && Claimable(rows[id], claimedAt) ::
          |events| == limit && AllBefore(events, rows[id]))
  }

  predicate IsClaimed(rows: Rows, batch: nat, e: Event, ids: set<int>, claimedAt: int, leaseUntil: int) {
    e.id in ids && e.id in rows && e == Claimed(rows[e.id], Token(batch, e.id), claimedAt, leaseUntil)
  }

  predicate InOrder(events: seq<Event>) {
    forall i, j | 0 <= i < j < |events| :: Precedes(events[i], events[j])
  }

  predicate AllBefore(events: seq<Event>, e: Event) {
    forall i | 0 <= i < |events| :: Precedes(events[i], e)
  }

  function Candidates(rows: Rows, claimedAt: int, locked: set<int>): set<int> {
    set id | id in rows && id !in locked && Claimable(rows[id], claimedAt)
  }

  /** A claim part way: what is taken is in order and comes before every candidate that is left. */
  ghost predicate Choosing(rows: Rows, batch: nat, events: seq<Event>, ids: set<int>, left: set<int>, claimedAt: int,
                           leaseUntil: int) {
    && left <= rows.Keys && ids !! left && |events| == |ids|
    && (forall e | e in events :: IsClaimed(rows, batch, e, ids, claimedAt, leaseUntil))
    && InOrder(events)
    && (forall id | id in left :: AllBefore(events, rows[id]))
  }

  lemma ChooseOne(rows: Rows, batch: nat, events: seq<Event>, ids: set<int>, left: set<int>, claimedAt: int,
                  leaseUntil: int, id: int)
    requires Choosing(rows, batch, events, ids, left, claimedAt, leaseUntil) && IsFirst(rows, left, id)
             && rows[id].id == id
    ensures var copy := Claimed(rows[id], Token(batch, id), claimedAt, leaseUntil);
      Choosing(rows, batch, events + [copy], ids + {id}, left - {id}, claimedAt, leaseUntil)
    ensures (ids + {id}) + (left - {id}) == ids + left
  {
    var copy := Claimed(rows[id], Token(batch, id), claimedAt, leaseUntil);
    AppendInOrder(rows, events, left, id, copy);
    forall e | e in events + [copy] ensures IsClaimed(rows, batch, e, ids + {id}, claimedAt, leaseUntil) {
      if e in events {
        assert IsClaimed(rows, batch, e, ids, claimedAt, leaseUntil);
      }
    }
  }

  lemma AppendInOrder(rows: Rows, events: seq<Event>, left: set<int>, id: int, copy: Event)
    requires left <= rows.Keys && IsFirst(rows, left, id) && InOrder(events)
    requires forall c | c in left :: AllBefore(events, rows[c])
    requires copy.nextAttemptAt == rows[id].nextAttemptAt && copy.createdAt == rows[id].createdAt
             && copy.id == rows[id].id
    ensures InOrder(events + [copy])
    ensures forall c | c in left - {id} :: AllBefore(events + [copy], rows[c])
  {
    assert AllBefore(events, rows[id]);
    forall c | c in left - {id} ensures AllBefore(events + [copy], rows[c]) {
      assert AllBefore(events, rows[c]) && Precedes(rows[id], rows[c]);
    }
  }

  lemma ChoosingDone(rows: Rows, batch: nat, events: seq<Event>, ids: set<int>, left: set<int>,
                     limit: int, claimedAt: int, leaseUntil: int, locked: set<int>)
    requires Choosing(rows, batch, events, ids, left, claimedAt, leaseUntil)
    requires ids + left == Candidates(rows, claimedAt, locked)
    requires |events| <= (if limit > 0 then limit else 0) && (|events| >= limit || left == {})
    ensures Chosen(rows, batch, events, ids, limit, claimedAt, leaseUntil, locked)
  {
    forall id | id in ids ensures id in rows && Claimable(rows[id], claimedAt) && id !in locked {
      assert id in Candidates(rows, claimedAt, locked);
    }
    forall id | id in rows && id !in locked && id !in ids && Claimable(rows[id], claimedAt) ensures id in left {
      assert id in Candidates(rows, claimedAt, locked);
    }
  }

  method ChooseDue(rows: Rows, batch: nat, limit: int, claimedAt: int, leaseUntil: int, locked: set<int>)
    returns (events: seq<Event>, ids: set<int>)
    requires forall id | id in rows :: rows[id].id == id
    ensures Chosen(rows, batch, events, ids, limit, claimedAt, leaseUntil, locked)
  {
    events, ids := [], {};
    var candidates := Candidates(rows, claimedAt, locked);
    while |events| < limit && candidates != {}
      invariant |events| <= if limit > 0 then limit else 0
      invariant ids + candidates == Candidates(rows, claimedAt, locked)
      invariant Choosing(rows, batch, events, ids, candidates, claimedAt, leaseUntil)
      decreases |candidates|
    {
      ghost var first := FirstExists(rows, candidates);
      assert IsFirst(rows, candidates, first);
      var id :| id in candidates && forall j | j in candidates && j != id :: Precedes(rows[id], rows[j]);
      ChooseOne(rows, batch, events, ids, candidates, claimedAt, leaseUntil, id);
      events := events + [Claimed(rows[id], Token(batch, id), claimedAt, leaseUntil)];
      ids := ids + {id};
      candidates := candidates - {id};
    }
    ChoosingDone(rows, batch, events, ids, candidates, limit, claimedAt, leaseUntil, locked);
  }

  lemma Removed(rows: Rows, gone: set<int>, before: int)
    requires gone == set id | id in rows && Deletable(rows[id], before)
    ensures rows - gone == map id | id in rows && !Deletable(rows[id], before) :: rows[id]
    ensures |rows - gone| == |rows| - |gone|
  {
    assert (rows - gone).Keys == rows.Keys - gone && gone <= rows.Keys;
  }

  class Outbox {
    var rows: Rows
    var issued: map<Token, Event>
    var returned: map<Token, Outcome>
    var batches: nat
    var used: set<int>
    var writer: map<int, Token>

    function System(): State
      reads this
    {
      State(rows, issued, returned, batches, used, writer)
    }

    constructor ()
      ensures System() == EMPTY && Inv(System())
    {
      rows, issued, returned, batches, used, writer := map[], map[], map[], 0, {}, map[];
    }

    method AppendOutboxEvent(n: NewEvent)
      requires Inv(System()) && n.id !in used
      modifies this
      ensures Inv(System()) && System() == Next(old(System()), Append(n))
    {
      StepKeeps(System(), Append(n));
      if n.key.Some? {
        if exists id :: id in rows && rows[id].eventType == n.eventType && rows[id].key == n.key {
          return;
        }
      }
      rows, used := rows[n.id := Appended(n)], used + {n.id};
    }

    /** Takes the first due events in claim order, none of those another transaction has locked. */
    method ClaimOutboxEvents(limit: int, claimedAt: int, leaseUntil: int, locked: set<int>)
      returns (events: seq<Event>, ghost ids: set<int>)
      requires Inv(System())
      modifies this
      ensures Inv(System()) && System() == Next(old(System()), Claim(ids, claimedAt, leaseUntil))
      ensures Chosen(old(rows), old(batches), events, ids, limit, claimedAt, leaseUntil, locked)
    {
      forall id | id in rows ensures rows[id].id == id {
        assert RowKept(System(), id);
      }
      var chosen;
      events, chosen := ChooseDue(rows, batches, limit, claimedAt, leaseUntil, locked);
      ids := chosen;
      var copies := Copies(rows, chosen, batches, claimedAt, leaseUntil);
      ghost var after := AfterClaim(System(), ids, claimedAt, leaseUntil);
      ClaimKeeps(System(), ids, claimedAt, leaseUntil);
      rows, issued, batches := rows + copies, issued + Tokens(copies, batches), batches + 1;
      assert System() == after;
    }

    /** Writes an event only while the claim it was handed out under is still the current one. */
    method FinalizeOutboxEvent(v: Event) returns (updated: bool)
      modifies this`rows, this`writer
      ensures updated <==> v.claimToken.Some? && v.id in old(rows) && old(rows)[v.id].status == Processing
                           && old(rows)[v.id].claimToken == v.claimToken
      ensures rows == if updated then old(rows)[v.id := WholeRow(v)] else old(rows)
      ensures writer == if updated then old(writer)[v.id := v.claimToken.value] else old(writer)
    {
      if v.id in rows && rows[v.id].status == Processing && v.claimToken.Some?
        && rows[v.id].claimToken == v.claimToken {
        rows := rows[v.id := v.(claimToken := None, claimExpiresAt := None)];
        writer := writer[v.id := v.claimToken.value];
        return true;
      }
      return false;
    }

    method RetryOutboxEvent(id: int, now: int) returns (found: bool)
      requires Inv(System())
      modifies this`rows
      ensures Inv(System()) && System() == Next(old(System()), Retry(id, now))
      ensures found <==> id in old(rows) && OperatorMayRetry(old(rows)[id])
    {
      StepKeeps(System(), Retry(id, now));
      if id !in rows {
        return false;
      }
      var event := rows[id];
      if event.status != Failed && event.status != Parked && event.status != DeadLettered {
        return false;
      }
      event := event.(status := Pending, retryCount := 0, attemptCount := 0, lastError := "", nextAttemptAt := now);
      event := event.(claimToken := None, claimExpiresAt := None, lastAttemptAt := None);
      event := event.(updatedAt := now, processedAt := None, deadLetteredAt := None);
      rows := rows[id := event];
      return true;
    }

    method DeleteSucceededOutboxEventsBefore(before: int) returns (deleted: nat)
      requires Inv(System())
      modifies this`rows
      ensures Inv(System()) && System() == Next(old(System()), DeleteSucceeded(before))
      ensures deleted == |old(rows)| - |rows|
    {
      StepKeeps(System(), DeleteSucceeded(before));
      var gone := set id | id in rows && rows[id].status == Succeeded && rows[id].createdAt < before;
      deleted := |gone|;
      Removed(rows, gone, before);
      rows := rows - gone;
    }

    /** What everybody else does meanwhile. */
    method Meanwhile(steps: seq<Step>, ghost mine: nat)
      requires Inv(System()) && Foreign(steps, mine)
      modifies this
      ensures Inv(System()) && System() == After(old(System()), steps)
      ensures forall u | u in old(issued) && u.batch == mine :: Kept(old(System()), System(), u)
    {
      EveryRunKeeps(System(), steps);
      forall u | u in issued && u.batch == mine ensures Kept(System(), After(System(), steps), u) {
        ForeignLeavesMine(System(), steps, u);
      }
      var s := After(State(rows, issued, returned, batches, used, writer), steps);
      rows, issued, returned := s.rows, s.issued, s.returned;
      batches, used, writer := s.batches, s.used, s.writer;
    }

    /** Settles an event whose handler answered: the fields are set one by one as the outcome demands,
        then written under the claim. */
    method ProcessEvent(copy: Event, outcome: Outcome, now: int, reply: Reply, ghost t: Token)
      returns (failure: Failure)
      requires Inv(System()) && t in issued && issued[t] == copy && t in returned && returned[t] == outcome
      modifies this`rows, this`writer
      ensures Inv(System())
      ensures System() == if reply == FailedUnapplied then old(System()) else Next(old(System()), Settle(t, now))
      ensures failure == if reply != Answered then StoreFailed(copy.id)
                         else if Current(old(System()), t) then Fine else ClaimLost(copy.id)
      ensures reply == Answered ==> !Current(System(), t)
    {
      assert CopyKept(System(), t);
      var event := copy;
      event := event.(updatedAt := now);
      if outcome.NotConfigured? {
        event := event.(status := Pending);
        if event.attemptCount > 0 {
          event := event.(attemptCount := event.attemptCount - 1);
        }
        event := event.(nextAttemptAt := now + INITIAL_BACKOFF, processedAt := None, deadLetteredAt := None,
                        lastError := outcome.error);
      } else if outcome.Permanent? || outcome.Unsupported? {
        event := event.(status := Parked, processedAt := None, deadLetteredAt := None, lastError := outcome.error);
      } else if outcome.Transient? {
        event := event.(retryCount := event.retryCount + 1, lastError := outcome.error);
        if event.limit > 0 && event.attemptCount >= event.limit {
          event := event.(status := DeadLettered, processedAt := Some(now), deadLetteredAt := Some(now));
        } else {
          var delay := OutboxRetryBackoff(event.attemptCount);
          event := event.(status := Failed, nextAttemptAt := now + delay, processedAt := None, deadLetteredAt := None);
        }
      } else {
        event := event.(status := Succeeded, lastError := "", processedAt := Some(now), deadLetteredAt := None);
      }
      assert WholeRow(event) == Settled(copy, outcome, now);
      if reply == FailedUnapplied {
        return StoreFailed(copy.id);
      }
      StepKeeps(System(), Settle(t, now));
      assert Current(System(), t) ==> RowKept(System(), t.event);
      var updated := FinalizeOutboxEvent(event);
      failure := if reply == FailedApplied then StoreFailed(copy.id) else if updated then Fine else ClaimLost(copy.id);
    }

    /** The handler answers; nothing is written yet. */
    method RunHandler(event: Event, outcome: Outcome, ghost t: Token)
      requires Inv(System()) && t in issued && issued[t] == event && t !in returned
      modifies this`returned
      ensures Inv(System()) && System() == Next(old(System()), Dispatch(t, outcome))
      ensures returned == old(returned)[t := outcome]
    {
      assert CopyKept(System(), t);
      DispatchKeeps(System(), t, outcome);
      returned := returned[event.claimToken.value := outcome];
    }

    /** The handling of one event of a batch, with everybody else's steps in between. */
    method HandleTurn(event: Event, turn: Turn, ghost t: Token) returns (failure: Failure)
      requires Inv(System()) && t in issued && issued[t] == event && t !in returned
      requires Foreign(turn.before, t.batch) && Foreign(turn.during, t.batch)
      modifies this
      ensures Inv(System()) && System() == After(old(System()), TurnSteps(turn, t))
      ensures failure == Fine || failure == ClaimLost(event.id) || failure == StoreFailed(event.id)
      ensures !failure.StoreFailed? ==> !Current(System(), t)
      ensures failure.StoreFailed? <==> turn.reply != Answered
      ensures forall u | u in old(issued) && u.batch == t.batch && u != t && u !in old(returned) :: u !in returned
    {
      ghost var start := System();
      Meanwhile(turn.before, t.batch);
      assert Kept(start, System(), t);
      RunHandler(event, turn.outcome, t);
      ghost var second := System();
      Meanwhile(turn.during, t.batch);
      assert Kept(second, System(), t);
      ghost var third := System();
      failure := ProcessEvent(event, turn.outcome, turn.finishedAt, turn.reply, t);
      ghost var ending := if turn.reply == FailedUnapplied then [] else [Settle(t, turn.finishedAt)];
      Composed(start, turn.before, Dispatch(t, turn.outcome), turn.during, ending);
      assert ending != [] ==> After(third, ending) == Next(third, Settle(t, turn.finishedAt));
    }

    /** The next event of a claimed batch: the earlier ones stay settled, the later ones untouched. */
    method WorkOne(events: seq<Event>, turns: seq<Turn>, n: nat, ghost start: State, ghost mine: nat,
                   ghost leaseUntil: int)
      returns (failure: Failure)
      requires n < |events| && n < |turns| && InOrder(events)
      requires Foreign(turns[n].before, mine) && Foreign(turns[n].during, mine)
      requires Underway(start, System(), events, turns, mine, n, leaseUntil)
      modifies this
      ensures failure == Fine ==> Underway(start, System(), events, turns, mine, n + 1, leaseUntil)
      ensures failure != Fine ==> Stopped(start, System(), events, turns, mine, n, leaseUntil)
      ensures failure.ClaimLost? ==> !Current(System(), Token(mine, events[n].id))
    {
      ghost var earlier := System();
      assert HandedOut(earlier, mine, events[n], leaseUntil);
      assert events[n] == events[n..][0];
      failure := HandleTurn(events[n], turns[n], Token(mine, events[n].id));
      OneMoreTurn(start, events, turns, mine, n);
      LostStaysLost(earlier, TurnSteps(turns[n], Token(mine, events[n].id)), mine, events, n, leaseUntil);
      UntouchedStays(earlier, System(), mine, events, n, leaseUntil);
      if failure == Fine {
        LostExtends(System(), mine, events, n);
      }
    }

    /** Works through a claimed batch until it is done or an event could not be settled. */
    method WorkThrough(events: seq<Event>, turns: seq<Turn>, ghost mine: nat, ghost leaseUntil: int)
      returns (processed: nat, failure: Failure, settled: nat)
      requires Inv(System()) && |events| <= |turns| && InOrder(events)
      requires forall turn | turn in turns :: Foreign(turn.before, mine) && Foreign(turn.during, mine)
      requires AllHandedOut(System(), mine, events, leaseUntil) && Untouched(System(), mine, events)
      modifies this
      ensures settled <= |events| && (failure == Fine <==> settled == |events|)
      ensures processed == Handled(turns[..settled])
      ensures failure == Fine ==> Underway(old(System()), System(), events, turns, mine, settled, leaseUntil)
      ensures failure != Fine ==> Stopped(old(System()), System(), events, turns, mine, settled, leaseUntil)
      ensures failure.ClaimLost? ==> !Current(System(), Token(mine, events[settled].id))
    {
      ghost var start := System();
      processed, failure, settled := 0, Fine, 0;
      assert events[0..] == events;
      while settled < |events|
        invariant settled <= |events| && failure == Fine
        invariant processed == Handled(turns[..settled])
        invariant Underway(start, System(), events, turns, mine, settled, leaseUntil)
      {
        assert turns[settled] in turns;
        failure := WorkOne(events, turns, settled, start, mine, leaseUntil);
        if failure != Fine {
          return;
        }
        if !turns[settled].outcome.Unsupported? {
          processed := processed + 1;
        }
        OneMoreHandled(turns, settled);
        settled := settled + 1;
      }
    }

    /** One worker's pass. Whatever the others do in between, it is a run of the protocol. If it ends
        well no event of the batch is still under this claim; if it stops at an event, the later ones
        were neither handled nor settled, and each is still leased exactly as handed out unless
        somebody else has claimed it since. */
    method ProcessTenant(limit: int, claimedAt: int, leaseUntil: int, locked: set<int>, turns: seq<Turn>)
      returns (processed: nat, failure: Failure, ghost batch: seq<Event>, ghost ids: set<int>, ghost settled: nat)
      requires Inv(System()) && |turns| >= limit
      requires forall turn | turn in turns :: Foreign(turn.before, batches) && Foreign(turn.during, batches)
      modifies this
      ensures Chosen(old(rows), old(batches), batch, ids, limit, claimedAt, leaseUntil, locked)
      ensures settled <= |batch| <= |turns| && (failure == Fine <==> settled == |batch|)
      ensures Inv(System())
      ensures System() == After(old(System()), [Claim(ids, claimedAt, leaseUntil)]
        + BatchSteps(batch, turns, old(batches), if failure == Fine then settled else settled + 1))
      ensures processed == Handled(turns[..settled])
      ensures Lost(System(), old(batches), batch[..settled])
      ensures failure.ClaimLost? ==> !Current(System(), Token(old(batches), batch[settled].id))
      ensures failure != Fine ==> Untouched(System(), old(batches), batch[settled + 1..])
      ensures forall k | 0 <= k < |batch| && Current(System(), Token(old(batches), batch[k].id)) ::
        rows[batch[k].id] == batch[k] && batch[k].claimExpiresAt == Some(leaseUntil)
    {
      ghost var mine := batches;
      ghost var start := System();
      var events, done;
      events, ids := ClaimOutboxEvents(limit, claimedAt, leaseUntil, locked);
      batch := events;
      ghost var claim := Claim(ids, claimedAt, leaseUntil);
      ChosenHandedOut(start, events, ids, limit, claimedAt, leaseUntil, locked);
      processed, failure, done := WorkThrough(events, turns, mine, leaseUntil);
      settled := done;
      ClaimThenBatch(start, claim, batch, turns, mine, if failure == Fine then settled else settled + 1);
      StillAsLeased(System(), mine, batch, leaseUntil);
    }
  }
}
