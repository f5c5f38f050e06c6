/** What matching leave does to the balances employees see: where its entries are posted, what they add
    up to in the overlay, and what a reconcile shows. */
module LeaveBalances {
  import opened AttendanceRecords
  import opened LeaveLedger
  import opened LeaveMatching

  // ------------------------------------------------------- overlay by type

  /** The sum of a balance's entries of one type. */
  function OfType(entries: seq<Entry>, balance: int, t: EntryType): int {
    if entries == [] then 0
    else
      var last := entries[|entries| - 1];
      OfType(entries[..|entries| - 1], balance, t)
        + (if last.balance == balance && last.entryType == t then last.amount else 0)
  }

  lemma {:induction false} TotalsByType(entries: seq<Entry>, balance: int)
    ensures Total(entries, balance, PENDING) == OfType(entries, balance, Reserve) + OfType(entries, balance, Release)
    ensures Total(entries, balance, LOCAL)
         == OfType(entries, balance, LocalConsume) + OfType(entries, balance, LocalRefund)
            + OfType(entries, balance, ExternalReconcile) + OfType(entries, balance, ExternalReversal)
    ensures Total(entries, balance, ALL)
         == Total(entries, balance, PENDING) + Total(entries, balance, LOCAL)
            + OfType(entries, balance, OvertimeCredit)
  {
    if entries != [] {
      TotalsByType(entries[..|entries| - 1], balance);
    }
  }

  /** A balance as shown: reservations less releases are pending, local consumption and external
      reconciliation less refunds and reversals are used, neither below zero; all entries of all seven
      types change what remains. */
  lemma OverlayExactly(item: Balance, entries: seq<Entry>)
    ensures var shown := LeaveLedger.Effective(item, entries);
            var reserved := -(OfType(entries, item.id, Reserve) + OfType(entries, item.id, Release));
            var used := -(OfType(entries, item.id, LocalConsume) + OfType(entries, item.id, LocalRefund)
                          + OfType(entries, item.id, ExternalReconcile) + OfType(entries, item.id, ExternalReversal));
      && shown.id == item.id && shown.snapshot == item.remaining
      && shown.pending == (if reserved < 0 then 0 else reserved)
      && shown.localUsed == (if used < 0 then 0 else used)
      && shown.remaining == item.remaining - reserved - used + OfType(entries, item.id, OvertimeCredit)
  {
    TotalsByType(entries, item.id);
  }

  // --------------------------------------------------- where entries are posted

  /** An entry of the shape a change of match from `previous` to `m` posts. */
  predicate IsPosting(en: Entry, external: LeaveRecord, previous: Option<int>, m: Option<int>) {
    && external.balance == Some(en.balance) && en.record == Some(external.id) && en.amount != 0
    && en.entryType == (if en.amount < 0 then ExternalReversal else ExternalReconcile)
    && ((m != None && en.amount == external.net && en.key == ExternalKey(external.id, Match, m.value, external.net))
        || (previous != None && previous != m && en.amount == -external.net
            && en.key == ExternalKey(external.id, Unmatch, previous.value, external.net)))
  }

  lemma PostShape(entries: seq<Entry>, external: LeaveRecord, nexus: int, delta: int, action: MatchAction, en: Entry)
    requires en in Post(entries, external, nexus, delta, action)
    ensures en in entries || (
      && external.balance == Some(en.balance) && en.record == Some(external.id) && en.amount == delta != 0
      && en.entryType == (if delta < 0 then ExternalReversal else ExternalReconcile)
      && en.key == ExternalKey(external.id, action, nexus, external.net))
  {
  }

  lemma ReconcilePostings(entries: seq<Entry>, external: LeaveRecord, m: Option<int>, en: Entry)
    requires en in ReconciledEntries(entries, external, m)
    ensures en in entries || IsPosting(en, external, external.matched, m)
  {
    var previous := external.matched;
    var reversed := if previous.Some? && previous != m
      then Post(entries, external, previous.value, -external.net, Unmatch) else entries;
    if m.Some? {
      PostShape(reversed, external, m.value, external.net, Match, en);
    }
    if en in reversed && previous.Some? && previous != m {
      PostShape(entries, external, previous.value, -external.net, Unmatch, en);
    }
  }

  /** Every entry a sync posts is on the balance the synced record names, for its minutes, under its own
      key; a record without a balance, or without minutes, posts nothing. */
  lemma SyncPostsExactly(s: State, external: LeaveRecord, en: Entry)
    requires external.source == Ehrms && !IsNexus(s, external.id)
    requires en in Next(s, Sync(external)).entries && en !in s.entries
    ensures IsPosting(en, external, Current(s, external.id), Current(Next(s, Sync(external)), external.id))
  {
    var incoming := external.(matched := Current(s, external.id));
    ReconcilePostings(s.entries, incoming, Current(Next(s, Sync(external)), external.id), en);
  }

  lemma TombstonePostsExactly(s: State, id: int, en: Entry)
    requires IsEhrms(s, id) && s.records[id].id == id
    requires en in Next(s, Tombstone(id)).entries && en !in s.entries
    ensures IsPosting(en, s.records[id], Current(s, id), None)
  {
    ReconcilePostings(s.entries, s.records[id].(live := false), None, en);
  }

  /** All a record's external entries are on one balance, with the amount their key says. */
  ghost predicate OnBalance(entries: seq<Entry>, e: int, net: int, balance: int) {
    forall en | en in entries && en.key.ExternalKey? && en.key.record == e ::
      && en.balance == balance && en.record == Some(e)
      && en.amount == (if en.key.action == Match then net else -net)
      && en.entryType == (if en.amount < 0 then ExternalReversal else ExternalReconcile)
  }

  lemma StepOnBalance(s: State, op: Op, e: int, net: int, balance: int)
    requires net != 0 && Inv(s) && Tracks(s, e, net, balance) && OnBalance(s.entries, e, net, balance)
    requires Fixed([op], e, net, balance)
    ensures OnBalance(Next(s, op).entries, e, net, balance)
  {
    assert op in [op];
    forall en | en in Next(s, op).entries && en !in s.entries && en.key.ExternalKey? && en.key.record == e
      ensures en.balance == balance && en.record == Some(e)
      ensures en.amount == (if en.key.action == Match then net else -net)
      ensures en.entryType == (if en.amount < 0 then ExternalReversal else ExternalReconcile)
    {
      match op
      case Sync(external) => SyncPostsExactly(s, external, en);
      case Tombstone(id) => TombstonePostsExactly(s, id, en);
      case SetNexus(r) => assert false;
      case AddRequest(r) => assert false;
      case PostOther(entry) => assert false;
    }
  }

  lemma {:induction false} RunOnBalance(ops: seq<Op>, e: int, net: int, balance: int)
    requires net != 0 && Fixed(ops, e, net, balance)
    ensures OnBalance(After(ops).entries, e, net, balance)
  {
    if ops != [] {
      var n := |ops| - 1;
      assert Fixed(ops[..n], e, net, balance) && Fixed([ops[n]], e, net, balance);
      RunOnBalance(ops[..n], e, net, balance);
      RunTracks(ops[..n], e, net, balance);
      EveryRunKeeps(ops[..n]);
      StepOnBalance(After(ops[..n]), ops[n], e, net, balance);
    }
  }

  // --------------------------------------------- what reaches the balances

  /** The ledger without a record's external entries. */
  function Without(entries: seq<Entry>, e: int): seq<Entry> {
    if entries == [] then []
    else
      var last := entries[|entries| - 1];
      Without(entries[..|entries| - 1], e) + (if last.key.ExternalKey? && last.key.record == e then [] else [last])
  }

  lemma TotalSnoc(entries: seq<Entry>, en: Entry, id: int, chosen: EntryType -> bool)
    ensures Total(entries + [en], id, chosen)
         == Total(entries, id, chosen) + (if en.balance == id && chosen(en.entryType) then en.amount else 0)
  {
    assert (entries + [en])[..|entries|] == entries;
  }

  lemma {:induction false} ShareOf(entries: seq<Entry>, e: int, net: int, balance: int, id: int,
                                   chosen: EntryType -> bool)
    requires OnBalance(entries, e, net, balance) && chosen(ExternalReconcile) == chosen(ExternalReversal)
    ensures Total(entries, id, chosen) == Total(Without(entries, e), id, chosen)
              + (if id == balance && chosen(ExternalReconcile) then External(entries, e) else 0)
  {
    if entries != [] {
      var init, last := entries[..|entries| - 1], entries[|entries| - 1];
      assert OnBalance(init, e, net, balance) by {
        assert forall en | en in init :: en in entries;
      }
      ShareOf(init, e, net, balance, id, chosen);
      assert last in entries;
      TotalSnoc(Without(init, e), last, id, chosen);
      assert Total(entries, id, chosen)
          == Total(init, id, chosen) + (if last.balance == id && chosen(last.entryType) then last.amount else 0);
      if last.key.ExternalKey? && last.key.record == e {
        assert Without(entries, e) == Without(init, e) && last.balance == balance;
        assert External(entries, e) == External(init, e) + last.amount;
      } else {
        assert Without(entries, e) == Without(init, e) + [last];
        assert External(entries, e) == External(init, e);
      }
    }
  }

  /** What a record contributes to the sums of a balance: to its own, the sum of its entries. */
  lemma ContributionIs(entries: seq<Entry>, e: int, net: int, balance: int, id: int)
    requires OnBalance(entries, e, net, balance)
    ensures var share, others := if id == balance then External(entries, e) else 0, Without(entries, e);
      && Total(entries, id, ALL) == Total(others, id, ALL) + share
      && Total(entries, id, LOCAL) == Total(others, id, LOCAL) + share
      && Total(entries, id, PENDING) == Total(others, id, PENDING)
  {
    ShareOf(entries, e, net, balance, id, ALL);
    ShareOf(entries, e, net, balance, id, LOCAL);
    ShareOf(entries, e, net, balance, id, PENDING);
  }

  /** The telescoping law where employees see it. Over every run in which an eHRMS record keeps its
      minutes and its balance, what the record adds to a shown balance is: to its own balance its minutes,
      exactly while it is matched and not back at a Nexus record it left; to its own otherwise, and to
      any other balance always, nothing. */
  lemma MinutesReachTheBalance(ops: seq<Op>, e: int, net: int, balance: int, item: Balance)
    requires net != 0 && Fixed(ops, e, net, balance)
    ensures var s := After(ops);
            var current, others := Current(s, e), Without(s.entries, e);
            var adds := if item.id == balance && current.Some? && !Left(ops, e, current.value) then net else 0;
      && LeaveLedger.Effective(item, s.entries).remaining == LeaveLedger.Effective(item, others).remaining + adds
      && LeaveLedger.Effective(item, s.entries).pending == LeaveLedger.Effective(item, others).pending
      && LeaveLedger.Effective(item, s.entries).snapshot == item.remaining
  {
    TelescopesExactly(ops, e, net, balance);
    RunOnBalance(ops, e, net, balance);
    ContributionIs(After(ops).entries, e, net, balance, item.id);
  }

  // ------------------------------------------------- what a reconcile shows

  /** A live Nexus record of the same employee, type and year that no other eHRMS record is matched to. */
  predicate Comparable(records: Records, external: LeaveRecord, x: int) {
    && x in records && records[x].source == Nexus && records[x].live
    && records[x].employee == external.employee && records[x].leaveType == external.leaveType
    && records[x].year == external.year
    && !exists id :: id in records && id != external.id && records[id].source == Ehrms && records[id].matched == Some(x)
  }

  /** Comparable, and of the same times and minutes. */
  predicate Same(records: Records, external: LeaveRecord, x: int) {
    && Comparable(records, external, x)
    && records[x].startAt == external.startAt && records[x].endAt == external.endAt && records[x].net == external.net
  }

  lemma ComparableExactly(records: Records, external: LeaveRecord)
    ensures forall x :: x in Candidates(records, external) <==> Comparable(records, external, x)
    ensures forall x :: x in Exact(records, external) <==> Same(records, external, x)
  {
  }

  lemma ChoiceExactly(records: Records, external: LeaveRecord, x: int)
    ensures Choice(records, external) == Some(x) <==>
      Same(records, external, x) && forall y | Same(records, external, y) :: y == x
  {
    ComparableExactly(records, external);
    var exact := Exact(records, external);
    if Same(records, external, x) && forall y | Same(records, external, y) :: y == x {
      assert exact == {x};
    }
  }

  function AllComparable(records: Records, external: LeaveRecord): set<int> {
    set x | x in records && Comparable(records, external, x)
  }

  lemma OthersDecide(s: State, external: LeaveRecord, x: int)
    requires external.source == Ehrms && !IsNexus(s, external.id)
    ensures var records := s.records[external.id := external.(matched := Current(s, external.id))];
      Comparable(records, external.(matched := Current(s, external.id)), x) <==> Comparable(s.records, external, x)
  {
    var records := s.records[external.id := external.(matched := Current(s, external.id))];
    if x in s.records && x != external.id {
      assert records[x] == s.records[x];
      forall id | id != external.id ensures id in records <==> id in s.records {
      }
      forall id | id != external.id && id in s.records ensures records[id] == s.records[id] {
      }
    }
  }

  /** What a sync makes of a record: matched to the one Nexus record that is the same leave, if there is
      exactly one and the record is live; otherwise a mismatch with a single comparable one, ambiguous
      among several, unmatched with none. Nothing else of any record changes. */
  lemma SyncMatchesExactly(s: State, external: LeaveRecord, x: int)
    requires external.source == Ehrms && !IsNexus(s, external.id)
    ensures var n := Next(s, Sync(external)).records;
      && external.id in n
      && n == s.records[external.id := external.(matched := n[external.id].matched,
                                                 reconciliation := n[external.id].reconciliation)]
      && (n[external.id].matched == Some(x) <==>
            external.live && Same(s.records, external, x) && forall y | Same(s.records, external, y) :: y == x)
  {
    var incoming := external.(matched := Current(s, external.id));
    var records := s.records[external.id := incoming];
    forall y ensures Comparable(records, incoming, y) <==> Comparable(s.records, external, y) {
      OthersDecide(s, external, y);
    }
    forall y ensures Same(records, incoming, y) <==> Same(s.records, external, y) {
      assert y != external.id ==> (y in records <==> y in s.records);
    }
    ChoiceExactly(records, incoming, x);
  }

  lemma SameCandidates(s: State, external: LeaveRecord)
    requires external.source == Ehrms && !IsNexus(s, external.id)
    ensures var incoming := external.(matched := Current(s, external.id));
      Candidates(s.records[external.id := incoming], incoming) == AllComparable(s.records, external)
  {
    var incoming := external.(matched := Current(s, external.id));
    var records := s.records[external.id := incoming];
    ComparableExactly(records, incoming);
    forall y ensures y in Candidates(records, incoming) <==> y in AllComparable(s.records, external) {
      OthersDecide(s, external, y);
    }
  }

  /** And what is shown on it. */
  lemma SyncShowsExactly(s: State, external: LeaveRecord)
    requires external.source == Ehrms && !IsNexus(s, external.id)
    ensures var n := Next(s, Sync(external)).records;
            var v, free := n[external.id].reconciliation, n[external.id].matched == None;
            var comparable := |AllComparable(s.records, external)|;
      && (v == Matched <==> !free)
      && (v == Unmatched <==> free && (!external.live || comparable == 0))
      && (v == Mismatch <==> free && external.live && comparable == 1)
      && (v == Ambiguous <==> free && external.live && comparable > 1)
  {
    SameCandidates(s, external);
  }

  /** What the leave requests show after a sync: the new match is matched, a single comparable one
      mismatched, several ambiguous, a match given up is Nexus-only again, all others are as they were. */
  lemma RequestsShowExactly(s: State, external: LeaveRecord, q: int)
    requires external.source == Ehrms && !IsNexus(s, external.id)
    ensures var n := Next(s, Sync(external));
            var previous, m := Current(s, external.id), n.records[external.id].matched;
      && (q in n.requests <==> q in s.requests)
      && (q in s.requests ==>
            n.requests[q]
              == if m == Some(q) then Matched
                 else if m == None && external.live && Comparable(s.records, external, q)
                 then n.records[external.id].reconciliation
                 else if previous == Some(q) then NexusOnly
                 else s.requests[q])
  {
    var incoming := external.(matched := Current(s, external.id));
    var records := s.records[external.id := incoming];
    OthersDecide(s, external, q);
    ComparableExactly(records, incoming);
  }

  /** A tombstoned record is unmatched, and the match it had is Nexus-only again. */
  lemma TombstoneExactly(s: State, id: int)
    requires IsEhrms(s, id) && s.records[id].id == id
    ensures var n, r := Next(s, Tombstone(id)), s.records[id];
      && n.records == s.records[id := r.(live := false, matched := None, reconciliation := Unmatched)]
      && n.requests == if r.matched != None && r.matched.value in s.requests
                       then s.requests[r.matched.value := NexusOnly] else s.requests
  {
  }
}
