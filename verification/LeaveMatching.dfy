/** Matching eHRMS leave records with Nexus ones, one to one, and the ledger entries each change of a
    match posts. A reconcile step runs to its end before the next begins. */
module LeaveMatching {
  import opened AttendanceRecords
  import opened LeaveLedger

  datatype Source = Nexus | Ehrms

  datatype Reconciliation = Unmatched | Matched | Mismatch | Ambiguous | NexusOnly

  datatype LeaveRecord = LeaveRecord(
    id: int,
    source: Source,
    employee: int,
    leaveType: int,
    year: int,
    balance: Option<int>,
    startAt: int,
    endAt: int,
    net: int,
    live: bool,
    matched: Option<int>,
    reconciliation: Reconciliation)

  type Records = map<int, LeaveRecord>

  type Requests = map<int, Reconciliation>

  /** The records, the reconciliation shown on each leave request, and the ledger. */
  datatype State = State(records: Records, requests: Requests, entries: seq<Entry>)

  const EMPTY := State(map[], map[], [])

  // -------------------------------------------------------------- matching

  /** Matched by an eHRMS record other than this one. */
  predicate ClaimedByOther(records: Records, external: int, nexus: int) {
    exists id :: id in records && id != external && records[id].source == Ehrms && records[id].matched == Some(nexus)
  }

  predicate IsCandidate(records: Records, external: LeaveRecord, id: int) {
    && id in records && records[id].source == Nexus && records[id].live
    && records[id].employee == external.employee && records[id].leaveType == external.leaveType
    && records[id].year == external.year && !ClaimedByOther(records, external.id, id)
  }

  predicate Agrees(a: LeaveRecord, b: LeaveRecord) {
    && a.employee == b.employee && a.leaveType == b.leaveType && a.year == b.year
    && a.startAt == b.startAt && a.endAt == b.endAt && a.net == b.net
  }

  function Candidates(records: Records, external: LeaveRecord): set<int> {
    set id | id in records && IsCandidate(records, external, id)
  }

  function Exact(records: Records, external: LeaveRecord): set<int> {
    set id | id in records && IsCandidate(records, external, id) && Agrees(records[id], external)
  }

  /** The only candidate that agrees in everything, if there is exactly one. */
  ghost function Choice(records: Records, external: LeaveRecord): (m: Option<int>)
    ensures m.Some? ==> Exact(records, external) == {m.value}
    ensures m.None? ==> |Exact(records, external)| != 1
  {
    var exact := Exact(records, external);
    if |exact| == 1 then
      var x :| x in exact;
      Singleton(exact, x);
      Some(x)
    else None
  }

  lemma Singleton(s: set<int>, x: int)
    requires |s| == 1 && x in s
    ensures s == {x}
  {
    assert |s - {x}| == 0;
  }

  /** A listing of the store's records, in whatever order. */
  predicate IsListing(items: seq<LeaveRecord>, records: Records) {
    && (forall item | item in items :: item.id in records && records[item.id] == item)
    && (forall id | id in records :: records[id] in items)
    && (forall id | id in records :: records[id].id == id)
  }

  method ClaimedNexusRecords(items: seq<LeaveRecord>, external: int) returns (claimed: set<int>)
    ensures forall n :: n in claimed <==>
      exists i | 0 <= i < |items| :: items[i].source == Ehrms && items[i].id != external && items[i].matched == Some(n)
  {
    claimed := {};
    for i := 0 to |items|
      invariant forall n :: n in claimed <==>
        exists j | 0 <= j < i :: items[j].source == Ehrms && items[j].id != external && items[j].matched == Some(n)
    {
      if items[i].source == Ehrms && items[i].id != external && items[i].matched.Some? {
        claimed := claimed + {items[i].matched.value};
      }
    }
  }

  predicate Eligible(item: LeaveRecord, external: LeaveRecord, claimed: set<int>) {
    && item.source == Nexus && item.live && item.employee == external.employee
    && item.leaveType == external.leaveType && item.year == external.year && item.id !in claimed
  }

  lemma ListedClaims(items: seq<LeaveRecord>, records: Records, external: int, n: int)
    requires IsListing(items, records)
    ensures ClaimedByOther(records, external, n)
       <==> exists i | 0 <= i < |items| ::
              items[i].source == Ehrms && items[i].id != external && items[i].matched == Some(n)
  {
    if ClaimedByOther(records, external, n) {
      var id :| id in records && id != external && records[id].source == Ehrms && records[id].matched == Some(n);
      var i :| 0 <= i < |items| && items[i] == records[id];
      assert items[i].id == id;
    }
    if i :| 0 <= i < |items| && items[i].source == Ehrms && items[i].id != external && items[i].matched == Some(n) {
      assert items[i] in items;
    }
  }

  method MatchNexusLeaveRecord(items: seq<LeaveRecord>, external: LeaveRecord, ghost records: Records)
    returns (matched: Option<int>, candidates: set<int>)
    requires IsListing(items, records)
    ensures matched == Choice(records, external) && candidates == Candidates(records, external)
  {
    var claimed := ClaimedNexusRecords(items, external.id);
    forall n ensures n in claimed <==> ClaimedByOther(records, external.id, n) {
      ListedClaims(items, records, external.id, n);
    }
    candidates := {};
    var matches: set<int> := {};
    for i := 0 to |items|
      invariant candidates == set j | 0 <= j < i && Eligible(items[j], external, claimed) :: items[j].id
      invariant matches
             == set j | 0 <= j < i && Eligible(items[j], external, claimed) && Agrees(items[j], external) :: items[j].id
    {
      var item := items[i];
      if item.source != Nexus || !item.live || item.employee != external.employee
         || item.leaveType != external.leaveType || item.year != external.year {
        continue;
      }
      if item.id in claimed {
        continue;
      }
      candidates := candidates + {item.id};
      if item.startAt == external.startAt && item.endAt == external.endAt && item.net == external.net {
        matches := matches + {item.id};
      }
    }
    ListedSets(items, records, external, claimed);
    if |matches| == 1 {
      var x: int :| x in matches;
      Singleton(matches, x);
      matched := Some(x);
    } else {
      matched := None;
    }
  }

  lemma ListedSets(items: seq<LeaveRecord>, records: Records, external: LeaveRecord, claimed: set<int>)
    requires IsListing(items, records)
    requires forall n :: n in claimed <==> ClaimedByOther(records, external.id, n)
    ensures (set j | 0 <= j < |items| && Eligible(items[j], external, claimed) :: items[j].id)
              == Candidates(records, external)
    ensures (set j | 0 <= j < |items| && Eligible(items[j], external, claimed) && Agrees(items[j], external)
               :: items[j].id)
         == Exact(records, external)
  {
    forall j | 0 <= j < |items| ensures items[j].id in records && records[items[j].id] == items[j] {
      assert items[j] in items;
    }
    forall id | id in records ensures exists j :: 0 <= j < |items| && items[j] == records[id] && items[j].id == id {
      var j :| 0 <= j < |items| && items[j] == records[id];
    }
  }

  // ------------------------------------------------------------- reconcile

  /** The entry a change of match posts; nothing for zero minutes or a record without a balance. */
  function Post(entries: seq<Entry>, external: LeaveRecord, nexus: int, delta: int, action: MatchAction): seq<Entry> {
    if delta == 0 || external.balance.None? then entries
    else Append(entries, Entry(ExternalKey(external.id, action, nexus, external.net), external.balance.value,
                               Some(external.id),
                               if delta < 0 then ExternalReversal else ExternalReconcile, delta))
  }

  function ReconciledEntries(entries: seq<Entry>, external: LeaveRecord, m: Option<int>): seq<Entry> {
    var previous := external.matched;
    var reversed := if previous.Some? && previous != m
      then Post(entries, external, previous.value, -external.net, Unmatch) else entries;
    if m.Some? then Post(reversed, external, m.value, external.net, Match) else reversed
  }

  function Verdict(live: bool, m: Option<int>, candidates: set<int>): Reconciliation {
    if m.Some? then Matched
    else if !live || |candidates| == 0 then Unmatched
    else if |candidates| == 1 then Mismatch
    else Ambiguous
  }

  function Show(requests: Requests, id: int, r: Reconciliation): Requests {
    if id in requests then requests[id := r] else requests
  }

  function ShowAll(requests: Requests, ids: set<int>, r: Reconciliation): Requests {
    map id | id in requests :: if id in ids then r else requests[id]
  }

  function ReconciledRequests(requests: Requests, external: LeaveRecord, m: Option<int>,
                              candidates: set<int>): Requests {
    var previous := external.matched;
    var released := if previous.Some? && previous != m then Show(requests, previous.value, NexusOnly) else requests;
    if m.Some? then Show(released, m.value, Matched)
    else if external.live then ShowAll(released, candidates, Verdict(true, None, candidates))
    else released
  }

  ghost function Reconcile(s: State, id: int): State
    requires id in s.records
  {
    var external := s.records[id];
    var m := if external.live then Choice(s.records, external) else None;
    var candidates := Candidates(s.records, external);
    State(s.records[id := external.(matched := m, reconciliation := Verdict(external.live, m, candidates))],
          ReconciledRequests(s.requests, external, m, candidates),
          ReconciledEntries(s.entries, external, m))
  }

  /** Reconciling again with nothing changed alters nothing: no match, no request, no ledger entry. */
  lemma ReconcileIsIdempotent(s: State, id: int)
    requires id in s.records && s.records[id].id == id && s.records[id].source == Ehrms
    ensures Reconcile(Reconcile(s, id), id) == Reconcile(s, id)
  {
    var before, after := s.records[id], Reconcile(s, id).records[id];
    var n := Reconcile(s, id);
    forall x ensures ClaimedByOther(n.records, id, x) <==> ClaimedByOther(s.records, id, x) {
      assert forall j | j != id :: j in n.records <==> j in s.records;
      assert forall j | j != id && j in s.records :: n.records[j] == s.records[j];
    }
    assert forall x :: IsCandidate(n.records, after, x) <==> IsCandidate(s.records, before, x);
    assert Candidates(n.records, after) == Candidates(s.records, before);
    assert Exact(n.records, after) == Exact(s.records, before);
    SameChoice(n.records, after, s.records, before);
    var m := if before.live then Choice(s.records, before) else None;
    assert after.matched == m;
    if m.Some? && before.balance.Some? && before.net != 0 {
      PostedKey(s.entries, before, m);
    }
  }

  lemma SameChoice(a: Records, x: LeaveRecord, b: Records, y: LeaveRecord)
    requires Exact(a, x) == Exact(b, y)
    ensures Choice(a, x) == Choice(b, y)
  {
    var c, d := Choice(a, x), Choice(b, y);
    if c.Some? {
      assert |Exact(a, x)| == 1;
      assert d.Some? && c.value in Exact(b, y);
    }
  }

  lemma PostedKey(entries: seq<Entry>, external: LeaveRecord, m: Option<int>)
    requires m.Some? && external.balance.Some? && external.net != 0
    ensures HasKey(ReconciledEntries(entries, external, m), ExternalKey(external.id, Match, m.value, external.net))
  {
    var previous := external.matched;
    var reversed := if previous.Some? && previous != m
      then Post(entries, external, previous.value, -external.net, Unmatch) else entries;
    PostEffect(reversed, external, m.value, external.net, Match, external.id);
  }

  lemma PostEffect(entries: seq<Entry>, external: LeaveRecord, nexus: int, delta: int, action: MatchAction, e: int)
    requires delta != 0 && external.balance.Some?
    ensures var key := ExternalKey(external.id, action, nexus, external.net); 
            var more := Post(entries, external, nexus, delta, action);
      && Keys(more) == Keys(entries) + {key}
      && External(more, e) == External(entries, e) + (if !HasKey(entries, key) && e == external.id then delta else 0)
  {
    var key := ExternalKey(external.id, action, nexus, external.net);
    var entry := Entry(key, external.balance.value, Some(external.id),
                       if delta < 0 then ExternalReversal else ExternalReconcile, delta);
    KeysAfterAppend(entries, entry);
    ExternalAppend(entries, entry, e);
  }

  // ------------------------------------------------------------------ runs

  datatype Op =
    | Sync(external: LeaveRecord)
    | Tombstone(id: int)
    | SetNexus(record: LeaveRecord)
    | AddRequest(request: int)
    | PostOther(entry: Entry)

  predicate IsEhrms(s: State, id: int) {
    id in s.records && s.records[id].source == Ehrms
  }

  predicate IsNexus(s: State, id: int) {
    id in s.records && s.records[id].source == Nexus
  }

  /** One operation: a synced eHRMS record keeps the match it had and is reconciled; a missing one is
      tombstoned and reconciled; Nexus records come and change by their own workflow. */
  ghost function Next(s: State, op: Op): State {
    match op
    case Sync(external) =>
      if external.source != Ehrms || IsNexus(s, external.id) then s
      else
        var prior := if external.id in s.records then s.records[external.id].matched else None;
        Reconcile(s.(records := s.records[external.id := external.(matched := prior)]), external.id)
    case Tombstone(id) =>
      if !IsEhrms(s, id) then s
      else Reconcile(s.(records := s.records[id := s.records[id].(live := false)]), id)
    case SetNexus(r) =>
      if r.source != Nexus || r.matched.Some? || IsEhrms(s, r.id) then s else s.(records := s.records[r.id := r])
    case AddRequest(r) => if r in s.requests then s else s.(requests := s.requests[r := NexusOnly])
    case PostOther(e) => if e.key.ExternalKey? then s else s.(entries := Append(s.entries, e))
  }

  ghost function After(ops: seq<Op>): State {
    if ops == [] then EMPTY else Next(After(ops[..|ops| - 1]), ops[|ops| - 1])
  }

  ghost predicate Inv(s: State) {
    && (forall id | id in s.records :: s.records[id].id == id)
    && (forall id | id in s.records && s.records[id].matched.Some? ::
          s.records[id].source == Ehrms && IsNexus(s, s.records[id].matched.value))
    && (forall i, j | i in s.records && j in s.records && s.records[i].matched.Some?
          && s.records[i].matched == s.records[j].matched :: i == j)
    && KeysDistinct(s.entries)
  }

  lemma ReconcileKeeps(s: State, id: int)
    requires Inv(s) && IsEhrms(s, id)
    ensures Inv(Reconcile(s, id))
  {
    var external, n := s.records[id], Reconcile(s, id);
    var m := n.records[id].matched;
    if m.Some? {
      assert m.value in Exact(s.records, external);
      assert !ClaimedByOther(s.records, id, m.value);
    }
    EntriesKeep(s.entries, external, m);
  }

  lemma EntriesKeep(entries: seq<Entry>, external: LeaveRecord, m: Option<int>)
    requires KeysDistinct(entries)
    ensures KeysDistinct(ReconciledEntries(entries, external, m)) && entries <= ReconciledEntries(entries, external, m)
  {
  }

  lemma SyncKeeps(s: State, external: LeaveRecord)
    requires Inv(s)
    ensures Inv(Next(s, Sync(external))) && s.entries <= Next(s, Sync(external)).entries
  {
    if external.source == Ehrms && !IsNexus(s, external.id) {
      var prior := if external.id in s.records then s.records[external.id].matched else None;
      var s1 := s.(records := s.records[external.id := external.(matched := prior)]);
      assert Inv(s1);
      ReconcileKeeps(s1, external.id);
      EntriesKeep(s1.entries, s1.records[external.id], Next(s, Sync(external)).records[external.id].matched);
    }
  }

  lemma TombstoneKeeps(s: State, id: int)
    requires Inv(s)
    ensures Inv(Next(s, Tombstone(id))) && s.entries <= Next(s, Tombstone(id)).entries
  {
    if IsEhrms(s, id) {
      var s1 := s.(records := s.records[id := s.records[id].(live := false)]);
      assert Inv(s1);
      ReconcileKeeps(s1, id);
      EntriesKeep(s1.entries, s1.records[id], None);
    }
  }

  lemma StepKeeps(s: State, op: Op)
    requires Inv(s)
    ensures Inv(Next(s, op)) && s.entries <= Next(s, op).entries
  {
    match op
    case Sync(external) => SyncKeeps(s, external);
    case Tombstone(id) => TombstoneKeeps(s, id);
    case SetNexus(r) =>
    case AddRequest(r) =>
    case PostOther(e) =>
  }

  /** In every state of every run no two eHRMS records point at the same Nexus record, only eHRMS
      records point anywhere, and ledger keys are unique. */
  lemma {:induction false} EveryRunKeeps(ops: seq<Op>)
    ensures Inv(After(ops))
  {
    if ops != [] {
      EveryRunKeeps(ops[..|ops| - 1]);
      StepKeeps(After(ops[..|ops| - 1]), ops[|ops| - 1]);
    }
  }

  /** A match agrees, when it is made or kept, in employee, type, year, start, end and net minutes with a
      live Nexus record that no other eHRMS record has. */
  lemma MatchesAgree(s: State, external: LeaveRecord, x: int)
    requires Inv(s) && external.source == Ehrms && !IsNexus(s, external.id)
    requires Next(s, Sync(external)).records[external.id].matched == Some(x)
    ensures IsNexus(s, x) && s.records[x].live && Agrees(s.records[x], external)
    ensures external.live && !ClaimedByOther(s.records, external.id, x)
  {
    var prior := if external.id in s.records then s.records[external.id].matched else None;
    var records := s.records[external.id := external.(matched := prior)];
    assert x in Exact(records, records[external.id]);
    forall id | id in s.records && id != external.id && s.records[id].source == Ehrms
      ensures s.records[id].matched != Some(x) {
      assert records[id] == s.records[id];
      assert !ClaimedByOther(records, external.id, x);
    }
  }

  // ------------------------------------------------------------ telescoping

  function Current(s: State, e: int): Option<int> {
    if e in s.records then s.records[e].matched else None
  }

  /** Every sync of the record brings the same minutes and the same balance. */
  predicate Fixed(ops: seq<Op>, e: int, net: int, balance: int) {
    forall op | op in ops :: op.Sync? && op.external.id == e && op.external.source == Ehrms ==>
      op.external.net == net && op.external.balance == Some(balance)
  }

  predicate HasLeft(s: State, e: int, x: int, net: int) {
    HasKey(s.entries, ExternalKey(e, Unmatch, x, net))
  }

  /** What the ledger says about a record: its keys, and the sum of the record's external entries. */
  datatype Book = Book(keys: set<Key>, total: int)

  function View(entries: seq<Entry>, e: int): Book {
    Book(Keys(entries), External(entries, e))
  }

  /** The record has posted a match for each Nexus record it has or had, a reversal for each it left,
      and their sum is its minutes exactly while it is matched to one it never left. */
  ghost predicate Balanced(b: Book, e: int, net: int, current: Option<int>) {
    && (forall x :: ExternalKey(e, Match, x, net) in b.keys <==>
          ExternalKey(e, Unmatch, x, net) in b.keys || current == Some(x))
    && b.total == (if current.Some? && ExternalKey(e, Unmatch, current.value, net) !in b.keys then net else 0)
  }

  ghost predicate Tracks(s: State, e: int, net: int, balance: int) {
    && (IsEhrms(s, e) ==> s.records[e].id == e && s.records[e].net == net && s.records[e].balance == Some(balance))
    && (IsNexus(s, e) ==> s.records[e].matched == None)
    && Balanced(View(s.entries, e), e, net, Current(s, e))
  }

  /** Two books that say the same about a record's matches. */
  ghost predicate SameFor(a: Book, b: Book, e: int) {
    a.total == b.total && forall k: Key | k.ExternalKey? && k.record == e :: k in a.keys <==> k in b.keys
  }

  lemma OthersPost(entries: seq<Entry>, external: LeaveRecord, nexus: int, delta: int, action: MatchAction, e: int)
    requires external.id != e
    ensures SameFor(View(entries, e), View(Post(entries, external, nexus, delta, action), e), e)
  {
    if delta != 0 && external.balance.Some? {
      PostEffect(entries, external, nexus, delta, action, e);
    }
  }

  lemma OthersReconcile(entries: seq<Entry>, external: LeaveRecord, m: Option<int>, e: int)
    requires external.id != e
    ensures SameFor(View(entries, e), View(ReconciledEntries(entries, external, m), e), e)
  {
    var previous := external.matched;
    var reversed := entries;
    if previous.Some? && previous != m {
      reversed := Post(entries, external, previous.value, -external.net, Unmatch);
      OthersPost(entries, external, previous.value, -external.net, Unmatch, e);
    }
    if m.Some? {
      OthersPost(reversed, external, m.value, external.net, Match, e);
    }
  }

  function PostedBook(b: Book, key: Key, delta: int): Book {
    Book(b.keys + {key}, b.total + if key in b.keys then 0 else delta)
  }

  function ReconciledBook(b: Book, external: LeaveRecord, m: Option<int>): Book {
    var previous := external.matched;
    var reversed := if previous.Some? && previous != m
      then PostedBook(b, ExternalKey(external.id, Unmatch, previous.value, external.net), -external.net) else b;
    if m.Some? then PostedBook(reversed, ExternalKey(external.id, Match, m.value, external.net), external.net)
    else reversed
  }

  lemma PostView(entries: seq<Entry>, external: LeaveRecord, nexus: int, delta: int, action: MatchAction)
    requires delta != 0 && external.balance.Some?
    ensures View(Post(entries, external, nexus, delta, action), external.id)
         == PostedBook(View(entries, external.id), ExternalKey(external.id, action, nexus, external.net), delta)
  {
    PostEffect(entries, external, nexus, delta, action, external.id);
  }

  lemma PostTwiceView(entries: seq<Entry>, external: LeaveRecord, p: int, m: int)
    requires external.net != 0 && external.balance.Some?
    ensures View(Post(Post(entries, external, p, -external.net, Unmatch), external, m, external.net, Match),
                 external.id)
         == PostedBook(PostedBook(View(entries, external.id), ExternalKey(external.id, Unmatch, p, external.net),
                                  -external.net),
                       ExternalKey(external.id, Match, m, external.net), external.net)
  {
    PostView(entries, external, p, -external.net, Unmatch);
    PostView(Post(entries, external, p, -external.net, Unmatch), external, m, external.net, Match);
  }

  lemma OwnView(entries: seq<Entry>, external: LeaveRecord, m: Option<int>)
    requires external.net != 0 && external.balance.Some?
    ensures View(ReconciledEntries(entries, external, m), external.id)
              == ReconciledBook(View(entries, external.id), external, m)
  {
    var previous := external.matched;
    if previous.Some? && previous != m {
      if m.Some? {
        PostTwiceView(entries, external, previous.value, m.value);
      } else {
        PostView(entries, external, previous.value, -external.net, Unmatch);
      }
    } else if m.Some? {
      PostView(entries, external, m.value, external.net, Match);
    }
  }

  /** A change of match keeps the book balanced: leaving brings it to zero, entering adds the minutes
      unless the Nexus record was left before, whose key is then known and adds nothing. */
  lemma OwnBook(b: Book, external: LeaveRecord, m: Option<int>)
    requires external.net != 0 && Balanced(b, external.id, external.net, external.matched)
    ensures var n := ReconciledBook(b, external, m);
      && Balanced(n, external.id, external.net, m)
      && forall x :: ExternalKey(external.id, Unmatch, x, external.net) in n.keys <==>
           ExternalKey(external.id, Unmatch, x, external.net) in b.keys || (external.matched == Some(x) && m != Some(x))
  {
    var n, previous := ReconciledBook(b, external, m), external.matched;
    forall x ensures ExternalKey(external.id, Unmatch, x, external.net) in n.keys <==>
      ExternalKey(external.id, Unmatch, x, external.net) in b.keys || (previous == Some(x) && m != Some(x)) {
    }
    forall x ensures ExternalKey(external.id, Match, x, external.net) in n.keys <==>
      ExternalKey(external.id, Unmatch, x, external.net) in n.keys || m == Some(x) {
    }
  }

  lemma OwnReconcile(s: State, e: int, net: int, balance: int)
    requires net != 0 && Tracks(s, e, net, balance) && IsEhrms(s, e)
    ensures Tracks(Reconcile(s, e), e, net, balance)
    ensures forall x :: HasLeft(Reconcile(s, e), e, x, net) <==>
      HasLeft(s, e, x, net) || (Current(s, e) == Some(x) && Current(Reconcile(s, e), e) != Some(x))
  {
    var external, m := s.records[e], Reconcile(s, e).records[e].matched;
    OwnView(s.entries, external, m);
    OwnBook(View(s.entries, e), external, m);
  }

  lemma SameBalanced(a: Book, b: Book, e: int, net: int, current: Option<int>)
    requires SameFor(a, b, e) && Balanced(a, e, net, current)
    ensures Balanced(b, e, net, current)
    ensures forall x :: ExternalKey(e, Unmatch, x, net) in b.keys <==> ExternalKey(e, Unmatch, x, net) in a.keys
  {
  }

  lemma SyncTracks(s: State, external: LeaveRecord, e: int, net: int, balance: int)
    requires net != 0 && Inv(s) && Tracks(s, e, net, balance) && external.source == Ehrms && !IsNexus(s, external.id)
    requires external.id == e ==> external.net == net && external.balance == Some(balance)
    ensures var n := Next(s, Sync(external));
      && Tracks(n, e, net, balance)
      && forall x :: HasLeft(n, e, x, net) <==>
        HasLeft(s, e, x, net) || (Current(s, e) == Some(x) && Current(n, e) != Some(x))
  {
    var s1 := s.(records := s.records[external.id := external.(matched := Current(s, external.id))]);
    var n := Next(s, Sync(external));
    assert n == Reconcile(s1, external.id);
    if external.id == e {
      assert Tracks(s1, e, net, balance);
      OwnReconcile(s1, e, net, balance);
    } else {
      OthersReconcile(s1.entries, s1.records[external.id], n.records[external.id].matched, e);
      SameBalanced(View(s.entries, e), View(n.entries, e), e, net, Current(s, e));
    }
  }

  lemma TombstoneTracks(s: State, id: int, e: int, net: int, balance: int)
    requires net != 0 && Inv(s) && Tracks(s, e, net, balance) && IsEhrms(s, id)
    ensures var n := Next(s, Tombstone(id));
      && Tracks(n, e, net, balance)
      && forall x :: HasLeft(n, e, x, net) <==>
        HasLeft(s, e, x, net) || (Current(s, e) == Some(x) && Current(n, e) != Some(x))
  {
    var s1 := s.(records := s.records[id := s.records[id].(live := false)]);
    var n := Next(s, Tombstone(id));
    assert n == Reconcile(s1, id);
    if id == e {
      assert Tracks(s1, e, net, balance);
      OwnReconcile(s1, e, net, balance);
    } else {
      OthersReconcile(s1.entries, s1.records[id], None, e);
      SameBalanced(View(s.entries, e), View(n.entries, e), e, net, Current(s, e));
    }
  }

  lemma StepTracks(s: State, op: Op, e: int, net: int, balance: int)
    requires net != 0 && Inv(s) && Tracks(s, e, net, balance) && Fixed([op], e, net, balance)
    ensures Tracks(Next(s, op), e, net, balance)
    ensures forall x :: HasLeft(Next(s, op), e, x, net) <==>
      HasLeft(s, e, x, net) || (Current(s, e) == Some(x) && Current(Next(s, op), e) != Some(x))
  {
    assert op in [op];
    match op
    case Sync(external) =>
      if external.source == Ehrms && !IsNexus(s, external.id) {
        SyncTracks(s, external, e, net, balance);
      }
    case Tombstone(id) =>
      if IsEhrms(s, id) {
        TombstoneTracks(s, id, e, net, balance);
      }
    case SetNexus(r) =>
    case AddRequest(r) =>
    case PostOther(entry) =>
      if !entry.key.ExternalKey? {
        ExternalAppend(s.entries, entry, e);
        KeysAfterAppend(s.entries, entry);
        SameBalanced(View(s.entries, e), View(Append(s.entries, entry), e), e, net, Current(s, e));
      }
  }

  /** Some step of the run took the record away from a Nexus record it was matched to. */
  ghost predicate Left(ops: seq<Op>, e: int, x: int) {
    exists i :: 0 <= i < |ops| && LeftAt(ops, i, e, x)
  }

  ghost predicate LeftAt(ops: seq<Op>, i: nat, e: int, x: int)
    requires i < |ops|
  {
    Current(After(ops[..i]), e) == Some(x) && Current(After(ops[..i + 1]), e) != Some(x)
  }

  lemma LeftSteps(ops: seq<Op>, e: int, x: int)
    requires ops != []
    ensures Left(ops, e, x) <==> Left(ops[..|ops| - 1], e, x) || LeftAt(ops, |ops| - 1, e, x)
  {
    var n := |ops| - 1;
    forall i | 0 <= i < n ensures LeftAt(ops, i, e, x) <==> LeftAt(ops[..n], i, e, x) {
      assert ops[..i] == ops[..n][..i] && ops[..i + 1] == ops[..n][..i + 1];
    }
    if Left(ops[..n], e, x) {
      var i :| 0 <= i < n && LeftAt(ops[..n], i, e, x);
      assert LeftAt(ops, i, e, x);
    }
  }

  lemma {:induction false} RunTracks(ops: seq<Op>, e: int, net: int, balance: int)
    requires net != 0 && Fixed(ops, e, net, balance)
    ensures Tracks(After(ops), e, net, balance)
    ensures forall x :: HasLeft(After(ops), e, x, net) <==> Left(ops, e, x)
  {
    if ops != [] {
      var n := |ops| - 1;
      var init, op := ops[..n], ops[n];
      assert Fixed(init, e, net, balance) && Fixed([op], e, net, balance);
      RunTracks(init, e, net, balance);
      EveryRunKeeps(init);
      StepTracks(After(init), op, e, net, balance);
      assert ops[..n + 1] == ops;
      forall x ensures HasLeft(After(ops), e, x, net) <==> Left(ops, e, x) {
        LeftSteps(ops, e, x);
      }
    }
  }

  /** Telescoping, exactly. Over every run in which the record keeps its minutes and its balance, through
      any changes of match and deletions, its external entries add up to its minutes while matched and
      to zero otherwise, if and only if it is not back at a Nexus record it left before; back there,
      they add up to zero. */
  lemma TelescopesExactly(ops: seq<Op>, e: int, net: int, balance: int)
    requires net != 0 && Fixed(ops, e, net, balance)
    ensures var s := After(ops); var current := Current(s, e);
      && (External(s.entries, e) == (if current.Some? then net else 0) <==>
            !(current.Some? && Left(ops, e, current.value)))
      && (current.Some? && Left(ops, e, current.value) ==> External(s.entries, e) == 0)
  {
    RunTracks(ops, e, net, balance);
  }

  // ------------------------------------------------ a return, concretely

  function NexusLeave(id: int, start: int): LeaveRecord {
    LeaveRecord(id, Nexus, 0, 0, 0, None, start, start + 60, 60, true, None, Unmatched)
  }

  const EHRMS_LEAVE := LeaveRecord(10, Ehrms, 0, 0, 0, Some(7), 0, 60, 60, true, None, Unmatched)

  /** Out to a second Nexus record and back to the first. */
  const RETURN_TRIP: seq<Op> := [
    SetNexus(NexusLeave(1, 0)), Sync(EHRMS_LEAVE),
    SetNexus(NexusLeave(1, 500)), SetNexus(NexusLeave(2, 0)), Sync(EHRMS_LEAVE),
    SetNexus(NexusLeave(2, 500)), SetNexus(NexusLeave(1, 0)), Sync(EHRMS_LEAVE)]

  lemma OnlyExact(records: Records, external: LeaveRecord, x: int)
    requires x in records && IsCandidate(records, external, x) && Agrees(records[x], external)
    requires forall id | id in records && id != x :: records[id].source == Ehrms || !Agrees(records[id], external)
    ensures Choice(records, external) == Some(x)
  {
    assert Exact(records, external) == {x};
    assert |Exact(records, external)| == 1;
  }

  /** One leg of the trip: with one agreeing Nexus record and no other eHRMS record, the sync matches it. */
  lemma SyncMatches(s: State, x: int, y: int, prior: Option<int>)
    requires x != 10 && y != 10 && x != y
    requires x in s.records && s.records.Keys <= {x, y, 10} && s.records[x] == NexusLeave(x, 0)
    requires y in s.records ==> s.records[y] == NexusLeave(y, 500)
    requires Current(s, 10) == prior && (10 in s.records ==> s.records[10].source == Ehrms)
    ensures var n := Next(s, Sync(EHRMS_LEAVE));
      && n.records.Keys == s.records.Keys + {10} && Current(n, 10) == Some(x) && n.records[10].source == Ehrms
      && forall id | id in s.records && id != 10 :: n.records[id] == s.records[id]
  {
    var external := EHRMS_LEAVE.(matched := prior);
    var records := s.records[10 := external];
    assert x in records && records[x] == NexusLeave(x, 0);
    forall id | id in records && id != x ensures records[id].source == Ehrms || !Agrees(records[id], external) {
      assert id == y || id == 10;
    }
    assert !ClaimedByOther(records, 10, x) by {
      forall id | id in records && id != 10 ensures records[id].source == Nexus {
        assert id == x || id == y;
      }
    }
    OnlyExact(records, external, x);
  }

  lemma AfterNext(ops: seq<Op>, k: nat)
    requires k < |ops|
    ensures After(ops[..k + 1]) == Next(After(ops[..k]), ops[k])
  {
    assert ops[..k + 1][..k] == ops[..k];
  }

  /** Setting a Nexus record leaves every eHRMS record as it was. */
  lemma SetNexusOnly(s: State, r: LeaveRecord)
    requires r.source == Nexus && r.matched.None? && !IsEhrms(s, r.id)
    ensures Next(s, SetNexus(r)) == s.(records := s.records[r.id := r])
  {
  }

  /** Where the trip stands: when each Nexus record starts, and whom the eHRMS record is matched to. */
  predicate Stands(s: State, first: int, second: Option<int>, m: Option<int>) {
    && s.records.Keys <= {1, 2, 10} && 1 in s.records && s.records[1] == NexusLeave(1, first)
    && (2 in s.records <==> second.Some?) && (second.Some? ==> s.records[2] == NexusLeave(2, second.value))
    && Current(s, 10) == m && (10 in s.records ==> s.records[10].source == Ehrms)
  }

  lemma TripStart()
    ensures Stands(After(RETURN_TRIP[..2]), 0, None, Some(1))
  {
    var t := RETURN_TRIP;
    assert t[..0] == [];
    AfterNext(t, 0);
    assert Stands(After(t[..1]), 0, None, None);
    AfterNext(t, 1);
    SyncMatches(After(t[..1]), 1, 2, None);
  }

  lemma TripOut()
    requires Stands(After(RETURN_TRIP[..2]), 0, None, Some(1))
    ensures Stands(After(RETURN_TRIP[..4]), 500, Some(0), Some(1))
  {
    var t := RETURN_TRIP;
    AfterNext(t, 2);
    SetNexusOnly(After(t[..2]), NexusLeave(1, 500));
    AfterNext(t, 3);
    SetNexusOnly(After(t[..3]), NexusLeave(2, 0));
  }

  lemma TripBack()
    requires Stands(After(RETURN_TRIP[..4]), 500, Some(0), Some(1))
    ensures Stands(After(RETURN_TRIP[..5]), 500, Some(0), Some(2)) && Stands(After(RETURN_TRIP), 0, Some(500), Some(1))
  {
    var t := RETURN_TRIP;
    assert t[..8] == t;
    AfterNext(t, 4);
    SyncMatches(After(t[..4]), 2, 1, Some(1));
    assert Stands(After(t[..5]), 500, Some(0), Some(2));
    AfterNext(t, 5);
    SetNexusOnly(After(t[..5]), NexusLeave(2, 500));
    AfterNext(t, 6);
    SetNexusOnly(After(t[..6]), NexusLeave(1, 0));
    assert Stands(After(t[..7]), 0, Some(500), Some(2));
    AfterNext(t, 7);
    SyncMatches(After(t[..7]), 1, 2, Some(2));
  }

  /** The telescoping law fails on it: the record is matched, yet its entries add up to zero, because
      the key of its second match with the first Nexus record was already used. */
  lemma ReturnLosesTheMinutes()
    ensures var s := After(RETURN_TRIP); Current(s, 10) == Some(1) && External(s.entries, 10) == 0
  {
    TripStart();
    TripOut();
    TripBack();
    assert RETURN_TRIP[..4 + 1] == RETURN_TRIP[..5];
    assert LeftAt(RETURN_TRIP, 4, 10, 1);
    assert Fixed(RETURN_TRIP, 10, 60, 7);
    TelescopesExactly(RETURN_TRIP, 10, 60, 7);
  }

  // ----------------------------------------------------------- the service

  class LeaveService {
    var records: Records
    var requests: Requests
    var entries: seq<Entry>

    function Contents(): State
      reads this
    {
      State(records, requests, entries)
    }

    constructor ()
      ensures Contents() == EMPTY
    {
      records, requests, entries := map[], map[], [];
    }

    method AppendLeaveBalanceEntry(e: Entry) returns (added: bool)
      modifies this`entries
      ensures entries == Append(old(entries), e) && added == !HasKey(old(entries), e.key)
    {
      for i := 0 to |entries|
        invariant entries == old(entries)
        invariant forall j | 0 <= j < i :: entries[j].key != e.key
      {
        if entries[i].key == e.key {
          assert entries[i] in entries;
          return false;
        }
      }
      entries := entries + [e];
      return true;
    }

    method AppendExternalReconciliation(external: LeaveRecord, nexus: int, delta: int, action: MatchAction)
      modifies this`entries
      ensures entries == Post(old(entries), external, nexus, delta, action)
    {
      if delta == 0 || external.balance.None? {
        return;
      }
      var entryType := ExternalReconcile;
      if delta < 0 {
        entryType := ExternalReversal;
      }
      var _ := AppendLeaveBalanceEntry(Entry(ExternalKey(external.id, action, nexus, external.net),
                                             external.balance.value,
                                             Some(external.id), entryType, delta));
    }

    method ShowRequest(id: int, r: Reconciliation)
      modifies this`requests
      ensures requests == Show(old(requests), id, r)
    {
      if id in requests {
        requests := requests[id := r];
      }
    }

    /** Releases the previous match if it changed, takes the new one, and posts both to the ledger. */
    method ReconcileEHRMSLeaveRecord(id: int, items: seq<LeaveRecord>)
      requires IsListing(items, records) && id in records
      modifies this
      ensures Contents() == Reconcile(old(Contents()), id)
    {
      var external := records[id];
      var previous := external.matched;
      var matched, candidates := MatchNexusLeaveRecord(items, external, records);
      if !external.live {
        matched := None;
      }
      if previous.Some? && previous != matched {
        AppendExternalReconciliation(external, previous.value, -external.net, Unmatch);
        ShowRequest(previous.value, NexusOnly);
      }
      var stored := external.(matched := None, reconciliation := Unmatched);
      if matched.Some? {
        stored := stored.(matched := matched, reconciliation := Matched);
        AppendExternalReconciliation(external, matched.value, external.net, Match);
        ShowRequest(matched.value, Matched);
      } else if external.live {
        if |candidates| == 1 {
          stored := stored.(reconciliation := Mismatch);
        } else if |candidates| > 1 {
          stored := stored.(reconciliation := Ambiguous);
        }
        requests := ShowAll(requests, candidates, stored.reconciliation);
      }
      records := records[id := stored];
    }

    /** A synced eHRMS record keeps the match the store has for it, then is reconciled. */
    method SyncEHRMSLeaveDetailRecord(external: LeaveRecord, items: seq<LeaveRecord>)
      requires external.source == Ehrms && !IsNexus(Contents(), external.id)
      requires IsListing(items, records[external.id := external.(matched := Current(Contents(), external.id))])
      modifies this
      ensures Contents() == Next(old(Contents()), Sync(external))
    {
      var incoming := external.(matched := None);
      if external.id in records {
        incoming := incoming.(matched := records[external.id].matched);
      }
      records := records[external.id := incoming];
      ReconcileEHRMSLeaveRecord(external.id, items);
    }

    method TombstoneLeaveRecord(id: int, items: seq<LeaveRecord>)
      requires IsEhrms(Contents(), id) && IsListing(items, records[id := records[id].(live := false)])
      modifies this
      ensures Contents() == Next(old(Contents()), Tombstone(id))
    {
      records := records[id := records[id].(live := false)];
      ReconcileEHRMSLeaveRecord(id, items);
    }
  }
}
