/** The append-only ledger of leave balance entries and the overlay that projects balances through it.
    Amounts are whole minutes. */
module LeaveLedger {
  import opened AttendanceRecords

  datatype EntryType = Reserve | Release | LocalConsume | LocalRefund | ExternalReconcile | ExternalReversal
    | OvertimeCredit

  datatype MatchAction = Match | Unmatch

  /** The idempotency keys of the ledger. */
  datatype Key =
    | ExternalKey(record: int, action: MatchAction, nexus: int, net: int)
    | RequestKey(request: int, cycle: int, keyBalance: int, keyType: EntryType)
    | StandaloneKey(reference: int)

  datatype Entry = Entry(key: Key, balance: int, record: Option<int>, entryType: EntryType, amount: int)

  /** Appending an entry whose key is already there changes nothing. */
  function Append(entries: seq<Entry>, e: Entry): seq<Entry> {
    if HasKey(entries, e.key) then entries else entries + [e]
  }

  function Keys(entries: seq<Entry>): set<Key> {
    set e | e in entries :: e.key
  }

  predicate HasKey(entries: seq<Entry>, key: Key) {
    key in Keys(entries)
  }

  predicate KeysDistinct(entries: seq<Entry>) {
    forall i, j | 0 <= i < j < |entries| :: entries[i].key != entries[j].key
  }

  /** Whatever is appended, keys stay distinct, nothing written is lost or moved, and appending the same
      key again is without effect. */
  lemma AppendIsIdempotent(entries: seq<Entry>, e: Entry, again: Entry)
    requires KeysDistinct(entries) && again.key == e.key
    ensures KeysDistinct(Append(entries, e)) && entries <= Append(entries, e)
    ensures Append(Append(entries, e), again) == Append(entries, e)
  {
    KeysAfterAppend(entries, e);
    forall i | 0 <= i < |entries| ensures entries[i].key in Keys(entries) {
      assert entries[i] in entries;
    }
  }

  // --------------------------------------------------------------- overlay

  datatype Balance = Balance(id: int, remaining: int, snapshot: int, pending: int, localUsed: int)

  predicate IsPending(t: EntryType) {
    t == Reserve || t == Release
  }

  predicate IsLocal(t: EntryType) {
    t == LocalConsume || t == LocalRefund || t == ExternalReconcile || t == ExternalReversal
  }

  /** The sum of a balance's entries of the chosen types. */
  function Total(entries: seq<Entry>, balance: int, chosen: EntryType -> bool): int {
    if entries == [] then 0
    else
      var last := entries[|entries| - 1];
      Total(entries[..|entries| - 1], balance, chosen)
        + (if last.balance == balance && chosen(last.entryType) then last.amount else 0)
  }

  const ALL: EntryType -> bool := t => true
  const PENDING: EntryType -> bool := t => IsPending(t)
  const LOCAL: EntryType -> bool := t => IsLocal(t)

  function Max0(n: int): int {
    if n > 0 then n else 0
  }

  function Effective(item: Balance, entries: seq<Entry>): Balance {
    Balance(item.id, item.remaining + Total(entries, item.id, ALL), item.remaining,
            Max0(-Total(entries, item.id, PENDING)), Max0(-Total(entries, item.id, LOCAL)))
  }

  function Lookup(m: map<int, int>, id: int): int {
    if id in m then m[id] else 0
  }

  /** One pass over the entries fills three tables, one pass over the balances applies them. */
  method ApplyLeaveBalanceOverlay(items: seq<Balance>, entries: seq<Entry>) returns (out: seq<Balance>)
    ensures |out| == |items| && forall i | 0 <= i < |items| :: out[i] == Effective(items[i], entries)
  {
    var total, pending, local: map<int, int> := map[], map[], map[];
    for i := 0 to |entries|
      invariant forall b :: Lookup(total, b) == Total(entries[..i], b, ALL)
      invariant forall b :: Lookup(pending, b) == Total(entries[..i], b, PENDING)
      invariant forall b :: Lookup(local, b) == Total(entries[..i], b, LOCAL)
    {
      var entry := entries[i];
      assert entries[..i + 1][..i] == entries[..i];
      total := total[entry.balance := Lookup(total, entry.balance) + entry.amount];
      if IsPending(entry.entryType) {
        pending := pending[entry.balance := Lookup(pending, entry.balance) + entry.amount];
      } else if IsLocal(entry.entryType) {
        local := local[entry.balance := Lookup(local, entry.balance) + entry.amount];
      }
    }
    assert entries[..|entries|] == entries;
    out := [];
    for i := 0 to |items|
      invariant |out| == i && forall j | 0 <= j < i :: out[j] == Effective(items[j], entries)
    {
      var item := items[i];
      item := item.(snapshot := item.remaining, pending := Max0(-Lookup(pending, item.id)));
      item := item.(localUsed := Max0(-Lookup(local, item.id)), remaining := item.remaining + Lookup(total, item.id));
      out := out + [item];
    }
  }

  lemma {:induction false} TotalConcat(a: seq<Entry>, b: seq<Entry>, balance: int, chosen: EntryType -> bool)
    ensures Total(a + b, balance, chosen) == Total(a, balance, chosen) + Total(b, balance, chosen)
  {
    if b == [] {
      assert a + b == a;
    } else {
      assert (a + b)[..|a + b| - 1] == a + b[..|b| - 1];
      TotalConcat(a, b[..|b| - 1], balance, chosen);
    }
  }

  lemma TotalWithout(b: seq<Entry>, j: nat, balance: int, chosen: EntryType -> bool)
    requires j < |b|
    ensures multiset(b[..j] + b[j + 1..]) == multiset(b) - multiset{b[j]}
    ensures Total(b, balance, chosen) == Total(b[..j] + b[j + 1..], balance, chosen) + Total([b[j]], balance, chosen)
  {
    assert b == b[..j] + ([b[j]] + b[j + 1..]);
    TotalConcat(b[..j], [b[j]] + b[j + 1..], balance, chosen);
    TotalConcat([b[j]], b[j + 1..], balance, chosen);
    TotalConcat(b[..j], b[j + 1..], balance, chosen);
  }

  /** The overlay does not depend on the order the entries are listed in. */
  lemma {:induction false} TotalIsOrderFree(a: seq<Entry>, b: seq<Entry>, balance: int, chosen: EntryType -> bool)
    requires multiset(a) == multiset(b)
    ensures Total(a, balance, chosen) == Total(b, balance, chosen)
  {
    if a == [] {
      assert |multiset(b)| == 0;
    } else {
      var n := |a| - 1;
      assert a == a[..n] + [a[n]] && a[n] in multiset(b);
      var j :| 0 <= j < |b| && b[j] == a[n];
      TotalWithout(a, n, balance, chosen);
      TotalWithout(b, j, balance, chosen);
      var rest := b[..j] + b[j + 1..];
      assert a[..n] + a[n + 1..] == a[..n];
      TotalIsOrderFree(a[..n], rest, balance, chosen);
    }
  }

  lemma OverlayIsOrderFree(item: Balance, a: seq<Entry>, b: seq<Entry>)
    requires multiset(a) == multiset(b)
    ensures Effective(item, a) == Effective(item, b)
  {
    TotalIsOrderFree(a, b, item.id, ALL);
    TotalIsOrderFree(a, b, item.id, PENDING);
    TotalIsOrderFree(a, b, item.id, LOCAL);
  }

  /** Applying a concatenation adds the effects. */
  lemma OverlayAdds(item: Balance, a: seq<Entry>, b: seq<Entry>)
    ensures Effective(item, a + b).remaining == Effective(Effective(item, a), b).remaining
  {
    TotalConcat(a, b, item.id, ALL);
  }

  function Sum(items: seq<Balance>): int {
    if items == [] then 0 else Sum(items[..|items| - 1]) + items[|items| - 1].remaining
  }

  /** The sum of all entries posted to one of the given balances. */
  function Posted(entries: seq<Entry>, ids: set<int>): int {
    if entries == [] then 0
    else
      var last := entries[|entries| - 1];
      Posted(entries[..|entries| - 1], ids) + (if last.balance in ids then last.amount else 0)
  }

  function BalanceIds(items: seq<Balance>): set<int> {
    set item | item in items :: item.id
  }

  lemma {:induction false} PostedSplits(entries: seq<Entry>, ids: set<int>, id: int)
    requires id !in ids
    ensures Posted(entries, ids + {id}) == Posted(entries, ids) + Total(entries, id, ALL)
  {
    if entries != [] {
      PostedSplits(entries[..|entries| - 1], ids, id);
    }
  }

  lemma {:induction false} PostedNowhere(entries: seq<Entry>)
    ensures Posted(entries, {}) == 0
  {
    if entries != [] {
      PostedNowhere(entries[..|entries| - 1]);
    }
  }

  function Overlaid(items: seq<Balance>, entries: seq<Entry>): seq<Balance> {
    if items == [] then [] else Overlaid(items[..|items| - 1], entries) + [Effective(items[|items| - 1], entries)]
  }

  /** Conservation: with distinct balances the projected remainders add up to the snapshots plus every
      entry posted to them; no minute is lost or counted twice. */
  lemma {:induction false} OverlayConserves(items: seq<Balance>, entries: seq<Entry>)
    requires forall i, j | 0 <= i < j < |items| :: items[i].id != items[j].id
    ensures Sum(Overlaid(items, entries)) == Sum(items) + Posted(entries, BalanceIds(items))
  {
    if items == [] {
      assert BalanceIds(items) == {};
      PostedNowhere(entries);
    } else {
      var n := |items| - 1;
      var init, last := items[..n], items[n];
      assert items == init + [last];
      OverlayConserves(init, entries);
      assert BalanceIds(items) == BalanceIds(init) + {last.id};
      PostedSplits(entries, BalanceIds(init), last.id);
      var all := Overlaid(items, entries);
      assert all[..|all| - 1] == Overlaid(init, entries);
    }
  }

  // ------------------------------------------------- one record's own entries

  /** What an eHRMS record has posted through matching. */
  function External(entries: seq<Entry>, record: int): int {
    if entries == [] then 0
    else
      var last := entries[|entries| - 1];
      External(entries[..|entries| - 1], record)
        + (if last.key.ExternalKey? && last.key.record == record then last.amount else 0)
  }

  /** Appending moves the sum by the amount if the key is new and not at all if it is known. */
  lemma ExternalAppend(entries: seq<Entry>, e: Entry, record: int)
    ensures External(Append(entries, e), record)
         == External(entries, record) + (if !HasKey(entries, e.key) && e.key.ExternalKey? && e.key.record == record
                                           then e.amount else 0)
  {
    assert (entries + [e])[..|entries|] == entries;
  }

  lemma KeysAfterAppend(entries: seq<Entry>, e: Entry)
    ensures Keys(Append(entries, e)) == Keys(entries) + {e.key}
  {
    assert forall x :: x in entries + [e] <==> x in entries || x == e;
  }
}
