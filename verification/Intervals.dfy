/** Half-open attendance intervals and their algebra.
    A list of intervals denotes a finite set of instants (nanoseconds). Every operation is
    specified by what it does to that set; the list it returns is the one canonical list of it. */
module Intervals {

  const MINUTE := 60_000_000_000
  const DAY := 1440 * MINUTE

  datatype Interval = Interval(start: int, end: int)

  predicate Holds(v: Interval, t: int) {
    v.start <= t < v.end
  }

  ghost function Span(v: Interval): set<int> {
    set t: int | v.start <= t < v.end && Holds(v, t)
  }

  /** The instants a list of intervals covers. */
  ghost function Points(s: seq<Interval>): set<int> {
    if s == [] then {} else Span(s[0]) + Points(s[1..])
  }

  /** Non-empty intervals in time order with a gap between neighbours. */
  ghost predicate Canonical(s: seq<Interval>) {
    s == [] ||
    (s[0].start < s[0].end && (|s| > 1 ==> s[0].end < s[1].start) && Canonical(s[1..]))
  }

  lemma {:induction false} PointsMember(s: seq<Interval>, t: int)
    ensures t in Points(s) <==> exists v :: v in s && t in Span(v)
  {
    if s != [] {
      PointsMember(s[1..], t);
      assert forall v :: v in s <==> v == s[0] || v in s[1..];
    }
  }

  lemma {:induction false} PointsConcat(a: seq<Interval>, b: seq<Interval>)
    ensures Points(a + b) == Points(a) + Points(b)
  {
    if a == [] {
      assert a + b == b;
    } else {
      assert (a + b)[0] == a[0] && (a + b)[1..] == a[1..] + b;
      PointsConcat(a[1..], b);
    }
  }

  lemma PointsSnoc(a: seq<Interval>, v: Interval)
    ensures Points(a + [v]) == Points(a) + Span(v)
  {
    PointsConcat(a, [v]);
    assert Points([v]) == Span(v) + Points([]);
  }

  lemma PointsOfPermutation(a: seq<Interval>, b: seq<Interval>)
    requires multiset(a) == multiset(b)
    ensures Points(a) == Points(b)
  {
    assert forall v :: v in a <==> v in multiset(a);
    assert forall v :: v in b <==> v in multiset(b);
    forall t ensures t in Points(a) <==> t in Points(b) {
      PointsMember(a, t);
      PointsMember(b, t);
    }
  }

  /** The first interval starts at the least instant, is solid, and ends at a gap. */
  lemma {:induction false} CanonicalHead(s: seq<Interval>)
    requires Canonical(s) && s != []
    ensures s[0].start in Points(s)
    ensures forall t | t in Points(s) :: s[0].start <= t
    ensures forall t | s[0].start <= t < s[0].end :: t in Points(s)
    ensures s[0].end !in Points(s)
    ensures forall t | t in Points(s[1..]) :: s[0].end < t
  {
    assert forall t | s[0].start <= t < s[0].end :: t in Span(s[0]);
    assert s[0].start in Span(s[0]);
    if |s| > 1 {
      CanonicalHead(s[1..]);
    }
  }

  lemma {:induction false} CanonicalPositive(s: seq<Interval>)
    requires Canonical(s)
    ensures forall i | 0 <= i < |s| :: s[i].start < s[i].end
  {
    if s != [] {
      CanonicalPositive(s[1..]);
      assert forall i | 0 < i < |s| :: s[i] == s[1..][i - 1];
    }
  }

  lemma EmptyCanonical(s: seq<Interval>)
    requires Canonical(s)
    ensures Points(s) == {} <==> s == []
  {
    if s != [] {
      CanonicalHead(s);
    }
  }

  /** A canonical list is determined by the set it covers. */
  lemma {:induction false} CanonicalUnique(a: seq<Interval>, b: seq<Interval>)
    requires Canonical(a) && Canonical(b)
    requires Points(a) == Points(b)
    ensures a == b
    decreases |a|
  {
    EmptyCanonical(a);
    EmptyCanonical(b);
    if a != [] {
      CanonicalHead(a);
      CanonicalHead(b);
      assert a[0].start == b[0].start;
      assert a[0].end == b[0].end;
      assert Points(a[1..]) == Points(a) - Span(a[0]);
      assert Points(b[1..]) == Points(b) - Span(b[0]);
      CanonicalUnique(a[1..], b[1..]);
    }
  }

  lemma CanonicalCons(v: Interval, s: seq<Interval>)
    requires Canonical(s) && v.start < v.end
    requires forall t | t in Points(s) :: v.end < t
    ensures Canonical([v] + s)
    ensures Points([v] + s) == Span(v) + Points(s)
  {
    assert ([v] + s)[1..] == s;
    if s != [] {
      CanonicalHead(s);
      assert v.end < s[0].start;
    }
  }

  /** Adds one interval to a canonical list. */
  ghost function Insert(v: Interval, s: seq<Interval>): (r: seq<Interval>)
    requires Canonical(s)
    ensures Canonical(r)
    ensures Points(r) == Span(v) + Points(s)
    decreases |s|
  {
    if v.end <= v.start then s
    else if s == [] then
      CanonicalCons(v, s);
      [v]
    else if v.end < s[0].start then
      CanonicalHead(s);
      CanonicalCons(v, s);
      [v] + s
    else
      CanonicalHead(s);
      if s[0].end < v.start then
        var rest := Insert(v, s[1..]);
        CanonicalCons(s[0], rest);
        [s[0]] + rest
      else
        var joined := Join(v, s[0]);
        Insert(joined, s[1..])
  }

  /** The hull of two touching intervals. */
  ghost function Join(v: Interval, w: Interval): (r: Interval)
    requires v.start < v.end && w.start < w.end && w.start <= v.end && v.start <= w.end
    ensures Span(r) == Span(v) + Span(w)
  {
    Interval(if v.start < w.start then v.start else w.start,
             if w.end < v.end then v.end else w.end)
  }

  ghost function Pick<T>(s: set<T>): (x: T)
    requires s != {}
    ensures x in s
  {
    var x :| x in s;
    x
  }

  lemma {:induction false} CanonicalExists(s: set<int>) returns (r: seq<Interval>)
    ensures Canonical(r) && Points(r) == s
    decreases s
  {
    if s == {} {
      r := [];
    } else {
      var t := Pick(s);
      var rest := CanonicalExists(s - {t});
      r := Insert(Interval(t, t + 1), rest);
      assert Span(Interval(t, t + 1)) == {t};
    }
  }

  lemma CanonicalExistsFor(s: set<int>)
    ensures exists r :: Canonical(r) && Points(r) == s
  {
    var r := CanonicalExists(s);
  }

  /** The canonical list of a set of instants: its maximal runs in time order. */
  ghost function Runs(s: set<int>): (r: seq<Interval>)
    ensures Canonical(r) && Points(r) == s
  {
    CanonicalExistsFor(s);
    var r :| Canonical(r) && Points(r) == s;
    r
  }

  lemma RunsUnique(r: seq<Interval>)
    requires Canonical(r)
    ensures r == Runs(Points(r))
  {
    CanonicalUnique(r, Runs(Points(r)));
  }

  // ----------------------------------------------------------------- merge

  ghost predicate SortedByStart(s: seq<Interval>) {
    forall i, j | 0 <= i < j < |s| :: s[i].start <= s[j].start
  }

  lemma SpliceSorted(s: seq<Interval>, k: nat, v: Interval)
    requires SortedByStart(s) && k <= |s|
    requires k > 0 ==> s[k - 1].start <= v.start
    requires forall i | k <= i < |s| :: v.start < s[i].start
    ensures SortedByStart(s[..k] + [v] + s[k..])
  {
    var r := s[..k] + [v] + s[k..];
    assert forall i | 0 <= i < k :: r[i] == s[i] && s[i].start <= v.start;
    assert forall i | k < i < |r| :: r[i] == s[i - 1];
  }

  lemma SpliceContents(s: seq<Interval>, k: nat, v: Interval)
    requires k <= |s|
    ensures multiset(s[..k] + [v] + s[k..]) == multiset(s) + multiset{v}
  {
    assert s == s[..k] + s[k..];
  }

  /** The library sort: any arrangement by start; ties may come out in either order. */
  method SortByStart(values: seq<Interval>) returns (sorted: seq<Interval>)
    ensures multiset(sorted) == multiset(values)
    ensures SortedByStart(sorted)
  {
    sorted := [];
    for n := 0 to |values|
      invariant multiset(sorted) == multiset(values[..n])
      invariant SortedByStart(sorted)
    {
      var v := values[n];
      var k := |sorted|;
      while k > 0 && v.start < sorted[k - 1].start
        invariant 0 <= k <= |sorted|
        invariant forall i | k <= i < |sorted| :: v.start < sorted[i].start
      {
        k := k - 1;
      }
      assert values[..n + 1] == values[..n] + [v];
      SpliceSorted(sorted, k, v);
      SpliceContents(sorted, k, v);
      sorted := sorted[..k] + [v] + sorted[k..];
    }
    assert values[..|values|] == values;
  }

  ghost predicate Positive(s: seq<Interval>) {
    forall v | v in s :: v.start < v.end
  }

  lemma {:induction false} CanonicalSnoc(s: seq<Interval>, v: Interval)
    ensures Canonical(s + [v]) <==>
      Canonical(s) && v.start < v.end && (s != [] ==> s[|s| - 1].end < v.start)
  {
    if s != [] {
      assert (s + [v])[1..] == s[1..] + [v];
      CanonicalSnoc(s[1..], v);
    }
  }

  /** Widening the last run up to a touching interval's end covers exactly that interval more. */
  lemma WidenLast(s: seq<Interval>, last: Interval, v: Interval)
    requires Canonical(s + [last])
    requires last.start <= v.start <= last.end < v.end
    ensures Canonical(s + [last.(end := v.end)])
    ensures Points(s + [last.(end := v.end)]) == Points(s + [last]) + Span(v)
  {
    CanonicalSnoc(s, last);
    CanonicalSnoc(s, Join(last, v));
    PointsSnoc(s, last);
    PointsSnoc(s, Join(last, v));
  }

  /** One step of the sweep: a later start either opens a new run or widens the last one. */
  lemma SweepStep(out: seq<Interval>, value: Interval, next: seq<Interval>)
    requires Canonical(out) && value.start < value.end
    requires out != [] ==> out[|out| - 1].start <= value.start
    requires next ==
      if out == [] || value.start > out[|out| - 1].end then out + [value]
      else if value.end > out[|out| - 1].end then out[|out| - 1 := out[|out| - 1].(end := value.end)]
      else out
    ensures Canonical(next) && next != [] && next[|next| - 1].start <= value.start
    ensures Points(next) == Points(out) + Span(value)
  {
    if out == [] || value.start > out[|out| - 1].end {
      CanonicalSnoc(out, value);
      PointsSnoc(out, value);
    } else {
      var init, last := out[..|out| - 1], out[|out| - 1];
      assert out == init + [last];
      if value.end > last.end {
        WidenLast(init, last, value);
        assert next == init + [last.(end := value.end)];
      } else {
        PointsSnoc(init, last);
        assert Span(value) <= Span(last);
      }
    }
  }

  method KeepPositive(values: seq<Interval>) returns (filtered: seq<Interval>)
    ensures Positive(filtered) && Points(filtered) == Points(values)
  {
    filtered := [];
    for i := 0 to |values|
      invariant Positive(filtered)
      invariant Points(filtered) == Points(values[..i])
    {
      var value := values[i];
      assert values[..i + 1] == values[..i] + [value];
      PointsSnoc(values[..i], value);
      if value.end > value.start {
        PointsSnoc(filtered, value);
        filtered := filtered + [value];
      }
    }
    assert values[..|values|] == values;
  }

  /** Sorted union: filters inverted intervals, sorts by start, sweeps once. */
  method MergeIntervals(values: seq<Interval>) returns (out: seq<Interval>)
    ensures out == Runs(Points(values))
  {
    var filtered := KeepPositive(values);
    var sorted := SortByStart(filtered);
    PointsOfPermutation(sorted, filtered);
    forall v | v in sorted ensures v.start < v.end {
      assert v in multiset(sorted);
    }
    out := [];
    for i := 0 to |sorted|
      invariant Canonical(out)
      invariant Points(out) == Points(sorted[..i])
      invariant out != [] ==> i > 0 && out[|out| - 1].start <= sorted[i - 1].start
    {
      var value := sorted[i];
      assert sorted[..i + 1] == sorted[..i] + [value];
      PointsSnoc(sorted[..i], value);
      ghost var before := out;
      if |out| == 0 || value.start > out[|out| - 1].end {
        out := out + [value];
      } else if value.end > out[|out| - 1].end {
        out := out[|out| - 1 := out[|out| - 1].(end := value.end)];
      }
      SweepStep(before, value, out);
    }
    assert sorted[..|sorted|] == sorted;
    RunsUnique(out);
  }

  // ----------------------------------------------- intersection, difference

  /** Pairwise overlap of two collections. */
  method IntersectIntervals(left: seq<Interval>, right: seq<Interval>) returns (merged: seq<Interval>)
    ensures merged == Runs(Points(left) * Points(right))
  {
    var out: seq<Interval> := [];
    for i := 0 to |left|
      invariant Points(out) == Points(left[..i]) * Points(right)
    {
      var a := left[i];
      ghost var before := out;
      for j := 0 to |right|
        invariant Points(out) == Points(before) + Span(a) * Points(right[..j])
      {
        var b := right[j];
        var start := a.start;
        if b.start > start {
          start := b.start;
        }
        var end := a.end;
        if b.end < end {
          end := b.end;
        }
        assert right[..j + 1] == right[..j] + [b];
        PointsSnoc(right[..j], b);
        assert Span(Interval(start, end)) == Span(a) * Span(b);
        if end > start {
          PointsSnoc(out, Interval(start, end));
          out := out + [Interval(start, end)];
        }
      }
      assert right[..|right|] == right;
      assert left[..i + 1] == left[..i] + [a];
      PointsSnoc(left[..i], a);
    }
    assert left[..|left|] == left;
    merged := MergeIntervals(out);
  }

  /** Splits a value around an exclusion that overlaps it. */
  lemma SplitAround(value: Interval, exclusion: Interval)
    requires exclusion.start < exclusion.end
    requires value.start < exclusion.end && exclusion.start < value.end
    ensures Span(value) - Span(exclusion)
         == Span(Interval(value.start, exclusion.start)) + Span(Interval(exclusion.end, value.end))
  {
  }

  method RemoveOne(remaining: seq<Interval>, exclusion: Interval) returns (next: seq<Interval>)
    requires exclusion.start < exclusion.end
    ensures Points(next) == Points(remaining) - Span(exclusion)
  {
    next := [];
    for j := 0 to |remaining|
      invariant Points(next) == Points(remaining[..j]) - Span(exclusion)
    {
      var value := remaining[j];
      assert remaining[..j + 1] == remaining[..j] + [value];
      PointsSnoc(remaining[..j], value);
      if exclusion.end <= value.start || value.end <= exclusion.start {
        PointsSnoc(next, value);
        assert Span(value) !! Span(exclusion);
        next := next + [value];
        continue;
      }
      SplitAround(value, exclusion);
      if exclusion.start > value.start {
        PointsSnoc(next, Interval(value.start, exclusion.start));
        next := next + [Interval(value.start, exclusion.start)];
      }
      if value.end > exclusion.end {
        PointsSnoc(next, Interval(exclusion.end, value.end));
        next := next + [Interval(exclusion.end, value.end)];
      }
    }
    assert remaining[..|remaining|] == remaining;
  }

  /** Removes every exclusion from the values. */
  method SubtractIntervals(values: seq<Interval>, exclusions: seq<Interval>) returns (merged: seq<Interval>)
    ensures merged == Runs(Points(values) - Points(exclusions))
  {
    var remaining := MergeIntervals(values);
    var holes := MergeIntervals(exclusions);
    CanonicalPositive(holes);
    for i := 0 to |holes|
      invariant Points(remaining) == Points(values) - Points(holes[..i])
    {
      assert holes[..i + 1] == holes[..i] + [holes[i]];
      PointsSnoc(holes[..i], holes[i]);
      remaining := RemoveOne(remaining, holes[i]);
    }
    assert holes[..|holes|] == holes;
    merged := MergeIntervals(remaining);
  }

  /** Equal sets of instants merge to equal lists, so merging ignores order, overlap and repetition. */
  lemma MergeIsOrderFree(a: seq<Interval>, b: seq<Interval>)
    ensures Runs(Points(a + b)) == Runs(Points(b + a))
    ensures Runs(Points(Runs(Points(a)))) == Runs(Points(a))
    ensures Runs(Points(a + a)) == Runs(Points(a))
    ensures multiset(a) == multiset(b) ==> Runs(Points(a)) == Runs(Points(b))
  {
    PointsConcat(a, b);
    PointsConcat(b, a);
    PointsConcat(a, a);
    assert Points(a) + Points(b) == Points(b) + Points(a);
    assert Points(a) + Points(a) == Points(a);
    if multiset(a) == multiset(b) {
      PointsOfPermutation(a, b);
    }
  }

  // --------------------------------------------------------------- measure

  ghost function Measure(s: seq<Interval>): int {
    if s == [] then 0 else s[0].end - s[0].start + Measure(s[1..])
  }

  lemma {:induction false} SpanSize(v: Interval)
    requires v.start <= v.end
    ensures |Span(v)| == v.end - v.start
    decreases v.end - v.start
  {
    if v.start == v.end {
      assert Span(v) == {};
    } else {
      var shorter := v.(end := v.end - 1);
      SpanSize(shorter);
      assert Span(v) == Span(shorter) + {v.end - 1};
    }
  }

  /** The summed lengths of a canonical list count its instants. */
  lemma {:induction false} MeasureCountsPoints(s: seq<Interval>)
    requires Canonical(s)
    ensures Measure(s) == |Points(s)|
  {
    if s != [] {
      CanonicalHead(s);
      SpanSize(s[0]);
      MeasureCountsPoints(s[1..]);
      assert Span(s[0]) !! Points(s[1..]);
    }
  }

  /** Nanoseconds to whole minutes, half a minute rounding up. */
  function RoundedMinutes(n: nat): nat {
    (2 * n + MINUTE) / (2 * MINUTE)
  }

  lemma RoundedIsNearest(n: nat)
    ensures 2 * n - MINUTE < 2 * MINUTE * RoundedMinutes(n) <= 2 * n + MINUTE
  {}

  lemma RoundedWhole(n: nat)
    requires n % MINUTE == 0
    ensures RoundedMinutes(n) * MINUTE == n
  {
    RoundedIsNearest(n);
    WholeMultiple(n, RoundedMinutes(n));
  }

  lemma WholeMultiple(n: nat, k: nat)
    requires n % MINUTE == 0
    requires 2 * n - MINUTE < 2 * MINUTE * k <= 2 * n + MINUTE
    ensures k * MINUTE == n
  {
    assert n == MINUTE * (n / MINUTE);
  }

  /** Rounding two parts separately can lose one minute against rounding two larger parts. */
  lemma RoundedSums(a: nat, b: nat, c: nat, d: nat)
    requires a + b <= c + d
    ensures RoundedMinutes(a) + RoundedMinutes(b) <= RoundedMinutes(c) + RoundedMinutes(d) + 1
    ensures a % MINUTE == b % MINUTE == c % MINUTE == d % MINUTE == 0 ==>
      RoundedMinutes(a) + RoundedMinutes(b) <= RoundedMinutes(c) + RoundedMinutes(d)
  {
    RoundedIsNearest(a);
    RoundedIsNearest(b);
    RoundedIsNearest(c);
    RoundedIsNearest(d);
    if a % MINUTE == b % MINUTE == c % MINUTE == d % MINUTE == 0 {
      RoundedWhole(a);
      RoundedWhole(b);
      RoundedWhole(c);
      RoundedWhole(d);
    }
  }

  lemma {:induction false} MeasureSnoc(s: seq<Interval>, v: Interval)
    ensures Measure(s + [v]) == Measure(s) + v.end - v.start
  {
    if s != [] {
      MeasureSnoc(s[1..], v);
      assert (s + [v])[1..] == s[1..] + [v];
    }
  }

  /** Rounded length of a union, overlaps counted once. */
  method IntervalMinutes(values: seq<Interval>) returns (minutes: int)
    ensures minutes == RoundedMinutes(|Points(values)|)
  {
    var merged := MergeIntervals(values);
    var total := 0;
    for i := 0 to |merged|
      invariant total == Measure(merged[..i])
    {
      assert merged[..i + 1] == merged[..i] + [merged[i]];
      MeasureSnoc(merged[..i], merged[i]);
      total := total + (merged[i].end - merged[i].start);
    }
    assert merged[..|merged|] == merged;
    MeasureCountsPoints(merged);
    minutes := (2 * total + MINUTE) / (2 * MINUTE);
  }

  // --------------------------------------------------------------- capping

  /** Spends whole minutes on the intervals in order and cuts the one they run out in. */
  function Capped(s: seq<Interval>, remaining: int): seq<Interval> {
    if s == [] || remaining <= 0 then []
    else
      var whole := (s[0].end - s[0].start) / MINUTE;
      if whole <= remaining then [s[0]] + Capped(s[1..], remaining - whole)
      else [Interval(s[0].start, s[0].start + remaining * MINUTE)]
  }

  method CapIntervals(values: seq<Interval>, minutes: int) returns (out: seq<Interval>)
    ensures out == Capped(Runs(Points(values)), minutes)
  {
    out := [];
    if minutes <= 0 {
      return;
    }
    var remaining := minutes;
    var merged := MergeIntervals(values);
    var i := 0;
    while i < |merged|
      invariant 0 <= i <= |merged|
      invariant out + Capped(merged[i..], remaining) == Capped(merged, minutes)
    {
      var value := merged[i];
      assert merged[i..][0] == value && merged[i..][1..] == merged[i + 1..];
      if remaining <= 0 {
        return;
      }
      var valueMinutes := (value.end - value.start) / MINUTE;
      if valueMinutes <= remaining {
        out := out + [value];
        remaining := remaining - valueMinutes;
      } else {
        out := out + [Interval(value.start, value.start + remaining * MINUTE)];
        remaining := 0;
      }
      i := i + 1;
    }
  }

  /** Every instant kept is earlier than every instant dropped. */
  ghost predicate TimePrefix(kept: set<int>, whole: set<int>) {
    kept <= whole && forall t, u | t in kept && u in whole - kept :: t < u
  }

  lemma {:induction false} CappedIsTimePrefix(s: seq<Interval>, minutes: int)
    requires Canonical(s)
    ensures Canonical(Capped(s, minutes))
    ensures TimePrefix(Points(Capped(s, minutes)), Points(s))
    ensures Capped(s, minutes) != [] ==> Capped(s, minutes)[0].start == s[0].start
  {
    if s != [] && minutes > 0 {
      CanonicalHead(s);
      var whole := (s[0].end - s[0].start) / MINUTE;
      if whole <= minutes {
        CappedIsTimePrefix(s[1..], minutes - whole);
        var tail := Capped(s[1..], minutes - whole);
        assert Capped(s, minutes)[1..] == tail;
        forall t, u | t in Points(Capped(s, minutes)) && u in Points(s) - Points(Capped(s, minutes)) ensures t < u {
          assert u in Points(s[1..]) - Points(tail);
          assert t in Span(s[0]) || t in Points(tail);
        }
      } else {
        var cut := Interval(s[0].start, s[0].start + minutes * MINUTE);
        assert Points([cut]) == Span(cut) + Points([]);
        assert Span(cut) <= Span(s[0]);
      }
    }
  }

  ghost predicate WholeMinutes(s: seq<Interval>) {
    forall v | v in s :: (v.end - v.start) % MINUTE == 0
  }

  function Min(a: int, b: int): int {
    if a < b then a else b
  }

  /** The seconds the cap lets through: of every interval its minutes reach the end of, what is left
      after the full minutes. */
  function Spill(s: seq<Interval>, minutes: int): int {
    if s == [] || minutes <= 0 then 0
    else
      var length := s[0].end - s[0].start;
      if length / MINUTE <= minutes then length % MINUTE + Spill(s[1..], minutes - length / MINUTE) else 0
  }

  lemma {:induction false} SpillIsNotNegative(s: seq<Interval>, minutes: int)
    ensures Spill(s, minutes) >= 0
  {
    if s != [] && minutes > 0 {
      SpillIsNotNegative(s[1..], minutes - (s[0].end - s[0].start) / MINUTE);
    }
  }

  lemma KeepWhole(length: nat, minutes: nat, rest: int, spill: int, kept: int)
    requires length / MINUTE <= minutes
    requires kept == Min(rest, (minutes - length / MINUTE) * MINUTE + spill)
    ensures length + kept == Min(length + rest, minutes * MINUTE + (length % MINUTE + spill))
  {
    assert length == (length / MINUTE) * MINUTE + length % MINUTE;
  }

  lemma MeasureOfRest(s: seq<Interval>)
    requires Canonical(s)
    ensures Measure(s) >= 0
    ensures s != [] ==> s[0].start < s[0].end && Canonical(s[1..]) && Measure(s[1..]) >= 0
  {
    MeasureCountsPoints(s);
    if s != [] {
      MeasureCountsPoints(s[1..]);
    }
  }

  lemma MeasureCons(v: Interval, s: seq<Interval>)
    ensures Measure([v] + s) == (v.end - v.start) + Measure(s)
  {
    assert ([v] + s)[1..] == s;
  }

  /** What a cap keeps, exactly: its minutes and the seconds it lets through, or everything if that is
      less. */
  lemma {:induction false} CappedExactly(s: seq<Interval>, minutes: nat)
    requires Canonical(s)
    ensures Measure(Capped(s, minutes)) == Min(Measure(s), minutes * MINUTE + Spill(s, minutes))
  {
    MeasureOfRest(s);
    if s != [] && minutes > 0 {
      var length := s[0].end - s[0].start;
      var whole := length / MINUTE;
      if whole <= minutes {
        var tail := Capped(s[1..], minutes - whole);
        CappedExactly(s[1..], minutes - whole);
        MeasureCons(s[0], tail);
        KeepWhole(length, minutes, Measure(s[1..]), Spill(s[1..], minutes - whole), Measure(tail));
      } else {
        assert Measure(Capped(s, minutes)) == minutes * MINUTE < length;
      }
    }
  }

  /** So a cap keeps no more than its minutes exactly if there is no more, or it lets no seconds
      through. */
  lemma CapHolds(s: seq<Interval>, minutes: nat)
    requires Canonical(s)
    ensures Measure(Capped(s, minutes)) <= minutes * MINUTE <==>
              Measure(s) <= minutes * MINUTE || Spill(s, minutes) == 0
  {
    SpillIsNotNegative(s, minutes);
    CappedExactly(s, minutes);
  }

  /** On whole-minute input a cap keeps exactly the smaller of its minutes and everything. */
  lemma {:induction false} CappedMeasureAligned(s: seq<Interval>, minutes: nat)
    requires Canonical(s) && WholeMinutes(s)
    ensures Measure(Capped(s, minutes)) == if minutes * MINUTE <= Measure(s) then minutes * MINUTE else Measure(s)
  {
    if s != [] {
      MeasureCountsPoints(s[1..]);
      if minutes > 0 {
        var whole := (s[0].end - s[0].start) / MINUTE;
        if whole <= minutes {
          CappedMeasureAligned(s[1..], minutes - whole);
          assert Capped(s, minutes)[1..] == Capped(s[1..], minutes - whole);
        }
      }
    }
  }

  /** Two stretches of a minute and a half under a two-minute cap: three minutes are kept. */
  lemma CapOvershoots()
    ensures var s := [Interval(0, 90_000_000_000), Interval(120_000_000_000, 210_000_000_000)];
      Canonical(s) && Capped(s, 2) == s && Measure(Capped(s, 2)) == 3 * MINUTE
  {
    var s := [Interval(0, 90_000_000_000), Interval(120_000_000_000, 210_000_000_000)];
    assert s[1..] == [Interval(120_000_000_000, 210_000_000_000)];
    assert Capped(s[1..], 1) == [s[1]] + Capped([], 0);
    assert Measure(s[1..]) == 90_000_000_000;
  }

  lemma CappedPoints(runs: seq<Interval>, minutes: nat)
    requires Canonical(runs)
    ensures |Points(Capped(runs, minutes))| == Min(|Points(runs)|, minutes * MINUTE + Spill(runs, minutes))
  {
    MeasureCountsPoints(runs);
    CappedIsTimePrefix(runs, minutes);
    MeasureCountsPoints(Capped(runs, minutes));
    CappedExactly(runs, minutes);
  }

  /** A capped set: how much of it is kept, whatever the alignment. */
  lemma CappedSizeExact(s: set<int>, minutes: nat)
    ensures |Points(Capped(Runs(s), minutes))| == Min(|s|, minutes * MINUTE + Spill(Runs(s), minutes))
    ensures Spill(Runs(s), minutes) >= 0
  {
    CappedPoints(Runs(s), minutes);
    SpillIsNotNegative(Runs(s), minutes);
  }

  /** A capped whole-minute set keeps the smaller of the cap and everything. */
  lemma CappedSizeAligned(s: set<int>, minutes: nat)
    requires Cellwise(s)
    ensures |Points(Capped(Runs(s), minutes))| == if minutes * MINUTE <= |s| then minutes * MINUTE else |s|
  {
    CellwiseRuns(Runs(s));
    MeasureCountsPoints(Runs(s));
    CappedIsTimePrefix(Runs(s), minutes);
    MeasureCountsPoints(Capped(Runs(s), minutes));
    CappedMeasureAligned(Runs(s), minutes);
  }

  // ------------------------------------------------------ whole-minute sets

  /** A set made of whole clock minutes. */
  ghost predicate Cellwise(s: set<int>) {
    forall t, u | t in s && SameMinute(t, u) :: u in s
  }

  predicate SameMinute(t: int, u: int) {
    t / MINUTE == u / MINUTE
  }

  lemma ShiftedMinute(t: int, minutes: int)
    requires t % MINUTE == 0
    ensures (t + minutes * MINUTE) % MINUTE == 0
  {
    assert t + minutes * MINUTE == (t / MINUTE + minutes) * MINUTE;
  }

  lemma CellwiseSpan(v: Interval)
    requires v.start % MINUTE == 0 && v.end % MINUTE == 0
    ensures Cellwise(Span(v))
  {
    forall t, u | t in Span(v) && SameMinute(t, u) ensures u in Span(v) {
      assert u % MINUTE == u - MINUTE * (t / MINUTE);
    }
  }

  /** A canonical list of whole clock minutes starts and ends every run on a minute. */
  lemma {:induction false} CellwiseRuns(s: seq<Interval>)
    requires Canonical(s) && Cellwise(Points(s))
    ensures forall v | v in s :: v.start % MINUTE == 0 && v.end % MINUTE == 0
    ensures WholeMinutes(s)
  {
    if s != [] {
      CanonicalHead(s);
      assert SameMinute(s[0].start, s[0].start - s[0].start % MINUTE);
      assert s[0].start % MINUTE == 0;
      assert s[0].end - 1 in Points(s);
      assert !SameMinute(s[0].end - 1, s[0].end);
      assert s[0].end % MINUTE == 0;
      CellwiseSpan(s[0]);
      assert Points(s[1..]) == Points(s) - Span(s[0]);
      forall t, u | t in Points(s[1..]) && SameMinute(t, u) ensures u in Points(s[1..]) {
        assert SameMinute(u, t);
      }
      CellwiseRuns(s[1..]);
    }
  }

  lemma {:induction false} CappedCellwise(s: seq<Interval>, minutes: int)
    requires forall v | v in s :: v.start % MINUTE == 0 && v.end % MINUTE == 0
    ensures Cellwise(Points(Capped(s, minutes)))
  {
    if s != [] && minutes > 0 {
      var whole := (s[0].end - s[0].start) / MINUTE;
      if whole <= minutes {
        CappedCellwise(s[1..], minutes - whole);
        CellwiseSpan(s[0]);
        assert Capped(s, minutes)[1..] == Capped(s[1..], minutes - whole);
      } else {
        var cut := Interval(s[0].start, s[0].start + minutes * MINUTE);
        ShiftedMinute(s[0].start, minutes);
        CellwiseSpan(cut);
        assert Points([cut]) == Span(cut) + Points([]);
      }
    }
  }

  lemma CellwiseSize(s: set<int>)
    requires Cellwise(s)
    ensures |s| % MINUTE == 0
  {
    CellwiseRuns(Runs(s));
    MeasureCountsPoints(Runs(s));
    WholeMeasure(Runs(s));
  }

  lemma {:induction false} WholeMeasure(s: seq<Interval>)
    requires WholeMinutes(s)
    ensures Measure(s) % MINUTE == 0
  {
    if s != [] {
      WholeMeasure(s[1..]);
    }
  }
}
