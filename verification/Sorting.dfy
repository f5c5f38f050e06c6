/** The library's stable sort, as a function of the list and the comparison. */
module Sorting {

  /** A comparison whose ties form classes: not-after is total and transitive. */
  ghost predicate WeakOrder<T(!new)>(before: (T, T) -> bool) {
    && (forall x, y :: before(x, y) ==> !before(y, x))
    && (forall x, y, z :: !before(y, x) && !before(z, y) ==> !before(z, x))
  }

  /** Places an element after everything it is not before. */
  function Place<T>(before: (T, T) -> bool, s: seq<T>, x: T): seq<T> {
    if s == [] || !before(x, s[|s| - 1]) then s + [x]
    else Place(before, s[..|s| - 1], x) + [s[|s| - 1]]
  }

  function StableSort<T>(before: (T, T) -> bool, s: seq<T>): seq<T> {
    if s == [] then [] else Place(before, StableSort(before, s[..|s| - 1]), s[|s| - 1])
  }

  ghost predicate Sorted<T>(before: (T, T) -> bool, s: seq<T>) {
    forall i, j | 0 <= i < j < |s| :: !before(s[j], s[i])
  }

  lemma {:induction false} PlaceContents<T>(before: (T, T) -> bool, s: seq<T>, x: T)
    ensures multiset(Place(before, s, x)) == multiset(s) + multiset{x}
  {
    if !(s == [] || !before(x, s[|s| - 1])) {
      PlaceContents(before, s[..|s| - 1], x);
      assert s == s[..|s| - 1] + [s[|s| - 1]];
    }
  }

  lemma {:induction false} SortContents<T>(before: (T, T) -> bool, s: seq<T>)
    ensures multiset(StableSort(before, s)) == multiset(s)
    ensures |StableSort(before, s)| == |s|
    ensures forall x :: x in StableSort(before, s) <==> x in s
  {
    if s != [] {
      SortContents(before, s[..|s| - 1]);
      PlaceContents(before, StableSort(before, s[..|s| - 1]), s[|s| - 1]);
      assert s == s[..|s| - 1] + [s[|s| - 1]];
    }
    assert |multiset(StableSort(before, s))| == |multiset(s)|;
    assert forall x :: x in StableSort(before, s) <==> x in multiset(StableSort(before, s));
    assert forall x :: x in s <==> x in multiset(s);
  }

  lemma {:induction false} PlaceSorted<T(!new)>(before: (T, T) -> bool, s: seq<T>, x: T)
    requires WeakOrder(before) && Sorted(before, s)
    ensures Sorted(before, Place(before, s, x))
  {
    if !(s == [] || !before(x, s[|s| - 1])) {
      var init, last := s[..|s| - 1], s[|s| - 1];
      PlaceSorted(before, init, x);
      PlaceContents(before, init, x);
      var placed := Place(before, init, x);
      forall i | 0 <= i < |placed| ensures !before(last, placed[i]) {
        assert placed[i] in multiset(placed);
        assert placed[i] in init || placed[i] == x;
      }
    }
  }

  lemma {:induction false} SortSorted<T(!new)>(before: (T, T) -> bool, s: seq<T>)
    requires WeakOrder(before)
    ensures Sorted(before, StableSort(before, s))
  {
    if s != [] {
      SortSorted(before, s[..|s| - 1]);
      PlaceSorted(before, StableSort(before, s[..|s| - 1]), s[|s| - 1]);
    }
  }

  /** Ties only between equal elements. */
  ghost predicate NoTies<T(!new)>(before: (T, T) -> bool, s: seq<T>) {
    forall x, y {:trigger before(x, y)} | x in s && y in s && !before(x, y) && !before(y, x) :: x == y
  }

  lemma SameContents<T>(a: seq<T>, b: seq<T>)
    requires multiset(a) == multiset(b)
    ensures |a| == |b| && forall x :: x in a <==> x in b
  {
    assert |multiset(a)| == |a| && |multiset(b)| == |b|;
    assert forall x :: (x in a <==> x in multiset(a)) && (x in b <==> x in multiset(b));
  }

  lemma DropLast<T>(a: seq<T>, b: seq<T>)
    requires multiset(a) == multiset(b) && a != [] && b != [] && a[|a| - 1] == b[|b| - 1]
    ensures multiset(a[..|a| - 1]) == multiset(b[..|b| - 1])
  {
    assert a == a[..|a| - 1] + [a[|a| - 1]] && b == b[..|b| - 1] + [b[|b| - 1]];
    assert multiset(a[..|a| - 1]) == multiset(a) - multiset{a[|a| - 1]};
    assert multiset(b[..|b| - 1]) == multiset(b) - multiset{a[|a| - 1]};
  }

  lemma LastSame<T(!new)>(before: (T, T) -> bool, a: seq<T>, b: seq<T>)
    requires a != [] && Sorted(before, a) && Sorted(before, b) && NoTies(before, a)
    requires |a| == |b| && forall x :: x in a <==> x in b
    ensures a[|a| - 1] == b[|b| - 1]
  {
    var x, y := a[|a| - 1], b[|b| - 1];
    assert x in b && y in a;
    var i :| 0 <= i < |b| && b[i] == x;
    var j :| 0 <= j < |a| && a[j] == y;
    assert i == |b| - 1 || !before(y, x);
    assert j == |a| - 1 || !before(x, y);
  }

  /** Without ties, sorted lists with the same contents are equal. */
  lemma {:induction false} SortedUnique<T(!new)>(before: (T, T) -> bool, a: seq<T>, b: seq<T>)
    requires Sorted(before, a) && Sorted(before, b) && NoTies(before, a)
    requires multiset(a) == multiset(b)
    ensures a == b
  {
    SameContents(a, b);
    if a != [] {
      LastSame(before, a, b);
      DropLast(a, b);
      SortedUnique(before, a[..|a| - 1], b[..|b| - 1]);
      assert a == a[..|a| - 1] + [a[|a| - 1]];
    }
  }
}
