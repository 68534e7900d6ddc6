/** `sorted(items, key=...)`, by the order of the keys: stable, ascending, a permutation. */
module Sorting {

  /** Any two items compare, and consistently. */
  ghost predicate IsOrder<T(!new)>(le: (T, T) -> bool) {
    && (forall a, b :: le(a, b) || le(b, a))
    && (forall a, b, c :: le(a, b) && le(b, c) ==> le(a, c))
  }

  predicate Ascending<T>(le: (T, T) -> bool, s: seq<T>) {
    forall i, j :: 0 <= i < j < |s| ==> le(s[i], s[j])
  }

  /** `x` goes before the first element that is not smaller, so equal ones keep their order. */
  function Insert<T>(le: (T, T) -> bool, x: T, s: seq<T>): (r: seq<T>)
    ensures |r| == |s| + 1
  {
    if s == [] then [x]
    else if le(x, s[0]) then [x] + s
    else [s[0]] + Insert(le, x, s[1..])
  }

  function Sorted<T>(le: (T, T) -> bool, items: seq<T>): (r: seq<T>)
    ensures |r| == |items|
  {
    if items == [] then [] else Insert(le, items[0], Sorted(le, items[1..]))
  }

  /** The items that compare as equal to `x`, in their order. */
  function Ties<T>(le: (T, T) -> bool, x: T, s: seq<T>): seq<T> {
    if s == [] then []
    else (if le(x, s[0]) && le(s[0], x) then [s[0]] else []) + Ties(le, x, s[1..])
  }

  lemma TiesCons<T>(le: (T, T) -> bool, x: T, y: T, s: seq<T>)
    ensures Ties(le, x, [y] + s) == (if le(x, y) && le(y, x) then [y] else []) + Ties(le, x, s)
  {
  }

  lemma {:induction false} InsertTies<T(!new)>(le: (T, T) -> bool, y: T, s: seq<T>, x: T)
    requires IsOrder(le)
    ensures Ties(le, x, Insert(le, y, s)) == Ties(le, x, [y] + s)
  {
    if s != [] && !le(y, s[0]) {
      InsertTies(le, y, s[1..], x);
      NotBothTie(le, x, y, s[0]);
      hide Ties, IsOrder;
      TiesCons(le, x, s[0], Insert(le, y, s[1..]));
      TiesCons(le, x, y, s);
      TiesCons(le, x, y, s[1..]);
      TiesCons(le, x, s[0], s[1..]);
      assert s == [s[0]] + s[1..];
    }
  }

  lemma NotBothTie<T(!new)>(le: (T, T) -> bool, x: T, y: T, z: T)
    requires IsOrder(le) && !le(y, z)
    ensures !(le(x, y) && le(y, x) && le(x, z) && le(z, x))
  {
  }

  /** Sorting is stable: items that compare as equal stay in the order they came in. */
  lemma {:induction false} SortedIsStable<T(!new)>(le: (T, T) -> bool, items: seq<T>, x: T)
    requires IsOrder(le)
    ensures Ties(le, x, Sorted(le, items)) == Ties(le, x, items)
  {
    hide Insert, Ties, IsOrder;
    if items != [] {
      SortedIsStable(le, items[1..], x);
      InsertTies(le, items[0], Sorted(le, items[1..]), x);
      TiesCons(le, x, items[0], items[1..]);
      TiesCons(le, x, items[0], Sorted(le, items[1..]));
      assert items == [items[0]] + items[1..];
    }
  }

  lemma {:induction false} InsertPermutes<T>(le: (T, T) -> bool, x: T, s: seq<T>)
    ensures multiset(Insert(le, x, s)) == multiset{x} + multiset(s)
  {
    if s != [] {
      assert s == [s[0]] + s[1..];
      InsertPermutes(le, x, s[1..]);
    }
  }

  lemma {:induction false} SortedPermutes<T>(le: (T, T) -> bool, items: seq<T>)
    ensures multiset(Sorted(le, items)) == multiset(items)
  {
    hide Insert;
    if items != [] {
      assert items == [items[0]] + items[1..];
      SortedPermutes(le, items[1..]);
      InsertPermutes(le, items[0], Sorted(le, items[1..]));
    }
  }

  lemma SortedMembers<T>(le: (T, T) -> bool, items: seq<T>, x: T)
    ensures x in Sorted(le, items) <==> x in items
  {
    SortedPermutes(le, items);
    assert x in multiset(Sorted(le, items)) <==> x in multiset(items);
  }

  lemma InsertMembers<T>(le: (T, T) -> bool, x: T, s: seq<T>, y: T)
    requires y in Insert(le, x, s)
    ensures y == x || y in s
  {
    InsertPermutes(le, x, s);
    assert y in multiset(Insert(le, x, s));
  }

  /** A list that begins with an element below all of a sorted rest is sorted. */
  lemma AscendsFromLeast<T>(le: (T, T) -> bool, first: T, rest: seq<T>)
    requires Ascending(le, rest) && forall y :: y in rest ==> le(first, y)
    ensures Ascending(le, [first] + rest)
  {
    var s := [first] + rest;
    forall i, j | 0 <= i < j < |s| ensures le(s[i], s[j]) {
      assert s[j] == rest[j - 1];
    }
  }

  lemma {:induction false} InsertAscends<T(!new)>(le: (T, T) -> bool, x: T, s: seq<T>)
    requires IsOrder(le) && Ascending(le, s)
    ensures Ascending(le, Insert(le, x, s))
  {
    if s == [] {
    } else if le(x, s[0]) {
      forall y | y in s ensures le(x, y) {
        var i :| 0 <= i < |s| && s[i] == y;
        assert i > 0 ==> le(s[0], s[i]);
      }
      AscendsFromLeast(le, x, s);
    } else {
      InsertAscends(le, x, s[1..]);
      forall y | y in Insert(le, x, s[1..]) ensures le(s[0], y) {
        InsertMembers(le, x, s[1..], y);
      }
      AscendsFromLeast(le, s[0], Insert(le, x, s[1..]));
    }
  }

  lemma {:induction false} SortedAscends<T(!new)>(le: (T, T) -> bool, items: seq<T>)
    requires IsOrder(le)
    ensures Ascending(le, Sorted(le, items))
  {
    if items != [] {
      SortedAscends(le, items[1..]);
      InsertAscends(le, items[0], Sorted(le, items[1..]));
    }
  }
}
