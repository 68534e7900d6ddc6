/** Holm's step-down adjustment, proved to be the closure of Bonferroni's test. */
module Holm {
  import opened Sorting

  /** One entry of the p-value dict; the dict itself is its entries in insertion order. */
  datatype Item = Item(key: string, p: real)

  predicate NoLarger(a: Item, b: Item) {
    a.p <= b.p
  }

  ghost predicate DistinctKeys(items: seq<Item>) {
    forall i, j :: 0 <= i < j < |items| ==> items[i].key != items[j].key
  }

  function Ranked(items: seq<Item>): (r: seq<Item>)
    ensures |r| == |items|
  {
    Sorted(NoLarger, items)
  }

  function Times(n: int, p: real): real {
    n as real * p
  }

  /** `min(1.0, (m - i) * p)` at rank `i`. */
  function StepValue(ranked: seq<Item>, i: nat): real
    requires i < |ranked|
  {
    var scaled := Times(|ranked| - i, ranked[i].p);
    if scaled < 1.0 then scaled else 1.0
  }

  /** The running maximum after the first `n` ranks. */
  function Running(ranked: seq<Item>, n: nat): (r: real)
    requires n <= |ranked|
    ensures 0.0 <= r <= 1.0
  {
    if n == 0 then 0.0
    else
      var before, step := Running(ranked, n - 1), StepValue(ranked, n - 1);
      if before < step then step else before
  }

  /** The adjusted p-value of the item at rank `i`. */
  function Adjusted(ranked: seq<Item>, i: nat): real
    requires i < |ranked|
  {
    Running(ranked, i + 1)
  }

  /** Bonferroni rejects the intersection of the hypotheses in `s` at level `alpha`. */
  ghost predicate BonferroniRejects(s: set<Item>, alpha: real) {
    exists item :: item in s && Times(|s|, item.p) <= alpha
  }

  /** Every subset of the family that contains `item` is rejected. */
  ghost predicate ClosedTestRejects(items: seq<Item>, item: Item, alpha: real) {
    forall s: set<Item> :: item in s && (forall x :: x in s ==> x in items) ==> BonferroniRejects(s, alpha)
  }

  // ----- the adjusted value against a level -----

  lemma {:induction false} RunningAtMost(ranked: seq<Item>, n: nat, alpha: real)
    requires n <= |ranked| && 0.0 <= alpha < 1.0
    ensures Running(ranked, n) <= alpha
            <==> forall j :: 0 <= j < n ==> Times(|ranked| - j, ranked[j].p) <= alpha
  {
    if n > 0 {
      RunningAtMost(ranked, n - 1, alpha);
    }
  }

  function AsSet(items: seq<Item>): set<Item> {
    if items == [] then {} else {items[0]} + AsSet(items[1..])
  }

  ghost predicate NoRepeats(items: seq<Item>) {
    forall i, j :: 0 <= i < j < |items| ==> items[i] != items[j]
  }

  lemma NoRepeatsTail(items: seq<Item>)
    requires items != [] && NoRepeats(items)
    ensures NoRepeats(items[1..]) && items[0] !in items[1..]
  {
  }

  lemma {:induction false} AsSetMembers(items: seq<Item>, x: Item)
    ensures x in AsSet(items) <==> x in items
  {
    if items != [] {
      AsSetMembers(items[1..], x);
    }
  }

  lemma {:induction false} AsSetSize(items: seq<Item>)
    requires NoRepeats(items)
    ensures |AsSet(items)| == |items|
  {
    if items != [] {
      NoRepeatsTail(items);
      AsSetSize(items[1..]);
      AsSetMembers(items[1..], items[0]);
    }
  }

  lemma AsSetFacts(items: seq<Item>)
    requires NoRepeats(items)
    ensures forall x :: x in AsSet(items) <==> x in items
    ensures |AsSet(items)| == |items|
  {
    hide NoRepeats;
    AsSetSize(items);
    forall x ensures x in AsSet(items) <==> x in items {
      AsSetMembers(items, x);
    }
  }

  lemma MoreTimes(a: int, b: int, p: real)
    requires a <= b
    ensures p >= 0.0 ==> Times(a, p) <= Times(b, p)
    ensures p <= 0.0 && a >= 0 ==> Times(a, p) <= 0.0
  {
  }

  lemma TailSet(ranked: seq<Item>, j: nat)
    requires j <= |ranked| && NoRepeats(ranked)
    ensures |AsSet(ranked[j..])| == |ranked| - j
    ensures forall x :: x in AsSet(ranked[j..]) <==> exists i :: j <= i < |ranked| && ranked[i] == x
  {
    var tail := ranked[j..];
    assert NoRepeats(tail);
    AsSetFacts(tail);
    forall i | j <= i < |ranked| ensures ranked[i] in tail {
      assert tail[i - j] == ranked[i];
    }
  }

  lemma RejectingRank(ranked: seq<Item>, j: nat, s: set<Item>, alpha: real) returns (i: nat)
    requires forall x :: x in s <==> exists r :: j <= r < |ranked| && ranked[r] == x
    requires BonferroniRejects(s, alpha)
    ensures j <= i < |ranked| && Times(|s|, ranked[i].p) <= alpha
  {
    var item :| item in s && Times(|s|, item.p) <= alpha;
    i :| j <= i < |ranked| && ranked[i] == item;
  }

  /** The subset from rank `j` on is rejected only through its own smallest p-value. */
  lemma TailNeedsItsFirst(ranked: seq<Item>, j: nat, alpha: real)
    requires j < |ranked| && Ascending(NoLarger, ranked) && NoRepeats(ranked)
    requires BonferroniRejects(AsSet(ranked[j..]), alpha)
    ensures Times(|ranked| - j, ranked[j].p) <= alpha
  {
    hide Ascending, AsSet, NoRepeats, BonferroniRejects, Times;
    TailSet(ranked, j);
    var i := RejectingRank(ranked, j, AsSet(ranked[j..]), alpha);
    LeastFrom(ranked, j, i);
    ScaleUp(|ranked| - j, ranked[j].p, ranked[i].p);
  }

  lemma LeastFrom(ranked: seq<Item>, j: nat, i: nat)
    requires j <= i < |ranked| && Ascending(NoLarger, ranked)
    ensures ranked[j].p <= ranked[i].p
  {
    assert j < i ==> NoLarger(ranked[j], ranked[i]);
  }

  lemma ScaleUp(m: int, p: real, q: real)
    requires m >= 0 && p <= q
    ensures Times(m, p) <= Times(m, q)
  {
  }

  /** The closed test looks at that subset too. */
  lemma TailRejected(items: seq<Item>, ranked: seq<Item>, i: nat, j: nat, alpha: real)
    requires j <= i < |ranked| && NoRepeats(ranked) && forall x :: x in ranked <==> x in items
    requires ClosedTestRejects(items, ranked[i], alpha)
    ensures BonferroniRejects(AsSet(ranked[j..]), alpha)
  {
    hide BonferroniRejects, NoRepeats, AsSet;
    TailSet(ranked, j);
    assert forall x :: x in AsSet(ranked[j..]) ==> x in ranked;
  }

  /** A subset is rejected through its smallest-ranked member once the ranks up to it pass. */
  lemma SubsetRejected(ranked: seq<Item>, i: nat, s: set<Item>, alpha: real)
    requires i < |ranked| && NoRepeats(ranked) && alpha >= 0.0
    requires forall j :: 0 <= j <= i ==> Times(|ranked| - j, ranked[j].p) <= alpha
    requires ranked[i] in s && forall x :: x in s ==> x in ranked
    ensures BonferroniRejects(s, alpha)
  {
    var j := FirstRankIn(ranked, i, s);
    FitsInTail(ranked, j, s);
    MoreTimes(|s|, |ranked| - j, ranked[j].p);
  }

  lemma FitsInTail(ranked: seq<Item>, j: nat, s: set<Item>)
    requires j <= |ranked| && NoRepeats(ranked)
    requires forall x :: x in s ==> x in ranked
    requires forall r :: 0 <= r < j ==> ranked[r] !in s
    ensures |s| <= |ranked| - j
  {
    TailSet(ranked, j);
    SubsetSize(s, AsSet(ranked[j..]));
  }

  lemma FirstRankIn(ranked: seq<Item>, i: nat, s: set<Item>) returns (j: nat)
    requires i < |ranked| && ranked[i] in s
    ensures j <= i && ranked[j] in s && forall r :: 0 <= r < j ==> ranked[r] !in s
  {
    j := 0;
    while ranked[j] !in s
      invariant j <= i && forall r :: 0 <= r < j ==> ranked[r] !in s
      decreases i - j
    {
      j := j + 1;
    }
  }

  lemma {:induction false} SubsetSize(a: set<Item>, b: set<Item>)
    requires a <= b
    ensures |a| <= |b|
  {
    assert b == a + (b - a);
    assert |a + (b - a)| == |a| + |b - a|;
  }

  function Keys(items: seq<Item>): set<string> {
    set item | item in items :: item.key
  }

  lemma RankedFacts(items: seq<Item>)
    requires DistinctKeys(items)
    ensures var ranked := Ranked(items);
            && Ascending(NoLarger, ranked) && NoRepeats(ranked) && DistinctKeys(ranked)
            && (forall x :: x in ranked <==> x in items)
            && Keys(ranked) == Keys(items)
  {
    var ranked := Ranked(items);
    SortedAscends(NoLarger, items);
    SortedPermutes(NoLarger, items);
    forall x ensures x in ranked <==> x in items {
      SortedMembers(NoLarger, items, x);
    }
    forall i, j | 0 <= i < j < |ranked| ensures ranked[i].key != ranked[j].key {
      if ranked[i] == ranked[j] {
        TwiceInMultiset(ranked, i, j);
        OnceInMultiset(items, ranked[i]);
      } else {
        assert ranked[i] in items && ranked[j] in items;
      }
    }
  }

  lemma TwiceInMultiset(s: seq<Item>, i: nat, j: nat)
    requires i < j < |s| && s[i] == s[j]
    ensures multiset(s)[s[i]] >= 2
  {
    assert s == s[..j] + s[j..] && s[i] in s[..j] && s[i] in s[j..];
  }

  lemma {:induction false} OnceInMultiset(s: seq<Item>, x: Item)
    requires DistinctKeys(s)
    ensures multiset(s)[x] <= 1
  {
    if s != [] {
      assert s == [s[0]] + s[1..];
      OnceInMultiset(s[1..], x);
      assert x == s[0] ==> x !in s[1..];
    }
  }

  /**
    Holm is the closed test: the adjusted value of a hypothesis is at most `alpha`
    exactly when Bonferroni rejects every subset of the family containing it.
   */
  lemma HolmIsClosedBonferroni(items: seq<Item>, i: nat, alpha: real)
    requires DistinctKeys(items) && i < |items| && 0.0 <= alpha < 1.0
    ensures Adjusted(Ranked(items), i) <= alpha <==> ClosedTestRejects(items, Ranked(items)[i], alpha)
  {
    hide Ranked, Times, Running, Ascending, NoRepeats, DistinctKeys, BonferroniRejects, Keys;
    var ranked := Ranked(items);
    RankedFacts(items);
    RunningAtMost(ranked, i + 1, alpha);
    if ClosedTestRejects(items, ranked[i], alpha) {
      forall j | 0 <= j < i + 1 ensures Times(|ranked| - j, ranked[j].p) <= alpha {
        TailRejected(items, ranked, i, j, alpha);
        TailNeedsItsFirst(ranked, j, alpha);
      }
    }
    if Adjusted(ranked, i) <= alpha {
      forall s: set<Item> | ranked[i] in s && (forall x :: x in s ==> x in items) ensures BonferroniRejects(s, alpha) {
        SubsetRejected(ranked, i, s, alpha);
      }
    }
  }

  // ----- shape of the adjusted values -----

  lemma {:induction false} RunningMonotone(ranked: seq<Item>, a: nat, b: nat)
    requires a <= b <= |ranked|
    ensures Running(ranked, a) <= Running(ranked, b)
  {
    if a < b {
      RunningMonotone(ranked, a, b - 1);
    }
  }

  /** At least the raw p-value, up to one. */
  lemma AdjustedAtLeastRaw(ranked: seq<Item>, i: nat)
    requires i < |ranked|
    ensures ranked[i].p <= 1.0 ==> Adjusted(ranked, i) >= ranked[i].p
    ensures ranked[i].p > 1.0 ==> Adjusted(ranked, i) == 1.0
  {
    var m, p := |ranked| - i, ranked[i].p;
    if p >= 0.0 {
      MoreTimes(1, m, p);
      assert StepValue(ranked, i) >= if p < 1.0 then p else 1.0;
    }
    assert Running(ranked, i + 1) >= StepValue(ranked, i + 1 - 1);
  }

  /** Monotone in the raw p-value, and equal on ties. */
  lemma {:induction false} AdjustedFollowsRaw(ranked: seq<Item>, i: nat, j: nat)
    requires Ascending(NoLarger, ranked) && i < |ranked| && j < |ranked| && ranked[i].p <= ranked[j].p
    ensures Adjusted(ranked, i) <= Adjusted(ranked, j)
    decreases i
  {
    if i <= j {
      RunningMonotone(ranked, i + 1, j + 1);
    } else {
      LeastFrom(ranked, j, i - 1);
      LeastFrom(ranked, i - 1, i);
      AdjustedFollowsRaw(ranked, i - 1, j);
      MoreTimes(|ranked| - i, |ranked| - (i - 1), ranked[i].p);
    }
  }

  /** The order in which the dict was filled does not matter. */
  lemma InsertionOrderIrrelevant(a: seq<Item>, b: seq<Item>, i: nat, j: nat)
    requires DistinctKeys(a) && DistinctKeys(b) && (forall x :: x in a <==> x in b)
    requires i < |a| && j < |b| && Ranked(a)[i] == Ranked(b)[j]
    ensures Adjusted(Ranked(a), i) == Adjusted(Ranked(b), j)
  {
    var x, y := Adjusted(Ranked(a), i), Adjusted(Ranked(b), j);
    if x < y {
      HolmIsClosedBonferroni(a, i, x);
      HolmIsClosedBonferroni(b, j, x);
    } else if y < x {
      HolmIsClosedBonferroni(a, i, y);
      HolmIsClosedBonferroni(b, j, y);
    }
  }

  method Holm(items: seq<Item>) returns (out: map<string, real>)
    requires DistinctKeys(items)
    ensures out.Keys == Keys(items)
    ensures forall i :: 0 <= i < |items| ==>
              Ranked(items)[i].key in out && out[Ranked(items)[i].key] == Adjusted(Ranked(items), i)
    ensures forall item, alpha :: item in items && 0.0 <= alpha < 1.0 ==>
              (out[item.key] <= alpha <==> ClosedTestRejects(items, item, alpha))
  {
    RankedFacts(items);
    out := StepDown(Ranked(items));
    AllClosed(items, out);
  }

  /** The loop over the ranked items, keeping the running maximum. */
  method StepDown(ranked: seq<Item>) returns (out: map<string, real>)
    requires DistinctKeys(ranked)
    ensures out.Keys == Keys(ranked)
    ensures forall i :: 0 <= i < |ranked| ==> ranked[i].key in out && out[ranked[i].key] == Adjusted(ranked, i)
  {
    out := map[];
    var running := 0.0;
    for i := 0 to |ranked|
      invariant running == Running(ranked, i) && out == Filled(ranked, i)
    {
      var adjusted := StepValue(ranked, i);
      running := if running < adjusted then adjusted else running;
      out := out[ranked[i].key := running];
    }
    FilledKeys(ranked, |ranked|);
    assert ranked[..|ranked|] == ranked;
    forall i | 0 <= i < |ranked| ensures ranked[i].key in out && out[ranked[i].key] == Adjusted(ranked, i) {
      FilledAt(ranked, |ranked|, i);
    }
  }

  /** The dict after the first `n` ranks. */
  function Filled(ranked: seq<Item>, n: nat): map<string, real>
    requires n <= |ranked|
  {
    if n == 0 then map[] else Filled(ranked, n - 1)[ranked[n - 1].key := Running(ranked, n)]
  }

  lemma {:induction false} FilledAt(ranked: seq<Item>, n: nat, i: nat)
    requires i < n <= |ranked| && DistinctKeys(ranked)
    ensures ranked[i].key in Filled(ranked, n) && Filled(ranked, n)[ranked[i].key] == Adjusted(ranked, i)
  {
    if i < n - 1 {
      FilledAt(ranked, n - 1, i);
    }
  }

  lemma {:induction false} FilledKeys(ranked: seq<Item>, n: nat)
    requires n <= |ranked|
    ensures Filled(ranked, n).Keys == Keys(ranked[..n])
  {
    if n > 0 {
      KeysSnoc(ranked, n);
      FilledKeys(ranked, n - 1);
    }
  }

  lemma KeysSnoc(items: seq<Item>, n: nat)
    requires 0 < n <= |items|
    ensures Keys(items[..n]) == Keys(items[..n - 1]) + {items[n - 1].key}
  {
    assert items[..n] == items[..n - 1] + [items[n - 1]];
  }

  lemma AllClosed(items: seq<Item>, out: map<string, real>)
    requires DistinctKeys(items)
    requires forall i :: 0 <= i < |items| ==>
               Ranked(items)[i].key in out && out[Ranked(items)[i].key] == Adjusted(Ranked(items), i)
    ensures forall item, alpha :: item in items && 0.0 <= alpha < 1.0 ==>
              item.key in out && (out[item.key] <= alpha <==> ClosedTestRejects(items, item, alpha))
  {
    RankedFacts(items);
    forall item, alpha | item in items && 0.0 <= alpha < 1.0
      ensures item.key in out && (out[item.key] <= alpha <==> ClosedTestRejects(items, item, alpha))
    {
      assert item in Ranked(items);
      var i :| 0 <= i < |items| && Ranked(items)[i] == item;
      HolmIsClosedBonferroni(items, i, alpha);
    }
  }
}
