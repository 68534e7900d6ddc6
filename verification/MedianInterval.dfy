/** The distribution-free interval for the median: which order statistics, and what their coverage means. */
module MedianInterval {
  import opened Text
  import opened Combinatorics
  import opened ExactTests
  import opened Sorting

  predicate NoLarger(x: real, y: real) {
    x <= y
  }

  /** `sorted(values)`. */
  function Ordered(values: seq<real>): (r: seq<real>)
    ensures |r| == |values|
  {
    Sorted(NoLarger, values)
  }

  // ----- the interval -----

  function Coverage(k: nat, n: nat): real
    requires k <= n
  {
    1.0 - 2.0 * BinomCdf(k, n, 0.5)
  }

  datatype Interval =
    | TooSmall
    | Fallback(lo: real, hi: real, achieved: real)
    | Interval(lo: real, hi: real, lower: nat, upper: nat, achieved: real)

  lemma CoverageShare(k: nat, n: nat)
    requires k <= n
    ensures Coverage(k, n) == Share(Pow2(n) - 2 * BinomPrefix(n, k + 1), n)
  {
    HalfCdf(k, n);
    var tail := BinomPrefix(n, k + 1);
    ShareAdd(tail, tail, n);
    ShareAdd(Pow2(n) - 2 * tail, 2 * tail, n);
    ShareOrder(0, 0, n);
  }

  lemma CoverageDecreases(j: nat, k: nat, n: nat)
    requires j < k <= n
    ensures Coverage(k, n) < Coverage(j, n)
  {
    CoverageShare(j, n);
    CoverageShare(k, n);
    PrefixMonotone(n, j + 1, k + 1);
    ShareOrder(Pow2(n) - 2 * BinomPrefix(n, k + 1), Pow2(n) - 2 * BinomPrefix(n, j + 1), n);
  }

  lemma OrderedAscends(values: seq<real>, i: nat, j: nat)
    requires i <= j < |values|
    ensures Ordered(values)[i] <= Ordered(values)[j]
  {
    hide Sorted;
    SortedAscends(NoLarger, values);
    assert i < j ==> NoLarger(Ordered(values)[i], Ordered(values)[j]);
  }

  lemma CoverageAtZero(n: nat)
    ensures Coverage(0, n) == 1.0 - 2.0 * BinomPmf(0, n, 0.5)
  {
  }

  method MedianInterval(values: seq<real>, target: real) returns (r: Interval)
    ensures var n, ordered := |values|, Ordered(values);
            match r
            case TooSmall => n < 6
            case Fallback(lo, hi, achieved) =>
              && n >= 6 && Coverage(0, n) < target
              && lo == ordered[0] && hi == ordered[n - 1] && achieved == Coverage(0, n)
            case Interval(lo, hi, lower, upper, achieved) =>
              && n >= 6 && 1 <= lower <= n / 2 && lower + upper == n + 1
              && lo == ordered[lower - 1] && hi == ordered[upper - 1] && lo <= hi
              && achieved == Rounded(Coverage(lower - 1, n))
              && (forall k :: 0 <= k < n / 2 ==> (Coverage(k, n) >= target <==> k < lower))
  {
    hide Ordered, BinomCdf, BinomPmf, Rounded;
    var n := |values|;
    if n < 6 {
      return TooSmall;
    }
    var ordered := Ordered(values);
    var best: Option<(nat, real)> := None;
    for k := 0 to n / 2
      invariant best == None ==> forall j :: 0 <= j < k ==> Coverage(j, n) < target
      invariant best.Some? ==>
                  && best.value.0 < k && best.value.1 == Coverage(best.value.0, n) >= target
                  && forall j :: best.value.0 < j < k ==> Coverage(j, n) < target
    {
      var coverage := 1.0 - 2.0 * BinomCdf(k, n, 0.5);
      if coverage >= target {
        best := Some((k, coverage));
      }
    }
    if best == None {
      CoverageAtZero(n);
      return Fallback(ordered[0], ordered[n - 1], 1.0 - 2.0 * BinomPmf(0, n, 0.5));
    }
    var (k, coverage) := best.value;
    OrderedAscends(values, k, n - 1 - k);
    forall j | 0 <= j < k ensures Coverage(j, n) >= target {
      CoverageDecreases(j, k, n);
    }
    r := Interval(ordered[k], ordered[n - 1 - k], k + 1, n - k, Rounded(coverage));
  }

  /** At the default target the fallback is unreachable; in general it is reached exactly below this bound. */
  lemma FallbackBound(n: nat, target: real)
    requires n >= 6
    ensures Coverage(0, n) < target <==> target > 1.0 - Share(2, n)
    ensures target <= 0.95 ==> Coverage(0, n) >= target
  {
    CoverageShare(0, n);
    assert BinomPrefix(n, 1) == BinomPrefix(n, 0) + Binom(n, 0);
    ShareAdd(Pow2(n) - 2, 2, n);
    ShareOrder(0, 0, n);
    Pow2AtLeast64(n);
    assert Share(2, n) * Pow2(n) as real == 2.0;
    TwoIsSmall(Pow2(n) as real);
  }

  lemma TwoIsSmall(p: real)
    requires p >= 64.0
    ensures 2.0 / p <= 0.05
  {
  }

  lemma {:induction false} Pow2AtLeast64(n: nat)
    requires n >= 6
    ensures Pow2(n) >= 64
  {
    if n > 6 {
      Pow2AtLeast64(n - 1);
    } else {
      assert Pow2(4) == 4 * Pow2(2) == 16;
    }
  }

  // ----- what the coverage means -----

  function CountBelow(values: seq<real>, m: real): nat {
    if values == [] then 0 else (if values[0] < m then 1 else 0) + CountBelow(values[1..], m)
  }

  ghost function IsBelow(m: real): real -> bool {
    x => x < m
  }

  lemma {:induction false} BelowAreCounted(values: seq<real>, m: real)
    ensures CountBelow(values, m) == |Positions(values, IsBelow(m))|
  {
    hide Positions;
    if values == [] {
      PositionsSnoc([], 0.0, IsBelow(m));
    } else {
      BelowAreCounted(values[1..], m);
      PositionsCons(values[0], values[1..], IsBelow(m));
      assert values == [values[0]] + values[1..];
    }
  }

  /** For sorted values, the `k`-th lies below `m` exactly when more than `k` values do. */
  lemma {:induction false} OrderStatisticBelow(s: seq<real>, m: real, k: nat)
    requires Ascending(NoLarger, s) && k < |s|
    ensures s[k] < m <==> CountBelow(s, m) > k
  {
    if k > 0 && s[0] < m {
      OrderStatisticBelow(s[1..], m, k - 1);
    } else if s[0] >= m {
      NoneBelow(s, m);
    }
  }

  lemma {:induction false} NoneBelow(s: seq<real>, m: real)
    requires forall i :: 0 <= i < |s| ==> s[i] >= m
    ensures CountBelow(s, m) == 0
  {
    if s != [] {
      NoneBelow(s[1..], m);
    }
  }

  lemma {:induction false} InsertCounts(x: real, s: seq<real>, m: real)
    ensures CountBelow(Insert(NoLarger, x, s), m) == CountBelow([x] + s, m)
  {
    assert ([x] + s)[1..] == s;
    if s != [] && !NoLarger(x, s[0]) {
      InsertCounts(x, s[1..], m);
      assert ([x] + s[1..])[1..] == s[1..];
    }
  }

  /** Sorting does not change how many values lie below a point. */
  lemma {:induction false} SortingCounts(values: seq<real>, m: real)
    ensures CountBelow(Ordered(values), m) == CountBelow(values, m)
  {
    if values != [] {
      SortingCounts(values[1..], m);
      InsertCounts(values[0], Ordered(values[1..]), m);
      assert ([values[0]] + Ordered(values[1..]))[1..] == Ordered(values[1..]);
    }
  }

  /** The interval holds a point no value ties with exactly when more than `k` values lie on each side. */
  lemma IntervalHolds(values: seq<real>, m: real, k: nat)
    requires 2 * k < |values| && m !in values
    ensures var s, n := Ordered(values), |values|;
            s[k] < m < s[n - 1 - k] <==> k < CountBelow(values, m) < n - k
  {
    hide Insert, Ascending, CountBelow;
    SortedAscends(NoLarger, values);
    SortedMembers(NoLarger, values, m);
    SortingCounts(values, m);
    HoldsWhenSorted(Ordered(values), m, k);
  }

  lemma HoldsWhenSorted(s: seq<real>, m: real, k: nat)
    requires Ascending(NoLarger, s) && 2 * k < |s| && m !in s
    ensures s[k] < m < s[|s| - 1 - k] <==> k < CountBelow(s, m) < |s| - k
  {
    OrderStatisticBelow(s, m, k);
    OrderStatisticBelow(s, m, |s| - 1 - k);
    assert s[|s| - 1 - k] in s;
  }

  // ----- over all the ways the values can fall -----

  /** Where each value lies: `-1` for below `m`, `1` for the rest. */
  function Sides(values: seq<real>, m: real): (sides: seq<int>)
    ensures |sides| == |values|
  {
    seq(|values|, i requires 0 <= i < |values| => if values[i] < m then -1 else 1)
  }

  function Below(sides: seq<int>): nat {
    if sides == [] then 0 else (if sides[0] == -1 then 1 else 0) + Below(sides[1..])
  }

  lemma {:induction false} SidesCountBelow(values: seq<real>, m: real)
    ensures Below(Sides(values, m)) == CountBelow(values, m)
  {
    if values != [] {
      assert Sides(values, m)[1..] == Sides(values[1..], m);
      SidesCountBelow(values[1..], m);
    }
  }

  /** When the values fall like this around a median none of them ties, the interval holds it. */
  ghost predicate Holds(sides: seq<int>, k: nat)
    requires 2 * k < |sides|
  {
    forall values: seq<real>, m: real :: |values| == |sides| && m !in values && Sides(values, m) == sides ==>
      Ordered(values)[k] < m < Ordered(values)[|values| - 1 - k]
  }

  lemma HoldsIff(sides: seq<int>, k: nat)
    requires 2 * k < |sides| && IsPattern(sides, |sides|)
    ensures Holds(sides, k) <==> k < Below(sides) < |sides| - k
  {
    hide Ordered, IsPattern;
    forall values: seq<real>, m: real | |values| == |sides| && m !in values && Sides(values, m) == sides
      ensures Ordered(values)[k] < m < Ordered(values)[|values| - 1 - k] <==> k < Below(sides) < |sides| - k
    {
      IntervalHolds(values, m, k);
      SidesCountBelow(values, m);
    }
    var values := Sample(sides);
    assert |values| == |sides| && 0.0 !in values && Sides(values, 0.0) == sides;
  }

  /** A sample that falls like this around zero. */
  function Sample(sides: seq<int>): (values: seq<real>)
    requires IsPattern(sides, |sides|)
    ensures |values| == |sides| && 0.0 !in values && Sides(values, 0.0) == sides
  {
    seq(|sides|, i requires 0 <= i < |sides| => sides[i] as real)
  }

  /** How many of the patterns have at least `lo` and fewer than `hi` values below. */
  function CountBetween(patterns: seq<seq<int>>, lo: int, hi: int): nat {
    if patterns == [] then 0
    else (if lo <= Below(patterns[0]) < hi then 1 else 0) + CountBetween(patterns[1..], lo, hi)
  }

  lemma {:induction false} BetweenAppend(a: seq<seq<int>>, b: seq<seq<int>>, lo: int, hi: int)
    ensures CountBetween(a + b, lo, hi) == CountBetween(a, lo, hi) + CountBetween(b, lo, hi)
  {
    if a == [] {
      assert a + b == b;
    } else {
      assert (a + b)[1..] == a[1..] + b;
      BetweenAppend(a[1..], b, lo, hi);
    }
  }

  lemma {:induction false} BetweenPrepend(s: int, patterns: seq<seq<int>>, lo: int, hi: int)
    ensures var first := if s == -1 then 1 else 0;
            CountBetween(Prepend(s, patterns), lo, hi) == CountBetween(patterns, lo - first, hi - first)
  {
    if patterns != [] {
      assert Prepend(s, patterns)[1..] == Prepend(s, patterns[1..]);
      assert ([s] + patterns[0])[1..] == patterns[0];
      BetweenPrepend(s, patterns[1..], lo, hi);
    }
  }

  lemma {:induction false} BetweenIsPrefix(n: nat, lo: int, hi: int)
    requires lo <= hi
    ensures CountBetween(Patterns(n), lo, hi) == PrefixTo(n, hi) - PrefixTo(n, lo)
  {
    hide Prepend, CountBetween;
    if n == 0 {
      NoSides(lo, hi);
      PrefixOfZero(lo);
      PrefixOfZero(hi);
    } else {
      BetweenAppend(Prepend(1, Patterns(n - 1)), Prepend(-1, Patterns(n - 1)), lo, hi);
      BetweenPrepend(1, Patterns(n - 1), lo, hi);
      BetweenPrepend(-1, Patterns(n - 1), lo, hi);
      BetweenIsPrefix(n - 1, lo - 1, hi - 1);
      BetweenIsPrefix(n - 1, lo, hi);
      PrefixToStep(n - 1, lo);
      PrefixToStep(n - 1, hi);
    }
  }

  lemma NoSides(lo: int, hi: int)
    ensures CountBetween(Patterns(0), lo, hi) == if lo <= 0 < hi then 1 else 0
  {
    assert Patterns(0)[1..] == [];
  }

  function PrefixTo(n: nat, m: int): nat {
    if m <= 0 then 0 else BinomPrefix(n, m)
  }

  lemma PrefixOfZero(m: int)
    ensures PrefixTo(0, m) == if m <= 0 then 0 else 1
  {
    if m > 0 {
      PrefixAll(0, m);
    }
  }

  lemma PrefixToStep(n: nat, m: int)
    ensures PrefixTo(n + 1, m) == PrefixTo(n, m) + PrefixTo(n, m - 1)
  {
    if m > 0 {
      PrefixStep(n, m - 1);
      assert m == 1 ==> BinomPrefix(n, 0) == 0;
    }
  }

  /** How many of the patterns are ways to fall in which the interval holds the median. */
  ghost function CountHolding(patterns: seq<seq<int>>, k: nat): nat
    requires forall i :: 0 <= i < |patterns| ==> 2 * k < |patterns[i]|
  {
    if patterns == [] then 0
    else (if Holds(patterns[0], k) then 1 else 0) + CountHolding(patterns[1..], k)
  }

  ghost function HoldsAt(k: nat): seq<int> -> bool {
    sides => 2 * k < |sides| && Holds(sides, k)
  }

  lemma {:induction false} HoldingAreCounted(patterns: seq<seq<int>>, k: nat)
    requires forall i :: 0 <= i < |patterns| ==> 2 * k < |patterns[i]|
    ensures CountHolding(patterns, k) == |Positions(patterns, HoldsAt(k))|
  {
    hide Positions, Holds;
    if patterns == [] {
      PositionsSnoc([], [], HoldsAt(k));
    } else {
      HoldingAreCounted(patterns[1..], k);
      PositionsCons(patterns[0], patterns[1..], HoldsAt(k));
      assert patterns == [patterns[0]] + patterns[1..];
    }
  }

  lemma {:induction false} HoldingIsBetween(patterns: seq<seq<int>>, k: nat, n: nat)
    requires 2 * k < n && forall i :: 0 <= i < |patterns| ==> |patterns[i]| == n && IsPattern(patterns[i], n)
    ensures CountHolding(patterns, k) == CountBetween(patterns, k + 1, n - k)
  {
    hide Holds;
    if patterns != [] {
      HoldsIff(patterns[0], k);
      HoldingIsBetween(patterns[1..], k, n);
    }
  }

  lemma AllArePatterns(n: nat)
    ensures forall i :: 0 <= i < |Patterns(n)| ==> |Patterns(n)[i]| == n && IsPattern(Patterns(n)[i], n)
  {
    forall i | 0 <= i < |Patterns(n)| ensures |Patterns(n)[i]| == n && IsPattern(Patterns(n)[i], n) {
      PatternsMembers(n, Patterns(n)[i]);
    }
  }

  /**
    The coverage is exactly the share of the `2^n` ways for `n` values to fall below or
    above the median in which the interval holds it, whatever the values are.
   */
  lemma CoverageIsShareHolding(k: nat, n: nat)
    requires 2 * k < n
    ensures forall i :: 0 <= i < |Patterns(n)| ==> 2 * k < |Patterns(n)[i]|
    ensures Coverage(k, n) == Share(CountHolding(Patterns(n), k), n)
  {
    hide Patterns;
    AllArePatterns(n);
    HoldingIsBetween(Patterns(n), k, n);
    CoverageShare(k, n);
    BetweenIsPrefix(n, k + 1, n - k);
    PrefixMirror(n, k + 1);
  }
}
