/**
  The exact sign test and the fully enumerated sign-flip test, over exact reals.
  The source's tolerance is kept as it is, and it is what separates the two tests.
 */
module ExactTests {
  import opened Text
  import opened Combinatorics

  // ----- the binomial distribution at one half -----

  function RealPow(x: real, e: nat): real {
    if e == 0 then 1.0 else x * RealPow(x, e - 1)
  }

  function BinomPmf(k: nat, n: nat, p: real): real
    requires k <= n
  {
    Binom(n, k) as real * RealPow(p, k) * RealPow(1.0 - p, n - k)
  }

  function BinomCdf(k: nat, n: nat, p: real): real
    requires k <= n
  {
    if k == 0 then BinomPmf(0, n, p) else BinomCdf(k - 1, n, p) + BinomPmf(k, n, p)
  }

  /** `count` out of `2^n` equally likely outcomes. */
  function Share(count: int, n: nat): real {
    count as real / Pow2(n) as real
  }

  lemma {:induction false} HalfPow(e: nat)
    ensures RealPow(0.5, e) * Pow2(e) as real == 1.0
  {
    if e > 0 {
      HalfPow(e - 1);
      assert RealPow(0.5, e) * Pow2(e) as real
          == (0.5 * RealPow(0.5, e - 1)) * (2.0 * Pow2(e - 1) as real);
    }
  }

  lemma {:induction false} PowAdd(x: real, a: nat, b: nat)
    ensures RealPow(x, a) * RealPow(x, b) == RealPow(x, a + b)
  {
    if a > 0 {
      PowAdd(x, a - 1, b);
      assert RealPow(x, a) * RealPow(x, b) == x * (RealPow(x, a - 1) * RealPow(x, b));
    }
  }

  lemma ShareIsUnique(x: real, count: int, n: nat)
    requires x * Pow2(n) as real == count as real
    ensures x == Share(count, n)
  {
  }

  lemma HalfPmf(k: nat, n: nat)
    requires k <= n
    ensures BinomPmf(k, n, 0.5) == Share(Binom(n, k), n)
  {
    PowAdd(0.5, k, n - k);
    HalfPow(n);
    var c, a, b := Binom(n, k) as real, RealPow(0.5, k), RealPow(0.5, n - k);
    assert c * a * b == c * (a * b);
    assert c * RealPow(0.5, n) * Pow2(n) as real == c * (RealPow(0.5, n) * Pow2(n) as real);
    ShareIsUnique(BinomPmf(k, n, 0.5), Binom(n, k), n);
  }

  lemma ShareAdd(a: int, b: int, n: nat)
    ensures Share(a, n) + Share(b, n) == Share(a + b, n)
  {
    DividedSum(a as real, b as real, Pow2(n) as real);
  }

  lemma DividedSum(a: real, b: real, p: real)
    requires p > 0.0
    ensures a / p + b / p == (a + b) / p
  {
  }

  lemma ShareOrder(a: int, b: int, n: nat)
    ensures Share(a, n) < Share(b, n) <==> a < b
    ensures Share(a, n) == Share(b, n) <==> a == b
    ensures Share(Pow2(n), n) == 1.0
  {
    var p := Pow2(n) as real;
    Divided(a as real, b as real, p);
    Divided(b as real, a as real, p);
  }

  lemma Divided(a: real, b: real, p: real)
    requires p > 0.0
    ensures a < b ==> a / p < b / p
    ensures p / p == 1.0
  {
  }

  lemma {:induction false} HalfCdf(k: nat, n: nat)
    requires k <= n
    ensures BinomCdf(k, n, 0.5) == Share(BinomPrefix(n, k + 1), n)
  {
    HalfPmf(k, n);
    if k > 0 {
      HalfCdf(k - 1, n);
      ShareAdd(BinomPrefix(n, k), Binom(n, k), n);
    } else {
      assert BinomPrefix(n, 1) == BinomPrefix(n, 0) + Binom(n, 0);
    }
  }

  /** `round(x, 6)`: the nearest millionth, and of two the even one. */
  function Rounded(x: real): (r: real)
    ensures -0.0000005 <= r - x <= 0.0000005
  {
    var scaled := x * 1000000.0;
    var below := scaled.Floor;
    var over := scaled - below as real;
    var nearest := if over < 0.5 || (over == 0.5 && below % 2 == 0) then below else below + 1;
    nearest as real / 1000000.0
  }

  lemma RoundedIsMillionths(x: real) returns (n: int)
    ensures Rounded(x) == n as real / 1000000.0
    ensures -0.0000005 <= Rounded(x) - x <= 0.0000005
    ensures Rounded(x) - x == 0.0000005 || Rounded(x) - x == -0.0000005 ==> n % 2 == 0
  {
    var scaled := x * 1000000.0;
    var below := scaled.Floor;
    var over := scaled - below as real;
    n := if over < 0.5 || (over == 0.5 && below % 2 == 0) then below else below + 1;
    assert Rounded(x) - x == (n as real - scaled) / 1000000.0;
  }

  // ----- the sign test -----

  function CountPositive(values: seq<real>): nat {
    if values == [] then 0 else (if values[0] > 0.0 then 1 else 0) + CountPositive(values[1..])
  }

  function CountNegative(values: seq<real>): nat {
    if values == [] then 0 else (if values[0] < 0.0 then 1 else 0) + CountNegative(values[1..])
  }

  function CountZero(values: seq<real>): nat {
    if values == [] then 0 else (if values[0] == 0.0 then 1 else 0) + CountZero(values[1..])
  }

  datatype SignResult = SignResult(
    positive: nat, negative: nat, zeros: nat, nonzero: nat, statistic: Option<nat>, p: Option<real>)

  function SignTest(values: seq<real>): SignResult {
    var pos, neg, zeros := CountPositive(values), CountNegative(values), CountZero(values);
    var n := pos + neg;
    if n == 0 then SignResult(0, 0, zeros, 0, None, None)
    else
      var k := if pos < neg then pos else neg;
      var twice := 2.0 * BinomCdf(k, n, 0.5);
      SignResult(pos, neg, zeros, n, Some(k), Some(if twice < 1.0 then twice else 1.0))
  }

  predicate IsPositive(x: real) {
    x > 0.0
  }

  predicate IsNegative(x: real) {
    x < 0.0
  }

  predicate IsZero(x: real) {
    x == 0.0
  }

  lemma {:induction false} SignsSnoc(values: seq<real>, x: real)
    ensures CountPositive(values + [x]) == CountPositive(values) + if x > 0.0 then 1 else 0
    ensures CountNegative(values + [x]) == CountNegative(values) + if x < 0.0 then 1 else 0
    ensures CountZero(values + [x]) == CountZero(values) + if x == 0.0 then 1 else 0
  {
    if values == [] {
      assert [x][1..] == [];
    } else {
      assert (values + [x])[0] == values[0] && (values + [x])[1..] == values[1..] + [x];
      SignsSnoc(values[1..], x);
    }
  }

  lemma {:induction false} SignsAreCounted(values: seq<real>)
    ensures CountPositive(values) == |Positions(values, IsPositive)|
    ensures CountNegative(values) == |Positions(values, IsNegative)|
    ensures CountZero(values) == |Positions(values, IsZero)|
    ensures CountPositive(values) + CountNegative(values) + CountZero(values) == |values|
  {
    hide Positions;
    if values == [] {
      PositionsSnoc<real>([], 0.0, IsPositive);
      PositionsSnoc<real>([], 0.0, IsNegative);
      PositionsSnoc<real>([], 0.0, IsZero);
    } else {
      var before, x := values[..|values| - 1], values[|values| - 1];
      assert values == before + [x];
      SignsAreCounted(before);
      SignsSnoc(before, x);
      PositionsSnoc(before, x, IsPositive);
      PositionsSnoc(before, x, IsNegative);
      PositionsSnoc(before, x, IsZero);
    }
  }

  /** What is left of a sample when only the signs of its non-zero values are kept. */
  function SignsOnly(values: seq<real>): seq<real> {
    if values == [] then []
    else (if values[0] > 0.0 then [1.0] else if values[0] < 0.0 then [-1.0] else []) + SignsOnly(values[1..])
  }

  lemma {:induction false} SignsOnlyCounts(values: seq<real>)
    ensures CountPositive(SignsOnly(values)) == CountPositive(values)
    ensures CountNegative(SignsOnly(values)) == CountNegative(values)
    ensures CountZero(SignsOnly(values)) == 0 && |SignsOnly(values)| == CountPositive(values) + CountNegative(values)
    ensures forall i :: 0 <= i < |SignsOnly(values)| ==> SignsOnly(values)[i] == 1.0 || SignsOnly(values)[i] == -1.0
  {
    if values != [] {
      var rest := SignsOnly(values[1..]);
      SignsOnlyCounts(values[1..]);
      if values[0] != 0.0 {
        assert SignsOnly(values)[1..] == rest;
      } else {
        assert [] + rest == rest;
      }
    }
  }

  /**
    On every sample: the counts are those of the positive, negative and zero values; there is
    a p-value exactly when some value is not zero, and then it is twice the rarer sign's share
    of the tail among the `2^n` outcomes for the `n` non-zero values, or one.
   */
  lemma SignTestCounts(values: seq<real>)
    ensures var r, n := SignTest(values), |Positions(values, IsPositive)| + |Positions(values, IsNegative)|;
            && r.positive == |Positions(values, IsPositive)|
            && r.negative == |Positions(values, IsNegative)|
            && r.zeros == |Positions(values, IsZero)|
            && r.nonzero == n == |values| - r.zeros
            && (r.p == None <==> forall i :: 0 <= i < |values| ==> values[i] == 0.0)
            && (r.p == None <==> r.statistic == None)
            && (r.p.Some? ==>
                  && r.statistic == Some(if r.positive < r.negative then r.positive else r.negative)
                  && r.p == Some(Share(if 2 * r.statistic.value < n then 2 * BinomPrefix(n, r.statistic.value + 1)
                                       else Pow2(n), n)))
  {
    hide Positions, BinomCdf, BinomPrefix, Share, Pow2;
    SignsAreCounted(values);
    NoneNonzero(values);
    var n := CountPositive(values) + CountNegative(values);
    if n > 0 {
      var few := if CountPositive(values) < CountNegative(values) then CountPositive(values) else CountNegative(values);
      CappedShare(n, few);
    }
  }

  lemma {:induction false} NoneNonzero(values: seq<real>)
    ensures CountPositive(values) + CountNegative(values) == 0 <==> forall i :: 0 <= i < |values| ==> values[i] == 0.0
  {
    if values != [] {
      NoneNonzero(values[1..]);
      assert forall i :: 0 < i < |values| ==> values[i] == values[1..][i - 1];
      if forall i :: 0 <= i < |values[1..]| ==> values[1..][i] == 0.0 {
      } else if CountPositive(values) + CountNegative(values) > 0 {
        var i :| 0 <= i < |values[1..]| && values[1..][i] != 0.0;
        assert values[i + 1] != 0.0;
      }
    }
  }

  /** The test sees nothing but the signs of the non-zero values. */
  lemma SignTestSeesSigns(values: seq<real>)
    ensures var r, s := SignTest(values), SignTest(SignsOnly(values));
            && OneMagnitude(SignsOnly(values), 1.0)
            && s.p == r.p && s.statistic == r.statistic && s.nonzero == r.nonzero == |SignsOnly(values)| && s.zeros == 0
            && s.positive == r.positive && s.negative == r.negative
  {
    hide BinomCdf;
    SignsOnlyCounts(values);
  }

  // ----- the sign-flip test -----

  const TOLERANCE: real := 0.000000000001
  const MAX_ENUMERATED := 22

  function Abs(x: real): real {
    if x < 0.0 then -x else x
  }

  function Sum(values: seq<real>): real {
    if values == [] then 0.0 else values[0] + Sum(values[1..])
  }

  /** `sum(s * v for s, v in zip(signs, values))`. */
  function SignedSum(signs: seq<int>, values: seq<real>): real {
    if signs == [] || values == [] then 0.0
    else signs[0] as real * values[0] + SignedSum(signs[1..], values[1..])
  }

  /** `itertools.product((1, -1), repeat=n)`. */
  function Patterns(n: nat): seq<seq<int>> {
    if n == 0 then [[]] else Prepend(1, Patterns(n - 1)) + Prepend(-1, Patterns(n - 1))
  }

  /** How many of the patterns bring `offset` plus the signed sum to at least `bar` in magnitude. */
  function CountExtreme(patterns: seq<seq<int>>, values: seq<real>, offset: real, bar: real): nat {
    if patterns == [] then 0
    else (if Abs(offset + SignedSum(patterns[0], values)) >= bar then 1 else 0)
         + CountExtreme(patterns[1..], values, offset, bar)
  }

  function Bar(values: seq<real>): real {
    Abs(Sum(values)) - TOLERANCE
  }

  /** The number of sign patterns at least as extreme as the sample. */
  function ExtremePatterns(values: seq<real>): nat {
    CountExtreme(Patterns(|values|), values, 0.0, Bar(values))
  }

  datatype FlipResult = NoValues | Refused | FlipResult(observedMean: real, total: nat, extreme: nat, p: real)

  lemma {:induction false} PatternCount(n: nat)
    ensures |Patterns(n)| == Pow2(n)
  {
    if n > 0 {
      PatternCount(n - 1);
    }
  }

  predicate IsPattern(signs: seq<int>, n: nat) {
    |signs| == n && forall i :: 0 <= i < n ==> signs[i] == 1 || signs[i] == -1
  }

  /** Every list of `n` signs is a pattern, and nothing else is. */
  lemma {:induction false} PatternsMembers(n: nat, signs: seq<int>)
    ensures signs in Patterns(n) <==> IsPattern(signs, n)
  {
    hide Prepend;
    if n > 0 {
      PrependMembers(1, Patterns(n - 1), signs);
      PrependMembers(-1, Patterns(n - 1), signs);
      if signs != [] {
        PatternsMembers(n - 1, signs[1..]);
        assert signs == [signs[0]] + signs[1..];
      }
    }
  }

  /** No pattern comes twice. */
  lemma {:induction false} PatternsDistinct(n: nat, i: nat, j: nat)
    requires i < j < |Patterns(n)|
    ensures Patterns(n)[i] != Patterns(n)[j]
  {
    hide Prepend;
    var inner, all := Patterns(n - 1), Patterns(n);
    var m := |inner|;
    var a, b := if i < m then i else i - m, if j < m then j else j - m;
    assert all[i] == Prepend(if i < m then 1 else -1, inner)[a];
    assert all[j] == Prepend(if j < m then 1 else -1, inner)[b];
    PrependAt(if i < m then 1 else -1, inner, a);
    PrependAt(if j < m then 1 else -1, inner, b);
    if j < m || i >= m {
      PatternsDistinct(n - 1, a, b);
    }
  }

  lemma {:induction false} CountAppend(a: seq<seq<int>>, b: seq<seq<int>>, values: seq<real>, offset: real, bar: real)
    ensures CountExtreme(a + b, values, offset, bar)
         == CountExtreme(a, values, offset, bar) + CountExtreme(b, values, offset, bar)
  {
    if a == [] {
      assert a + b == b;
    } else {
      assert (a + b)[1..] == a[1..] + b;
      CountAppend(a[1..], b, values, offset, bar);
    }
  }

  method SignFlipTest(values: seq<real>) returns (r: FlipResult)
    ensures r.NoValues? <==> values == []
    ensures r.Refused? <==> |values| > 22
    ensures r.FlipResult? ==>
              && r.observedMean == Rounded(Sum(values) / |values| as real)
              && r.total == Pow2(|values|)
              && r.extreme == ExtremePatterns(values)
              && r.p == Share(r.extreme, |values|)
  {
    var n := |values|;
    if n == 0 {
      return NoValues;
    }
    if n > MAX_ENUMERATED {
      return Refused;
    }
    var observed := Abs(Sum(values));
    var extreme, total := 0, 0;
    var patterns := Patterns(n);
    for i := 0 to |patterns|
      invariant total == i
      invariant extreme == CountExtreme(patterns[..i], values, 0.0, Bar(values))
    {
      var signs := patterns[i];
      total := total + 1;
      CountAppend(patterns[..i], [signs], values, 0.0, Bar(values));
      assert patterns[..i + 1] == patterns[..i] + [signs];
      if Abs(SignedSum(signs, values)) >= observed - TOLERANCE {
        extreme := extreme + 1;
      }
    }
    assert patterns[..|patterns|] == patterns;
    PatternCount(n);
    r := FlipResult(Rounded(Sum(values) / n as real), total, extreme, extreme as real / total as real);
  }

  // ----- counting patterns by branching on one sign at a time -----

  function Branch(values: seq<real>, offset: real, bar: real): nat {
    if values == [] then (if Abs(offset) >= bar then 1 else 0)
    else Branch(values[1..], offset + values[0], bar) + Branch(values[1..], offset - values[0], bar)
  }

  lemma SignedSumCons(s: int, signs: seq<int>, values: seq<real>, offset: real)
    requires values != []
    ensures offset + SignedSum([s] + signs, values) == offset + s as real * values[0] + SignedSum(signs, values[1..])
  {
    assert ([s] + signs)[1..] == signs;
  }

  lemma {:induction false} CountPrepend(s: int, patterns: seq<seq<int>>, values: seq<real>, offset: real, bar: real)
    requires values != []
    ensures CountExtreme(Prepend(s, patterns), values, offset, bar)
         == CountExtreme(patterns, values[1..], offset + s as real * values[0], bar)
  {
    if patterns != [] {
      assert Prepend(s, patterns)[1..] == Prepend(s, patterns[1..]);
      SignedSumCons(s, patterns[0], values, offset);
      CountPrepend(s, patterns[1..], values, offset, bar);
    }
  }

  lemma FirstSign(values: seq<real>, offset: real, bar: real)
    requires values != []
    ensures var inner := Patterns(|values| - 1);
            CountExtreme(Patterns(|values|), values, offset, bar)
            == CountExtreme(inner, values[1..], offset + values[0], bar)
               + CountExtreme(inner, values[1..], offset - values[0], bar)
  {
    hide CountExtreme, SignedSum, Prepend;
    var inner := Patterns(|values| - 1);
    CountAppend(Prepend(1, inner), Prepend(-1, inner), values, offset, bar);
    CountPrepend(1, inner, values, offset, bar);
    CountPrepend(-1, inner, values, offset, bar);
    assert offset + 1 as real * values[0] == offset + values[0];
    assert offset + (-1) as real * values[0] == offset - values[0];
  }

  lemma OnePattern(offset: real, bar: real)
    ensures CountExtreme(Patterns(0), [], offset, bar) == if Abs(offset) >= bar then 1 else 0
  {
    assert Patterns(0)[1..] == [];
  }

  lemma {:induction false} PatternsBranch(values: seq<real>, offset: real, bar: real)
    ensures CountExtreme(Patterns(|values|), values, offset, bar) == Branch(values, offset, bar)
  {
    hide CountExtreme, Patterns;
    if values == [] {
      OnePattern(offset, bar);
    } else {
      FirstSign(values, offset, bar);
      PatternsBranch(values[1..], offset + values[0], bar);
      PatternsBranch(values[1..], offset - values[0], bar);
    }
  }

  /** The sample itself and its mirror image are always counted. */
  lemma {:induction false} SampleIsExtreme(values: seq<real>, offset: real, bar: real)
    ensures Abs(offset + Sum(values)) >= bar ==> Branch(values, offset, bar) >= 1
    ensures Abs(offset - Sum(values)) >= bar ==> Branch(values, offset, bar) >= 1
  {
    if values != [] {
      SampleIsExtreme(values[1..], offset + values[0], bar);
      SampleIsExtreme(values[1..], offset - values[0], bar);
    }
  }

  /** No sample of `n` values can reach a p-value below `2 / 2^n`. */
  lemma SmallestFlipP(values: seq<real>)
    requires values != []
    ensures Share(ExtremePatterns(values), |values|) >= Share(2, |values|)
  {
    var bar := Bar(values);
    PatternsBranch(values, 0.0, bar);
    SampleIsExtreme(values[1..], 0.0 + values[0], bar);
    SampleIsExtreme(values[1..], 0.0 - values[0], bar);
    ShareOrder(ExtremePatterns(values), 2, |values|);
  }

  // ----- the enumerated test is exact -----

  /** The sample with its signs flipped like this. */
  function Flipped(signs: seq<int>, values: seq<real>): (flipped: seq<real>)
    requires |signs| == |values|
    ensures |flipped| == |values|
  {
    seq(|values|, i requires 0 <= i < |values| => signs[i] as real * values[i])
  }

  lemma FlippedAt(signs: seq<int>, values: seq<real>, i: nat)
    requires i < |signs| == |values| && (signs[i] == 1 || signs[i] == -1)
    ensures Flipped(signs, values)[i] == if signs[i] == 1 then values[i] else -values[i]
  {
  }

  lemma FlippedTail(signs: seq<int>, values: seq<real>)
    requires |signs| == |values| > 0
    ensures Flipped(signs, values)[0] == signs[0] as real * values[0]
    ensures Flipped(signs, values)[1..] == Flipped(signs[1..], values[1..])
  {
    var all, rest := Flipped(signs, values), Flipped(signs[1..], values[1..]);
    forall i | 0 <= i < |rest| ensures all[1..][i] == rest[i] {
      assert all[i + 1] == signs[i + 1] as real * values[i + 1];
      assert signs[1..][i] == signs[i + 1] && values[1..][i] == values[i + 1];
    }
    assert all[1..] == rest;
  }

  lemma {:induction false} FlippedSum(signs: seq<int>, values: seq<real>)
    requires |signs| == |values|
    ensures Sum(Flipped(signs, values)) == SignedSum(signs, values)
  {
    hide Flipped;
    if values != [] {
      FlippedTail(signs, values);
      FlippedSum(signs[1..], values[1..]);
    }
  }

  /** Flipping signs permutes the patterns: any bar is cleared by as many as before. */
  lemma {:induction false} FlippedBranch(signs: seq<int>, values: seq<real>, offset: real, bar: real)
    requires IsPattern(signs, |values|)
    ensures Branch(Flipped(signs, values), offset, bar) == Branch(values, offset, bar)
  {
    hide Flipped, IsPattern, Abs;
    if values != [] {
      PatternTail(signs, |values|);
      FlippedTail(signs, values);
      FlippedFirst(signs[0], values[0]);
      FlippedBranch(signs[1..], values[1..], offset + values[0], bar);
      FlippedBranch(signs[1..], values[1..], offset - values[0], bar);
    }
  }

  lemma PatternTail(signs: seq<int>, n: nat)
    requires n > 0 && IsPattern(signs, n)
    ensures |signs| == n && (signs[0] == 1 || signs[0] == -1) && IsPattern(signs[1..], n - 1)
  {
    assert forall i :: 0 <= i < n - 1 ==> signs[1..][i] == signs[i + 1];
  }

  lemma FlippedFirst(sign: int, value: real)
    requires sign == 1 || sign == -1
    ensures sign as real * value == if sign == 1 then value else -value
  {
  }

  lemma {:induction false} SumAppend(a: seq<real>, b: seq<real>)
    ensures Sum(a + b) == Sum(a) + Sum(b)
  {
    if a == [] {
      assert a + b == b;
    } else {
      assert (a + b)[0] == a[0] && (a + b)[1..] == a[1..] + b;
      SumAppend(a[1..], b);
    }
  }

  lemma SumOne(x: real)
    ensures Sum([x]) == x && Sum([]) == 0.0
  {
    assert [x][1..] == [];
  }

  /** The flipped sample's sum is in magnitude at least the sample's own, up to the tolerance. */
  function AsExtreme(values: seq<real>): seq<int> -> bool {
    signs => |signs| == |values| && Abs(Sum(Flipped(signs, values))) >= Abs(Sum(values)) - 0.000000000001
  }

  lemma {:induction false} ExtremesAmong(patterns: seq<seq<int>>, values: seq<real>)
    requires forall i :: 0 <= i < |patterns| ==> |patterns[i]| == |values|
    ensures CountExtreme(patterns, values, 0.0, Bar(values)) == |Positions(patterns, AsExtreme(values))|
  {
    hide Positions, CountExtreme, SignedSum, Flipped, Abs, Sum;
    if patterns == [] {
      NothingExtreme(values);
      PositionsSnoc<seq<int>>([], [], AsExtreme(values));
    } else {
      var before, signs := patterns[..|patterns| - 1], patterns[|patterns| - 1];
      assert patterns == before + [signs];
      ExtremesAmong(before, values);
      CountAppend(before, [signs], values, 0.0, Bar(values));
      OneExtreme(signs, values);
      PositionsSnoc(before, signs, AsExtreme(values));
    }
  }

  lemma NothingExtreme(values: seq<real>)
    ensures CountExtreme([], values, 0.0, Bar(values)) == 0
  {
  }

  lemma {:induction false} OneExtreme(signs: seq<int>, values: seq<real>)
    requires |signs| == |values|
    ensures CountExtreme([signs], values, 0.0, Bar(values)) == if AsExtreme(values)(signs) then 1 else 0
  {
    hide SignedSum, Flipped, Sum;
    FlippedSum(signs, values);
    assert [signs][1..] == [];
    assert 0.0 + SignedSum(signs, values) == SignedSum(signs, values);
  }

  /** What the test counts: of all sign flips of the sample, those at least as extreme. */
  lemma {:induction false} ExtremesAreCounted(values: seq<real>)
    ensures ExtremePatterns(values) == |Positions(Patterns(|values|), AsExtreme(values))|
  {
    hide Positions, CountExtreme, Patterns, AsExtreme;
    PatternLengths(|values|);
    ExtremesAmong(Patterns(|values|), values);
  }

  /** A flipped sample's count, on the patterns of the sample itself. */
  lemma {:induction false} FlippedCount(signs: seq<int>, values: seq<real>)
    requires IsPattern(signs, |values|)
    ensures ExtremePatterns(Flipped(signs, values))
         == CountExtreme(Patterns(|values|), values, 0.0, Abs(SignedSum(signs, values)) - TOLERANCE)
  {
    hide Patterns, CountExtreme, Branch, Flipped, SignedSum, Sum;
    var bar := Abs(SignedSum(signs, values)) - TOLERANCE;
    FlippedSum(signs, values);
    PatternsBranch(Flipped(signs, values), 0.0, bar);
    PatternsBranch(values, 0.0, bar);
    FlippedBranch(signs, values, 0.0, bar);
  }

  /** The sample flipped like this is counted extreme at most `m` times. */
  predicate Significant(signs: seq<int>, values: seq<real>, m: nat)
    requires |signs| == |values|
  {
    ExtremePatterns(Flipped(signs, values)) <= m
  }

  function CountSignificant(patterns: seq<seq<int>>, values: seq<real>, m: nat): nat
    requires forall i :: 0 <= i < |patterns| ==> |patterns[i]| == |values|
  {
    if patterns == [] then 0
    else (if Significant(patterns[0], values, m) then 1 else 0) + CountSignificant(patterns[1..], values, m)
  }

  /** Among the significant patterns, one whose sum is the smallest. */
  lemma {:induction false} LeastSignificant(patterns: seq<seq<int>>, values: seq<real>, m: nat)
    returns (least: seq<int>)
    requires forall i :: 0 <= i < |patterns| ==> |patterns[i]| == |values|
    requires CountSignificant(patterns, values, m) > 0
    ensures least in patterns && |least| == |values| && Significant(least, values, m)
    ensures forall i :: 0 <= i < |patterns| && Significant(patterns[i], values, m) ==>
              Abs(SignedSum(patterns[i], values)) >= Abs(SignedSum(least, values))
  {
    hide Significant, SignedSum, Abs;
    var rest := patterns[1..];
    if CountSignificant(rest, values, m) == 0 {
      NoneSignificant(rest, values, m);
      return patterns[0];
    }
    least := LeastSignificant(rest, values, m);
    if Significant(patterns[0], values, m) && Abs(SignedSum(patterns[0], values)) < Abs(SignedSum(least, values)) {
      least := patterns[0];
    }
    forall i | 0 <= i < |patterns| && Significant(patterns[i], values, m)
      ensures Abs(SignedSum(patterns[i], values)) >= Abs(SignedSum(least, values))
    {
      assert i > 0 ==> rest[i - 1] == patterns[i];
    }
  }

  lemma {:induction false} NoneSignificant(patterns: seq<seq<int>>, values: seq<real>, m: nat)
    requires forall i :: 0 <= i < |patterns| ==> |patterns[i]| == |values|
    requires CountSignificant(patterns, values, m) == 0
    ensures forall i :: 0 <= i < |patterns| ==> !Significant(patterns[i], values, m)
  {
    hide Significant;
    if patterns != [] {
      NoneSignificant(patterns[1..], values, m);
      assert forall i :: 0 < i < |patterns| ==> patterns[i] == patterns[1..][i - 1];
    }
  }

  lemma {:induction false} SignificantAreExtreme(patterns: seq<seq<int>>, values: seq<real>, m: nat, bar: real)
    requires forall i :: 0 <= i < |patterns| ==> |patterns[i]| == |values|
    requires forall i :: 0 <= i < |patterns| && Significant(patterns[i], values, m) ==>
               Abs(SignedSum(patterns[i], values)) >= bar
    ensures CountSignificant(patterns, values, m) <= CountExtreme(patterns, values, 0.0, bar)
  {
    hide Significant, SignedSum, Abs;
    if patterns != [] {
      assert forall i :: 0 < i < |patterns| ==> patterns[i] == patterns[1..][i - 1];
      assert 0.0 + SignedSum(patterns[0], values) == SignedSum(patterns[0], values);
      SignificantAreExtreme(patterns[1..], values, m, bar);
    }
  }

  lemma PatternLengths(n: nat)
    ensures forall i :: 0 <= i < |Patterns(n)| ==> |Patterns(n)[i]| == n
  {
    forall i | 0 <= i < |Patterns(n)| ensures |Patterns(n)[i]| == n {
      PatternsMembers(n, Patterns(n)[i]);
    }
  }

  /** The sample flipped like this has a p-value of at most `m / 2^n`. */
  ghost function HasPAtMost(m: nat, values: seq<real>): seq<int> -> bool {
    signs =>
      |signs| == |values| && Share(ExtremePatterns(Flipped(signs, values)), |values|) <= Share(m, |values|)
  }

  lemma {:induction false} SignificantAreCounted(patterns: seq<seq<int>>, values: seq<real>, m: nat)
    requires forall i :: 0 <= i < |patterns| ==> |patterns[i]| == |values|
    ensures CountSignificant(patterns, values, m) == |Positions(patterns, HasPAtMost(m, values))|
  {
    hide Positions, Share, ExtremePatterns, Flipped;
    if patterns == [] {
      PositionsSnoc([], [], HasPAtMost(m, values));
    } else {
      SignificantAreCounted(patterns[1..], values, m);
      ShareOrder(ExtremePatterns(Flipped(patterns[0], values)), m, |values|);
      PositionsCons(patterns[0], patterns[1..], HasPAtMost(m, values));
      assert patterns == [patterns[0]] + patterns[1..];
    }
  }

  /**
    Exactness, on every sample: of its `2^n` sign flips at most `m` have a p-value of
    at most `m / 2^n`, so under symmetry no level is exceeded.
   */
  lemma {:induction false} FlipTestIsExact(values: seq<real>, m: nat)
    ensures |Positions(Patterns(|values|), HasPAtMost(m, values))| <= m
  {
    hide Positions, HasPAtMost;
    hide Patterns, CountSignificant, CountExtreme, SignedSum, Flipped, ExtremePatterns;
    var patterns := Patterns(|values|);
    PatternLengths(|values|);
    SignificantAreCounted(patterns, values, m);
    if CountSignificant(patterns, values, m) > 0 {
      var least := LeastSignificant(patterns, values, m);
      PatternsMembers(|values|, least);
      FlippedCount(least, values);
      SignificantAreExtreme(patterns, values, m, Abs(SignedSum(least, values)) - TOLERANCE);
    }
  }

  // ----- samples whose values all have one magnitude -----

  ghost predicate OneMagnitude(values: seq<real>, c: real) {
    c > 0.0 && forall i :: 0 <= i < |values| ==> values[i] == c || values[i] == -c
  }

  /** `n` steps of size `c`. */
  function Steps(c: real, n: int): real {
    c * n as real
  }

  lemma OneStep(c: real, n: int)
    ensures Steps(c, n + 1) == Steps(c, n) + c && Steps(c, 0) == 0.0
  {
    assert (n + 1) as real == n as real + 1.0;
  }

  lemma StepsOpposed(c: real, n: int)
    ensures Steps(c, -n) == -Steps(c, n)
  {
    assert (-n) as real == -(n as real);
  }

  lemma MoreSteps(c: real, a: int, b: int)
    requires c > 0.0 && a <= b
    ensures Steps(c, a) <= Steps(c, b)
  {
    var d := (b - a) as real;
    assert c * b as real == c * a as real + c * d;
    assert c * d >= 0.0;
  }

  /** `offset` after `j` of `n` steps of size `c` went down and the rest up. */
  function Landing(n: int, j: int, c: real, offset: real): real {
    offset + Steps(c, n - 2 * j)
  }

  /** The first `m` landings, weighted by how many patterns reach them, that clear the bar. */
  function WeightedLandings(n: nat, m: nat, c: real, offset: real, bar: real): nat {
    if m == 0 then 0
    else WeightedLandings(n, m - 1, c, offset, bar)
         + if Abs(Landing(n, m - 1, c, offset)) >= bar then Binom(n, m - 1) else 0
  }

  lemma {:induction false} LandingsStep(n: nat, m: nat, c: real, offset: real, bar: real)
    requires n > 0
    ensures WeightedLandings(n, m + 1, c, offset, bar)
         == WeightedLandings(n - 1, m + 1, c, offset + c, bar) + WeightedLandings(n - 1, m, c, offset - c, bar)
  {
    LandingShift(n, m, c, offset);
    if m > 0 {
      LandingsStep(n, m - 1, c, offset, bar);
    } else {
      assert WeightedLandings(n, 0, c, offset, bar) == 0;
    }
  }

  lemma LandingShift(n: int, j: int, c: real, offset: real)
    ensures Landing(n, j, c, offset) == Landing(n - 1, j, c, offset + c)
    ensures Landing(n, j, c, offset) == Landing(n - 1, j - 1, c, offset - c)
  {
    hide Steps;
    OneStep(c, n - 2 * j - 1);
    OneStep(c, n - 2 * j);
  }

  lemma OneMagnitudeTail(values: seq<real>, c: real)
    requires OneMagnitude(values, c) && values != []
    ensures OneMagnitude(values[1..], c) && (values[0] == c || values[0] == -c)
  {
    assert forall i :: 0 <= i < |values| - 1 ==> values[1..][i] == values[i + 1];
  }

  lemma OneLanding(c: real, offset: real, bar: real)
    ensures WeightedLandings(0, 1, c, offset, bar) == if Abs(offset) >= bar then 1 else 0
  {
    hide Steps, Abs;
    OneStep(c, 0);
    assert WeightedLandings(0, 1, c, offset, bar)
        == WeightedLandings(0, 0, c, offset, bar) + if Abs(Landing(0, 0, c, offset)) >= bar then Binom(0, 0) else 0;
  }

  lemma {:induction false} BranchLandings(values: seq<real>, c: real, offset: real, bar: real)
    requires OneMagnitude(values, c)
    ensures Branch(values, offset, bar) == WeightedLandings(|values|, |values| + 1, c, offset, bar)
  {
    hide Landing, Abs, OneMagnitude, WeightedLandings;
    var n := |values|;
    if n == 0 {
      OneLanding(c, offset, bar);
    } else {
      OneMagnitudeTail(values, c);
      BranchLandings(values[1..], c, offset + c, bar);
      BranchLandings(values[1..], c, offset - c, bar);
      LandingsStep(n, n, c, offset, bar);
      LastLanding(n - 1, c, offset + c, bar);
    }
  }

  lemma LastLanding(n: nat, c: real, offset: real, bar: real)
    ensures WeightedLandings(n, n + 2, c, offset, bar) == WeightedLandings(n, n + 1, c, offset, bar)
  {
    hide Landing, Abs;
    BinomAbove(n, n + 1);
  }

  lemma {:induction false} OneMagnitudeSum(values: seq<real>, c: real)
    requires OneMagnitude(values, c)
    ensures c > 0.0 && CountPositive(values) + CountNegative(values) == |values|
    ensures Sum(values) == Steps(c, CountPositive(values) - CountNegative(values))
  {
    hide Steps;
    if values == [] {
      OneStep(c, 0);
    } else {
      OneMagnitudeTail(values, c);
      OneMagnitudeSum(values[1..], c);
      var balance := CountPositive(values[1..]) - CountNegative(values[1..]);
      OneStep(c, balance);
      OneStep(c, balance - 1);
    }
  }

  /** The rarer sign's count, and the tail weight both tests compare. */
  function Rarer(values: seq<real>): nat {
    var pos, neg := CountPositive(values), CountNegative(values);
    if pos < neg then pos else neg
  }

  /** How far landing `j` of `n` lies from zero, in steps. */
  function Distance(n: nat, j: nat): nat {
    if n < 2 * j then 2 * j - n else n - 2 * j
  }

  lemma LandingMagnitude(n: nat, j: nat, c: real)
    requires c > 0.0
    ensures Abs(Landing(n, j, c, 0.0)) == Steps(c, Distance(n, j))
  {
    hide Steps, Abs;
    ScaledAbs(c, n - 2 * j, Distance(n, j));
  }

  lemma BarInSteps(values: seq<real>, c: real)
    requires OneMagnitude(values, c)
    ensures c > 0.0 && 2 * Rarer(values) <= |values|
    ensures Bar(values) == Steps(c, Distance(|values|, Rarer(values))) - TOLERANCE
  {
    hide Steps, Abs, OneMagnitude, Sum;
    OneMagnitudeSum(values, c);
    ScaledAbs(c, CountPositive(values) - CountNegative(values), Distance(|values|, Rarer(values)));
  }

  /** Which landings clear the sample's bar, exactly. */
  lemma ClearsBar(values: seq<real>, c: real, j: nat)
    requires values != [] && OneMagnitude(values, c) && j <= |values|
    ensures var n, k := |values|, Rarer(values);
            var clears := Abs(Landing(n, j, c, 0.0)) >= Bar(values);
            && (j <= k || j >= n - k ==> clears)
            && (k < j < n - k && 2.0 * c > TOLERANCE ==> !clears)
            && (j == k + 1 < n - k && 2.0 * c <= TOLERANCE ==> clears)
  {
    hide Steps, Abs, OneMagnitude, Bar, Landing, Rarer;
    var n, k := |values|, Rarer(values);
    BarInSteps(values, c);
    LandingMagnitude(n, j, c);
    ReachesBar(c, Distance(n, j), Distance(n, k));
  }

  lemma ReachesBar(c: real, far: int, gap: int)
    requires c > 0.0
    ensures far >= gap ==> Steps(c, far) >= Steps(c, gap) - TOLERANCE
    ensures far <= gap - 2 && 2.0 * c > TOLERANCE ==> Steps(c, far) < Steps(c, gap) - TOLERANCE
    ensures far == gap - 2 && 2.0 * c <= TOLERANCE ==> Steps(c, far) >= Steps(c, gap) - TOLERANCE
  {
    hide Steps;
    OneStep(c, gap - 2);
    OneStep(c, gap - 1);
    if far >= gap {
      MoreSteps(c, gap, far);
    } else if far <= gap - 2 {
      MoreSteps(c, far, gap - 2);
    }
  }

  lemma ScaledAbs(c: real, x: int, magnitude: int)
    requires c > 0.0 && (x == magnitude || x == -magnitude) && magnitude >= 0
    ensures Abs(Steps(c, x)) == Steps(c, magnitude)
  {
    hide Steps;
    OneStep(c, 0);
    MoreSteps(c, 0, magnitude);
    StepsOpposed(c, magnitude);
  }

  /** Both tails of the row, as far as the first `m` terms reach into them. */
  function TwoTails(n: nat, k: nat, m: nat): int
    requires 2 * k < n
  {
    if m <= k + 1 then BinomPrefix(n, m)
    else if m <= n - k then BinomPrefix(n, k + 1)
    else BinomPrefix(n, k + 1) + BinomPrefix(n, m) - BinomPrefix(n, n - k)
  }

  lemma {:induction false} LandingsAreTails(values: seq<real>, c: real, m: nat)
    requires values != [] && OneMagnitude(values, c)
    requires m <= |values| + 1 && 2 * Rarer(values) < |values|
    ensures var n, k := |values|, Rarer(values);
            var weight := WeightedLandings(n, m, c, 0.0, Bar(values));
            && weight >= TwoTails(n, k, m)
            && (2.0 * c > TOLERANCE ==> weight == TwoTails(n, k, m))
            && (2.0 * c <= TOLERANCE && k + 1 < n - k && m > k + 1 ==> weight > TwoTails(n, k, m))
  {
    hide Landing, Abs, OneMagnitude, Bar, Rarer;
    if m > 0 {
      LandingsAreTails(values, c, m - 1);
      ClearsBar(values, c, m - 1);
      BinomPositive(|values|, m - 1);
    }
  }

  lemma {:induction false} AllLandingsClear(values: seq<real>, c: real, m: nat)
    requires values != [] && OneMagnitude(values, c)
    requires m <= |values| + 1 && 2 * Rarer(values) >= |values|
    ensures WeightedLandings(|values|, m, c, 0.0, Bar(values)) == BinomPrefix(|values|, m)
  {
    hide Landing, Abs, OneMagnitude, Bar, Rarer;
    if m > 0 {
      AllLandingsClear(values, c, m - 1);
      ClearsBar(values, c, m - 1);
    }
  }

  /** Twice a tail against the whole row. */
  lemma TwiceTail(n: nat, k: nat)
    requires 2 * k <= n
    ensures 2 * k < n ==> 2 * BinomPrefix(n, k + 1) <= Pow2(n)
    ensures 2 * k == n ==> 2 * BinomPrefix(n, k + 1) >= Pow2(n)
  {
    hide Pow2, BinomPrefix;
    PrefixMirror(n, k + 1);
    if 2 * k < n {
      PrefixMonotone(n, k + 1, n - k);
    } else {
      PrefixMonotone(n, n - k, k + 1);
    }
  }

  lemma CappedShare(n: nat, k: nat)
    requires 2 * k <= n
    ensures var twice := 2.0 * BinomCdf(k, n, 0.5);
            (if twice < 1.0 then twice else 1.0) == Share(if 2 * k < n then 2 * BinomPrefix(n, k + 1) else Pow2(n), n)
  {
    hide Pow2, BinomPrefix, BinomCdf, Share;
    var tail := BinomPrefix(n, k + 1);
    HalfCdf(k, n);
    ShareAdd(tail, tail, n);
    ShareOrder(2 * tail, Pow2(n), n);
    TwiceTail(n, k);
  }

  /** The sign test's p-value as a share of the `2^n` patterns. */
  lemma SignTestShare(values: seq<real>, c: real)
    requires values != [] && OneMagnitude(values, c)
    ensures var n, k := |values|, Rarer(values);
            SignTest(values).p == Some(Share(if 2 * k < n then 2 * BinomPrefix(n, k + 1) else Pow2(n), n))
  {
    hide Pow2, BinomPrefix, BinomCdf, Share, OneMagnitude, CountPositive, CountNegative, Sum, Steps;
    OneMagnitudeSum(values, c);
    CappedShare(|values|, Rarer(values));
  }

  /**
    On samples of one non-zero magnitude the enumerated test gives the sign test's
    p-value exactly when the tolerance cannot merge two neighbouring sums, or the
    signs are as balanced as they can be.
   */
  lemma FlipTestIsSignTest(values: seq<real>, c: real)
    requires values != [] && OneMagnitude(values, c)
    ensures var n, k := |values|, Rarer(values);
            SignTest(values).p == Some(Share(ExtremePatterns(values), n))
            <==> 2.0 * c > 0.000000000001 || n - 2 * k <= 1
  {
    hide WeightedLandings, Patterns, CountExtreme, Branch, Share, SignTest, Rarer, Bar, Pow2, BinomPrefix;
    var n, k := |values|, Rarer(values);
    PatternsBranch(values, 0.0, Bar(values));
    BranchLandings(values, c, 0.0, Bar(values));
    SignTestShare(values, c);
    if 2 * k < n {
      LandingsAreTails(values, c, n + 1);
      PrefixAll(n, n + 1);
      PrefixMirror(n, k + 1);
      ShareOrder(ExtremePatterns(values), 2 * BinomPrefix(n, k + 1), n);
      if n - 2 * k == 1 {
        LandingsAtMostAll(n, n + 1, c, 0.0, Bar(values));
      }
    } else {
      AllLandingsClear(values, c, n + 1);
      PrefixAll(n, n + 1);
    }
  }

  lemma {:induction false} LandingsAtMostAll(n: nat, m: nat, c: real, offset: real, bar: real)
    ensures WeightedLandings(n, m, c, offset, bar) <= BinomPrefix(n, m)
  {
    if m > 0 {
      LandingsAtMostAll(n, m - 1, c, offset, bar);
    }
  }

  /** A constant non-zero sample: the smallest p-value there is, unless the tolerance swallows it. */
  lemma ConstantSample(values: seq<real>)
    requires values != [] && values[0] != 0.0
    requires forall i :: 0 <= i < |values| ==> values[i] == values[0]
    ensures SignTest(values).p == Some(Share(2, |values|))
    ensures Share(ExtremePatterns(values), |values|) == Share(2, |values|)
            <==> 2.0 * Abs(values[0]) > 0.000000000001 || |values| == 1
  {
    var c := Abs(values[0]);
    OneSign(values, values[0]);
    SignTestShare(values, c);
    FlipTestIsSignTest(values, c);
    assert BinomPrefix(|values|, 1) == BinomPrefix(|values|, 0) + Binom(|values|, 0);
  }

  lemma {:induction false} OneSign(values: seq<real>, v: real)
    requires v != 0.0 && forall i :: 0 <= i < |values| ==> values[i] == v
    ensures Rarer(values) == 0
    ensures v > 0.0 ==> CountNegative(values) == 0
    ensures v < 0.0 ==> CountPositive(values) == 0
  {
    if values != [] {
      OneSign(values[1..], v);
    }
  }

  /** An input on which the two tests part: two equal values, each a tenth of the tolerance. */
  lemma ToleranceMergesSums()
    ensures var values := [0.0000000000001, 0.0000000000001];
            SignTest(values).p != Some(Share(ExtremePatterns(values), 2))
  {
    var values := [0.0000000000001, 0.0000000000001];
    ConstantSample(values);
  }
}
