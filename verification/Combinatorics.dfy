/** Binomial coefficients and their partial row sums, shared by the split counts and the exact tests. */
module Combinatorics {

  /** `math.comb(n, k)`: zero when `k > n`. */
  function Binom(n: nat, k: nat): nat {
    if k == 0 then 1
    else if n == 0 then 0
    else Binom(n - 1, k - 1) + Binom(n - 1, k)
  }

  function Factorial(n: nat): (f: nat)
    ensures f > 0
  {
    if n == 0 then 1 else n * Factorial(n - 1)
  }

  function Pow2(n: nat): (p: nat)
    ensures p > 0
  {
    if n == 0 then 1 else 2 * Pow2(n - 1)
  }

  /** `sum(comb(n, i) for i in range(m))`. */
  function BinomPrefix(n: nat, m: nat): nat {
    if m == 0 then 0 else BinomPrefix(n, m - 1) + Binom(n, m - 1)
  }

  lemma {:induction false} BinomAbove(n: nat, k: nat)
    requires k > n
    ensures Binom(n, k) == 0
  {
    if n > 0 {
      BinomAbove(n - 1, k - 1);
      BinomAbove(n - 1, k);
    }
  }

  lemma {:induction false} BinomPositive(n: nat, k: nat)
    requires k <= n
    ensures Binom(n, k) > 0
  {
    if k > 0 {
      BinomPositive(n - 1, k - 1);
    }
  }

  lemma {:induction false} BinomFull(n: nat)
    ensures Binom(n, n) == 1
  {
    if n > 0 {
      BinomFull(n - 1);
      BinomAbove(n - 1, n);
    }
  }

  lemma {:induction false} BinomSymmetric(n: nat, k: nat)
    requires k <= n
    ensures Binom(n, k) == Binom(n, n - k)
  {
    if k == 0 || k == n {
      BinomFull(n);
    } else {
      BinomSymmetric(n - 1, k - 1);
      BinomSymmetric(n - 1, k);
    }
  }

  /** The recurrence computes `n! / (k! (n-k)!)`. */
  lemma {:induction false} BinomIsFactorialQuotient(n: nat, k: nat)
    requires k <= n
    ensures Binom(n, k) * (Factorial(k) * Factorial(n - k)) == Factorial(n)
  {
    if k == 0 || k == n {
      BinomFull(n);
    } else {
      var a, b := Factorial(k - 1), Factorial(n - k - 1);
      BinomIsFactorialQuotient(n - 1, k - 1);
      BinomIsFactorialQuotient(n - 1, k);
      Regroup(Binom(n - 1, k - 1), Binom(n - 1, k), k, n - k, a, b, Factorial(n - 1));
    }
  }

  lemma Regroup(x: int, y: int, k: int, m: int, a: int, b: int, f: int)
    requires x * (a * (m * b)) == f && y * ((k * a) * b) == f
    ensures (x + y) * ((k * a) * (m * b)) == (k + m) * f
  {
    assert (k * a) * (m * b) == k * (a * (m * b)) == m * ((k * a) * b);
    assert x * (k * (a * (m * b))) == k * f;
    assert y * (m * ((k * a) * b)) == m * f;
  }

  lemma {:induction false} PrefixStep(n: nat, m: nat)
    ensures BinomPrefix(n + 1, m + 1) == BinomPrefix(n, m + 1) + BinomPrefix(n, m)
  {
    if m > 0 {
      PrefixStep(n, m - 1);
    }
  }

  lemma {:induction false} PrefixAll(n: nat, m: nat)
    requires m > n
    ensures BinomPrefix(n, m) == Pow2(n)
    decreases n, m
  {
    if m > n + 1 {
      PrefixAll(n, m - 1);
      BinomAbove(n, m - 1);
    } else if n > 0 {
      PrefixStep(n - 1, n);
      PrefixAll(n - 1, n + 1);
      PrefixAll(n - 1, n);
    } else {
      assert BinomPrefix(0, 1) == BinomPrefix(0, 0) + Binom(0, 0);
    }
  }

  /** A row splits into its first `m` terms and, by symmetry, the mirror of the rest. */
  lemma {:induction false} PrefixMirror(n: nat, m: nat)
    requires m <= n + 1
    ensures BinomPrefix(n, m) + BinomPrefix(n, n + 1 - m) == Pow2(n)
  {
    if m == 0 {
      PrefixAll(n, n + 1);
    } else {
      PrefixMirror(n, m - 1);
      BinomSymmetric(n, m - 1);
    }
  }

  lemma {:induction false} PrefixMonotone(n: nat, a: nat, b: nat)
    requires a <= b
    ensures BinomPrefix(n, a) <= BinomPrefix(n, b)
    ensures a < b <= n + 1 ==> BinomPrefix(n, a) < BinomPrefix(n, b)
  {
    if a < b {
      PrefixMonotone(n, a, b - 1);
      if b <= n + 1 {
        BinomPositive(n, b - 1);
      }
    }
  }
}
