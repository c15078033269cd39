// PublicSafety/crimeStats.py: the combination formula and the cumulative
// hypergeometric sum used to flag crime "spikes".  Python's float division is
// modelled exactly, over `real`.
module CrimeStats {
  import opened Results

  function Factorial(n: nat): (r: nat)
    ensures r >= 1
  {
    if n == 0 then 1 else n * Factorial(n - 1)
  }

  /** Pascal's rule: the reference definition of "n choose k"; it is positive
      exactly when k <= n. */
  function Binom(n: nat, k: nat): (r: nat)
    ensures r > 0 <==> k <= n
  {
    if k == 0 then 1
    else if n == 0 then 0
    else Binom(n - 1, k - 1) + Binom(n - 1, k)
  }

  lemma {:induction false} BinomDiagonal(n: nat)
    ensures Binom(n, n) == 1
  {
    if n > 0 {
      BinomDiagonal(n - 1);
    }
  }

  lemma {:induction false} BinomSymmetric(n: nat, k: nat)
    requires k <= n
    ensures Binom(n, k) == Binom(n, n - k)
  {
    if k == 0 {
      BinomDiagonal(n);
    } else if k == n {
      BinomDiagonal(n);
    } else {
      BinomSymmetric(n - 1, k - 1);
      BinomSymmetric(n - 1, k);
      assert (n - 1) - (k - 1) == n - k;
    }
  }

  lemma Reassociate(a: int, b: int, c: int, d: int)
    ensures a * (b * (c * d)) == c * (a * (b * d))
  {
  }

  lemma Distribute(a: int, b: int, c: int)
    ensures (a + b) * c == a * c + b * c
  {
  }

  /** One step of the factorial identity, with the factorials named. */
  lemma PascalFactorialStep(a: nat, b: nat, p: nat, q: nat, fk: nat, fk1: nat, k: nat, m: nat, f: nat)
    requires p == m * q && fk == k * fk1
    requires a * (p * fk1) == f && b * (q * fk) == f
    ensures (a + b) * (p * fk) == (k + m) * f
  {
    Distribute(a, b, p * fk);
    Reassociate(a, p, k, fk1);
    assert b * (p * fk) == b * ((m * q) * fk);
    assert b * ((m * q) * fk) == m * (b * (q * fk));
    Distribute(k, m, f);
  }

  /** The factorial formula holds for Pascal's coefficients, so the division in
      `combination` leaves no remainder. */
  lemma {:induction false} BinomFactorials(n: nat, k: nat)
    requires k <= n
    ensures Binom(n, k) * (Factorial(n - k) * Factorial(k)) == Factorial(n)
  {
    if k == 0 {
    } else if k == n {
      BinomDiagonal(n);
    } else {
      BinomFactorials(n - 1, k - 1);
      BinomFactorials(n - 1, k);
      assert (n - 1) - (k - 1) == n - k;
      PascalFactorialStep(Binom(n - 1, k - 1), Binom(n - 1, k), Factorial(n - k), Factorial(n - k - 1),
                          Factorial(k), Factorial(k - 1), k, n - k, Factorial(n - 1));
    }
  }

  lemma MultipleAtLeast(d: int, t: int)
    requires d > 0 && t >= 1
    ensures d * t >= d
  {
    assert d * t == d * (t - 1) + d;
    if t > 1 {
      MultipleAtLeast(d, t - 1);
    }
  }

  lemma ExactDivision(a: int, d: int, q: int)
    requires d > 0 && a == q * d
    ensures a / d == q
  {
    var r, m := a / d, a % d;
    assert a == d * r + m && 0 <= m < d;
    assert d * (q - r) == m;
    if q - r >= 1 {
      MultipleAtLeast(d, q - r);
    } else if q - r <= -1 {
      MultipleAtLeast(d, r - q);
    }
  }

  /** `combination(n, k)`: n! / ((n-k)! * k!).  Python's `math.factorial` rejects
      negative arguments, so the formula is defined for 0 <= k <= n only. */
  function Combination(n: nat, k: nat): (c: nat)
    requires k <= n
    ensures c == Binom(n, k)
    ensures c * (Factorial(n - k) * Factorial(k)) == Factorial(n)
  {
    BinomFactorials(n, k);
    ExactDivision(Factorial(n), Factorial(n - k) * Factorial(k), Binom(n, k));
    Factorial(n) / (Factorial(n - k) * Factorial(k))
  }

  lemma CombinationSymmetric(n: nat, k: nat)
    requires k <= n
    ensures Combination(n, k) == Combination(n, n - k)
  {
    BinomSymmetric(n, k);
  }

  lemma CombinationEdges(n: nat)
    ensures Combination(n, 0) == 1 && Combination(n, n) == 1
  {
    BinomDiagonal(n);
  }

  // ---------------------------------------------------------------------------
  // hypergeometric(N, G, n, x), as written: for i in range(0, x + 1), add
  // combination(G, i) * combination(N - G, n - i) / combination(N, n).

  /** The three `combination` calls of term `i` receive arguments `factorial` accepts. */
  predicate TermDefined(N: int, G: int, n: int, i: int)
  {
    0 <= i <= G && 0 <= n - i <= N - G && 0 <= n <= N
  }

  function Term(N: int, G: int, n: int, i: int): real
    requires TermDefined(N, G, n, i)
  {
    ((Combination(G, i) * Combination(N - G, n - i)) as real) / (Combination(N, n) as real)
  }

  /** The sum as the loop computes it; `None` when some `combination` raises. */
  function HyperAsWritten(N: int, G: int, n: int, x: int): Option<real>
    decreases if x < 0 then 0 else x + 1
  {
    if x < 0 then Some(0.0)
    else match HyperAsWritten(N, G, n, x - 1)
      case None => None
      case Some(acc) => if TermDefined(N, G, n, x) then Some(acc + Term(N, G, n, x)) else None
  }

  /** The arguments for which the as-written loop never raises. */
  predicate AsWrittenDefined(N: int, G: int, n: int, x: int)
  {
    x < 0 || (x <= G && x <= n && n <= N - G)
  }

  lemma {:induction false} HyperAsWrittenDefinedIff(N: int, G: int, n: int, x: int)
    ensures HyperAsWritten(N, G, n, x).Some? <==> AsWrittenDefined(N, G, n, x)
    decreases if x < 0 then 0 else x + 1
  {
    if x >= 0 {
      HyperAsWrittenDefinedIff(N, G, n, x - 1);
      if x >= 1 && !AsWrittenDefined(N, G, n, x - 1) {
        assert !AsWrittenDefined(N, G, n, x);
      }
    }
  }

  lemma {:induction false} HyperAsWrittenStaysUndefined(N: int, G: int, n: int, i: int, x: int)
    requires 0 <= i <= x
    requires HyperAsWritten(N, G, n, i).None?
    ensures HyperAsWritten(N, G, n, x).None?
    decreases x - i
  {
    if i < x {
      HyperAsWrittenStaysUndefined(N, G, n, i + 1, x);
    }
  }

  /** The loop of `hypergeometric`, raising (`None`) where a `combination` would. */
  method Hypergeometric(N: int, G: int, n: int, x: int) returns (r: Option<real>)
    ensures r == HyperAsWritten(N, G, n, x)
    ensures x < 0 ==> r == Some(0.0)
  {
    var result := 0.0;
    var i := 0;
    while i < x + 1
      invariant 0 <= i && (if x >= 0 then i <= x + 1 else i == 0)
      invariant HyperAsWritten(N, G, n, i - 1) == Some(result)
    {
      if !TermDefined(N, G, n, i) {
        assert HyperAsWritten(N, G, n, i) == None;
        HyperAsWrittenStaysUndefined(N, G, n, i, x);
        return None;
      }
      var a := Combination(G, i);
      var b := Combination(N - G, n - i);
      var c := Combination(N, n);
      result := result + ((a * b) as real) / (c as real);
      assert HyperAsWritten(N, G, n, i) == Some(result);
      i := i + 1;
    }
    assert x >= 0 ==> i - 1 == x;
    assert x < 0 ==> result == 0.0;
    r := Some(result);
  }

  // ---------------------------------------------------------------------------
  // The hypergeometric cumulative distribution with the usual convention that
  // "a choose b" is zero outside 0 <= b <= a.

  function BinomZ(a: int, b: int): nat
  {
    if a < 0 || b < 0 then 0 else Binom(a, b)
  }

  /** Sum over i in [0, k] of C(G, i) * C(M, n - i). */
  function TermSum(G: nat, M: nat, n: int, k: int): nat
    decreases if k < 0 then 0 else k + 1
  {
    if k < 0 then 0 else TermSum(G, M, n, k - 1) + BinomZ(G, k) * BinomZ(M, n - k)
  }

  /** P(X <= x) for X hypergeometric: x good items among n drawn from N of which G are good. */
  function HyperCdf(N: nat, G: nat, n: nat, x: int): real
    requires G <= N && n <= N
    decreases if x < 0 then 0 else x + 1
  {
    if x < 0 then 0.0
    else HyperCdf(N, G, n, x - 1) + ((BinomZ(G, x) * BinomZ(N - G, n - x)) as real) / (Binom(N, n) as real)
  }

  lemma AddFractions(s: real, t: real, d: real)
    requires d > 0.0
    ensures s / d + t / d == (s + t) / d
  {
  }

  lemma FractionMonotone(s: real, t: real, d: real)
    requires s <= t && d > 0.0
    ensures s / d <= t / d
  {
  }

  lemma SelfFraction(d: real)
    requires d > 0.0
    ensures d / d == 1.0
  {
  }

  lemma FractionBounds(s: real, d: real)
    requires 0.0 <= s <= d && d > 0.0
    ensures 0.0 <= s / d <= 1.0
  {
  }

  lemma {:induction false} HyperCdfIsRatio(N: nat, G: nat, n: nat, x: int)
    requires G <= N && n <= N
    ensures HyperCdf(N, G, n, x) == (TermSum(G, N - G, n, x) as real) / (Binom(N, n) as real)
    decreases if x < 0 then 0 else x + 1
  {
    if x >= 0 {
      HyperCdfIsRatio(N, G, n, x - 1);
      var t := BinomZ(G, x) * BinomZ(N - G, n - x);
      assert TermSum(G, N - G, n, x) == TermSum(G, N - G, n, x - 1) + t;
      AddFractions(TermSum(G, N - G, n, x - 1) as real, t as real, Binom(N, n) as real);
    }
  }

  lemma BinomZStep(G: nat, k: int)
    requires k >= 0
    ensures BinomZ(G + 1, k) == BinomZ(G, k - 1) + BinomZ(G, k)
  {
  }

  lemma {:induction false} TermSumPascal(G: nat, M: nat, n: int, k: int)
    requires k <= n
    ensures TermSum(G + 1, M, n, k) == TermSum(G, M, n, k) + TermSum(G, M, n - 1, k - 1)
    decreases if k < 0 then 0 else k + 1
  {
    if k >= 0 {
      TermSumPascal(G, M, n, k - 1);
      BinomZStep(G, k);
      assert (n - 1) - (k - 1) == n - k;
      Distribute(BinomZ(G, k - 1), BinomZ(G, k), BinomZ(M, n - k));
    }
  }

  lemma {:induction false} TermSumNoGood(M: nat, n: int, k: int)
    requires k >= 0
    ensures TermSum(0, M, n, k) == BinomZ(M, n)
    decreases k
  {
    if k > 0 {
      TermSumNoGood(M, n, k - 1);
    }
  }

  /** Vandermonde's identity: the terms over every possible count add up to C(G + M, n). */
  lemma {:induction false} Vandermonde(G: nat, M: nat, n: nat)
    ensures TermSum(G, M, n, n) == Binom(G + M, n)
  {
    if G == 0 {
      TermSumNoGood(M, n, n);
    } else if n > 0 {
      TermSumPascal(G - 1, M, n, n);
      Vandermonde(G - 1, M, n);
      Vandermonde(G - 1, M, n - 1);
    }
  }

  lemma {:induction false} TermSumMonotone(G: nat, M: nat, n: int, x: int, y: int)
    requires x <= y
    ensures TermSum(G, M, n, x) <= TermSum(G, M, n, y)
    decreases y - x
  {
    if x < y {
      TermSumMonotone(G, M, n, x, y - 1);
    }
  }

  lemma {:induction false} TermSumBeyond(G: nat, M: nat, n: int, x: int)
    requires 0 <= n <= x
    ensures TermSum(G, M, n, x) == TermSum(G, M, n, n)
    decreases x - n
  {
    if x > n {
      TermSumBeyond(G, M, n, x - 1);
    }
  }

  /** The result is a probability. */
  lemma HyperCdfIsProbability(N: nat, G: nat, n: nat, x: int)
    requires G <= N && n <= N
    ensures 0.0 <= HyperCdf(N, G, n, x) <= 1.0
  {
    HyperCdfIsRatio(N, G, n, x);
    Vandermonde(G, N - G, n);
    if x <= n {
      TermSumMonotone(G, N - G, n, x, n);
    } else {
      TermSumBeyond(G, N - G, n, x);
    }
    FractionBounds(TermSum(G, N - G, n, x) as real, Binom(N, n) as real);
  }

  /** Summing over every count up to the sample size gives certainty. */
  lemma HyperCdfComplete(N: nat, G: nat, n: nat, x: int)
    requires G <= N && n <= N && x >= n
    ensures HyperCdf(N, G, n, x) == 1.0
  {
    HyperCdfIsRatio(N, G, n, x);
    Vandermonde(G, N - G, n);
    TermSumBeyond(G, N - G, n, x);
    assert G + (N - G) == N;
    SelfFraction(Binom(N, n) as real);
  }

  /** Every term is non-negative, so the sum does not decrease as `x` grows. */
  lemma HyperCdfMonotone(N: nat, G: nat, n: nat, x: int, y: int)
    requires G <= N && n <= N && x <= y
    ensures HyperCdf(N, G, n, x) <= HyperCdf(N, G, n, y)
  {
    HyperCdfIsRatio(N, G, n, x);
    HyperCdfIsRatio(N, G, n, y);
    TermSumMonotone(G, N - G, n, x, y);
    FractionMonotone(TermSum(G, N - G, n, x) as real, TermSum(G, N - G, n, y) as real, Binom(N, n) as real);
  }

  /** Where the source does not raise, it computes the hypergeometric distribution. */
  lemma {:induction false} HyperAsWrittenAgrees(N: int, G: int, n: int, x: int)
    requires 0 <= x && AsWrittenDefined(N, G, n, x)
    ensures 0 <= G <= N && 0 <= n <= N
    ensures HyperAsWritten(N, G, n, x) == Some(HyperCdf(N, G, n, x))
    decreases x
  {
    if x > 0 {
      HyperAsWrittenAgrees(N, G, n, x - 1);
    }
    assert TermDefined(N, G, n, x);
    assert Term(N, G, n, x) == ((BinomZ(G, x) * BinomZ(N - G, n - x)) as real) / (Binom(N, n) as real);
  }

  /** The as-written sum is a probability wherever it is defined, and 0 for x < 0. */
  lemma HyperAsWrittenIsProbability(N: int, G: int, n: int, x: int)
    requires AsWrittenDefined(N, G, n, x)
    ensures HyperAsWritten(N, G, n, x).Some?
    ensures 0.0 <= HyperAsWritten(N, G, n, x).value <= 1.0
  {
    if x >= 0 {
      HyperAsWrittenAgrees(N, G, n, x);
      HyperCdfIsProbability(N, G, n, x);
    }
  }

  /** The source raises on a sample the distribution covers: with N = 2, G = 1, n = 2,
      the i = 0 term asks for combination(1, 2), i.e. factorial(-1), although
      P(X <= 1) is exactly 1. */
  lemma HypergeometricRaisesOnValidSample()
    ensures HyperAsWritten(2, 1, 2, 1) == None
    ensures HyperCdf(2, 1, 2, 1) == 1.0
  {
    assert !TermDefined(2, 1, 2, 0);
    HyperCdfComplete(2, 1, 2, 2);
    assert HyperCdf(2, 1, 2, 2) == HyperCdf(2, 1, 2, 1) + ((BinomZ(1, 2) * BinomZ(1, 0)) as real) / (Binom(2, 2) as real);
  }
}
