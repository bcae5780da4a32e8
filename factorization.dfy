/** The trial-division loop of PrimeNumberDecomposition, stated as a
    function of the loop state `(n, k)`, and what it computes: the prime
    factors of the request, with multiplicity, in non-decreasing order. */
module Factorization {

  /** No `d` with `2 <= d < k` divides `n`: every divisor the loop has
      skipped past has been divided out. */
  predicate NoFactorBelow(n: int, k: int) {
    forall d :: 2 <= d < k ==> n % d != 0
  }

  predicate IsPrime(p: int) {
    p >= 2 && NoFactorBelow(p, p)
  }

  function Product(s: seq<int>): int {
    if s == [] then 1 else s[0] * Product(s[1..])
  }

  predicate NonDecreasing(s: seq<int>) {
    forall i, j :: 0 <= i < j < |s| ==> s[i] <= s[j]
  }

  /** While `n > 1`, the candidate divisor never passes `n`. */
  lemma CandidateBound(n: int, k: int)
    requires 2 <= k && NoFactorBelow(n, k) && n > 1
    ensures k <= n
  {
    assert n % n == 0;
  }

  lemma MulNonNeg(a: int, b: int)
    requires a >= 0 && b >= 0
    ensures a * b >= 0
  {
  }

  lemma DivMod(x: int, d: int)
    requires d > 0
    ensures x == d * (x / d) + x % d && 0 <= x % d < d
  {
  }

  lemma Distribute(d: int, m: int, q: int)
    ensures d * m - d * q == d * (m - q)
  {
  }

  /** A multiple of `d` leaves remainder 0. */
  lemma MultipleMod(d: int, m: int)
    requires d > 0
    ensures (d * m) % d == 0
  {
    var x := d * m;
    DivMod(x, d);
    var q, r := x / d, x % d;
    Distribute(d, m, q);
    var t := m - q;
    assert d * t == r;
    if t > 0 {
      MulNonNeg(d, t - 1);
      Distribute(d, t, 1);
    } else if t < 0 {
      MulNonNeg(d, -t);
      Distribute(d, 0, -t);
    }
  }

  /** A divisor of `n / k` divides `n` when `k` divides `n`. */
  lemma DivisorOfQuotient(n: int, k: int, d: int)
    requires n > 0 && k > 0 && d > 0 && n % k == 0 && (n / k) % d == 0
    ensures n % d == 0
  {
    var q := n / k;
    var r := q / d;
    DivMod(n, k);
    DivMod(q, d);
    assert n == k * (d * r);
    assert n == d * (k * r);
    MultipleMod(d, k * r);
  }

  /** Dividing `k` out of `n` keeps every skipped divisor out. */
  lemma QuotientKeepsNoFactorBelow(n: int, k: int)
    requires 2 <= k && NoFactorBelow(n, k) && n > 1 && n % k == 0
    ensures NoFactorBelow(n / k, k)
    ensures 1 <= n / k < n
  {
    forall d | 2 <= d < k
      ensures (n / k) % d != 0
    {
      if (n / k) % d == 0 {
        DivisorOfQuotient(n, k, d);
      }
    }
    var q := n / k;
    DivMod(n, k);
    assert n == k * q;
    if q < 1 {
      MulNonNeg(k, -q);
    }
    MulNonNeg(k - 2, q);
  }

  /** The messages the loop sends from state `(n, k)` until `n <= 1`:
      divide by `k` while it divides, otherwise try `k + 1`. */
  function Factorize(n: int, k: int): seq<int>
    requires 2 <= k && NoFactorBelow(n, k)
    decreases n, n - k
  {
    if n <= 1 then []
    else if n % k == 0 then
      QuotientKeepsNoFactorBelow(n, k);
      [k] + Factorize(n / k, k)
    else
      CandidateBound(n, k);
      Factorize(n, k + 1)
  }

  /** The factors sent for a request number `N`: the loop starts at `k = 2`. */
  function PrimeFactors(N: int): seq<int> {
    Factorize(N, 2)
  }

  lemma {:induction false} FactorizeProduct(n: int, k: int)
    requires 2 <= k && NoFactorBelow(n, k) && n >= 1
    ensures Product(Factorize(n, k)) == n
    decreases n, n - k
  {
    if n > 1 {
      if n % k == 0 {
        QuotientKeepsNoFactorBelow(n, k);
        FactorizeProduct(n / k, k);
        assert Factorize(n, k)[1..] == Factorize(n / k, k);
        DivMod(n, k);
      } else {
        CandidateBound(n, k);
        FactorizeProduct(n, k + 1);
      }
    }
  }

  /** When the loop sends `k`, `k` divides `n` and nothing below `k` does,
      so nothing below `k` divides `k` either. */
  lemma DivisorPassesIsPrime(n: int, k: int)
    requires 2 <= k && NoFactorBelow(n, k) && n > 1 && n % k == 0
    ensures IsPrime(k)
  {
    forall d | 2 <= d < k
      ensures k % d != 0
    {
      if k % d == 0 {
        // n == k * (n / k) and k == d * (k / d)
        var a := n / k;
        var b := k / d;
        DivMod(n, k);
        DivMod(k, d);
        assert n == k * a;
        assert k == d * b;
        assert n == d * (b * a);
        MultipleMod(d, b * a);
      }
    }
  }

  /** Every factor sent is at least the current candidate, at most the
      current `n`, and prime; and they come in non-decreasing order. */
  lemma {:induction false} FactorizeShape(n: int, k: int)
    requires 2 <= k && NoFactorBelow(n, k)
    ensures forall i :: 0 <= i < |Factorize(n, k)| ==>
              k <= Factorize(n, k)[i] <= n && IsPrime(Factorize(n, k)[i])
    ensures NonDecreasing(Factorize(n, k))
    decreases n, n - k
  {
    if n > 1 {
      if n % k == 0 {
        QuotientKeepsNoFactorBelow(n, k);
        DivisorPassesIsPrime(n, k);
        CandidateBound(n, k);
        FactorizeShape(n / k, k);
      } else {
        CandidateBound(n, k);
        FactorizeShape(n, k + 1);
      }
    }
  }

  lemma {:induction false} ProductConcat(a: seq<int>, b: seq<int>)
    ensures Product(a + b) == Product(a) * Product(b)
  {
    if a != [] {
      assert (a + b)[1..] == a[1..] + b;
      ProductConcat(a[1..], b);
    } else {
      assert a + b == b;
    }
  }

  /** The relation the loop keeps between the request number `N`, the
      current `n` and the factors sent so far: `n * Product(sent) == N`. */
  lemma LoopKeepsProduct(N: int, n: int, k: int, sent: seq<int>)
    requires 2 <= k && NoFactorBelow(n, k) && n >= 1
    requires sent + Factorize(n, k) == PrimeFactors(N)
    ensures N >= 1 ==> n * Product(sent) == N
  {
    if N >= 1 {
      FactorizeProduct(n, k);
      FactorizeProduct(N, 2);
      ProductConcat(sent, Factorize(n, k));
    }
  }

  /** The loop invariant of PrimeNumberDecomposition for request number
      `N`, loop state `(n, k)` and the factors `sent` so far. */
  ghost predicate LoopInvariant(N: int, n: int, k: int, sent: seq<int>) {
    && 2 <= k
    && NoFactorBelow(n, k)
    && sent + Factorize(n, k) == PrimeFactors(N)
    && (N >= 1 ==> n >= 1 && n * Product(sent) == N)
  }

  /** One iteration of the loop keeps its invariant, and the loop measure
      `(n, n - k)` goes down with `n - k` staying non-negative. */
  lemma LoopStep(N: int, n: int, k: int, sent: seq<int>)
    requires LoopInvariant(N, n, k, sent) && n > 1
    ensures n % k == 0 ==> 1 <= n / k < n && LoopInvariant(N, n / k, k, sent + [k])
    ensures n % k != 0 ==> k < n && LoopInvariant(N, n, k + 1, sent)
  {
    CandidateBound(n, k);
    if n % k == 0 {
      QuotientKeepsNoFactorBelow(n, k);
      assert (sent + [k]) + Factorize(n / k, k) == sent + Factorize(n, k);
      if N >= 1 {
        LoopKeepsProduct(N, n / k, k, sent + [k]);
      }
    }
  }

  /** What a PrimeNumberDecomposition call sends for request number `N`:
      nothing when `N <= 1`, otherwise primes in non-decreasing order whose
      product is `N`, none larger than `N`. */
  lemma PrimeFactorsCorrect(N: int)
    ensures N <= 1 <==> PrimeFactors(N) == []
    ensures N >= 1 ==> Product(PrimeFactors(N)) == N
    ensures forall i :: 0 <= i < |PrimeFactors(N)| ==>
              IsPrime(PrimeFactors(N)[i]) && PrimeFactors(N)[i] <= N
    ensures NonDecreasing(PrimeFactors(N))
  {
    FactorizeShape(N, 2);
    if N >= 1 {
      FactorizeProduct(N, 2);
    }
  }

  /** The request the client makes, 120, is answered with 2, 2, 2, 3, 5. */
  lemma FactorsOf120()
    ensures PrimeFactors(120) == [2, 2, 2, 3, 5]
  {
  }
}
