/** The deterministic kernel: trial division by every i with i * i <= n. */
module TrialDivision {
  import opened NumberTheory

  /** No divisor d >= 2 with d * d <= n: the condition the trial-division loop tests. */
  ghost predicate NoSmallDivisor(n: int) {
    forall d :: 2 <= d && d * d <= n ==> n % d != 0
  }

  /** Squares order their non-negative roots. */
  lemma SquareLess(d: int, i: int)
    requires 0 <= d && 0 <= i && d * d < i * i
    ensures d < i
  {
  }

  /** A divisor above the square root is paired with one below it. */
  lemma CoDivisor(n: int, d: int) returns (e: int)
    requires 2 <= d < n && n % d == 0
    ensures 2 <= e && e * e <= n && n % e == 0
  {
    var q := n / d;
    assert n == d * q;
    assert q >= 2;
    if d * d <= n {
      e := d;
    } else {
      SquareLess(q, d) by {
        assert q * d == n < d * d;
        assert q * q <= q * d;
      }
      e := q;
      assert q * q <= q * d;
      ModOfMultiple(d, q);
    }
  }

  /** Testing divisors up to the square root decides primality. */
  lemma SmallDivisorSuffices(n: int)
    ensures IsPrime(n) <==> n >= 2 && NoSmallDivisor(n)
  {
    if IsPrime(n) {
      forall d | 2 <= d && d * d <= n ensures n % d != 0 {
        assert d * d >= 2 * d;
      }
    }
    if n >= 2 && NoSmallDivisor(n) {
      forall d | 2 <= d < n ensures n % d != 0 {
        if n % d == 0 {
          var e := CoDivisor(n, d);
        }
      }
    }
  }

  /** isPrimeTrialDivision: returns true exactly when n is prime. */
  method IsPrimeTrialDivision(n: int) returns (r: bool)
    ensures r <==> IsPrime(n)
    ensures r <==> n >= 2 && NoSmallDivisor(n)
  {
    SmallDivisorSuffices(n);
    if n <= 1 {
      return false;
    }
    if n == 2 {
      return true;
    }
    var i := 2;
    while i * i <= n
      invariant 2 <= i
      invariant forall d :: 2 <= d < i ==> n % d != 0
      decreases n - i
    {
      if n % i == 0 {
        return false;
      }
      assert i <= i * i;
      i := i + 1;
    }
    forall d | 2 <= d && d * d <= n ensures n % d != 0 {
      SquareLess(d, i);
    }
    return true;
  }
}
