/** Arithmetic facts shared by the primality kernels: powers, primality,
    congruences, Euclid's lemma and the square roots of one modulo a prime. */
module NumberTheory {

  /** b raised to the e-th power. */
  function Pow(b: int, e: nat): int
    decreases e
  {
    if e == 0 then 1 else b * Pow(b, e - 1)
  }

  /** n is prime: at least 2 and without a divisor strictly between 1 and n. */
  predicate IsPrime(n: int) {
    n >= 2 && forall d :: 2 <= d < n ==> n % d != 0
  }

  lemma {:induction false} PowAdd(b: int, e1: nat, e2: nat)
    ensures Pow(b, e1 + e2) == Pow(b, e1) * Pow(b, e2)
    decreases e1
  {
    if e1 > 0 {
      PowAdd(b, e1 - 1, e2);
      assert Pow(b, e1 + e2) == b * Pow(b, e1 - 1 + e2);
    }
  }

  lemma {:induction false} PowMul(b: int, e1: nat, e2: nat)
    ensures e1 * e2 >= 0 && Pow(b, e1 * e2) == Pow(Pow(b, e1), e2)
    decreases e2
  {
    if e2 > 0 {
      PowMul(b, e1, e2 - 1);
      assert e1 * e2 == e1 * (e2 - 1) + e1;
      PowAdd(b, e1 * (e2 - 1), e1);
    }
  }

  /** Squaring a power doubles its exponent. */
  lemma PowDouble(b: int, e: nat)
    ensures Pow(b, 2 * e) == Pow(b, e) * Pow(b, e)
  {
    PowAdd(b, e, e);
  }

  /** With an odd exponent one factor b is split off and the rest is a power of b*b. */
  lemma PowSquareSplit(b: int, e: nat)
    ensures e % 2 == 0 ==> Pow(b, e) == Pow(b * b, e / 2)
    ensures e % 2 == 1 ==> Pow(b, e) == b * Pow(b * b, e / 2)
  {
    PowMul(b, 2, e / 2);
    assert Pow(b, 2) == b * b;
    if e % 2 == 1 {
      assert e == 1 + 2 * (e / 2);
      PowAdd(b, 1, 2 * (e / 2));
    } else {
      assert e == 2 * (e / 2);
    }
  }

  // ---------------------------------------------------------------------------
  // Congruences (Dafny's % is the Euclidean remainder; m > 0 throughout)

  /** Quotient and remainder are unique. */
  lemma ModUnique(x: int, m: int, q: int, r: int)
    requires m > 0 && 0 <= r < m && x == q * m + r
    ensures x % m == r && x / m == q
  {
    var q0, r0 := x / m, x % m;
    assert (q - q0) * m == r0 - r;
    if q > q0 {
      MulAtLeast(q - q0, m);
    } else if q < q0 {
      MulAtLeast(q0 - q, m);
    }
  }

  lemma MulAtLeast(k: int, m: int)
    requires k >= 1 && m > 0
    ensures k * m >= m
  {
    assert k * m == (k - 1) * m + m;
  }

  lemma ModAddMultiple(x: int, k: int, m: int)
    requires m > 0
    ensures (x + k * m) % m == x % m
  {
    ModUnique(x + k * m, m, x / m + k, x % m);
  }

  lemma ModOfMultiple(k: int, m: int)
    requires m > 0
    ensures (k * m) % m == 0 && (m * k) % m == 0
  {
    ModUnique(k * m, m, k, 0);
  }

  lemma ModSmall(x: int, m: int)
    requires 0 <= x < m
    ensures x % m == x
  {
    ModUnique(x, m, 0, x);
  }

  /** Reducing one summand does not change the sum's remainder. */
  lemma ModAddLeft(a: int, b: int, m: int)
    requires m > 0
    ensures (a % m + b) % m == (a + b) % m
  {
    ModAddMultiple(a % m + b, a / m, m);
    assert a % m + b + (a / m) * m == a + b;
  }

  /** Reducing one factor does not change the product's remainder. */
  lemma ModMulLeft(a: int, b: int, m: int)
    requires m > 0
    ensures (a % m * b) % m == (a * b) % m
  {
    assert a * b == a % m * b + (a / m * b) * m by {
      assert a == a % m + (a / m) * m;
    }
    ModAddMultiple(a % m * b, a / m * b, m);
  }

  lemma ModMulBoth(a: int, b: int, m: int)
    requires m > 0
    ensures (a % m * (b % m)) % m == (a * b) % m
  {
    ModMulLeft(a, b % m, m);
    ModMulLeft(b, a, m);
    assert a * (b % m) == b % m * a;
    assert a * b == b * a;
  }

  /** Equal remainders mean the difference is a multiple. */
  lemma ModSubZero(x: int, y: int, m: int)
    requires m > 0 && x % m == y % m
    ensures (x - y) % m == 0
  {
    assert x - y == (x / m - y / m) * m;
    ModOfMultiple(x / m - y / m, m);
  }

  /** Reducing the base does not change a power's remainder. */
  lemma {:induction false} PowMod(b: int, e: nat, m: int)
    requires m > 0
    ensures Pow(b % m, e) % m == Pow(b, e) % m
    decreases e
  {
    if e > 0 {
      calc {
        Pow(b % m, e) % m;
        (b % m * Pow(b % m, e - 1)) % m;
        { ModMulLeft(Pow(b % m, e - 1), b % m, m);
          assert b % m * Pow(b % m, e - 1) == Pow(b % m, e - 1) * (b % m); }
        (Pow(b % m, e - 1) % m * (b % m)) % m;
        { PowMod(b, e - 1, m); }
        (Pow(b, e - 1) % m * (b % m)) % m;
        { ModMulBoth(Pow(b, e - 1), b, m); }
        (Pow(b, e - 1) * b) % m;
        { assert Pow(b, e - 1) * b == b * Pow(b, e - 1); }
        Pow(b, e) % m;
      }
    }
  }

  // ---------------------------------------------------------------------------
  // Primes

  /** Euclid's lemma: a prime that divides a product divides one of its factors. */
  lemma {:induction false} EuclidLemma(p: int, a: int, b: int)
    requires IsPrime(p) && a % p != 0 && (a * b) % p == 0
    ensures b % p == 0
    decreases a % p
  {
    var a' := a % p;
    ModMulLeft(a, b, p);
    assert (a' * b) % p == 0;
    if a' != 1 {
      // p = q * a' + r with 0 < r < a'; then r * b is also a multiple of p
      var q, r := p / a', p % a';
      assert r != 0;
      var t := (a' * b) / p;
      assert a' * b == t * p;
      assert r * b == p * (b - q * t) by {
        assert r == p - q * a';
        assert r * b == p * b - q * (a' * b);
      }
      ModOfMultiple(b - q * t, p);
      ModSmall(r, p);
      EuclidLemma(p, r, b);
    }
  }

  /** Modulo a prime, 1 has no square roots other than 1 and p - 1. */
  lemma SquareRootOfOne(p: int, x: int)
    requires IsPrime(p) && 0 <= x < p && (x * x) % p == 1
    ensures x == 1 || x == p - 1
  {
    assert x != 0;
    if x != 1 {
      var q := (x * x) / p;
      assert x * x == q * p + 1;
      assert (x - 1) * (x + 1) == q * p;
      ModOfMultiple(q, p);
      ModSmall(x - 1, p);
      EuclidLemma(p, x - 1, x + 1);
      assert x + 1 == p by {
        if x + 1 < p { ModSmall(x + 1, p); }
      }
    }
  }
}
