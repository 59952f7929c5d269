/** The two modular-arithmetic helpers of the Miller-Rabin kernel: multiplication
    by double-and-add and exponentiation by square-and-multiply. Both keep their
    operands reduced modulo m, which is how primes.cpp avoids overflowing a
    64-bit product. */
module ModularArithmetic {
  import opened NumberTheory

  /** Adding congruent summands gives congruent sums. */
  lemma ModAddCongruent(u: int, v: int, w: int, m: int)
    requires m > 0 && v % m == w % m
    ensures (u + v) % m == (u + w) % m
  {
    ModAddLeft(v, u, m);
    ModAddLeft(w, u, m);
  }

  /** One round of the double-and-add loop keeps x + y * n fixed modulo m. */
  lemma MulModStep(x: int, y: int, n: int, m: int)
    requires m > 0 && 0 <= x < m && n >= 0
    ensures ((if n % 2 == 1 then (x + y) % m else x) + (2 * y) % m * (n / 2)) % m
            == (x + y * n) % m
  {
    var h, bit := n / 2, n % 2;
    var u := if bit == 1 then x + y else x;
    ModSmall(x, m);
    SplitLowBit(y, h, bit);
    assert x + y * n == u + (2 * y) * h;
    ModMulLeft(2 * y, h, m);
    ModAddCongruent(u, (2 * y) % m * h, 2 * y * h, m);
    ModAddLeft(u, (2 * y) % m * h, m);
  }

  /** y * (2h + bit) splits into (2y) * h and y * bit. */
  lemma SplitLowBit(y: int, h: int, bit: int)
    requires bit == 0 || bit == 1
    ensures y * (2 * h + bit) == (2 * y) * h + (if bit == 1 then y else 0)
  {
  }

  /** mulmod: a * b modulo m, by halving b and doubling y = a (mod m). A
      non-positive b skips the loop, and the result is 0 whatever a is (y is then
      never used, so the sign convention of `%` on a negative a does not matter). */
  method MulMod(a: int, b: int, m: int) returns (r: int)
    requires (a >= 0 || b <= 0) && m > 0
    ensures b >= 0 ==> r == (a * b) % m
    ensures b < 0 ==> r == 0
    ensures 0 <= r < m
  {
    var x := 0;
    var y := a % m;
    var n := b;
    if b > 0 {
      ModMulLeft(a, b, m);
    }
    while n > 0
      invariant 0 <= x < m && 0 <= y < m
      invariant b > 0 ==> n >= 0 && (x + y * n) % m == (a * b) % m
      invariant b <= 0 ==> n == b && x == 0
      decreases if n > 0 then n else 0
    {
      MulModStep(x, y, n, m);
      if n % 2 == 1 {
        x := (x + y) % m;
      }
      y := (y * 2) % m;
      n := n / 2;
    }
    r := x % m;
  }

  /** One round of the square-and-multiply loop keeps x * y^n fixed modulo m. */
  lemma ModPowStep(x: int, y: int, n: nat, m: int)
    requires m > 0
    ensures ((if n % 2 == 1 then (x * y) % m else x) * Pow((y * y) % m, n / 2)) % m
            == (x * Pow(y, n)) % m
  {
    var h := n / 2;
    var u := if n % 2 == 1 then x * y else x;
    var x' := if n % 2 == 1 then (x * y) % m else x;
    if n % 2 == 1 {
      ModSmall((x * y) % m, m);
    }
    ReduceFactors(x', u, y * y, h, m);
    PowSquareSplit(y, n);
    if n % 2 == 1 {
      assert u * Pow(y * y, h) == x * (y * Pow(y * y, h));
    }
  }

  /** Replacing a factor by a congruent one and the base of a power by its residue
      leaves the product unchanged modulo m. */
  lemma ReduceFactors(x': int, u: int, z: int, h: nat, m: int)
    requires m > 0 && x' % m == u % m
    ensures (x' * Pow(z % m, h)) % m == (u * Pow(z, h)) % m
  {
    ModMulBoth(x', Pow(z % m, h), m);
    PowMod(z, h, m);
    ModMulBoth(u, Pow(z, h), m);
  }

  /** modulo: b^e modulo m, by squaring y and halving e. A negative e skips the
      loop, and the result is 1 mod m. */
  method ModPow(b: int, e: int, m: int) returns (r: int)
    requires b >= 0 && m > 0
    ensures e >= 0 ==> r == Pow(b, e) % m
    ensures e < 0 ==> r == 1 % m
    ensures 0 <= r < m
  {
    var x := 1;
    var y := b;
    var n := e;
    while n > 0
      invariant x >= 0 && y >= 0
      invariant e < 0 ==> n == e && x == 1
      invariant e >= 0 ==> n >= 0 && (x * Pow(y, n)) % m == Pow(b, e) % m
      decreases if n > 0 then n else 0
    {
      ModPowStep(x, y, n, m);
      if n % 2 == 1 {
        x := MulMod(x, y, m);
      }
      y := MulMod(y, y, m);
      n := n / 2;
    }
    r := x % m;
  }
}
