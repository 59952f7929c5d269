/** The probabilistic kernel. The random witness of each round is an input here:
    draws[i] is the value rand() returned in round i, and the witness is derived
    from it exactly as primes.cpp does. */
module MillerRabin {
  import opened NumberTheory
  import opened Fermat
  import opened ModularArithmetic

  /** Number of witness rounds (ACCURACY). */
  const Accuracy: nat := 15

  function Pow2(j: nat): (r: nat)
    ensures r >= 1
  {
    if j == 0 then 1 else 2 * Pow2(j - 1)
  }

  lemma {:induction false} Pow2Increasing(j: nat, k: nat)
    requires j < k
    ensures Pow2(j) < Pow2(k)
    decreases k
  {
    if j < k - 1 {
      Pow2Increasing(j, k - 1);
    }
  }

  lemma {:induction false} Pow2IsPow(j: nat)
    ensures Pow2(j) == Pow(2, j)
    decreases j
  {
    if j > 0 {
      Pow2IsPow(j - 1);
    }
  }

  /** s * 2^j determines j. */
  lemma ExponentDetermined(s: int, j: nat, k: nat)
    requires s >= 1 && s * Pow2(j) == s * Pow2(k)
    ensures j == k
  {
    if j < k {
      Pow2Increasing(j, k);
    } else if k < j {
      Pow2Increasing(k, j);
    }
  }

  /** The odd part of n: what is left after every factor two is divided out. */
  function OddPart(n: int): (s: int)
    requires n >= 1
    ensures s >= 1 && s % 2 == 1
    decreases n
  {
    if n % 2 == 0 then OddPart(n / 2) else n
  }

  /** How many factors two n has. */
  function TwoExponent(n: int): nat
    requires n >= 1
    decreases n
  {
    if n % 2 == 0 then 1 + TwoExponent(n / 2) else 0
  }

  /** n = s * 2^k with s the odd part and k the number of factors two. */
  lemma OddPartDecomposition(n: int)
    requires n >= 1
    ensures n == OddPart(n) * Pow2(TwoExponent(n))
    ensures n == OddPart(n) * Pow(2, TwoExponent(n))
  {
    OddPartTimesPow2(n);
    Pow2IsPow(TwoExponent(n));
  }

  lemma {:induction false} OddPartTimesPow2(n: int)
    requires n >= 1
    ensures n == OddPart(n) * Pow2(TwoExponent(n))
    decreases n
  {
    if n % 2 == 0 {
      OddPartTimesPow2(n / 2);
      assert Pow2(TwoExponent(n)) == 2 * Pow2(TwoExponent(n / 2));
    }
  }

  /** The witness of a round whose rand() call returned d: d % (p - 1) + 1. */
  function Witness(p: int, d: nat): (a: int)
    requires p >= 2
    ensures 1 <= a <= p - 1
  {
    d % (p - 1) + 1
  }

  /** The j-th value of the squaring chain of base a: a^s mod p, squared j times
      modulo p. */
  function Chain(p: int, a: int, s: nat, j: nat): (c: int)
    requires p > 0
    ensures 0 <= c < p
    decreases j
  {
    if j == 0 then Pow(a, s) % p else (Chain(p, a, s, j - 1) * Chain(p, a, s, j - 1)) % p
  }

  /** The chain value is the power a^(s * 2^j) reduced modulo p. */
  lemma {:induction false} ChainIsPower(p: int, a: int, s: nat, j: nat)
    requires p > 0
    ensures Chain(p, a, s, j) == Pow(a, s * Pow2(j)) % p
    decreases j
  {
    if j > 0 {
      ChainIsPower(p, a, s, j - 1);
      var e := s * Pow2(j - 1);
      assert s * Pow2(j) == 2 * e;
      PowDouble(a, e);
      ModMulBoth(Pow(a, e), Pow(a, e), p);
    }
  }

  /** p passes the round with witness a: writing p - 1 = s * 2^k with s odd,
      a^s = 1 (mod p), or a^(s * 2^j) = p - 1 (mod p) for some j <= k. */
  predicate PassesRound(p: int, a: int)
    requires p >= 2
  {
    var s, k := OddPart(p - 1), TwoExponent(p - 1);
    Chain(p, a, s, 0) == 1 || exists j :: 0 <= j <= k && Chain(p, a, s, j) == p - 1
  }

  /** The verdict on p when the rounds draw the values draws: p is 2 or an odd
      number of at least 3, and every round passes. */
  predicate MillerRabinVerdict(p: int, draws: seq<nat>) {
    p >= 2 && (p == 2 || p % 2 == 1)
    && forall i :: 0 <= i < |draws| ==> PassesRound(p, Witness(p, draws[i]))
  }

  /** Once the chain reaches 1 it stays at 1. */
  lemma {:induction false} ChainStaysOne(p: int, a: int, s: nat, j: nat, j': nat)
    requires p >= 2 && j <= j' && Chain(p, a, s, j) == 1
    ensures Chain(p, a, s, j') == 1
    decreases j' - j
  {
    if j < j' {
      ChainStaysOne(p, a, s, j, j' - 1);
      ModSmall(1, p);
    }
  }

  lemma {:induction false} PowOfOne(e: nat)
    ensures Pow(1, e) == 1
    decreases e
  {
    if e > 0 {
      PowOfOne(e - 1);
    }
  }

  /** None of the chain values 0 .. n - 1 is p - 1. */
  predicate MissesMinusOne(p: int, a: int, s: nat, n: nat)
    requires p > 0
  {
    forall j' :: 0 <= j' < n ==> Chain(p, a, s, j') != p - 1
  }

  /** A round whose squaring loop stopped without reaching p - 1 rejects p: the
      loop stops at temp = s * 2^k = p - 1, or at the chain value 1, after which
      the chain stays 1. */
  lemma RoundFails(p: int, a: int, s: nat, j: nat, temp: int)
    requires p >= 2 && (p == 2 || p % 2 == 1) && s == OddPart(p - 1) && 1 <= a <= p - 1
    requires Chain(p, a, s, 0) != 1
    requires j <= TwoExponent(p - 1) && temp == s * Pow2(j)
    requires MissesMinusOne(p, a, s, j + 1)
    requires temp == p - 1 || Chain(p, a, s, j) == 1
    ensures !PassesRound(p, a)
  {
    var k := TwoExponent(p - 1);
    OddPartDecomposition(p - 1);
    if p == 2 {
      PowOfOne(s);
    }
    if temp == p - 1 {
      ExponentDetermined(s, j, k);
    }
    forall j' | j < j' <= k ensures Chain(p, a, s, j') != p - 1 {
      ChainStaysOne(p, a, s, j, j');
    }
  }

  /** One witness round (the body of the round loop): a^s mod p, then repeated
      squaring while temp has not reached p - 1 and the value is neither 1 nor p - 1. */
  method WitnessRound(p: int, s: int, a: int) returns (pass: bool)
    requires p >= 2 && (p == 2 || p % 2 == 1) && s == OddPart(p - 1)
    requires 1 <= a <= p - 1
    ensures pass == PassesRound(p, a)
  {
    ghost var k := TwoExponent(p - 1);
    var temp := s;
    var mod := ModPow(a, temp, p);
    assert mod == Chain(p, a, s, 0);
    if mod == 1 || mod == p - 1 {
      if mod != 1 {
        ReachesMinusOne(p, a, s, 0);
      }
      return true;
    }
    ghost var j: nat := 0;
    while temp != p - 1 && mod != 1 && mod != p - 1
      invariant j <= k
      invariant temp == s * Pow2(j)
      invariant 0 <= mod < p && mod == Chain(p, a, s, j)
      invariant MissesMinusOne(p, a, s, j)
      decreases k - j
    {
      SquaringStep(p, s, j, temp);
      mod := MulMod(mod, mod, p);
      temp := temp * 2;
      j := j + 1;
    }
    LoopExit(p, a, s, j, temp);
    if mod != p - 1 {
      return false;
    }
    return true;
  }

  /** Where the squaring loop stops, the round passes exactly when the value it
      stopped at is p - 1. */
  lemma LoopExit(p: int, a: int, s: nat, j: nat, temp: int)
    requires p >= 2 && (p == 2 || p % 2 == 1) && s == OddPart(p - 1) && 1 <= a <= p - 1
    requires Chain(p, a, s, 0) != 1
    requires j <= TwoExponent(p - 1) && temp == s * Pow2(j)
    requires MissesMinusOne(p, a, s, j)
    requires temp == p - 1 || Chain(p, a, s, j) == 1 || Chain(p, a, s, j) == p - 1
    ensures PassesRound(p, a) <==> Chain(p, a, s, j) == p - 1
  {
    if Chain(p, a, s, j) == p - 1 {
      ReachesMinusOne(p, a, s, j);
    } else {
      RoundFails(p, a, s, j, temp);
    }
  }

  /** A chain value p - 1 at some j <= k passes the round. */
  lemma ReachesMinusOne(p: int, a: int, s: nat, j: nat)
    requires p >= 2 && s == OddPart(p - 1) && j <= TwoExponent(p - 1)
    requires Chain(p, a, s, j) == p - 1
    ensures PassesRound(p, a)
  {
  }

  /** While temp = s * 2^j has not reached p - 1 = s * 2^k, one more squaring keeps
      j <= k and doubles temp to s * 2^(j + 1). */
  lemma SquaringStep(p: int, s: int, j: nat, temp: int)
    requires p >= 2 && s == OddPart(p - 1) && j <= TwoExponent(p - 1)
    requires temp == s * Pow2(j) && temp != p - 1
    ensures j < TwoExponent(p - 1) && temp * 2 == s * Pow2(j + 1)
  {
    BelowTwoExponent(p, s, j);
    DoublePow2(s, j);
  }

  /** temp = s * 2^j stays at most p - 1 = s * 2^k while j <= k. */
  lemma TempBound(p: int, s: int, j: nat)
    requires p >= 2 && s == OddPart(p - 1) && j <= TwoExponent(p - 1)
    ensures s * Pow2(j) <= p - 1
  {
    var k := TwoExponent(p - 1);
    OddPartTimesPow2(p - 1);
    if j < k {
      Pow2Increasing(j, k);
      MulMonotone(s, Pow2(j), Pow2(k));
    }
  }

  lemma MulMonotone(s: int, x: int, y: int)
    requires s >= 0 && x <= y
    ensures s * x <= s * y
  {
  }

  /** s * 2^j = p - 1 holds only at j = k. */
  lemma BelowTwoExponent(p: int, s: int, j: nat)
    requires p >= 2 && s == OddPart(p - 1) && j <= TwoExponent(p - 1) && s * Pow2(j) != p - 1
    ensures j < TwoExponent(p - 1)
  {
    OddPartTimesPow2(p - 1);
  }

  lemma DoublePow2(s: int, j: nat)
    ensures s * Pow2(j) * 2 == s * Pow2(j + 1)
  {
    var x := Pow2(j);
    assert Pow2(j + 1) == 2 * x;
  }

  /** isPrimeMillerRabin: the verdict is MillerRabinVerdict, so it rejects
      p < 2 and even p other than 2, and never rejects a prime. */
  method IsPrimeMillerRabin(p: int, draws: seq<nat>) returns (r: bool)
    requires |draws| == Accuracy
    ensures r == MillerRabinVerdict(p, draws)
    ensures p < 2 ==> !r
    ensures p != 2 && p % 2 == 0 ==> !r
    ensures !r ==> !IsPrime(p)
  {
    if IsPrime(p) {
      PrimeAlwaysPasses(p, draws);
    }
    if p < 2 {
      return false;
    }
    if p != 2 && p % 2 == 0 {
      return false;
    }
    var s := p - 1;
    while s % 2 == 0
      invariant 1 <= s && OddPart(s) == OddPart(p - 1)
      decreases s
    {
      s := s / 2;
    }
    for i := 0 to Accuracy
      invariant forall i' :: 0 <= i' < i ==> PassesRound(p, Witness(p, draws[i']))
    {
      var a := draws[i] % (p - 1) + 1;
      assert a == Witness(p, draws[i]);
      var pass := WitnessRound(p, s, a);
      if !pass {
        return false;
      }
    }
    return true;
  }

  /** Modulo a prime p, every witness in [1, p-1] passes: a^(p-1) = 1 by Fermat's
      little theorem, and the last chain value before the first 1 can only be p - 1. */
  lemma PrimePassesRound(p: int, a: int)
    requires IsPrime(p) && 1 <= a <= p - 1
    ensures PassesRound(p, a)
  {
    var s, k := OddPart(p - 1), TwoExponent(p - 1);
    OddPartDecomposition(p - 1);
    ModSmall(a, p);
    FermatLittle(p, a);
    ChainIsPower(p, a, s, k);
    assert Chain(p, a, s, k) == 1;
    if Chain(p, a, s, 0) != 1 {
      var j := LastBeforeOne(p, a, s, k);
    }
  }

  /** Walking down from a chain value 1 to a start that is not 1, the value just
      before the first 1 is p - 1. */
  lemma {:induction false} LastBeforeOne(p: int, a: int, s: nat, j: nat) returns (j0: nat)
    requires IsPrime(p) && Chain(p, a, s, 0) != 1 && Chain(p, a, s, j) == 1
    ensures j0 < j && Chain(p, a, s, j0) == p - 1
    decreases j
  {
    var prev := Chain(p, a, s, j - 1);
    if prev == 1 {
      j0 := LastBeforeOne(p, a, s, j - 1);
    } else {
      SquareRootOfOne(p, prev);
      j0 := j - 1;
    }
  }

  /** No choice of random draws makes the kernel reject a prime. */
  lemma PrimeAlwaysPasses(p: int, draws: seq<nat>)
    requires IsPrime(p)
    ensures MillerRabinVerdict(p, draws)
  {
    if p != 2 {
      assert p % 2 != 0;
    }
    forall i | 0 <= i < |draws| ensures PassesRound(p, Witness(p, draws[i])) {
      PrimePassesRound(p, Witness(p, draws[i]));
    }
  }
}
