/** Fermat's little theorem, proved by the classical argument: multiplying the
    residues 1 .. p-1 by a unit permutes them, so their product is unchanged up
    to the factor a^(p-1). The Miller-Rabin kernel relies on it. */
module Fermat {
  import opened NumberTheory

  /** Product of the elements of s. */
  function Prod(s: seq<int>): int
    decreases |s|
  {
    if s == [] then 1 else Prod(s[..|s| - 1]) * s[|s| - 1]
  }

  /** The integers lo, lo + 1, ..., hi - 1. */
  function Range(lo: int, hi: int): seq<int>
    requires lo <= hi
  {
    seq(hi - lo, i => lo + i)
  }

  predicate Distinct(s: seq<int>) {
    forall i, j :: 0 <= i < j < |s| ==> s[i] != s[j]
  }

  ghost function Elements(s: seq<int>): set<int> {
    set x | x in s
  }

  /** Removing one element divides it out of the product. */
  lemma {:induction false} ProdRemove(t: seq<int>, i: nat)
    requires i < |t|
    ensures Prod(t) == t[i] * Prod(t[..i] + t[i + 1..])
    decreases |t|
  {
    var u, last := t[..|t| - 1], t[|t| - 1];
    if i == |t| - 1 {
      assert t[..i] + t[i + 1..] == u;
    } else {
      var w, w' := t[..i] + t[i + 1..], u[..i] + u[i + 1..];
      assert w == w' + [last];
      assert w[..|w| - 1] == w';
      ProdRemove(u, i);
    }
  }

  /** The product does not depend on the order of the factors. */
  lemma {:induction false} ProdPermutation(s: seq<int>, t: seq<int>)
    requires multiset(s) == multiset(t)
    ensures Prod(s) == Prod(t)
    decreases |s|
  {
    if s != [] {
      var x := s[|s| - 1];
      assert x in multiset(s);
      var i :| 0 <= i < |t| && t[i] == x;
      MultisetRemoveLast(s, t, i);
      ProdPermutation(s[..|s| - 1], t[..i] + t[i + 1..]);
      ProdRemove(t, i);
    } else {
      assert |multiset(t)| == 0;
    }
  }

  /** Taking the last element of s and an equal element t[i] out of two sequences
      with the same elements leaves two sequences with the same elements. */
  lemma MultisetRemoveLast(s: seq<int>, t: seq<int>, i: nat)
    requires multiset(s) == multiset(t) && s != [] && i < |t| && t[i] == s[|s| - 1]
    ensures multiset(s[..|s| - 1]) == multiset(t[..i] + t[i + 1..])
  {
    var x := s[|s| - 1];
    assert s == s[..|s| - 1] + [x];
    MultisetWithout(t, i);
    MultisetCancel(multiset(s[..|s| - 1]), multiset(t[..i] + t[i + 1..]), x);
  }

  /** The elements of t are those of t without position i, plus t[i]. */
  lemma MultisetWithout(t: seq<int>, i: nat)
    requires i < |t|
    ensures multiset(t) == multiset(t[..i] + t[i + 1..]) + multiset{t[i]}
  {
    assert t == t[..i] + [t[i]] + t[i + 1..];
    assert multiset(t[..i] + t[i + 1..]) == multiset(t[..i]) + multiset(t[i + 1..]);
  }

  lemma MultisetCancel(ms: multiset<int>, mt: multiset<int>, x: int)
    requires ms + multiset{x} == mt + multiset{x}
    ensures ms == mt
  {
    forall y ensures ms[y] == mt[y] {
      assert (ms + multiset{x})[y] == (mt + multiset{x})[y];
    }
  }

  lemma {:induction false} DistinctMultiplicity(s: seq<int>, x: int)
    requires Distinct(s)
    ensures multiset(s)[x] == if x in s then 1 else 0
    decreases |s|
  {
    if s != [] {
      var u := s[..|s| - 1];
      assert s == u + [s[|s| - 1]];
      assert Distinct(u);
      DistinctMultiplicity(u, x);
    }
  }

  lemma {:induction false} DistinctCard(s: seq<int>)
    requires Distinct(s)
    ensures |Elements(s)| == |s|
    decreases |s|
  {
    if s != [] {
      var u, last := s[..|s| - 1], s[|s| - 1];
      assert s == u + [last];
      assert Distinct(u);
      DistinctCard(u);
      assert Elements(s) == Elements(u) + {last};
      assert last !in Elements(u);
    }
  }

  lemma SubsetOfSameSize(a: set<int>, b: set<int>)
    requires a <= b && |a| == |b|
    ensures a == b
  {
    assert b == (b - a) + a;
    assert (b - a) * a == {};
    assert |b - a| == 0;
    assert b - a == {};
  }

  /** n distinct values drawn from 1 .. n are a rearrangement of 1 .. n. */
  lemma PermutationOfRange(s: seq<int>, n: nat)
    requires |s| == n && Distinct(s) && AllWithin(s, 1, n)
    ensures multiset(s) == multiset(Range(1, n + 1))
  {
    var r := Range(1, n + 1);
    assert Distinct(r);
    assert Elements(s) <= Elements(r) by {
      forall x | x in Elements(s) ensures x in Elements(r) {
        assert r[x - 1] == x;
      }
    }
    DistinctCard(s);
    DistinctCard(r);
    SubsetOfSameSize(Elements(s), Elements(r));
    forall x ensures multiset(s)[x] == multiset(r)[x] {
      DistinctMultiplicity(s, x);
      DistinctMultiplicity(r, x);
      assert x in s <==> x in Elements(s);
      assert x in r <==> x in Elements(r);
    }
  }

  /** The residues a*1, a*2, ..., a*n modulo p. */
  function Scaled(a: int, p: int, n: nat): seq<int>
    requires p > 0
  {
    seq(n, i => (a * (i + 1)) % p)
  }

  lemma ScaledLast(a: int, p: int, n: nat)
    requires p > 0 && n > 0
    ensures Prod(Scaled(a, p, n)) == Prod(Scaled(a, p, n - 1)) * ((a * n) % p)
    ensures Prod(Range(1, n + 1)) == Prod(Range(1, n)) * n
  {
    assert Scaled(a, p, n)[..n - 1] == Scaled(a, p, n - 1);
    assert Range(1, n + 1)[..n - 1] == Range(1, n);
  }

  /** One step of ProdScaled, on plain numbers: ps = c * pr (mod p) extends by a*n and n. */
  lemma ScaledStepMod(ps: int, pr: int, c: int, a: int, n: int, p: int)
    requires p > 0 && ps % p == (c * pr) % p
    ensures (ps * ((a * n) % p)) % p == ((a * c) * (pr * n)) % p
  {
    var an := a * n;
    var r := an % p;
    ModMulLeft(ps, r, p);
    assert (ps * r) % p == ((c * pr) % p * r) % p;
    ModMulBoth(c * pr, an, p);
    Rearrange(c, pr, a, n);
  }

  lemma Rearrange(c: int, pr: int, a: int, n: int)
    ensures (c * pr) * (a * n) == (a * c) * (pr * n)
  {
  }

  lemma {:induction false} ProdScaled(a: int, p: int, n: nat)
    requires p > 0
    ensures Prod(Scaled(a, p, n)) % p == (Pow(a, n) * Prod(Range(1, n + 1))) % p
    decreases n
  {
    if n > 0 {
      ScaledLast(a, p, n);
      ProdScaled(a, p, n - 1);
      ScaledStepMod(Prod(Scaled(a, p, n - 1)), Prod(Range(1, n)), Pow(a, n - 1), a, n, p);
    }
  }

  /** (p-1)! is not a multiple of the prime p. */
  lemma {:induction false} FactorialNotMultiple(p: int, n: nat)
    requires IsPrime(p) && n < p
    ensures Prod(Range(1, n + 1)) % p != 0
    decreases n
  {
    if n == 0 {
      ModSmall(1, p);
    } else {
      assert Range(1, n + 1)[..n - 1] == Range(1, n);
      FactorialNotMultiple(p, n - 1);
      ModSmall(n, p);
      if Prod(Range(1, n + 1)) % p == 0 {
        EuclidLemma(p, Prod(Range(1, n)), n);
      }
    }
  }

  predicate AllWithin(s: seq<int>, lo: int, hi: int) {
    forall i :: 0 <= i < |s| ==> lo <= s[i] <= hi
  }

  /** Multiplying by a unit modulo p maps 1 .. p-1 into 1 .. p-1 ... */
  lemma ScaledInRange(p: int, a: int)
    requires IsPrime(p) && a % p != 0
    ensures AllWithin(Scaled(a, p, p - 1), 1, p - 1)
  {
    var s := Scaled(a, p, p - 1);
    forall i | 0 <= i < p - 1 ensures 1 <= s[i] <= p - 1 {
      if s[i] == 0 {
        EuclidLemma(p, a, i + 1);
        ModSmall(i + 1, p);
      }
    }
  }

  /** ... without repetition. */
  lemma UnitMultipleInjective(p: int, a: int, i: int, j: int)
    requires IsPrime(p) && a % p != 0 && 0 <= i < j < p - 1
    ensures (a * (i + 1)) % p != (a * (j + 1)) % p
  {
    if (a * (i + 1)) % p == (a * (j + 1)) % p {
      ModSubZero(a * (j + 1), a * (i + 1), p);
      assert a * (j + 1) - a * (i + 1) == a * (j - i);
      EuclidLemma(p, a, j - i);
      ModSmall(j - i, p);
    }
  }

  lemma ScaledDistinct(p: int, a: int)
    requires IsPrime(p) && a % p != 0
    ensures Distinct(Scaled(a, p, p - 1))
  {
    var s := Scaled(a, p, p - 1);
    forall i, j | 0 <= i < j < |s| ensures s[i] != s[j] {
      assert s[i] == (a * (i + 1)) % p && s[j] == (a * (j + 1)) % p;
      UnitMultipleInjective(p, a, i, j);
    }
  }

  /** Cancelling a factor f that p does not divide from e * f = f (mod p). */
  lemma CancelFactor(p: int, e: int, f: int)
    requires IsPrime(p) && f % p != 0 && f % p == (e * f) % p
    ensures e % p == 1
  {
    ModSubZero(e * f, f, p);
    assert e * f - f == f * (e - 1);
    EuclidLemma(p, f, e - 1);
    ModAddLeft(e - 1, 1, p);
    ModSmall(1, p);
  }

  /** Fermat's little theorem: a^(p-1) = 1 (mod p) for a prime p not dividing a. */
  lemma FermatLittle(p: int, a: int)
    requires IsPrime(p) && a % p != 0
    ensures Pow(a, p - 1) % p == 1
  {
    var n := p - 1;
    var s, r := Scaled(a, p, n), Range(1, n + 1);
    ScaledInRange(p, a);
    ScaledDistinct(p, a);
    PermutationOfRange(s, n);
    ProdPermutation(s, r);
    ProdScaled(a, p, n);
    FactorialNotMultiple(p, n);
    CancelFactor(p, Pow(a, n), Prod(r));
  }
}
