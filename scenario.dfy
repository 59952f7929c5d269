/** A worked instance: the list 2, 3, 4, 17, 18, 97 split between two workers. */
module Scenario {
  import opened NumberTheory
  import opened TrialDivision
  import opened MillerRabin
  import opened Partition

  const Numbers: seq<int> := [2, 3, 4, 17, 18, 97]

  /** A prime shown by trial division up to a bound whose square exceeds it. */
  lemma Prime17And97()
    ensures IsPrime(17) && IsPrime(97)
  {
    SmallDivisorSuffices(17);
    forall d | 2 <= d && d * d <= 17 ensures 17 % d != 0 {
      SquareLess(d, 5);
      assert d in {2, 3, 4};
    }
    SmallDivisorSuffices(97);
    forall d | 2 <= d && d * d <= 97 ensures 97 % d != 0 {
      SquareLess(d, 10);
      assert d in {2, 3, 4, 5, 6, 7, 8, 9};
    }
  }

  lemma ScenarioVerdicts(draws: seq<seq<nat>>)
    requires |draws| == |Numbers|
    ensures TrialDivisionVerdicts(Numbers) == [true, true, false, true, false, true]
    ensures MillerRabinVerdicts(Numbers, draws) == [true, true, false, true, false, true]
  {
    Prime17And97();
    assert IsPrime(3);
    assert !IsPrime(4) by { assert 4 % 2 == 0; }
    assert !IsPrime(18) by { assert 18 % 2 == 0; }
    var w := MillerRabinVerdicts(Numbers, draws);
    forall e | 0 <= e < |Numbers| && IsPrime(Numbers[e]) ensures w[e] {
      PrimeAlwaysPasses(Numbers[e], draws[e]);
    }
  }

  /** Counts of a six-verdict list, index by index. */
  lemma CountSix(v: seq<bool>, threadId: int)
    requires |v| == 6
    ensures CountOwned(v, threadId, 2)
            == (if v[0] && threadId == 0 then 1 else 0) + (if v[1] && threadId == 1 then 1 else 0)
             + (if v[2] && threadId == 0 then 1 else 0) + (if v[3] && threadId == 1 then 1 else 0)
             + (if v[4] && threadId == 0 then 1 else 0) + (if v[5] && threadId == 1 then 1 else 0)
  {
    assert v[..0] == [];
    CountOwnedPrefix(v, 0, threadId, 2);
    CountOwnedPrefix(v, 1, threadId, 2);
    CountOwnedPrefix(v, 2, threadId, 2);
    CountOwnedPrefix(v, 3, threadId, 2);
    CountOwnedPrefix(v, 4, threadId, 2);
    CountOwnedPrefix(v, 5, threadId, 2);
    assert v[..6] == v;
  }

  /** Worker 0 finds one prime (2), worker 1 finds three (3, 17, 97), four in all,
      for both kernels and whatever the random draws. */
  lemma ScenarioCounts(draws: seq<seq<nat>>)
    requires |draws| == |Numbers|
    ensures CountOwned(TrialDivisionVerdicts(Numbers), 0, 2) == 1
    ensures CountOwned(TrialDivisionVerdicts(Numbers), 1, 2) == 3
    ensures CountTrue(TrialDivisionVerdicts(Numbers)) == 4
    ensures CountOwned(MillerRabinVerdicts(Numbers, draws), 0, 2) == 1
    ensures CountOwned(MillerRabinVerdicts(Numbers, draws), 1, 2) == 3
    ensures CountTrue(MillerRabinVerdicts(Numbers, draws)) == 4
  {
    ScenarioVerdicts(draws);
    var v := [true, true, false, true, false, true];
    CountSix(v, 0);
    CountSix(v, 1);
    WorkersCoverList(v, 2);
  }
}
