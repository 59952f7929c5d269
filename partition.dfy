/** The benchmark's round-robin partition of the input list: worker threadId of
    cores handles exactly the indices e with e % cores == threadId and counts how
    many of its numbers a kernel declares prime. The workers run one after the
    other here and return their counts instead of bumping shared counters. */
module Partition {
  import opened NumberTheory
  import opened TrialDivision
  import opened MillerRabin

  /** Worker threadId handles index e. */
  predicate Owns(e: int, threadId: int, cores: int)
    requires cores >= 1
  {
    e % cores == threadId
  }

  /** Number of true verdicts. */
  function CountTrue(v: seq<bool>): nat
    decreases |v|
  {
    if v == [] then 0 else CountTrue(v[..|v| - 1]) + (if v[|v| - 1] then 1 else 0)
  }

  /** Number of true verdicts at the indices owned by worker threadId. */
  function CountOwned(v: seq<bool>, threadId: int, cores: int): nat
    requires cores >= 1
    decreases |v|
  {
    if v == [] then 0
    else CountOwned(v[..|v| - 1], threadId, cores)
         + (if Owns(|v| - 1, threadId, cores) && v[|v| - 1] then 1 else 0)
  }

  /** The counts of workers 0 .. w - 1 added up. */
  function SumOverWorkers(v: seq<bool>, cores: int, w: nat): nat
    requires cores >= 1
    decreases w
  {
    if w == 0 then 0 else SumOverWorkers(v, cores, w - 1) + CountOwned(v, w - 1, cores)
  }

  /** The set of workers that handle index e. */
  function Owners(e: nat, cores: int): set<int>
    requires cores >= 1
  {
    set t | 0 <= t < cores && Owns(e, t, cores)
  }

  /** Every index is handled by exactly one worker, number e % cores. */
  lemma ExactlyOneOwner(e: nat, cores: int)
    requires cores >= 1
    ensures Owners(e, cores) == {e % cores}
    ensures |Owners(e, cores)| == 1
  {
    assert e % cores in Owners(e, cores);
  }

  /** A worker number outside 0 .. cores - 1 handles nothing. */
  lemma {:induction false} NoSuchWorker(v: seq<bool>, threadId: int, cores: int)
    requires cores >= 1 && (threadId < 0 || threadId >= cores)
    ensures CountOwned(v, threadId, cores) == 0
    decreases |v|
  {
    if v != [] {
      NoSuchWorker(v[..|v| - 1], threadId, cores);
    }
  }

  /** Appending one verdict adds it to the total of the first w workers exactly
      when one of them owns the new index. */
  lemma {:induction false} SumAppend(u: seq<bool>, b: bool, cores: int, w: nat)
    requires cores >= 1
    ensures SumOverWorkers(u + [b], cores, w)
            == SumOverWorkers(u, cores, w) + (if b && |u| % cores < w then 1 else 0)
    decreases w
  {
    if w > 0 {
      SumAppend(u, b, cores, w - 1);
      assert (u + [b])[..|u + [b]| - 1] == u;
    }
  }

  /** The per-worker counts add up to the count over the whole list. */
  lemma {:induction false} WorkersCoverList(v: seq<bool>, cores: int)
    requires cores >= 1
    ensures SumOverWorkers(v, cores, cores) == CountTrue(v)
    decreases |v|
  {
    if v != [] {
      var u := v[..|v| - 1];
      assert v == u + [v[|v| - 1]];
      WorkersCoverList(u, cores);
      SumAppend(u, v[|v| - 1], cores, cores);
    } else {
      NoWorkFromEmpty(cores, cores);
    }
  }

  lemma {:induction false} NoWorkFromEmpty(cores: int, w: nat)
    requires cores >= 1
    ensures SumOverWorkers([], cores, w) == 0
    decreases w
  {
    if w > 0 {
      NoWorkFromEmpty(cores, w - 1);
    }
  }

  /** With one worker, that worker counts the whole list. */
  lemma {:induction false} SingleWorker(v: seq<bool>)
    ensures CountOwned(v, 0, 1) == CountTrue(v)
    decreases |v|
  {
    if v != [] {
      SingleWorker(v[..|v| - 1]);
    }
  }

  /** The count does not depend on how many workers share the list. */
  lemma PartitionInvariance(v: seq<bool>, cores: int)
    requires cores >= 1
    ensures SumOverWorkers(v, cores, cores) == CountOwned(v, 0, 1)
  {
    WorkersCoverList(v, cores);
    SingleWorker(v);
  }

  /** Trial-division verdicts, one per number. */
  function TrialDivisionVerdicts(numbers: seq<int>): (v: seq<bool>)
    ensures |v| == |numbers|
  {
    seq(|numbers|, e requires 0 <= e < |numbers| => IsPrime(numbers[e]))
  }

  /** Miller-Rabin verdicts; draws[e] are the random values used on numbers[e]. */
  function MillerRabinVerdicts(numbers: seq<int>, draws: seq<seq<nat>>): (v: seq<bool>)
    requires |draws| == |numbers|
    ensures |v| == |numbers|
  {
    seq(|numbers|, e requires 0 <= e < |numbers| => MillerRabinVerdict(numbers[e], draws[e]))
  }

  /** Extending the scanned prefix by one index adds that index's verdict if the
      worker owns it. */
  lemma CountOwnedPrefix(v: seq<bool>, e: nat, threadId: int, cores: int)
    requires cores >= 1 && e < |v|
    ensures CountOwned(v[..e + 1], threadId, cores)
            == CountOwned(v[..e], threadId, cores) + (if Owns(e, threadId, cores) && v[e] then 1 else 0)
  {
    assert v[..e + 1][..e] == v[..e];
  }

  /** primesTrialDivision without the clock: worker threadId's prime count. */
  method PrimesTrialDivision(numbers: seq<int>, threadId: int, cores: int) returns (count: nat)
    requires cores >= 1
    ensures count == CountOwned(TrialDivisionVerdicts(numbers), threadId, cores)
  {
    ghost var v := TrialDivisionVerdicts(numbers);
    count := 0;
    for element := 0 to |numbers|
      invariant count == CountOwned(v[..element], threadId, cores)
    {
      CountOwnedPrefix(v, element, threadId, cores);
      if element % cores == threadId {
        var isPrime := IsPrimeTrialDivision(numbers[element]);
        if isPrime {
          count := count + 1;
        }
      }
    }
    assert v[..|numbers|] == v;
  }

  /** primesMillerRabin without the clock: worker threadId's prime count, the call
      on numbers[e] drawing draws[e]. */
  method PrimesMillerRabin(numbers: seq<int>, draws: seq<seq<nat>>, threadId: int, cores: int)
    returns (count: nat)
    requires cores >= 1
    requires |draws| == |numbers| && forall e :: 0 <= e < |draws| ==> |draws[e]| == Accuracy
    ensures count == CountOwned(MillerRabinVerdicts(numbers, draws), threadId, cores)
  {
    ghost var v := MillerRabinVerdicts(numbers, draws);
    count := 0;
    for element := 0 to |numbers|
      invariant count == CountOwned(v[..element], threadId, cores)
    {
      CountOwnedPrefix(v, element, threadId, cores);
      if element % cores == threadId {
        var isPrime := IsPrimeMillerRabin(numbers[element], draws[element]);
        if isPrime {
          count := count + 1;
        }
      }
    }
    assert v[..|numbers|] == v;
  }

  /** The main program's trial-division total: every worker 0 .. cores - 1 runs in
      turn and its count is added. No worker runs when cores is 0. */
  method TotalTrialDivision(numbers: seq<int>, cores: nat) returns (total: nat)
    ensures cores >= 1 ==> total == CountTrue(TrialDivisionVerdicts(numbers))
    ensures cores == 0 ==> total == 0
  {
    total := 0;
    if cores == 0 {
      return;
    }
    for i := 0 to cores
      invariant total == SumOverWorkers(TrialDivisionVerdicts(numbers), cores, i)
    {
      var c := PrimesTrialDivision(numbers, i, cores);
      total := total + c;
    }
    WorkersCoverList(TrialDivisionVerdicts(numbers), cores);
  }

  /** The main program's Miller-Rabin total, workers run in turn. */
  method TotalMillerRabin(numbers: seq<int>, draws: seq<seq<nat>>, cores: nat) returns (total: nat)
    requires |draws| == |numbers| && forall e :: 0 <= e < |draws| ==> |draws[e]| == Accuracy
    ensures cores >= 1 ==> total == CountTrue(MillerRabinVerdicts(numbers, draws))
    ensures cores == 0 ==> total == 0
  {
    total := 0;
    if cores == 0 {
      return;
    }
    for i := 0 to cores
      invariant total == SumOverWorkers(MillerRabinVerdicts(numbers, draws), cores, i)
    {
      var c := PrimesMillerRabin(numbers, draws, i, cores);
      total := total + c;
    }
    WorkersCoverList(MillerRabinVerdicts(numbers, draws), cores);
  }

  /** A list of verdicts that is true wherever another one is counts at least as many. */
  lemma {:induction false} CountTrueMonotone(v: seq<bool>, w: seq<bool>)
    requires |v| == |w| && forall e :: 0 <= e < |v| && v[e] ==> w[e]
    ensures CountTrue(v) <= CountTrue(w)
    decreases |v|
  {
    if v != [] {
      CountTrueMonotone(v[..|v| - 1], w[..|w| - 1]);
    }
  }

  /** Miller-Rabin never misses a prime, so on any list and any draws it finds at
      least as many primes as trial division. */
  lemma MillerRabinCountsEveryPrime(numbers: seq<int>, draws: seq<seq<nat>>)
    requires |draws| == |numbers|
    ensures CountTrue(TrialDivisionVerdicts(numbers)) <= CountTrue(MillerRabinVerdicts(numbers, draws))
  {
    var v, w := TrialDivisionVerdicts(numbers), MillerRabinVerdicts(numbers, draws);
    forall e | 0 <= e < |v| && v[e] ensures w[e] {
      PrimeAlwaysPasses(numbers[e], draws[e]);
    }
    CountTrueMonotone(v, w);
  }
}
