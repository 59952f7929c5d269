# Primality benchmark kernels, modelled in Dafny

The program benchmarks three primality tests over a list of integers. The tests are
trial division, a hand-written Miller–Rabin test and a big-integer library test.
Each worker thread `threadId` of `cores` handles the list indices `e` with
`e % cores == threadId`. This project models the integer arithmetic of `primes.cpp`:

- `ModularArithmetic`: `mulmod` (double-and-add multiplication modulo `m`) and
  `modulo` (square-and-multiply exponentiation), as methods whose loops are proved
  against `(a * b) % m` and `Pow(b, e) % m`.
- `TrialDivision`: `isPrimeTrialDivision`, proved to return exactly `IsPrime(n)`.
- `MillerRabin`: `isPrimeMillerRabin`. The value `rand()` returns in each round is
  an input (`draws`), and the witness is derived from it as the code does
  (`d % (p - 1) + 1`). The kernel is proved equal to `MillerRabinVerdict`, a
  strong-probable-prime statement over the chain `a^(s * 2^j) mod p`. It is also
  proved never to reject a prime, whatever the draws. That proof rests on Fermat's
  little theorem (module `Fermat`) and on the fact that 1 has no square roots other
  than 1 and p - 1 modulo a prime (module `NumberTheory`).
- `Partition`: the counting loops of `primesTrialDivision` and `primesMillerRabin`
  with the clock removed. Each returns its worker's count, and the counts of
  workers `0 .. cores - 1` are proved to add up to the count over the whole list.
  The main program's thread loop is modelled as workers that run one after another
  (`TotalTrialDivision`, `TotalMillerRabin`).
- `Scenario`: the list 2, 3, 4, 17, 18, 97 on two workers. Worker 0 finds 1 prime,
  worker 1 finds 3, and both kernels count 4 in total, for every choice of draws.

Where the code and a textbook description differ, the model follows the code. A
textbook Miller–Rabin round squares at most k - 1 times, where p - 1 = s * 2^k.
The loop at primes.cpp:181 keeps squaring until `temp` reaches p - 1, so it also
checks whether a^(p-1) = p - 1 (mod p). `PassesRound` therefore lets `j` range over
`0 .. k`. For an odd p that extra check never succeeds: if a^(p-1) = -1 modulo each
prime factor q of p, then 2^(t+1) divides q - 1 for every such q, where 2^t is the
largest power of two dividing p - 1, and so 2^(t+1) divides p - 1. The code and the
textbook round therefore agree on every p. The model neither proves nor relies on
this argument.

## Model

| member | source | states |
|---|---|---|
| `ModularArithmetic.MulMod` | primes.cpp:149-158 | For a >= 0, b >= 0 and m > 0 the result is (a * b) mod m. For b < 0 the loop does not run and the result is 0, whatever the sign of a. It is always in [0, m). The loop keeps x + y * n = a * b (mod m) with x, y in [0, m), and it ends because n is halved while positive |
| `ModularArithmetic.MulModStep` | primes.cpp:152-156 | One loop iteration (add y when the low bit is set, double y, halve n) leaves x + y * n unchanged modulo m |
| `ModularArithmetic.ModPow` | primes.cpp:160-169 | For b >= 0, e >= 0 and m > 0 the result is b^e mod m. With e = 0 that is 1 mod m. For e < 0 the loop does not run and the result is 1 mod m. It is always in [0, m). The loop keeps x * y^n = b^e (mod m) |
| `ModularArithmetic.ModPowStep` | primes.cpp:163-167 | One loop iteration (multiply x by y for an odd exponent, square y, halve the exponent) leaves x * y^n unchanged modulo m |
| `TrialDivision.IsPrimeTrialDivision` | primes.cpp:138-147 | True exactly when n is prime. Equivalently, n >= 2 and no d >= 2 with d * d <= n divides n. So n <= 1 gives false and n = 2 gives true |
| `TrialDivision.SmallDivisorSuffices` | primes.cpp:142-146 | n is prime iff n >= 2 and no d with 2 <= d and d * d <= n divides n. This is why a loop that stops at the square root decides primality |
| `TrialDivision.CoDivisor` | primes.cpp:142-144 | A composite n with divisor d in [2, n) has a divisor e >= 2 with e * e <= n |
| `MillerRabin.OddPart` | primes.cpp:174-175 | The value the halving loop leaves in s is odd and at least 1 |
| `MillerRabin.OddPartDecomposition` | primes.cpp:174-175 | n = s * 2^k, with s the odd part and k the number of halvings |
| `MillerRabin.Witness` | primes.cpp:177 | The witness rand() % (p - 1) + 1 lies in [1, p - 1] |
| `MillerRabin.ChainIsPower` | primes.cpp:179-183 | The value after j squarings modulo p is a^(s * 2^j) mod p |
| `MillerRabin.ChainStaysOne` | primes.cpp:181-185 | Once the squaring chain reaches 1 it stays 1, so stopping at 1 means the round can no longer reach p - 1 |
| `MillerRabin.ExponentDetermined` | primes.cpp:181-183 | temp = s * 2^j equals p - 1 = s * 2^k only when j = k, so the inner loop runs at most k times |
| `MillerRabin.RoundFails` | primes.cpp:181-185 | A round that stops at 1, or at temp = p - 1, without reaching p - 1 does not satisfy `PassesRound` |
| `MillerRabin.TempBound` | primes.cpp:181-183 | While j <= k, temp = s * 2^j is at most p - 1 = s * 2^k |
| `MillerRabin.LoopExit` | primes.cpp:181-185 | Wherever the inner loop stops (temp = p - 1, value 1 or value p - 1) with no earlier p - 1, the round passes exactly when the value it stopped at is p - 1 |
| `MillerRabin.WitnessRound` | primes.cpp:178-185 | The round passes exactly when a^s = 1 or a^(s * 2^j) = p - 1 (mod p) for some j <= k. The inner loop keeps temp = s * 2^j with j <= k, and the value equal to the j-th chain value, and it terminates. `TempBound` shows temp <= p - 1 |
| `MillerRabin.IsPrimeMillerRabin` | primes.cpp:171-188 | The result equals `MillerRabinVerdict(p, draws)`. It is false for p < 2 and for even p other than 2, and false implies p is not prime |
| `MillerRabin.PrimePassesRound` | primes.cpp:176-187 | For prime p, every witness in [1, p - 1] passes its round |
| `MillerRabin.LastBeforeOne` | primes.cpp:181-185 | For prime p, if the chain starts away from 1 and later reaches 1, the value just before the first 1 is p - 1 |
| `MillerRabin.PrimeAlwaysPasses` | primes.cpp:171-188 | For prime p and any random draws, the kernel returns true |
| `Fermat.FermatLittle` | primes.cpp:179-185 | a^(p-1) = 1 (mod p) for prime p not dividing a. This is the fact behind "false means composite" |
| `NumberTheory.SquareRootOfOne` | primes.cpp:181-185 | Modulo a prime, x * x = 1 only for x = 1 or x = p - 1 |
| `Partition.ExactlyOneOwner` | primes.cpp:86-87 | Each index e belongs to exactly one worker in [0, cores), namely e % cores |
| `Partition.NoSuchWorker` | primes.cpp:86-87 | A thread id outside [0, cores) owns no index and counts 0 |
| `Partition.WorkersCoverList` | primes.cpp:86-92 | The per-worker counts over threadId in [0, cores) add up to the number of true verdicts in the whole list |
| `Partition.SingleWorker` | primes.cpp:100-106 | With cores = 1, worker 0 counts every true verdict |
| `Partition.PartitionInvariance` | primes.cpp:84-110 | The summed count for any cores >= 1 equals the single-worker count |
| `Partition.PrimesTrialDivision` | primes.cpp:84-96 | Returns the number of primes at the indices worker threadId owns |
| `Partition.PrimesMillerRabin` | primes.cpp:98-110 | Returns how many numbers at worker threadId's indices Miller–Rabin accepts with the given draws |
| `Partition.TotalTrialDivision` | primes.cpp:52-74 | Running every worker and adding its count gives the number of primes in the list. No worker runs when cores = 0, and the total stays 0 |
| `Partition.TotalMillerRabin` | primes.cpp:52-74 | As above for Miller–Rabin: the total equals the count of accepted numbers |
| `Partition.MillerRabinCountsEveryPrime` | primes.cpp:88-103 | On any list and any draws, Miller–Rabin's count is at least trial division's count |
| `Scenario.ScenarioVerdicts` | primes.cpp:138-188 | On 2, 3, 4, 17, 18, 97 both kernels give true, true, false, true, false, true, for any draws |
| `Scenario.ScenarioCounts` | primes.cpp:84-110 | With two workers on that list, worker 0 counts 1 and worker 1 counts 3, 4 in all, for both kernels |

## Left out

- Threads, the mutex and the join (primes.cpp:50-74). The workers run one after another. Concurrency is not modelled.
- The shared counters `countTD`, `countMR` and `countGMP` and their unsynchronised increments (primes.cpp:27-29, 89, 103, 120). Each worker returns its count instead, so the data race is not modelled.
- The wall-clock timing and the `duration<double>` totals. These are clock readings and floating-point sums.
- `primesLibGmp` and `mpz_probab_prime_p` (primes.cpp:112-127). This is a call into an external library.
- `openFile`, reading the file line by line, `std::stol`, the argument check and the console output (primes.cpp:37-48, 75-80, 129-136). These are I/O.
- `rand()` (primes.cpp:177). The values it returns are the input `draws`. How concurrent threads interleave their calls is not modelled: the draws for each number are given.
- The floating-point bound `i <= sqrt(n)` (primes.cpp:142) is modelled as `i * i <= n`. Rounding of `sqrt` for very large `n` is not modelled.
- 64-bit width: all integers are unbounded, so overflow of `long int` is not modelled. The invariants x, y < m of `mulmod` bound its intermediate sums by 2m.
- ModularArithmetic.MulMod: requires a >= 0 or b <= 0, and m > 0. For a negative a and a positive b, `a % mod` (primes.cpp:151) truncates toward zero and can be negative, and that case is not modelled. A modulus of 0 divides by zero, and a negative one gives remainders with the sign of the dividend. The kernel always passes values in [0, p) and the modulus p >= 2.
- ModularArithmetic.ModPow: requires b >= 0 and m > 0. For b < 0 and e > 0 the C++ code returns 0, not b^e mod m. The negative base reaches mulmod only as its second argument (primes.cpp:164-165), so each of those calls returns 0. That case is not modelled, and neither is m <= 0 (see MulMod). The kernel always passes a witness in [1, p - 1] and the modulus p >= 2. A negative e is modelled.
- The number of rounds is the constant `Accuracy` = 15 (primes.cpp:12). `IsPrimeMillerRabin` takes exactly that many draws.
