# Prime finders of `primes.py`, modelled and proved in Dafny

`primes.py` has two independent ways of producing primes by trial division.

- `eratosthenes(n)` is the bounded finder. It builds the candidates `2..n`. For
  the candidate at index `j`, it tries every divisor `i` in
  `2..round(sqrt(j + 1))`. It appends the candidate to a `nonPrimes` list once
  for every `i` that divides it, other than itself. It then keeps the
  candidates that never occur in `nonPrimes`.
- `gen_eratosthenes()` is the unbounded generator. It keeps a probe `n`, the
  last yielded `currentPrime`, a working list `genNums` and a length counter
  `lenNums`. Each round appends the probe to the list and trial-divides it up
  to `round(sqrt(n))`. A composite probe is deleted again. The probe is then
  incremented, and the round yields when the last element of the list has
  changed.

The model has four modules:

- `NumberTheory` (number_theory.dfy) defines primality and the source's
  elimination test: the trial divisor `i` divides `v` with a quotient other than 1. It defines `RoundSqrt`, an exact
  integer form of `round(math.sqrt(k))`. It proves that trial division up to
  either bound the source uses decides primality. It also proves Euclid's
  theorem, which is what makes the generator's search end.
- `PrimeSpec` (prime_spec.dfy) holds the reference list `PrimesUpTo(n)`: the
  primes in `[2, n]`, in ascending order. Both finders are proved against it.
- `Eratosthenes` (eratosthenes.dfy) holds the method `Eratosthenes`, with the
  source's nested loops and its `nonPrimes` list. The functions `MarksOf`,
  `NonPrimes` and `Sift` describe what those loops and the final filter compute.
- `Generator` (generator.dfy) holds the class `PrimeGenerator`. Its fields are
  the generator's variables, and `Next()` runs the `while True` body up to the
  next `yield`. Two callers, `FirstPrimes` and `FirstFive`, drive a fresh
  generator.

The divisor bound in `eratosthenes` comes from the candidate's index
(`j + 1`, that is value − 1) and not from its value. This bound is still exact.
For a composite `v` with least factor `p`, `p * p <= v` holds, so
`round(sqrt(v - 1)) >= p` (`IndexBoundSuffices`). So `eratosthenes(n)` returns
exactly the primes up to `n`.

The module docstring (primes.py:20) says "less than n", but
`range(2, int(n)+1)` includes `n`. The model follows the code: the result is the
primes `<= n`.

## Model

| member | source | states |
|---|---|---|
| `NumberTheory.Eliminates` | primes.py:29 | the trial divisor i eliminates v when i ≥ 2 divides v with a quotient other than 1; for a positive v an eliminating i is a proper divisor, 2 ≤ i < v |
| `NumberTheory.RoundSqrt` | primes.py:28 | for k > 0 the result r is the integer nearest to sqrt(k): (2r−1)² < 4k < (2r+1)², i.e. r·r − r < k ≤ r·r + r; round(sqrt(0)) = 0 |
| `NumberTheory.RoundSqrtUnique` | primes.py:49 | any m with m·m − m < k ≤ m·m + m is RoundSqrt(k), so the integer characterisation determines round(sqrt(k)) |
| `NumberTheory.TrialDivisionExact` | primes.py:29-30 | when v < (bound+1)², v is prime iff no i in 2..bound satisfies `v % i == 0` and `v != i` |
| `NumberTheory.IndexBoundSuffices` | primes.py:27-30 | for candidate v = j + 2, trial division up to round(sqrt(j + 1)) eliminates v iff v is composite |
| `NumberTheory.ValueBoundSuffices` | primes.py:49-52 | for a probe n ≥ 2, trial division up to round(sqrt(n)) eliminates n iff n is composite |
| `NumberTheory.PrimeAbove` | primes.py:46-57 | above every n there is a prime p ≤ n! + 1, so the generator's `while True` search for the next yield ends |
| `PrimeSpec.PrimesUpToMembers` | primes.py:32-33 | a value is in the reference list for n iff it is prime and lies in [2, n] |
| `PrimeSpec.PrimesUpToAscending` | primes.py:25 | the reference list is strictly ascending and every element lies in [2, n] |
| `PrimeSpec.PrimesUpToPrefix` | primes.py:27-32 | for n ≤ m, the list for n is a prefix of the list for m and the rest of the list for m exceeds n, so the result for n is the result for m restricted to values ≤ n |
| `PrimeSpec.PrimesUpToStart` | primes.py:25 | the list is empty iff n < 2, and otherwise starts with 2 |
| `PrimeSpec.SmallPrimesTo10` | primes.py:23-33 | the lists for n = 0, 1, 2 and 10 are [], [], [2] and [2, 3, 5, 7] |
| `PrimeSpec.SmallPrimesTo20` | primes.py:23-33 | the list for n = 20 is [2, 3, 5, 7, 11, 13, 17, 19] |
| `Eratosthenes.Candidates` | primes.py:25 | the candidate list has n − 1 elements, the element at index j being j + 2, so it is 2..n in order, and it is empty for n < 2 |
| `Eratosthenes.MarksOf` | primes.py:28-30 | what the inner loop appends for candidate v while i runs over 2..hi: every appended element is v, and there is at most one per trial divisor |
| `Eratosthenes.NonPrimes` | primes.py:27-30 | `nonPrimes` after the first j candidates (each tried up to round(sqrt(index + 1))): every value in it is one of those j candidates |
| `Eratosthenes.Sift` | primes.py:32 | the list comprehension's result is no longer than the candidates, and each value it keeps is a candidate that does not occur in `nonPrimes` |
| `Eratosthenes.MarksOfMembers` | primes.py:28-30 | the inner loop appends candidate v, and nothing else, exactly when some i in 2..hi divides v with v ≠ i |
| `Eratosthenes.RepeatedMark` | primes.py:28-30 | a candidate is appended once per eliminating divisor: for 12, the inner loop appends [12, 12] (divisors 2 and 3) |
| `Eratosthenes.NonPrimesMembers` | primes.py:27-30 | after the first j candidates, `nonPrimes` holds exactly the composites in [2, j + 1]; whether a value is marked depends on the value alone, not on n |
| `Eratosthenes.SiftMembers` | primes.py:32 | the list comprehension keeps a value iff it is a candidate and occurs nowhere in `nonPrimes`, however often it occurs there |
| `Eratosthenes.SieveExact` | primes.py:25-33 | the candidates filtered against the complete `nonPrimes` list are exactly the primes up to n, in order |
| `Eratosthenes.Eratosthenes` | primes.py:23-33 | the method returns the primes in [2, n], strictly ascending, with every such prime present (empty for n < 2); its loop invariants tie `nonPrimes` to the index-based marking |
| `Generator.PrimeGenerator.constructor` | primes.py:42-45 | the initial state n = 2, currentPrime = 0, genNums = [], lenNums = 0 satisfies the generator invariant |
| `Generator.PrimeGenerator.Next` | primes.py:46-57 | it keeps the invariant (genNums holds exactly the primes below n, ascending; lenNums is the length of genNums; currentPrime is the last element). The yielded p is prime and greater than the previous yield, no prime lies strictly between them, genNums gains exactly p, and n = p + 1 |
| `Generator.ProbeStep` | primes.py:47-55 | one probe: trial division up to round(sqrt(n)) decides primality; a prime probe extends the list of primes below n, while a composite leaves it unchanged, non-empty and ending at the last yield, so nothing is yielded |
| `Generator.FirstPrimes` | primes.py:41-57 | the first k values of a fresh generator start at 2, are strictly ascending and are exactly the primes up to the last of them. They equal the first k elements of the bounded result for every bound at least that large |
| `Generator.FirstFive` | primes.py:41-57 | the first five values of a fresh generator are 2, 3, 5, 7, 11 |

## Left out

- Parsing the argument (`int(n)` on a string) and its `ValueError` handler, which prints a message and returns `None` (primes.py:24-25, 34-35): the model's argument is already an `int`.
- `main` and the `__main__` block (primes.py:59-66): argument counting and `print` are I/O.
- `math.sqrt` and `round` on floats (primes.py:28, 49) are replaced by the exact integer `RoundSqrt`. The precision loss of IEEE doubles for arguments beyond 2^52 is not modelled. The source's range end is `round(math.sqrt(k)+1)`, with the `+ 1` inside `round`; the model writes `RoundSqrt(k) + 1`. The two agree because sqrt(k) + 1 is never exactly halfway between two integers (a square root of an integer is an integer or irrational), so Python's round-half-to-even rule never applies.
- The float quotient test `nums[j] / i != 1` (primes.py:29, 50) is modelled as `v != i`. This is the same for the trial divisors `i >= 2` the loops use.
- Python's suspend/resume of `yield` is not modelled: the generator's variables become fields, and one call of `Next()` runs to the next `yield`.
- Running time and memory are not modelled. `lenNums` is kept up to date as in the source, but the source never reads it.
