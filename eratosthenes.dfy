/** The bounded finder `eratosthenes(n)`: list the candidates 2..n, append a
    candidate to `nonPrimes` once for every trial divisor that eliminates it,
    then keep the candidates that never appear in `nonPrimes`. */
module Eratosthenes {
  import opened NumberTheory
  import opened PrimeSpec

  /** The candidate list 2, 3, ..., n; empty when n < 2. */
  function Candidates(n: int): (nums: seq<int>)
    ensures |nums| == if n < 2 then 0 else n - 1
    ensures forall j :: 0 <= j < |nums| ==> nums[j] == j + 2
  {
    seq(if n < 2 then 0 else n - 1, j => j + 2)
  }

  /** What the inner loop appends for candidate v while i runs over
      2..hi: one copy of v for each i that eliminates it. */
  function MarksOf(v: int, hi: int): (marks: seq<int>)
    ensures forall k :: 0 <= k < |marks| ==> marks[k] == v
    ensures |marks| <= if hi < 2 then 0 else hi - 1
    decreases hi
  {
    if hi < 2 then [] else MarksOf(v, hi - 1) + (if Eliminates(v, hi) then [v] else [])
  }

  /** `nonPrimes` after the outer loop has handled the first j candidates.
      The candidate at index k is tried against 2..round(sqrt(k + 1)): the
      bound comes from the index, not from the value. */
  function NonPrimes(nums: seq<int>, j: nat): (nonPrimes: seq<int>)
    requires j <= |nums|
    ensures forall x :: x in nonPrimes ==> x in nums[..j]
  {
    if j == 0 then [] else NonPrimes(nums, j - 1) + MarksOf(nums[j - 1], RoundSqrt(j))
  }

  /** The final list comprehension: the candidates, in their order, that
      occur nowhere in nonPrimes. */
  function Sift(nums: seq<int>, nonPrimes: seq<int>): (primes: seq<int>)
    ensures |primes| <= |nums|
    ensures forall x :: x in primes ==> x in nums && x !in nonPrimes
  {
    if nums == [] then []
    else
      var last := nums[|nums| - 1];
      Sift(nums[..|nums| - 1], nonPrimes) + (if last in nonPrimes then [] else [last])
  }

  /** The inner loop appends v, and only v, exactly when some trial divisor
      in 2..hi eliminates it. */
  lemma {:induction false} MarksOfMembers(v: int, hi: int)
    ensures forall x :: x in MarksOf(v, hi) <==> x == v && HasEliminatorUpTo(v, hi)
    decreases hi
  {
    if hi >= 2 {
      MarksOfMembers(v, hi - 1);
      if Eliminates(v, hi) {
        assert v in MarksOf(v, hi);
      } else if HasEliminatorUpTo(v, hi) {
        var i :| 2 <= i <= hi && Eliminates(v, i);
        assert i < hi;
        assert HasEliminatorUpTo(v, hi - 1);
      }
    }
  }

  /** A candidate may be appended several times, once per eliminating
      divisor: 12 is marked by both 2 and 3. */
  lemma RepeatedMark()
    ensures MarksOf(12, RoundSqrt(11)) == [12, 12]
  {
  }

  /** Only composites are marked, and every composite among the first j
      candidates is. Whether a value is marked depends on the value alone,
      not on the bound n. */
  lemma {:induction false} NonPrimesMembers(n: int, j: nat)
    requires j <= |Candidates(n)|
    ensures forall x :: x in NonPrimes(Candidates(n), j) <==> 2 <= x < j + 2 && !IsPrime(x)
  {
    var nums := Candidates(n);
    if j > 0 {
      NonPrimesMembers(n, j - 1);
      var v := nums[j - 1];
      assert v == j + 1;
      MarksOfMembers(v, RoundSqrt(j));
      IndexBoundSuffices(v);
    }
  }

  /** The filter keeps exactly the values of nums that never occur in
      nonPrimes, however many times they occur there. */
  lemma {:induction false} SiftMembers(nums: seq<int>, nonPrimes: seq<int>)
    ensures forall x :: x in Sift(nums, nonPrimes) <==> x in nums && x !in nonPrimes
    decreases |nums|
  {
    if nums != [] {
      var init := nums[..|nums| - 1];
      SiftMembers(init, nonPrimes);
      assert nums == init + [nums[|nums| - 1]];
    }
  }

  /** Filtering the first k candidates against marks that are exactly the
      composites (up to some bound >= the candidates) gives the primes up
      to k + 1, in order. */
  lemma {:induction false} SiftCandidates(n: int, k: nat, nonPrimes: seq<int>)
    requires k <= |Candidates(n)|
    requires forall x :: 2 <= x <= k + 1 ==> (x in nonPrimes <==> !IsPrime(x))
    ensures Sift(Candidates(n)[..k], nonPrimes) == PrimesUpTo(k + 1)
  {
    var nums := Candidates(n);
    if k > 0 {
      SiftCandidates(n, k - 1, nonPrimes);
      assert nums[..k][..k - 1] == nums[..k - 1];
      assert nums[k - 1] == k + 1;
    }
  }

  /** The whole algorithm as written yields exactly the primes up to n. */
  lemma SieveExact(n: int)
    ensures var nums := Candidates(n);
      Sift(nums, NonPrimes(nums, |nums|)) == PrimesUpTo(n)
  {
    var nums := Candidates(n);
    NonPrimesMembers(n, |nums|);
    SiftCandidates(n, |nums|, NonPrimes(nums, |nums|));
    assert nums[..|nums|] == nums;
    if n < 2 {
      assert PrimesUpTo(n) == [];
    }
  }

  /** `eratosthenes(n)` for an integer n: the primes in [2, n], ascending. */
  method Eratosthenes(n: int) returns (primes: seq<int>)
    ensures primes == PrimesUpTo(n)
    ensures Ascending(primes)
    ensures forall x :: x in primes <==> 2 <= x <= n && IsPrime(x)
  {
    var nums := Candidates(n);
    var nonPrimes: seq<int> := [];
    for j := 0 to |nums|
      invariant nonPrimes == NonPrimes(nums, j)
    {
      for i := 2 to RoundSqrt(j + 1) + 1
        invariant nonPrimes == NonPrimes(nums, j) + MarksOf(nums[j], i - 1)
      {
        if nums[j] % i == 0 && nums[j] != i {
          nonPrimes := nonPrimes + [nums[j]];
        }
      }
    }
    primes := Sift(nums, nonPrimes);
    SieveExact(n);
    PrimesUpToAscending(n);
    PrimesUpToMembers(n);
  }
}
