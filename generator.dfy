/** The unbounded generator `gen_eratosthenes()`. Its local variables, which
    persist between yields, become the fields of a PrimeGenerator; one call of
    Next() runs the `while True` body until the next `yield` and returns the
    yielded value. */
module Generator {
  import opened NumberTheory
  import opened PrimeSpec

  class PrimeGenerator {
    /** The probe: the next integer to be tested. */
    var n: int
    /** The value yielded last (0 before the first yield). */
    var currentPrime: int
    /** The working list: the primes confirmed so far. */
    var genNums: seq<int>
    /** Length counter kept beside genNums. */
    var lenNums: int

    /** State between two yields: genNums holds exactly the primes below the
        probe, in order; currentPrime is its last element (0 while it is
        empty); the probe sits just above the last yield. */
    ghost predicate Valid()
      reads this
    {
      && n >= 2
      && genNums == PrimesUpTo(n - 1)
      && lenNums == |genNums|
      && (genNums == [] ==> n == 2 && currentPrime == 0)
      && (genNums != [] ==> currentPrime == genNums[|genNums| - 1] && n == currentPrime + 1)
    }

    /** The state before the first request: probe 2, nothing yielded yet,
        an empty working list. */
    constructor ()
      ensures Valid()
      ensures n == 2 && currentPrime == 0 && genNums == [] && lenNums == 0
    {
      n := 2;
      currentPrime := 0;
      genNums := [];
      lenNums := 0;
    }

    /** Resume the generator: probe n, n + 1, ... until one survives trial
        division, and yield it. The yielded value is the least prime above the
        previous one, so the k-th call returns the k-th prime. */
    method Next() returns (p: int)
      requires Valid()
      modifies this
      ensures Valid()
      ensures IsPrime(p) && old(currentPrime) < p
      ensures forall q :: old(currentPrime) < q < p ==> !IsPrime(q)
      ensures genNums == old(genNums) + [p] && currentPrime == p && n == p + 1
    {
      ghost var confirmed := genNums;
      // Euclid gives a prime at or above the probe: the search stops there.
      ghost var bound := PrimeAbove(n - 1);
      while true
        invariant 2 <= n <= bound
        invariant genNums == confirmed == PrimesUpTo(n - 1)
        invariant lenNums == |genNums|
        invariant currentPrime == old(currentPrime) < n
        invariant confirmed != [] ==> currentPrime == confirmed[|confirmed| - 1]
        invariant forall q :: old(currentPrime) < q < n ==> !IsPrime(q)
        decreases bound - n
      {
        genNums := genNums + [n];
        lenNums := lenNums + 1;
        ghost var eliminated := false;
        for i := 2 to RoundSqrt(n) + 1
          invariant genNums == confirmed + [n]
          invariant !HasEliminatorUpTo(n, i - 1)
        {
          if genNums[|genNums| - 1] % i == 0 && genNums[|genNums| - 1] != i {
            assert Eliminates(n, i);
            genNums := genNums[..|genNums| - 1];
            eliminated := true;
            break;
          }
        }
        assert eliminated ==> genNums == confirmed && HasEliminatorUpTo(n, RoundSqrt(n));
        assert !eliminated ==> genNums == confirmed + [n] && !HasEliminatorUpTo(n, RoundSqrt(n));
        ProbeStep(n, confirmed, currentPrime);
        lenNums := |genNums|;
        n := n + 1;
        if genNums[|genNums| - 1] != currentPrime {
          currentPrime := genNums[|genNums| - 1];
          p := genNums[|genNums| - 1];
          return;
        }
      }
    }
  }

  /** One probe of the generator's loop, from the list of the primes below
      it: trial division up to round(sqrt(n)) decides whether n is prime; a
      prime extends the list (and differs from the last yield), a composite
      leaves it as it was (and its last element is the last yield). */
  lemma ProbeStep(n: int, confirmed: seq<int>, currentPrime: int)
    requires n >= 2 && confirmed == PrimesUpTo(n - 1) && currentPrime < n
    requires confirmed != [] ==> currentPrime == confirmed[|confirmed| - 1]
    ensures IsPrime(n) <==> !HasEliminatorUpTo(n, RoundSqrt(n))
    ensures IsPrime(n) ==> PrimesUpTo(n) == confirmed + [n]
    ensures !IsPrime(n) ==> PrimesUpTo(n) == confirmed != [] && confirmed[|confirmed| - 1] == currentPrime
  {
    ValueBoundSuffices(n);
    if !IsPrime(n) {
      PrimesUpToStart(n - 1);
    }
  }

  /** A caller that takes the first k values from a fresh generator. They
      are the first k primes: exactly the primes up to the last one, hence
      the first k elements of the bounded finder's list for any bound at
      least that large. */
  method FirstPrimes(k: nat) returns (ps: seq<int>)
    ensures |ps| == k
    ensures k > 0 ==> ps[0] == 2 && ps == PrimesUpTo(ps[k - 1])
    ensures Ascending(ps)
    ensures forall m :: k > 0 && m >= ps[k - 1] ==> |PrimesUpTo(m)| >= k && PrimesUpTo(m)[..k] == ps
  {
    var g := new PrimeGenerator();
    ps := [];
    while |ps| < k
      invariant g.Valid() && ps == g.genNums && |ps| <= k
    {
      var p := g.Next();
      ps := ps + [p];
    }
    PrimesUpToAscending(g.n - 1);
    if k > 0 {
      PrimesUpToStart(g.n - 1);
      forall m | m >= ps[k - 1]
        ensures |PrimesUpTo(m)| >= k && PrimesUpTo(m)[..k] == ps
      {
        PrimesUpToPrefix(ps[k - 1], m);
      }
    }
  }

  /** The first five values a fresh generator yields. */
  method FirstFive() returns (ps: seq<int>)
    ensures ps == [2, 3, 5, 7, 11]
  {
    SmallPrimesTo20();
    var g := new PrimeGenerator();
    var p2 := g.Next();
    var p3 := g.Next();
    var p5 := g.Next();
    var p7 := g.Next();
    var p11 := g.Next();
    ps := [p2, p3, p5, p7, p11];
    assert ps == g.genNums == PrimesUpTo(p11);
    // Five primes up to p11 are the first five of the primes up to 20.
    if p11 <= 20 {
      PrimesUpToPrefix(p11, 20);
    } else {
      PrimesUpToPrefix(20, p11);
    }
  }
}
