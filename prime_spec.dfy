/** The reference list both prime finders are proved against: the primes
    p with 2 <= p <= n, in ascending order. */
module PrimeSpec {
  import opened NumberTheory

  /** Reference definition: the primes up to n, smallest first. */
  function PrimesUpTo(n: int): (ps: seq<int>)
    decreases n
  {
    if n < 2 then [] else PrimesUpTo(n - 1) + (if IsPrime(n) then [n] else [])
  }

  /** Strictly ascending sequence. */
  predicate Ascending(s: seq<int>) {
    forall i, j :: 0 <= i < j < |s| ==> s[i] < s[j]
  }

  /** PrimesUpTo(n) holds every prime in [2, n] and nothing else. */
  lemma {:induction false} PrimesUpToMembers(n: int)
    ensures forall x :: x in PrimesUpTo(n) <==> 2 <= x <= n && IsPrime(x)
    decreases n
  {
    if n >= 2 {
      PrimesUpToMembers(n - 1);
    }
  }

  /** PrimesUpTo(n) is strictly ascending and lies within [2, n]. */
  lemma {:induction false} PrimesUpToAscending(n: int)
    ensures Ascending(PrimesUpTo(n))
    ensures forall i :: 0 <= i < |PrimesUpTo(n)| ==> 2 <= PrimesUpTo(n)[i] <= n
    decreases n
  {
    if n >= 2 {
      PrimesUpToAscending(n - 1);
    }
  }

  /** Raising the bound only appends larger primes: for n <= m the list for
      n is a prefix of the list for m, and everything after that prefix
      exceeds n. So the list for n is the list for m restricted to values <= n. */
  lemma {:induction false} PrimesUpToPrefix(n: int, m: int)
    requires n <= m
    ensures PrimesUpTo(n) <= PrimesUpTo(m)
    ensures forall i :: |PrimesUpTo(n)| <= i < |PrimesUpTo(m)| ==> PrimesUpTo(m)[i] > n
    decreases m - n
  {
    if n < m {
      PrimesUpToPrefix(n, m - 1);
      if m >= 2 {
        PrimesUpToAscending(m);
      }
    }
  }

  /** Only n <= 1 gives no primes; from 2 on, the list starts with 2. */
  lemma {:induction false} PrimesUpToStart(n: int)
    ensures PrimesUpTo(n) == [] <==> n < 2
    ensures n >= 2 ==> PrimesUpTo(n)[0] == 2
    decreases n
  {
    if n >= 2 {
      assert IsPrime(2);
      if n > 2 {
        PrimesUpToStart(n - 1);
      }
    }
  }

  /** Below 25, trial division by 2, 3 and 4 settles primality. */
  lemma PrimeByTrial(v: int)
    requires 2 <= v < 25
    requires !Eliminates(v, 2) && !Eliminates(v, 3) && !Eliminates(v, 4)
    ensures IsPrime(v)
  {
  }

  /** The lists for the bounds 0, 1, 2 and 10. */
  lemma SmallPrimesTo10()
    ensures PrimesUpTo(0) == [] && PrimesUpTo(1) == [] && PrimesUpTo(2) == [2]
    ensures PrimesUpTo(10) == [2, 3, 5, 7]
  {
    assert PrimesUpTo(2) == [2] by {
      PrimeByTrial(2);
    }
    assert PrimesUpTo(3) == [2, 3] by {
      PrimeByTrial(3);
    }
    assert PrimesUpTo(4) == [2, 3] by {
      assert 4 % 2 == 0;
    }
    assert PrimesUpTo(5) == [2, 3, 5] by {
      PrimeByTrial(5);
    }
    assert PrimesUpTo(6) == [2, 3, 5] by {
      assert 6 % 2 == 0;
    }
    assert PrimesUpTo(7) == [2, 3, 5, 7] by {
      PrimeByTrial(7);
    }
    assert PrimesUpTo(8) == [2, 3, 5, 7] by {
      assert 8 % 2 == 0;
    }
    assert PrimesUpTo(9) == [2, 3, 5, 7] by {
      assert 9 % 3 == 0;
    }
    assert PrimesUpTo(10) == [2, 3, 5, 7] by {
      assert 10 % 2 == 0;
    }
  }

  /** The list for the bound 20. */
  lemma SmallPrimesTo20()
    ensures PrimesUpTo(20) == [2, 3, 5, 7, 11, 13, 17, 19]
  {
    SmallPrimesTo10();
    assert PrimesUpTo(11) == [2, 3, 5, 7, 11] by {
      PrimeByTrial(11);
    }
    assert PrimesUpTo(12) == [2, 3, 5, 7, 11] by {
      assert 12 % 2 == 0;
    }
    assert PrimesUpTo(13) == [2, 3, 5, 7, 11, 13] by {
      PrimeByTrial(13);
    }
    assert PrimesUpTo(14) == [2, 3, 5, 7, 11, 13] by {
      assert 14 % 2 == 0;
    }
    assert PrimesUpTo(15) == [2, 3, 5, 7, 11, 13] by {
      assert 15 % 3 == 0;
    }
    assert PrimesUpTo(16) == [2, 3, 5, 7, 11, 13] by {
      assert 16 % 2 == 0;
    }
    assert PrimesUpTo(17) == [2, 3, 5, 7, 11, 13, 17] by {
      PrimeByTrial(17);
    }
    assert PrimesUpTo(18) == [2, 3, 5, 7, 11, 13, 17] by {
      assert 18 % 2 == 0;
    }
    assert PrimesUpTo(19) == [2, 3, 5, 7, 11, 13, 17, 19] by {
      PrimeByTrial(19);
    }
    assert PrimesUpTo(20) == [2, 3, 5, 7, 11, 13, 17, 19] by {
      assert 20 % 2 == 0;
    }
  }
}
