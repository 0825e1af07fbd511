/** Integer facts shared by both prime finders: primality, the trial-division
    test the source applies, an exact integer stand-in for round(sqrt(k)),
    and Euclid's theorem (there is always a larger prime). */
module NumberTheory {

  /** v is prime: at least 2 and no divisor strictly between 1 and v. */
  predicate IsPrime(v: int) {
    v >= 2 && forall d :: 2 <= d < v ==> v % d != 0
  }

  /** The test both loops apply to a candidate v and a trial divisor i: i
      divides v and the quotient is not 1. The quotient is a float in the
      source; for i >= 2 it equals 1 exactly when v == i. */
  predicate Eliminates(v: int, i: int)
    ensures Eliminates(v, i) && v > 0 ==> 2 <= i < v
  {
    var divides := 2 <= i && v % i == 0;
    if v > 0 && divides then DivisorAtMost(v, i); v != i else divides && v != i
  }

  /** Some trial divisor in range(2, hi + 1) eliminates v. */
  predicate HasEliminatorUpTo(v: int, hi: int) {
    exists i :: 2 <= i <= hi && Eliminates(v, i)
  }

  /** round(sqrt(k)) for a non-negative integer k, computed without floats:
      r is the integer nearest to sqrt(k), that is r - 1/2 < sqrt(k) < r + 1/2.
      A tie is impossible because (r + 1/2)^2 is never an integer. */
  function RoundSqrt(k: nat): (r: nat)
    ensures k == 0 ==> r == 0
    ensures k > 0 ==> r * r - r < k <= r * r + r
    ensures k > 0 ==> (2 * r - 1) * (2 * r - 1) < 4 * k < (2 * r + 1) * (2 * r + 1)
  {
    var r := RoundSqrtFrom(k, 0);
    SquareExpand(r);
    r
  }

  /** (2r -+ 1)^2 written out. */
  lemma SquareExpand(r: int)
    ensures (2 * r - 1) * (2 * r - 1) == 4 * (r * r - r) + 1
    ensures (2 * r + 1) * (2 * r + 1) == 4 * (r * r + r) + 1
  {
  }

  /** Search for the rounded square root upwards from m. */
  function RoundSqrtFrom(k: nat, m: nat): (r: nat)
    requires m == 0 || m * m - m < k
    ensures m <= r
    ensures k <= r * r + r
    ensures r == 0 || r * r - r < k
    decreases k - m
  {
    if k <= m * m + m then m else RoundSqrtFrom(k, m + 1)
  }

  /** Multiplying by a natural keeps order. */
  lemma {:induction false} MulMonotone(c: nat, a: int, b: int)
    ensures a <= b ==> c * a <= c * b
  {
    if c > 0 {
      MulMonotone(c - 1, a, b);
      assert c * a == (c - 1) * a + a;
      assert c * b == (c - 1) * b + b;
    }
  }

  /** x * x + x grows with x (on naturals). */
  lemma SquarePlusMonotone(a: int, b: int)
    ensures 0 <= a <= b ==> a * a + a <= b * b + b
  {
    if 0 <= a {
      MulMonotone(a, a, b);
      if 0 <= b {
        MulMonotone(b, a, b);
      }
      assert a * b == b * a;
    }
  }

  /** The characterisation pins RoundSqrt(k) down: any m with
      m*m - m < k <= m*m + m is round(sqrt(k)). */
  lemma RoundSqrtUnique(k: nat, m: nat)
    requires k > 0 && m * m - m < k <= m * m + m
    ensures RoundSqrt(k) == m
  {
    var r := RoundSqrt(k);
    SquarePlusMonotone(r, m - 1);
    SquarePlusMonotone(m, r - 1);
    assert (m - 1) * (m - 1) + (m - 1) == m * m - m;
    assert (r - 1) * (r - 1) + (r - 1) == r * r - r;
  }

  /** Division with remainder is unique: the quotient and remainder Dafny's
      `/` and `%` produce are the only ones. */
  lemma DivModUnique(a: int, d: int, q: int, r: int)
    requires d > 0 && 0 <= r < d && a == d * q + r
    ensures a % d == r && a / d == q
  {
    var q', r' := a / d, a % d;
    assert d * (q - q') == r' - r;
    MulMonotone(d, 1, q - q');
    MulMonotone(d, 1, q' - q);
    assert d * (q' - q) == -(d * (q - q'));
  }

  /** A multiple of d leaves remainder 0. */
  lemma MultipleMod(d: int, c: int)
    requires d > 0
    ensures (d * c) % d == 0
  {
    DivModUnique(d * c, d, c, 0);
  }

  /** Divisibility is transitive. */
  lemma DividesTransitive(v: int, p: int, e: int)
    requires e > 0 && p > 0
    ensures p % e == 0 && v % p == 0 ==> v % e == 0
  {
    var a, b := v / p, p / e;
    if p % e == 0 && v % p == 0 {
      assert v == p * a;
      assert p == e * b;
      assert v == e * (b * a);
      MultipleMod(e, b * a);
    }
  }

  /** A positive v has no divisor larger than itself. */
  lemma DivisorAtMost(v: int, i: int)
    requires v > 0 && i > 0
    ensures v % i == 0 ==> i <= v
  {
    var q := v / i;
    assert v == i * q + v % i;
    MulMonotone(i, 1, q);
    MulMonotone(i, q, 0);
  }

  /** Smallest divisor of v that is at least d. */
  function SmallestFactorFrom(v: int, d: int): (p: int)
    requires 2 <= d <= v
    requires forall e :: 2 <= e < d ==> v % e != 0
    ensures d <= p <= v && v % p == 0
    ensures forall e :: 2 <= e < p ==> v % e != 0
    decreases v - d
  {
    if v % d == 0 then d
    else
      assert d < v by { MultipleMod(v, 1); }
      SmallestFactorFrom(v, d + 1)
  }

  /** The smallest factor of v >= 2 is prime, divides v, and for a
      composite v its square is at most v. */
  lemma {:induction false} SmallestFactor(v: int) returns (p: int)
    requires v >= 2
    ensures IsPrime(p) && v % p == 0 && p <= v
    ensures forall e :: 2 <= e < p ==> v % e != 0
    ensures !IsPrime(v) ==> p * p <= v
  {
    p := SmallestFactorFrom(v, 2);
    forall e | 2 <= e < p
      ensures p % e != 0
    {
      DividesTransitive(v, p, e);
    }
    if !IsPrime(v) {
      SmallestFactorSquare(v, p);
    }
  }

  /** If p is the least divisor >= 2 of a composite v, then p * p <= v:
      the cofactor v / p is a divisor too, hence no smaller than p. */
  lemma SmallestFactorSquare(v: int, p: int)
    requires v >= 2 && !IsPrime(v)
    requires 2 <= p <= v && v % p == 0
    requires forall e :: 2 <= e < p ==> v % e != 0
    ensures p * p <= v
  {
    var d :| 2 <= d < v && v % d == 0;
    assert p < v;
    var q := v / p;
    assert v == p * q;
    MulMonotone(p, q, 1);
    assert 2 <= q;
    MulMonotone(q, 2, p);
    assert q < v;
    assert v == q * p;
    MultipleMod(q, p);
    assert p <= q;
    MulMonotone(p, p, q);
  }

  /** Trial division by 2..bound decides primality exactly, provided
      (bound + 1)^2 exceeds v: a composite's smallest factor p has
      p * p <= v, so p <= bound. */
  lemma {:induction false} TrialDivisionExact(v: int, bound: int)
    requires v >= 2 && bound >= 0
    requires v < (bound + 1) * (bound + 1)
    ensures IsPrime(v) <==> !HasEliminatorUpTo(v, bound)
  {
    if IsPrime(v) {
      forall i | 2 <= i <= bound
        ensures !Eliminates(v, i)
      {
        DivisorAtMost(v, i);
      }
    } else {
      var p := SmallestFactor(v);
      MulMonotone(p, bound + 1, p);
      MulMonotone(bound + 1, bound + 1, p);
      assert p * (bound + 1) == (bound + 1) * p;
      assert p <= bound;
      assert Eliminates(v, p);
    }
  }

  /** The source's bounded finder tests candidate v = j + 2 against
      2..round(sqrt(j + 1)), a bound from the index, i.e. from v - 1.
      That bound is still large enough. */
  lemma IndexBoundSuffices(v: int)
    requires v >= 2
    ensures var r := RoundSqrt(v - 1); v < (r + 1) * (r + 1)
    ensures IsPrime(v) <==> !HasEliminatorUpTo(v, RoundSqrt(v - 1))
  {
    var r := RoundSqrt(v - 1);
    assert (r + 1) * (r + 1) == r * r + r + r + 1;
    TrialDivisionExact(v, r);
  }

  /** The generator tests probe v against 2..round(sqrt(v)), which also
      decides primality. */
  lemma ValueBoundSuffices(v: int)
    requires v >= 2
    ensures var r := RoundSqrt(v); v < (r + 1) * (r + 1)
    ensures IsPrime(v) <==> !HasEliminatorUpTo(v, RoundSqrt(v))
  {
    var r := RoundSqrt(v);
    assert (r + 1) * (r + 1) == r * r + r + r + 1;
    TrialDivisionExact(v, r);
  }

  function Factorial(n: nat): (f: nat)
    ensures f >= 1
  {
    if n == 0 then 1 else n * Factorial(n - 1)
  }

  /** Every d in 1..n divides n!. */
  lemma {:induction false} FactorialDivisible(n: nat, d: int)
    requires 1 <= d <= n
    ensures Factorial(n) % d == 0
  {
    if d == n {
      MultipleMod(n, Factorial(n - 1));
    } else {
      FactorialDivisible(n - 1, d);
      var c := Factorial(n - 1) / d;
      assert Factorial(n - 1) == d * c;
      assert Factorial(n) == d * (n * c);
      MultipleMod(d, n * c);
    }
  }

  /** n! + 1 leaves remainder 1 when divided by any d in 2..n. */
  lemma FactorialSuccessorMod(n: nat, d: int)
    requires 2 <= d <= n
    ensures (Factorial(n) + 1) % d == 1
  {
    FactorialDivisible(n, d);
    var c := Factorial(n) / d;
    assert Factorial(n) + 1 == d * c + 1;
    DivModUnique(Factorial(n) + 1, d, c, 1);
  }

  /** Euclid: there is a prime above every n, and no further than n! + 1. */
  lemma PrimeAbove(n: nat) returns (p: int)
    ensures IsPrime(p) && n < p <= Factorial(n) + 1
  {
    p := SmallestFactor(Factorial(n) + 1);
    if p <= n {
      FactorialSuccessorMod(n, p);
    }
  }
}
