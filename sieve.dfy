// The sieve of Eratosthenes of smooth/smooth-pollard_memory.py and that
// file's own copy of Euclid's algorithm.

module Sieve {
  import opened NumberTheory
  import opened Wrappers

  /** Writing False to indices 0 and 1 of a list shorter than 2 fails, and
      the sieve reports that as "too small". */
  datatype SieveError = TooSmall

  // ---------------------------------------------------------------------
  // gcd

  method Gcd(a: int, b: nat) returns (g: int)
    ensures g == NumberTheory.Gcd(a, b)
    ensures b > 0 ==> IsGcd(g, a, b)
  {
    var m: int, k: nat := a, b;
    while k != 0
      invariant NumberTheory.Gcd(m, k) == NumberTheory.Gcd(a, b)
      decreases k
    {
      m, k := k, m % k;
    }
    g := m;
    if b > 0 {
      GcdIsGcd(a, b);
    }
  }

  // ---------------------------------------------------------------------
  // The specification of the sieve

  /** The primes below n, in increasing order. */
  function PrimesBelow(n: nat): seq<nat>
    decreases n
  {
    if n == 0 then [] else PrimesBelow(n - 1) + (if Prime(n - 1) then [n - 1] else [])
  }

  lemma {:induction false} PrimesBelowMeans(n: nat)
    ensures forall x :: x in PrimesBelow(n) <==> 0 <= x < n && Prime(x)
    ensures forall i, j :: 0 <= i < j < |PrimesBelow(n)| ==> PrimesBelow(n)[i] < PrimesBelow(n)[j]
    decreases n
  {
    if n > 0 {
      PrimesBelowMeans(n - 1);
      var p, e := PrimesBelow(n - 1), if Prime(n - 1) then [n - 1] else [];
      assert PrimesBelow(n) == p + e;
      forall i, j | 0 <= i < j < |p + e|
        ensures (p + e)[i] < (p + e)[j]
      {
        if j >= |p| {
          assert (p + e)[j] == n - 1;
          assert (p + e)[i] in p;
        }
      }
    }
  }

  /** The marks the sieve has cleared once it has visited the indices
      below i: index k is cleared when some prime p < i has p*p <= k and
      divides k. */
  ghost predicate Crossed(k: nat, i: nat)
    decreases i
  {
    i > 0 && (Crossed(k, i - 1) || (Prime(i - 1) && (i - 1) * (i - 1) <= k && k % (i - 1) == 0))
  }

  lemma {:induction false} CrossedWitness(k: nat, i: nat) returns (p: nat)
    requires Crossed(k, i)
    ensures 2 <= p < i && Prime(p) && p * p <= k && k % p == 0
    decreases i
  {
    if Crossed(k, i - 1) {
      p := CrossedWitness(k, i - 1);
    } else {
      p := i - 1;
    }
  }

  lemma {:induction false} CrossedFrom(k: nat, p: nat, i: nat)
    requires Prime(p) && p < i && p * p <= k && k % p == 0
    ensures Crossed(k, i)
    decreases i
  {
    if p < i - 1 {
      CrossedFrom(k, p, i - 1);
    }
  }

  /** Every m >= 2 has a prime divisor no larger than itself. */
  lemma {:induction false} PrimeDivisor(m: int) returns (p: int)
    requires m >= 2
    ensures Prime(p) && p <= m && m % p == 0
    decreases m
  {
    if Prime(m) {
      p := m;
      DividesSelf(m);
    } else {
      var d :| 1 < d < m && Divides(d, m);
      p := PrimeDivisor(d);
      DividesTrans(p, d, m);
    }
  }

  lemma PositiveFactor(d: int, e: int)
    requires d > 0 && d * e > 0
    ensures e > 0
  {
    assert e <= 0 ==> d * e <= 0;
  }

  /** The cofactor of a proper divisor is a proper divisor too. */
  lemma Cofactor(n: int, d: int)
    requires 1 < d < n && n % d == 0
    ensures 1 < n / d < n && Divides(n / d, n) && d * (n / d) == n
  {
    var e := n / d;
    assert n == d * e;
    PositiveFactor(d, e);
    assert e != 1;
    MulAtLeast(e, d - 1);
    assert d * e == e * (d - 1) + e;
    assert n == e * d;
    MulMod(e, d);
  }

  /** The smaller of two positive factors squares to at most their product. */
  lemma SmallerSquare(d: int, e: int)
    requires 0 < d <= e
    ensures d * d <= d * e
  {
  }

  /** A composite n has a prime divisor p with p*p <= n. */
  lemma SmallPrimeDivisor(n: int) returns (p: int)
    requires n >= 2 && !Prime(n)
    ensures Prime(p) && p < n && p * p <= n && n % p == 0
  {
    var d :| 1 < d < n && Divides(d, n);
    var e := n / d;
    Cofactor(n, d);
    var m := if d <= e then d else e;
    if d <= e {
      SmallerSquare(d, e);
    } else {
      SmallerSquare(e, d);
    }
    assert Divides(m, n) && 1 < m < n && m * m <= n;
    p := PrimeDivisor(m);
    DividesTrans(p, m, n);
    SquareMonotonic(p, m);
  }

  /** When the sieve visits index i >= 2, its mark is clear exactly when i
      is prime. */
  lemma VisitedMark(i: nat)
    requires i >= 2
    ensures !Crossed(i, i) <==> Prime(i)
  {
    if !Prime(i) {
      var p := SmallPrimeDivisor(i);
      CrossedFrom(i, p, i);
    }
    if Crossed(i, i) {
      var p := CrossedWitness(i, i);
      assert Divides(p, i);
    }
  }

  /** Visiting index i adds the multiples of i from i*i on, when i is prime. */
  lemma CrossedNext(k: nat, i: nat)
    ensures Crossed(k, i + 1) == (Crossed(k, i) || (Prime(i) && i * i <= k && k % i == 0))
  {
  }

  /** The marks cleared by the inner loop after it has reached j. */
  ghost predicate Hit(k: int, i: int, j: int)
    requires i > 0
  {
    i * i <= k < j && k % i == 0
  }

  lemma HitStep(k: int, i: int, j: int)
    requires i > 0 && j % i == 0 && j >= i * i
    ensures Hit(k, i, j + i) == (Hit(k, i, j) || k == j)
  {
    if j < k < j + i {
      ModUnique(k, i, j / i, k - j);
    }
  }

  lemma MultipleStep(i: int, j: int)
    requires i > 0 && j % i == 0
    ensures (j + i) % i == 0
  {
    ModAddMultiple(j, i, 1);
  }

  // ---------------------------------------------------------------------
  // sieve

  /** The list of primes below n, read off a list of marks that starts all
      True except at 0 and 1; each visited index whose mark is still True is
      output, and its multiples from its square on are cleared. */
  method Sieve(n: int) returns (r: Result<seq<nat>, SieveError>)
    ensures n < 2 ==> r == Err(TooSmall)
    ensures n >= 2 ==> r == Ok(PrimesBelow(n))
  {
    if n < 2 {
      return Err(TooSmall);
    }
    var psieve := new bool[n](_ => true);
    psieve[0], psieve[1] := false, false;
    var primes: seq<nat> := [];
    var i := 0;
    while i < n
      invariant 0 <= i <= n
      invariant primes == PrimesBelow(i)
      invariant forall k :: i <= k < n ==> psieve[k] == (k >= 2 && !Crossed(k, i))
    {
      if psieve[i] {
        VisitedMark(i);
        primes := primes + [i];
        var j := i * i;
        MulMod(i, i);
        while j < n
          invariant j >= i * i && j % i == 0
          invariant forall k :: i < k < n ==> psieve[k] == (k >= 2 && !Crossed(k, i) && !Hit(k, i, j))
        {
          forall k | i < k < n
            ensures Hit(k, i, j + i) == (Hit(k, i, j) || k == j)
          {
            HitStep(k, i, j);
          }
          MultipleStep(i, j);
          psieve[j] := false;
          j := j + i;
        }
        forall k | i < k < n
          ensures Crossed(k, i + 1) == (Crossed(k, i) || Hit(k, i, j))
        {
          CrossedNext(k, i);
        }
      } else {
        if i >= 2 {
          VisitedMark(i);
        }
        forall k | i < k < n
          ensures Crossed(k, i + 1) == Crossed(k, i)
        {
          CrossedNext(k, i);
        }
      }
      i := i + 1;
    }
    return Ok(primes);
  }
}
