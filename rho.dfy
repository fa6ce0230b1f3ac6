// Pollard's rho divisor search of rho/rho.py, with Floyd's cycle detection,
// its factor-pair wrapper and that file's own copy of Euclid's algorithm.

module Rho {
  import opened NumberTheory

  // ---------------------------------------------------------------------
  // gcd

  method Gcd(a: int, b: nat) returns (g: int)
    ensures g == NumberTheory.Gcd(a, b)
    ensures b > 0 ==> IsGcd(g, a, b)
  {
    var m: int, k: nat := a, b;
    while k != 0
      invariant NumberTheory.Gcd(m, k) == NumberTheory.Gcd(a, b)
      decreases k
    {
      m, k := k, m % k;
    }
    g := m;
    if b > 0 {
      GcdIsGcd(a, b);
    }
  }

  // ---------------------------------------------------------------------
  // The iteration x -> pow(x, 2, n) + 1 % n

  /** One step of the walk. `%` binds tighter than `+`, so the constant
      added is 1 % n: 1 for n >= 2 and 0 for n == 1. */
  function Step(x: int, n: int): int
    requires n > 0
  {
    ModPow(x, 2, n) + 1 % n
  }

  lemma StepRange(x: int, n: int)
    requires n > 0
    ensures 0 <= Step(x, n) <= n
    ensures n >= 2 ==> 1 <= Step(x, n) <= n
    ensures n == 1 ==> Step(x, n) == 0
  {
    if n >= 2 {
      ModSmall(1, n);
    }
  }

  /** The k-th point of the walk from 2. */
  function Iterate(n: int, k: nat): int
    requires n > 0
    decreases k
  {
    if k == 0 then 2 else Step(Iterate(n, k - 1), n)
  }

  /** A point met again after l steps is met again after l steps from
      every later step too. */
  lemma {:induction false} IterateShift(n: int, p: nat, l: nat, k: nat)
    requires n > 0 && Iterate(n, p) == Iterate(n, p + l) && k >= p
    ensures Iterate(n, k + l) == Iterate(n, k)
    decreases k - p
  {
    if k > p {
      IterateShift(n, p, l, k - 1);
      assert k + l == (k - 1 + l) + 1;
    }
  }

  /** Once the walk repeats a point after l steps, it is periodic with
      period l from there on. */
  lemma {:induction false} IteratePeriodic(n: int, p: nat, l: nat, k: nat, c: nat)
    requires n > 0 && Iterate(n, p) == Iterate(n, p + l) && k >= p
    ensures Iterate(n, k + c * l) == Iterate(n, k)
    decreases c
  {
    if c > 0 {
      IteratePeriodic(n, p, l, k + l, c - 1);
      IterateShift(n, p, l, k);
      PeriodIndex(k, c, l);
    }
  }

  lemma PeriodIndex(k: int, c: int, l: int)
    ensures k + l + (c - 1) * l == k + c * l
  {
  }

  /** Of more than m integers in [0, m), two are equal. */
  lemma {:induction false} Pigeonhole(s: seq<int>, m: nat) returns (i: nat, j: nat)
    requires 1 <= m < |s|
    requires forall k :: 0 <= k < |s| ==> 0 <= s[k] < m
    ensures i < j < |s| && s[i] == s[j]
    decreases m
  {
    var top := m - 1;
    if m == 1 {
      i, j := 0, 1;
    } else if exists a, b :: 0 <= a < b < |s| && s[a] == top && s[b] == top {
      i, j :| 0 <= i < j < |s| && s[i] == top && s[j] == top;
    } else if exists a :: 0 <= a < |s| && s[a] == top {
      var p :| 0 <= p < |s| && s[p] == top;
      var t := s[..p] + s[p + 1..];
      forall k | 0 <= k < |t|
        ensures 0 <= t[k] < m - 1
      {
        if k < p {
          assert t[k] == s[k];
          assert s[k] != top;
        } else {
          assert t[k] == s[k + 1];
          assert s[k + 1] != top;
        }
      }
      var i2, j2 := Pigeonhole(t, m - 1);
      i := if i2 < p then i2 else i2 + 1;
      j := if j2 < p then j2 else j2 + 1;
      assert s[i] == t[i2] && s[j] == t[j2];
    } else {
      i, j := Pigeonhole(s, m - 1);
    }
  }

  /** The points x_1 .. x_(n+2) of the walk, all in [0, n]. */
  lemma WalkPoints(n: int) returns (s: seq<int>)
    requires n > 0
    ensures |s| == n + 2
    ensures forall k :: 0 <= k < |s| ==> s[k] == Iterate(n, k + 1) && 0 <= s[k] < n + 1
  {
    s := seq(n + 2, k requires 0 <= k < n + 2 => Iterate(n, k + 1));
    forall k | 0 <= k < |s|
      ensures 0 <= s[k] < n + 1
    {
      StepRange(Iterate(n, k), n);
    }
  }

  /** The walk returns to a point it has visited. */
  lemma RepeatedPoint(n: int) returns (p: nat, l: nat)
    requires n > 0
    ensures p >= 1 && l >= 1 && Iterate(n, p) == Iterate(n, p + l)
  {
    var s := WalkPoints(n);
    var i, j := Pigeonhole(s, n + 1);
    p, l := i + 1, j - i;
    assert s[i] == Iterate(n, p);
    assert s[j] == Iterate(n, p + l);
  }

  /** The tortoise and the hare meet: some c >= 1 has the walk at the same
      point after c and after 2*c steps. */
  lemma CycleIndex(n: int) returns (c: nat)
    requires n > 0
    ensures c >= 1 && Iterate(n, c) == Iterate(n, 2 * c)
  {
    var p, l := RepeatedPoint(n);
    c := p * l;
    MulAtLeast(p, l);
    IteratePeriodic(n, p, l, c, p);
    assert c + p * l == 2 * c;
  }

  /** The divisor the walk offers after i steps of the tortoise:
      gcd(a - b, n) with a = x_i and b = x_(2i). */
  ghost function Probe(n: int, i: nat): int
    requires n > 0
  {
    NumberTheory.Gcd(Iterate(n, i) - Iterate(n, 2 * i), n)
  }

  lemma ProbeDivides(n: int, i: nat)
    requires n > 0
    ensures Divides(Probe(n, i), n) && 1 <= Probe(n, i) <= n
  {
    GcdIsGcd(Iterate(n, i) - Iterate(n, 2 * i), n);
    DividesLe(Probe(n, i), n);
  }

  // ---------------------------------------------------------------------
  // rho

  /** From (x_i, x_(2i)) the tortoise takes one step and the hare two. */
  lemma WalkStep(n: int, i: nat, a: int, b: int)
    requires n > 0 && a == Iterate(n, i) && b == Iterate(n, 2 * i)
    ensures Step(a, n) == Iterate(n, i + 1)
    ensures Step(Step(b, n), n) == Iterate(n, 2 * (i + 1))
  {
    assert 2 * (i + 1) == 2 * i + 1 + 1;
  }

  /** rho stops at the divisor g when 1 < g < n or g == n. */
  predicate Stops(g: int, n: int) {
    1 < g < n || g == n
  }

  /** i is the first step of the tortoise at which rho stops. */
  ghost predicate FirstStop(n: int, i: nat)
    requires n > 0
  {
    1 <= i && (forall j: nat :: 1 <= j < i ==> !Stops(Probe(n, j), n)) && Stops(Probe(n, i), n)
  }

  /** What rho makes of the divisor g it stops at. */
  function Answer(g: int, n: int): int {
    if g == n then 1 else g
  }

  /** The walk a = x_i, b = x_(2i) stops at the first i >= 1 where
      d = gcd(a - b, n) is a proper divisor of n, which it returns, or is n
      itself, when it returns 1. */
  method Rho(n: int) returns (d: int)
    requires n >= 1
    ensures d == 1 || (1 < d < n && Divides(d, n))
    ensures exists i: nat :: FirstStop(n, i) && d == Answer(Probe(n, i), n)
  {
    var a, b := 2, 2;
    ghost var i: nat := 0;
    ghost var c := CycleIndex(n);
    assert NumberTheory.Gcd(0, n) == n;
    while true
      invariant i < c
      invariant a == Iterate(n, i) && b == Iterate(n, 2 * i)
      invariant forall j: nat :: 1 <= j <= i ==> !Stops(Probe(n, j), n)
      decreases c - i
    {
      WalkStep(n, i, a, b);
      a := ModPow(a, 2, n) + 1 % n;
      b := ModPow(b, 2, n) + 1 % n;
      b := ModPow(b, 2, n) + 1 % n;
      i := i + 1;
      d := Gcd(a - b, n);
      assert d == Probe(n, i);
      ProbeDivides(n, i);
      if 1 < d < n {
        assert FirstStop(n, i);
        return d;
      }
      if d == n {
        assert FirstStop(n, i);
        return 1;
      }
      assert i == c ==> a - b == 0;
    }
  }

  // ---------------------------------------------------------------------
  // find_two_factors

  /** The pair find_two_factors makes of rho's first stop at step i: the
      divisor found, or n when the divisor is n itself, and n // rho(n). */
  ghost predicate PairAt(n: int, i: nat, f1: int, f2: int)
    requires n > 0
  {
    FirstStop(n, i) && f1 == (if Probe(n, i) == n then n else Probe(n, i)) && f2 == n / Answer(Probe(n, i), n)
  }

  /** rho's answer r at its first stop i gives the pair (r, n // r), or
      (n, n) when r is 1. */
  lemma PairFromStop(n: int, i: nat, r: int)
    requires n > 0 && FirstStop(n, i) && r == Answer(Probe(n, i), n)
    ensures PairAt(n, i, if r == 1 then n else r, n / r)
    ensures (r == 1 && n / r == n) || (1 < r < n && Divides(r, n) && r * (n / r) == n)
  {
    ProbeDivides(n, i);
    if r != 1 {
      assert n == r * (n / r);
    }
  }

  /** A pair of factors of n: (2, n // 2) for even n, otherwise the divisor
      rho finds with its cofactor, or (n, n) when rho finds none. */
  method FindTwoFactors(n: int) returns (f1: int, f2: int)
    requires n % 2 == 0 || n >= 1
    ensures n % 2 == 0 ==> f1 == 2 && f2 == n / 2 && f1 * f2 == n
    ensures n % 2 == 1 ==> (f1 == n && f2 == n) || (1 < f1 < n && Divides(f1, n) && f1 * f2 == n)
    ensures n % 2 == 1 ==> exists i: nat :: PairAt(n, i, f1, f2)
  {
    if n % 2 == 0 {
      return 2, n / 2;
    }
    var r := Rho(n);
    ghost var i: nat :| FirstStop(n, i) && r == Answer(Probe(n, i), n);
    PairFromStop(n, i, r);
    return if r == 1 then n else r, n / r;
  }
}
