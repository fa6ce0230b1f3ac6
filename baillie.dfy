// The Baillie-PSW probable-prime test of baillie/baillie_psw.py: trial
// division, the strong base-2 test and the strong Lucas test with Selfridge's
// parameters. Every loop of those Python functions is a method here, proved against
// the specification functions and predicates defined beside it.

module Baillie {
  import opened NumberTheory
  import opened LucasSequences
  import opened Wrappers

  /** The exceptions baillie_psw.py raises. */
  datatype Error = NegativeSquareRoot | EvenOrNegativeModulus

  // ---------------------------------------------------------------------
  // gcd

  /** gcd(a, b): Euclid's loop. Every call site passes a positive b. */
  method Gcd(a: int, b: nat) returns (g: int)
    ensures g == NumberTheory.Gcd(a, b)
  {
    var x: int, y: nat := a, b;
    while y != 0
      invariant NumberTheory.Gcd(x, y) == NumberTheory.Gcd(a, b)
      decreases y
    {
      x, y := y, x % y;
    }
    g := x;
  }

  // ---------------------------------------------------------------------
  // isqrt, is_square

  lemma NewtonStart(n: int)
    requires n >= 0
    ensures n < ((n + 1) / 2 + 1) * ((n + 1) / 2 + 1)
  {
    var y := (n + 1) / 2;
    assert 2 * (y + 1) >= n + 2;
    SquareMonotonic(n + 2, 2 * (y + 1));
    assert (2 * (y + 1)) * (2 * (y + 1)) == 4 * ((y + 1) * (y + 1));
    assert (n + 2) * (n + 2) == n * n + 4 * n + 4;
  }

  /** The AM-GM step behind Newton's iteration, over plain integers. */
  lemma NewtonBound(n: int, x: int, q: int, y: int)
    requires x > 0 && q >= 0 && n < x * (q + 1) && 2 * (y + 1) >= x + q + 1
    ensures n < (y + 1) * (y + 1)
  {
    var s := x + q + 1;
    SquareMonotonic(s, 2 * (y + 1));
    assert s * s == 4 * (x * (q + 1)) + (x - q - 1) * (x - q - 1);
    assert (x - q - 1) * (x - q - 1) >= 0;
    assert (2 * (y + 1)) * (2 * (y + 1)) == 4 * ((y + 1) * (y + 1));
  }

  /** One Newton step never goes below the integer square root. */
  lemma NewtonAbove(n: int, x: int)
    requires n >= 0 && x > 0
    ensures n < ((x + n / x) / 2 + 1) * ((x + n / x) / 2 + 1)
  {
    var q := n / x;
    var y := (x + q) / 2;
    assert n == x * q + n % x;
    assert x * (q + 1) == x * q + x;
    NewtonBound(n, x, q, y);
  }

  /** When a Newton step does not decrease x, x is at most the square root. */
  lemma NewtonStop(n: int, x: int)
    requires n >= 0 && x > 0 && (x + n / x) / 2 >= x
    ensures x * x <= n
  {
    var q := n / x;
    assert q >= x;
    assert n == x * q + n % x;
    assert x * q - x * x == x * (q - x) >= 0;
  }

  /** isqrt(n): Newton's iteration from x = n. */
  method Isqrt(n: int) returns (r: Result<int, Error>)
    ensures r.Err? <==> n < 0
    ensures r.Err? ==> r.error == NegativeSquareRoot
    ensures r.Ok? ==> 0 <= r.value && r.value * r.value <= n < (r.value + 1) * (r.value + 1)
  {
    if n < 0 {
      return Err(NegativeSquareRoot);
    }
    var x := n;
    var y := (x + 1) / 2;
    NewtonStart(n);
    assert n > 0 ==> n / n == 1;
    while y < x
      invariant 0 <= x && 0 <= y
      invariant n < (x + 1) * (x + 1) && n < (y + 1) * (y + 1)
      invariant x > 0 ==> y == (x + n / x) / 2
      invariant n == 0 ==> x == 0 && y == 0
      decreases x
    {
      x := y;
      NewtonAbove(n, x);
      y := (x + n / x) / 2;
    }
    if x > 0 {
      NewtonStop(n, x);
    }
    return Ok(x);
  }

  /** n is the square of an integer. */
  ghost predicate IsPerfectSquare(n: int) {
    exists k: nat :: Sq(k) == n
  }

  /** is_square(n): the error of isqrt propagates for a negative n. */
  method IsSquare(n: int) returns (r: Result<bool, Error>)
    ensures r.Err? <==> n < 0
    ensures r.Err? ==> r.error == NegativeSquareRoot
    ensures r.Ok? ==> (r.value <==> IsPerfectSquare(n))
  {
    var s := Isqrt(n);
    if s.Err? {
      return Err(s.error);
    }
    var x := s.value;
    r := Ok(x * x == n);
    if x * x == n {
      assert Sq(x) == n;
    } else {
      forall k: nat | Sq(k) == n
        ensures false
      {
        assert k * k <= n < (k + 1) * (k + 1);
        FloorSqrtUnique(n, x, k);
      }
    }
  }

  // ---------------------------------------------------------------------
  // factor

  /** Dividing out an exact factor p >= 2 keeps the sign and shrinks the
      magnitude. */
  lemma DivisionShrinks(m: int, p: int)
    requires m != 0 && p >= 2 && m % p == 0
    ensures m == p * (m / p) && m / p != 0 && (m > 0 ==> m / p > 0)
    ensures (if m / p < 0 then -(m / p) else m / p) < (if m < 0 then -m else m)
  {
    var k := m / p;
    assert m == p * k;
    assert k != 0;
    if k > 0 {
      assert p * k >= 2 * k;
    } else {
      assert p * (-k) >= 2 * (-k);
    }
  }

  lemma PowStep(p: int, s: nat, k: int)
    ensures Pow(p, s) * (p * k) == Pow(p, s + 1) * k
    ensures p * (Pow(p, s) * k) == Pow(p, s + 1) * k
  {
    var a := Pow(p, s);
    assert Pow(p, s + 1) == p * a;
    assert a * (p * k) == (p * a) * k;
    assert p * (a * k) == (p * a) * k;
  }

  /** The decomposition m = p^s * d with d not divisible by p. */
  function Decompose(m: int, p: int): (r: (nat, int))
    requires m != 0 && p >= 2
    ensures m == Pow(p, r.0) * r.1 && r.1 % p != 0
    ensures m > 0 ==> r.1 > 0
    decreases if m < 0 then -m else m
  {
    if m % p != 0 then (0, m)
    else
      DivisionShrinks(m, p);
      var r' := Decompose(m / p, p);
      PowStep(p, r'.0, r'.1);
      (r'.0 + 1, r'.1)
  }

  /** The decomposition is unique. */
  lemma {:induction false} DecomposeUnique(m: int, p: int, s: nat, d: int)
    requires m != 0 && p >= 2 && m == Pow(p, s) * d && d % p != 0
    ensures Decompose(m, p) == (s, d)
    decreases s
  {
    if s == 0 {
      assert m == d;
    } else {
      var k := Pow(p, s - 1) * d;
      assert m == p * k;
      MulMod(p, k);
      ModUnique(m, p, k, 0);
      assert k != 0;
      DecomposeUnique(k, p, s - 1, d);
    }
  }

  /** factor(n, p): splits n - 1 (not n) into p^s * d. */
  method Factor(n: int, p: int) returns (s: nat, d: int)
    requires n != 1 && p >= 2
    ensures n - 1 == Pow(p, s) * d && d % p != 0
    ensures (s, d) == Decompose(n - 1, p)
  {
    s := 0;
    d := n - 1;
    while d % p == 0
      invariant d != 0
      invariant n - 1 == Pow(p, s) * d
      decreases if d < 0 then -d else d
    {
      DivisionShrinks(d, p);
      assert d == p * (d / p);
      PowStep(p, s, d / p);
      s := s + 1;
      d := d / p;
    }
    DecomposeUnique(n - 1, p, s, d);
  }

  // ---------------------------------------------------------------------
  // jacobi

  /** The Jacobi symbol (a/p) for an odd positive p, by its reduction laws:
      (a/p) = ((a mod p)/p); (0/1) = 1 and (0/p) = 0 for p > 1; the factor
      (2/p) is -1 exactly when p mod 8 is 3 or 5; and reciprocity for odd
      0 < a < p flips the sign when a and p are both 3 mod 4. */
  function JacobiSymbol(a: int, p: int): int
    requires p > 0 && p % 2 == 1
    decreases p, a % p
  {
    var x := a % p;
    if x == 0 then (if p == 1 then 1 else 0)
    else if x % 2 == 0 then
      assert (x / 2) % p == x / 2;
      Negate(p % 8 == 3 || p % 8 == 5, JacobiSymbol(x / 2, p))
    else
      Negate(x % 4 == 3 && p % 4 == 3, JacobiSymbol(p % x, x))
  }

  /** j with its sign flipped when c holds. */
  function Negate(c: bool, j: int): int {
    if c then -j else j
  }

  lemma AlgebraHalve(x: int, h: int, g: int, c: int)
    requires x == 2 * h && 2 * c == g + 1
    ensures h == c * x + (-h) * g
  {
  }

  /** Halving keeps the gcd with an odd number. */
  lemma GcdHalve(x: int, p: nat)
    requires p > 0 && p % 2 == 1 && x % 2 == 0
    ensures NumberTheory.Gcd(x, p) == NumberTheory.Gcd(x / 2, p)
  {
    var g := NumberTheory.Gcd(x, p);
    GcdIsGcd(x, p);
    if g % 2 == 0 {
      DividesTrans(2, g, p);
    }
    assert g % 2 == 1;
    DividesSelf(g);
    var h, c := x / 2, (g + 1) / 2;
    AlgebraHalve(x, h, g, c);
    DividesLinear(g, x, g, c, -h);
    forall c | Divides(c, x / 2) && Divides(c, p)
      ensures Divides(c, g)
    {
      assert x == 2 * (x / 2) + 0 * p;
      DividesLinear(c, x / 2, p, 2, 0);
    }
    GcdCharacterization(x / 2, p, g);
  }

  lemma GcdOfSmaller(x: int, p: nat)
    requires 0 <= x < p
    ensures NumberTheory.Gcd(x, p) == NumberTheory.Gcd(p, x)
  {
    assert x % p == x;
  }

  /** Swapping and reducing keeps the gcd: the reciprocity step. */
  lemma GcdSwap(x: nat, p: nat)
    requires 0 < x < p
    ensures NumberTheory.Gcd(x, p) == NumberTheory.Gcd(p % x, x)
  {
    GcdOfSmaller(x, p);
    GcdOfSmaller(p % x, x);
  }

  lemma JacobiSymbolZero(a: int, p: int)
    requires p > 0 && p % 2 == 1 && a % p == 0
    ensures JacobiSymbol(a, p) == if p == 1 then 1 else 0
  {
  }

  lemma JacobiSymbolEven(a: int, p: int)
    requires p > 0 && p % 2 == 1 && a % p != 0 && (a % p) % 2 == 0
    ensures JacobiSymbol(a, p) == Negate(p % 8 == 3 || p % 8 == 5, JacobiSymbol((a % p) / 2, p))
  {
  }

  lemma JacobiSymbolOdd(a: int, p: int)
    requires p > 0 && p % 2 == 1 && (a % p) % 2 == 1
    ensures JacobiSymbol(a, p) == Negate((a % p) % 4 == 3 && p % 4 == 3, JacobiSymbol(p % (a % p), a % p))
  {
  }

  /** The Jacobi symbol is -1, 0 or 1, and it is 0 exactly when a and p
      share a factor. */
  lemma {:induction false} JacobiSymbolValues(a: int, p: int)
    requires p > 0 && p % 2 == 1
    ensures JacobiSymbol(a, p) in {-1, 0, 1}
    ensures JacobiSymbol(a, p) == 0 <==> NumberTheory.Gcd(a % p, p) != 1
    decreases p, a % p
  {
    var x := a % p;
    if x == 0 {
      JacobiSymbolZero(a, p);
      assert NumberTheory.Gcd(0, p) == NumberTheory.Gcd(p, 0) == p;
    } else if x % 2 == 0 {
      JacobiSymbolEven(a, p);
      ModSmall(x / 2, p);
      JacobiSymbolValues(x / 2, p);
      GcdHalve(x, p);
    } else {
      JacobiSymbolOdd(a, p);
      ModSmall(p % x, x);
      JacobiSymbolValues(p % x, x);
      GcdSwap(x, p);
    }
  }

  /** One pass of the inner loop of jacobi: halving x, flipping the sign
      when y is 3 or 5 mod 8, keeps the signed symbol. */
  lemma HalvingStep(x: int, y: int, t: int)
    requires y > 0 && y % 2 == 1 && 0 < x < y && x % 2 == 0 && (t == 1 || t == -1)
    ensures 0 < x / 2 < y
    ensures Negate(t == -1, JacobiSymbol(x, y)) ==
            Negate((if y % 8 == 3 || y % 8 == 5 then -t else t) == -1, JacobiSymbol(x / 2, y))
  {
    ModSmall(x, y);
    JacobiSymbolEven(x, y);
  }

  /** The reciprocity step of jacobi: swapping an odd x < y and reducing,
      flipping the sign when both are 3 mod 4, keeps the signed symbol. */
  lemma SwapStep(x: int, y: int, t: int)
    requires y > 0 && y % 2 == 1 && 0 < x < y && x % 2 == 1 && (t == 1 || t == -1)
    ensures 0 <= y % x < x
    ensures Negate(t == -1, JacobiSymbol(x, y)) ==
            Negate((if y % 4 == 3 && x % 4 == 3 then -t else t) == -1, JacobiSymbol(y % x, x))
  {
    ModSmall(x, y);
    JacobiSymbolOdd(x, y);
  }

  /** When x reaches 0, the signed symbol is t for y = 1 and 0 otherwise. */
  lemma ExitStep(y: int, t: int)
    requires y > 0 && y % 2 == 1 && (t == 1 || t == -1)
    ensures Negate(t == -1, JacobiSymbol(0, y)) == if y == 1 then t else 0
  {
    JacobiSymbolZero(0, y);
  }

  /** jacobi(a, p): returns a itself for a in {0, 1}, before any reduction. */
  method Jacobi(a: int, p: int) returns (r: Result<int, Error>)
    ensures r.Err? <==> p % 2 == 0 || p < 0
    ensures r.Err? ==> r.error == EvenOrNegativeModulus
    ensures r.Ok? && (a == 0 || a == 1) ==> r.value == a
    ensures r.Ok? && a != 0 && a != 1 ==> r.value == JacobiSymbol(a, p)
    ensures r.Ok? && a != 0 && a != 1 ==>
              r.value in {-1, 0, 1} && (r.value == 0 <==> NumberTheory.Gcd(a % p, p) != 1)
  {
    if p % 2 == 0 || p < 0 {
      return Err(EvenOrNegativeModulus);
    }
    if a == 0 || a == 1 {
      return Ok(a);
    }
    ghost var symbol := JacobiSymbol(a, p);
    // x and y play the roles of jacobi's rebound a and p.
    var x, y := a % p, p;
    var t := 1;
    ModSmall(x, y);
    while x != 0
      invariant y > 0 && y % 2 == 1 && 0 <= x < y
      invariant t == 1 || t == -1
      invariant symbol == Negate(t == -1, JacobiSymbol(x, y))
      decreases y
    {
      while x % 2 == 0
        invariant 0 < x < y
        invariant t == 1 || t == -1
        invariant symbol == Negate(t == -1, JacobiSymbol(x, y))
        decreases x
      {
        HalvingStep(x, y, t);
        x := x / 2;
        if y % 8 == 3 || y % 8 == 5 {
          t := -t;
        }
      }
      SwapStep(x, y, t);
      x, y := y, x;
      if x % 4 == 3 && y % 4 == 3 {
        t := -t;
      }
      x := x % y;
    }
    ExitStep(y, t);
    if y == 1 {
      r := Ok(t);
    } else {
      r := Ok(0);
    }
    JacobiSymbolValues(a, p);
  }

  // ---------------------------------------------------------------------
  // selfridge

  /** The i-th candidate discriminant: 5, -7, 9, -11, 13, ... */
  function Candidate(i: nat): int {
    if i % 2 == 0 then 5 + 2 * i else -(5 + 2 * i)
  }

  /** One step of the search: d grows by 2 and the sign s flips. */
  lemma CandidateSigned(i: nat, d: int, s: int)
    requires d == 5 + 2 * (i + 1) && s == (if i % 2 == 0 then -1 else 1)
    ensures s == (if (i + 1) % 2 == 0 then 1 else -1) && d * s == Candidate(i + 1)
  {
  }

  lemma CandidateMod4(i: nat)
    ensures Candidate(i) % 4 == 1
  {
    if i % 2 == 0 {
      assert Candidate(i) == 4 * (i / 2 + 1) + 1;
    } else {
      assert Candidate(i) == 4 * (-(i / 2) - 2) + 1;
    }
  }

  /** The search stops at candidate i: it shares a factor with n, or its
      Jacobi symbol modulo n is -1. */
  ghost predicate SelfridgeStops(n: int, i: nat)
    requires n >= 3 && n % 2 == 1
  {
    NumberTheory.Gcd(Candidate(i), n) > 1 || JacobiSymbol(Candidate(i), n) == -1
  }

  /** A candidate of magnitude 3n is a multiple of n, so the search stops there. */
  lemma StopsAtMultiple(n: int, i: nat)
    requires n >= 3 && n % 2 == 1 && 5 + 2 * i == 3 * n
    ensures SelfridgeStops(n, i)
  {
    if i % 2 == 0 {
      MulMod(n, 3);
    } else {
      MulMod(n, -3);
    }
    GcdOfMultiple(Candidate(i), n);
  }

  lemma NextStopInRange(n: int, i: nat)
    requires n >= 3 && n % 2 == 1 && 5 + 2 * i <= 3 * n && !SelfridgeStops(n, i)
    ensures 5 + 2 * (i + 1) <= 3 * n
  {
    if 5 + 2 * i == 3 * n {
      StopsAtMultiple(n, i);
    }
  }

  /** A candidate where neither exit is taken is followed by one within 3n,
      and the search from there ends where the search from i ends. */
  lemma NextCandidateInRange(n: int, i: nat)
    requires n >= 3 && n % 2 == 1 && 5 + 2 * i <= 3 * n
    requires NumberTheory.Gcd(Candidate(i), n) <= 1 && JacobiSymbol(Candidate(i), n) != -1
    ensures 5 + 2 * (i + 1) <= 3 * n
    ensures SelfridgeIndex(n, i + 1) == SelfridgeIndex(n, i)
  {
    if 5 + 2 * i == 3 * n {
      StopsAtMultiple(n, i);
    }
  }

  /** The first index from i on where the search stops. */
  ghost function SelfridgeIndex(n: int, i: nat): (k: nat)
    requires n >= 3 && n % 2 == 1 && 5 + 2 * i <= 3 * n
    ensures i <= k && 5 + 2 * k <= 3 * n && SelfridgeStops(n, k)
    ensures forall j :: i <= j < k ==> !SelfridgeStops(n, j)
    decreases 3 * n - (5 + 2 * i)
  {
    if SelfridgeStops(n, i) then i
    else
      NextStopInRange(n, i);
      SelfridgeIndex(n, i + 1)
  }

  /** The triple (D, P, Q) that Selfridge's method picks for n. */
  ghost function SelfridgeParams(n: int): (int, int, int)
    requires n >= 3 && n % 2 == 1
  {
    var d := Candidate(SelfridgeIndex(n, 0));
    if NumberTheory.Gcd(d, n) > 1 then (d, 0, 0) else (d, 1, (1 - d) / 4)
  }

  /** Leaving through the gcd exit at candidate i, when the search from i
      ends where the whole search ends. */
  lemma SelfridgeGcdExit(n: int, i: nat)
    requires n >= 3 && n % 2 == 1 && 5 + 2 * i <= 3 * n
    requires SelfridgeIndex(n, i) == SelfridgeIndex(n, 0)
    requires NumberTheory.Gcd(Candidate(i), n) > 1
    ensures SelfridgeParams(n) == (Candidate(i), 0, 0)
  {
  }

  /** Leaving through the Jacobi exit at candidate i. */
  lemma SelfridgeJacobiExit(n: int, i: nat)
    requires n >= 3 && n % 2 == 1 && 5 + 2 * i <= 3 * n
    requires SelfridgeIndex(n, i) == SelfridgeIndex(n, 0)
    requires NumberTheory.Gcd(Candidate(i), n) <= 1 && JacobiSymbol(Candidate(i), n) == -1
    ensures SelfridgeParams(n) == (Candidate(i), 1, (1 - Candidate(i)) / 4)
  {
  }

  /** For D = 1 (mod 4), Q = (1 - D) / 4 satisfies D = 1*1 - 4*Q. */
  lemma QuarterOf(d: int)
    requires d % 4 == 1
    ensures d == 1 * 1 - 4 * ((1 - d) / 4)
  {
    var k := d / 4;
    assert d == 4 * k + 1;
    ModUnique(1 - d, 4, -k, 0);
  }

  /** What Selfridge's method gives: the first candidate where the search
      stops, either as the sentinel (D, 0, 0) or as Lucas parameters with
      D = P*P - 4*Q and Jacobi symbol -1. */
  lemma SelfridgeParamsProperties(n: int)
    requires n >= 3 && n % 2 == 1
    ensures var (d, p, q) := SelfridgeParams(n);
      (exists i: nat :: d == Candidate(i) && SelfridgeStops(n, i) &&
                   forall j :: 0 <= j < i ==> !SelfridgeStops(n, j)) &&
      d % 4 == 1 &&
      (p == 0 ==> q == 0 && NumberTheory.Gcd(d, n) > 1) &&
      (p != 0 ==> p == 1 && d == p * p - 4 * q &&
                  NumberTheory.Gcd(d, n) == 1 && JacobiSymbol(d, n) == -1)
  {
    var i := SelfridgeIndex(n, 0);
    CandidateMod4(i);
    var d := Candidate(i);
    GcdIsGcd(d, n);
    QuarterOf(d);
  }

  /** selfridge(n): tries 5, -7, 9, -11, ... until the gcd or the Jacobi exit. */
  method Selfridge(n: int) returns (ds: int, p: int, q: int)
    requires n >= 3 && n % 2 == 1
    ensures (ds, p, q) == SelfridgeParams(n)
  {
    var d := 5;
    var s := 1;
    ds := d * s;
    ghost var i: nat := 0;
    while true
      invariant d == 5 + 2 * i && d <= 3 * n
      invariant s == (if i % 2 == 0 then 1 else -1) && ds == Candidate(i)
      invariant SelfridgeIndex(n, i) == SelfridgeIndex(n, 0)
      decreases 3 * n - d
    {
      var g := Gcd(ds, n);
      if g > 1 {
        SelfridgeGcdExit(n, i);
        return ds, 0, 0;
      }
      var j := Jacobi(ds, n);
      if j.value == -1 {
        SelfridgeJacobiExit(n, i);
        return ds, 1, (1 - ds) / 4;
      }
      NextCandidateInRange(n, i);
      d := d + 2;
      s := -s;
      ds := d * s;
      CandidateSigned(i, d, s);
      i := i + 1;
    }
  }

  // ---------------------------------------------------------------------
  // lucas_sequence

  /** The halving step of lucas_sequence: add n to an odd x, halve, reduce. */
  function HalfMod(x: int, n: int): (h: int)
    requires n > 0
    ensures 0 <= h < n
  {
    ((if x % 2 == 1 then x + n else x) / 2) % n
  }

  /** Modulo an odd n, HalfMod really halves. */
  lemma HalfModHalves(x: int, n: int)
    requires n > 0 && n % 2 == 1
    ensures Cong(2 * HalfMod(x, n), x, n)
  {
    var y := if x % 2 == 1 then x + n else x;
    if x % 2 == 1 {
      CongFromWitness(y, x, n, 1);
    }
    assert y % 2 == 0;
    assert 2 * (y / 2) == y;
    CongMod(y / 2, n);
    CongMul(2, 2, HalfMod(x, n), y / 2, n);
  }

  /** Squaring step: from index j to index 2j. */
  lemma DoubleStep(n: int, p: int, q0: int, j: nat, u: int, v: int, w: int)
    requires n > 0
    requires Cong(u, U(p, q0, j), n) && Cong(v, V(p, q0, j), n) && Cong(w, Pow(q0, j), n)
    ensures Cong((u * v) % n, U(p, q0, 2 * j), n)
    ensures Cong((v * v - 2 * w) % n, V(p, q0, 2 * j), n)
    ensures Cong((w * w) % n, Pow(q0, 2 * j), n)
  {
    Doubling(p, q0, j);
    CongMul(u, U(p, q0, j), v, V(p, q0, j), n);
    CongMod(u * v, n);
    VDoubleStep(n, p, q0, j, v, w);
  }

  /** The V half of the squaring step, which the strong Lucas test repeats. */
  lemma VDoubleStep(n: int, p: int, q0: int, j: nat, v: int, w: int)
    requires n > 0
    requires Cong(v, V(p, q0, j), n) && Cong(w, Pow(q0, j), n)
    ensures Cong((v * v - 2 * w) % n, V(p, q0, 2 * j), n)
    ensures Cong((w * w) % n, Pow(q0, 2 * j), n)
  {
    Doubling(p, q0, j);
    PowDouble(q0, j);
    CongMul(v, V(p, q0, j), v, V(p, q0, j), n);
    CongMul(2, 2, w, Pow(q0, j), n);
    CongSub(v * v, V(p, q0, j) * V(p, q0, j), 2 * w, 2 * Pow(q0, j), n);
    CongMod(v * v - 2 * w, n);
    CongMul(w, Pow(q0, j), w, Pow(q0, j), n);
    CongMod(w * w, n);
  }

  lemma AlgebraReorder(um: int, un: int, vm: int, vn: int, d: int)
    ensures un * vm + um * vn == um * vn + un * vm
    ensures vn * vm + un * um * d == vm * vn + d * um * un
  {
  }

  /** Addition step: from indices a and b to index a + b. */
  lemma AddStep(n: int, p: int, q0: int, d: int, a: nat, b: nat,
                u1: int, v1: int, u2: int, v2: int)
    requires n > 0 && n % 2 == 1 && d == p * p - 4 * q0
    requires Cong(u1, U(p, q0, a), n) && Cong(v1, V(p, q0, a), n)
    requires Cong(u2, U(p, q0, b), n) && Cong(v2, V(p, q0, b), n)
    ensures Cong(HalfMod(u2 * v1 + u1 * v2, n), U(p, q0, a + b), n)
    ensures Cong(HalfMod(v2 * v1 + u2 * u1 * d, n), V(p, q0, a + b), n)
  {
    var ua, va, ub, vb := U(p, q0, a), V(p, q0, a), U(p, q0, b), V(p, q0, b);
    Addition(p, q0, a, b);
    AlgebraReorder(ua, ub, va, vb, d);
    CongMul(u2, ub, v1, va, n);
    CongMul(u1, ua, v2, vb, n);
    CongAdd(u2 * v1, ub * va, u1 * v2, ua * vb, n);
    HalfModHalves(u2 * v1 + u1 * v2, n);
    CongHalve(HalfMod(u2 * v1 + u1 * v2, n), U(p, q0, a + b), n);
    CongMul(v2, vb, v1, va, n);
    CongMul(u2, ub, u1, ua, n);
    CongMul(u2 * u1, ub * ua, d, d, n);
    CongAdd(v2 * v1, vb * va, u2 * u1 * d, ub * ua * d, n);
    HalfModHalves(v2 * v1 + u2 * u1 * d, n);
    CongHalve(HalfMod(v2 * v1 + u2 * u1 * d, n), V(p, q0, a + b), n);
  }

  /** Multiplying the running power of Q: Q^a * Q^b = Q^(a+b). */
  lemma PowerStep(n: int, q0: int, a: nat, b: nat, w: int, k: int)
    requires n > 0 && Cong(w, Pow(q0, b), n) && Cong(k, Pow(q0, a), n)
    ensures Cong((w * k) % n, Pow(q0, a + b), n)
  {
    PowAdd(q0, b, a);
    CongMul(w, Pow(q0, b), k, Pow(q0, a), n);
    CongMod(w * k, n);
  }

  /** Consuming the low bit of e: the index bookkeeping of lucas_sequence. */
  lemma IndexStep(ja: int, jd: int, e: int)
    requires e > 0
    ensures ja + 2 * jd * e == (ja + (if e % 2 == 1 then 2 * jd else 0)) + 2 * (2 * jd) * (e / 2)
  {
    assert e == 2 * (e / 2) + e % 2;
  }

  /** The start state the strong Lucas test gives lucas_sequence: an odd
      modulus, (U_1, V_1) in both pairs and D = P*P - 4*Q. */
  predicate LucasStart(n: int, u1: int, v1: int, u2: int, v2: int, d: int, q: int) {
    n > 0 && n % 2 == 1 && u1 == 1 && u2 == 1 && v1 == v2 && d == v1 * v1 - 4 * q
  }

  /** lucas_sequence(n, u1, v1, u2, v2, d, q, m): the binary evaluation of
      U_(2m+1), V_(2m+1) and Q^(2m+1) modulo n, scanning m from its low bit. */
  method LucasSequence(n: int, u1: int, v1: int, u2: int, v2: int, d: int, q: int, m: int)
    returns (u: int, v: int, k: int)
    requires n > 0
    ensures m <= 0 ==> u == u1 && v == v1 && k == q
    ensures m > 0 ==> 0 <= u < n && 0 <= v < n && 0 <= k < n
    ensures LucasStart(n, u1, v1, u2, v2, d, q) && m >= 0 ==>
              Cong(u, U(v1, q, 2 * m + 1), n) && Cong(v, V(v1, q, 2 * m + 1), n) &&
              Cong(k, Pow(q, 2 * m + 1), n)
  {
    ghost var start := LucasStart(n, u1, v1, u2, v2, d, q);
    ghost var p, q0 := v1, q;
    u, v := u1, v1;
    var ud, vd, qd, e := u2, v2, q, m;
    k := q;
    // (u, v, k) sit at index ja, (ud, vd, qd) at index jd.
    ghost var ja: nat, jd: nat := 1, 1;
    ghost var touched := false;
    if start {
      CongMod(u, n);
    }
    while e > 0
      invariant 2 * m + 1 == ja + 2 * jd * e
      invariant m >= 0 ==> e >= 0
      invariant e > 0 ==> m > 0
      invariant m <= 0 ==> !touched
      invariant m > 0 ==> e > 0 || touched
      invariant !touched ==> u == u1 && v == v1 && k == q
      invariant touched ==> 0 <= u < n && 0 <= v < n && 0 <= k < n
      invariant start ==> Cong(u, U(p, q0, ja), n) && Cong(v, V(p, q0, ja), n) &&
                          Cong(k, Pow(q0, ja), n)
      invariant start ==> Cong(ud, U(p, q0, jd), n) && Cong(vd, V(p, q0, jd), n) &&
                          Cong(qd, Pow(q0, jd), n)
      decreases e
    {
      IndexStep(ja, jd, e);
      if start {
        DoubleStep(n, p, q0, jd, ud, vd, qd);
      }
      ud := (ud * vd) % n;
      vd := (vd * vd - 2 * qd) % n;
      qd := (qd * qd) % n;
      jd := 2 * jd;
      if e % 2 == 1 {
        if start {
          AddStep(n, p, q0, d, ja, jd, u, v, ud, vd);
          PowerStep(n, q0, ja, jd, qd, k);
        }
        var t1, t2 := ud * v, u * vd;
        var t3, t4 := vd * v, ud * u * d;
        u, v := t1 + t2, t3 + t4;
        if u % 2 == 1 {
          u := u + n;
        }
        if v % 2 == 1 {
          v := v + n;
        }
        u, v := (u / 2) % n, (v / 2) % n;
        k := (qd * k) % n;
        ja := ja + jd;
        touched := true;
      }
      e := e / 2;
    }
  }

  // ---------------------------------------------------------------------
  // strong_pseudoprime

  /** base^(d * 2^r) mod n: the r-th term of the Miller-Rabin sequence. */
  function MrTerm(base: int, d: nat, r: nat, n: int): int
    requires n > 0
  {
    PowPositive(2, r);
    ModPow(base, d * Pow(2, r), n)
  }

  /** Squaring a term modulo n gives the next term. */
  lemma MrTermSquare(base: int, d: nat, r: nat, n: int)
    requires n > 0
    ensures ModPow(MrTerm(base, d, r, n), 2, n) == MrTerm(base, d, r + 1, n)
  {
    PowPositive(2, r);
    var e: nat := d * Pow(2, r);
    DoublingIndex(d, r);
    var x := MrTerm(base, d, r, n);
    CongMod(Pow(base, e), n);
    CongMul(x, Pow(base, e), x, Pow(base, e), n);
    PowDouble(base, e);
    PowTwo(x);
  }

  /** n passes the strong probable-prime test to the given base: with
      n - 1 = 2^s * d and d odd, base^d = 1 or base^(d * 2^r) = -1 modulo n
      for some r < s. */
  ghost predicate StrongProbablePrime(n: int, base: int)
    requires n >= 2
  {
    var (s, d) := Decompose(n - 1, 2);
    MrTerm(base, d, 0, n) == 1 || exists r :: 0 <= r < s && MrTerm(base, d, r, n) == n - 1
  }

  /** strong_pseudoprime(n, base), with s and d computed by factor(n). */
  method StrongPseudoprime(n: int, base: int) returns (r: bool)
    requires n >= 2
    ensures r == StrongProbablePrime(n, base)
  {
    var s, d := Factor(n, 2);
    var x := ModPow(base, d, n);
    assert x == MrTerm(base, d, 0, n);
    if x == 1 {
      return true;
    }
    for i := 0 to s
      invariant x == MrTerm(base, d, i, n)
      invariant forall j :: 0 <= j < i ==> MrTerm(base, d, j, n) != n - 1
    {
      if x == n - 1 {
        return true;
      }
      MrTermSquare(base, d, i, n);
      x := ModPow(x, 2, n);
    }
    return false;
  }

  // ---------------------------------------------------------------------
  // strong_lucas_pseudoprime

  /** V_(t * 2^r): the r-th V term the strong Lucas test inspects. */
  function LucasVTerm(p: int, q: int, t: nat, r: nat): int {
    PowPositive(2, r);
    V(p, q, t * Pow(2, r))
  }

  /** Q^(t * 2^r): the power of Q that accompanies LucasVTerm. */
  function LucasQTerm(q: int, t: nat, r: nat): int {
    PowPositive(2, r);
    Pow(q, t * Pow(2, r))
  }

  /** Splitting an even m > 0 as 2^s * t with t odd takes at least one 2. */
  lemma OddPart(n: int, s: nat, t: int)
    requires n > 0 && n % 2 == 1 && n + 1 == Pow(2, s) * t && t % 2 != 0
    ensures s >= 1 && t > 0 && t % 2 == 1 && 2 * (t / 2) + 1 == t
  {
    var m := n + 1;
    assert m == 2 * (n / 2 + 1);
    MulMod(2, n / 2 + 1);
    PowPositive(2, s);
    assert s == 0 ==> m == t;
    assert t <= 0 ==> Pow(2, s) * t <= 0;
  }

  /** A reduced value congruent to y is zero exactly when n divides y. */
  lemma ReducedZero(x: int, y: int, n: int)
    requires 0 <= x < n && Cong(x, y, n)
    ensures x == 0 <==> y % n == 0
  {
    ModSmall(x, n);
  }

  /** n passes the strong Lucas probable-prime test with Selfridge's
      parameters; when the search stopped at a common factor, strong_lucas_pseudoprime
      accepts exactly when n equals the signed D. */
  ghost predicate StrongLucasProbablePrime(n: int)
    requires n >= 3 && n % 2 == 1
  {
    var (d, p, q) := SelfridgeParams(n);
    if p == 0 then n == d
    else
      var (s, t) := Decompose(n + 1, 2);
      U(p, q, t) % n == 0 || exists r :: 0 <= r < s && LucasVTerm(p, q, t, r) % n == 0
  }

  /** strong_lucas_pseudoprime(n). */
  method StrongLucasPseudoprime(n: int) returns (r: bool)
    requires n >= 3 && n % 2 == 1
    ensures r == StrongLucasProbablePrime(n)
  {
    var d, p, q := Selfridge(n);
    if p == 0 {
      return n == d;
    }
    SelfridgeParamsProperties(n);
    var s, t := Factor(n + 2, 2);
    OddPart(n, s, t);
    var u, v, k := LucasSequence(n, 1, p, 1, p, d, q, t / 2);
    assert 0 <= u < n && 0 <= v < n;
    assert Pow(2, 0) == 1 && t * Pow(2, 0) == t;
    assert LucasVTerm(p, q, t, 0) == V(p, q, t);
    assert Cong(k, LucasQTerm(q, t, 0), n);
    ReducedZero(u, U(p, q, t), n);
    ReducedZero(v, LucasVTerm(p, q, t, 0), n);
    if u == 0 || v == 0 {
      return true;
    }
    for i := 1 to s
      invariant 0 <= v < n
      invariant Cong(v, LucasVTerm(p, q, t, i - 1), n) && Cong(k, LucasQTerm(q, t, i - 1), n)
      invariant forall j :: 0 <= j < i ==> LucasVTerm(p, q, t, j) % n != 0
    {
      PowPositive(2, i - 1);
      VDoubleStep(n, p, q, t * Pow(2, i - 1), v, k);
      DoublingIndex(t, i - 1);
      v := (v * v - 2 * k) % n;
      k := (k * k) % n;
      ReducedZero(v, LucasVTerm(p, q, t, i), n);
      if v == 0 {
        return true;
      }
    }
    return false;
  }

  // ---------------------------------------------------------------------
  // baillie_psw

  /** The floor of the square root, as a specification for isqrt. */
  function FloorSqrt(n: nat): (r: nat)
    ensures r * r <= n < (r + 1) * (r + 1)
  {
    if n == 0 then 0
    else
      var r := FloorSqrt(n - 1);
      SquareMonotonic(r + 1, r + 2);
      if (r + 1) * (r + 1) <= n then r + 1 else r
  }

  function Min(a: int, b: int): int {
    if a <= b then a else b
  }

  /** Some odd i in range(3, bound, 2) divides n. */
  ghost predicate HasTrialDivisor(n: int, bound: int) {
    exists i :: 3 <= i < bound && i % 2 == 1 && n % i == 0
  }

  /** What baillie_psw(n, limit) returns. When the Selfridge search stops
      at a common factor, the strong Lucas test accepts only n == D. */
  ghost predicate BpswAccepts(n: int, limit: int) {
    if n == 2 then true
    else if n % 2 == 0 then false
    else if n < 2 || IsPerfectSquare(n) then false
    else if HasTrialDivisor(n, Min(limit, FloorSqrt(n))) then false
    else StrongProbablePrime(n, 2) && StrongLucasProbablePrime(n)
  }

  lemma OddStep(i: int)
    requires i % 2 == 1
    ensures (i + 1) % 2 == 0 && (i + 2) % 2 == 1
  {
  }

  /** baillie_psw(n, limit). */
  method BailliePsw(n: int, limit: int) returns (r: bool)
    ensures r == BpswAccepts(n, limit)
  {
    if n == 2 {
      return true;
    }
    if n % 2 == 0 {
      return false;
    }
    if n < 2 {
      return false;
    }
    var square := IsSquare(n);
    if square.value {
      return false;
    }
    var root := Isqrt(n);
    FloorSqrtUnique(n, root.value, FloorSqrt(n));
    var bound := Min(limit, root.value);
    var i := 3;
    while i < bound
      invariant 3 <= i && i % 2 == 1
      invariant forall j :: 3 <= j < i && j % 2 == 1 ==> n % j != 0
      decreases bound - i
    {
      if n % i == 0 {
        return false;
      }
      OddStep(i);
      i := i + 2;
    }
    var strong := StrongPseudoprime(n, 2);
    if !strong {
      return false;
    }
    r := StrongLucasPseudoprime(n);
  }

  /** An n >= 2 with a divisor d, 1 < d < n, is not prime. */
  lemma NotPrime(n: int, d: int)
    requires 1 < d < n && n % d == 0
    ensures !Prime(n)
  {
    assert Divides(d, n);
  }

  lemma PerfectSquareNotPrime(n: int)
    requires IsPerfectSquare(n)
    ensures !Prime(n)
  {
    var k: nat :| Sq(k) == n;
    if k >= 2 {
      assert k < k * k;
      MulMod(k, k);
      NotPrime(n, k);
    }
  }

  lemma TrialDivisorNotPrime(n: int, bound: int)
    requires HasTrialDivisor(n, bound) && bound <= n
    ensures !Prime(n)
  {
    var i :| 3 <= i < bound && i % 2 == 1 && n % i == 0;
    NotPrime(n, i);
  }

  lemma FloorSqrtAtMost(n: nat)
    ensures FloorSqrt(n) <= n
  {
    var r := FloorSqrt(n);
    if r >= 1 {
      MulAtLeast(r, r);
    }
  }

  /** On a prime, the even test, the square test and trial division never
      reject: only the two strong tests decide. */
  lemma BpswOnPrime(n: int, limit: int)
    requires Prime(n)
    ensures n == 2 ==> BpswAccepts(n, limit)
    ensures n != 2 ==>
              n % 2 == 1 &&
              (BpswAccepts(n, limit) <==> StrongProbablePrime(n, 2) && StrongLucasProbablePrime(n))
  {
    if n != 2 {
      if n % 2 == 0 {
        NotPrime(n, 2);
      }
      if IsPerfectSquare(n) {
        PerfectSquareNotPrime(n);
      }
      FloorSqrtAtMost(n);
      if HasTrialDivisor(n, Min(limit, FloorSqrt(n))) {
        TrialDivisorNotPrime(n, Min(limit, FloorSqrt(n)));
      }
    }
  }

  /** baillie_psw(11) is False although 11 is prime: the Selfridge search
      for 11 passes 5, -7 and 9 (Jacobi symbol 1 each) and stops at -11,
      which shares the factor 11; the sentinel test n == D then compares 11
      with -11. */
  lemma BailliePswRejects11()
    ensures Prime(11) && !BpswAccepts(11, 100)
  {
    assert !HasDivisorBetween(11, 2, 8);
    SmallTrialDivision(11);
    NotSquare11();
    FloorSqrtUnique(11, 3, FloorSqrt(11));
    Selfridge11();
  }

  lemma NotSquare11()
    ensures !IsPerfectSquare(11)
  {
    forall k: nat | Sq(k) == 11
      ensures false
    {
      if k <= 3 {
        SquareMonotonic(k, 3);
      } else {
        SquareMonotonic(4, k);
      }
    }
  }

  /** The Selfridge search for 11 ends at the sentinel (-11, 0, 0). */
  lemma Selfridge11()
    ensures SelfridgeParams(11) == (-11, 0, 0)
  {
    Stops11();
    assert SelfridgeIndex(11, 0) == 3;
  }

  lemma Stops11()
    ensures !SelfridgeStops(11, 0) && !SelfridgeStops(11, 1) && !SelfridgeStops(11, 2)
    ensures SelfridgeStops(11, 3) && Candidate(3) == -11
  {
    Symbols11();
    assert NumberTheory.Gcd(5, 11) == 1;
    assert NumberTheory.Gcd(-7, 11) == 1;
    assert NumberTheory.Gcd(9, 11) == 1;
    assert NumberTheory.Gcd(-11, 11) == 11;
  }

  lemma Symbols11()
    ensures JacobiSymbol(5, 11) == 1 && JacobiSymbol(-7, 11) == 1 && JacobiSymbol(9, 11) == 1
  {
    JacobiOfOne(5);
    JacobiOfOne(9);
    JacobiOfOne(11);
    JacobiSymbolOdd(5, 11);
    JacobiSymbolEven(2, 11);
    JacobiSymbolEven(-7, 11);
    JacobiSymbolEven(2, 9);
    JacobiSymbolOdd(9, 11);
  }

  /** (1/p) = 1. */
  lemma JacobiOfOne(p: int)
    requires p > 1 && p % 2 == 1
    ensures JacobiSymbol(1, p) == 1
  {
    ModSmall(1, p);
    JacobiSymbolOdd(1, p);
    JacobiSymbolZero(p % 1, 1);
  }

  // ---------------------------------------------------------------------
  // is_prime, is_safe_prime

  /** Some d with lo <= d < hi divides n. */
  function HasDivisorBetween(n: int, lo: int, hi: int): bool
    requires lo > 0
    decreases hi - lo
  {
    lo < hi && (n % lo == 0 || HasDivisorBetween(n, lo + 1, hi))
  }

  lemma {:induction false} HasDivisorBetweenMeans(n: int, lo: int, hi: int, d: int)
    requires 0 < lo <= d < hi && n % d == 0
    ensures HasDivisorBetween(n, lo, hi)
    decreases hi - lo
  {
    if lo < d {
      HasDivisorBetweenMeans(n, lo + 1, hi, d);
    }
  }

  lemma {:induction false} HasDivisorBetweenWitness(n: int, lo: int, hi: int)
    requires 0 < lo && HasDivisorBetween(n, lo, hi)
    ensures exists d :: lo <= d < hi && n % d == 0
    decreases hi - lo
  {
    if n % lo != 0 {
      HasDivisorBetweenWitness(n, lo + 1, hi);
    }
  }

  /** Below 64, trial division by 2 .. 7 decides primality: a composite
      n = d * e with d >= 8 has a cofactor e below 8. */
  lemma SmallTrialDivision(n: int)
    requires 2 <= n < 64
    ensures Prime(n) <==> !HasDivisorBetween(n, 2, Min(n, 8))
  {
    if HasDivisorBetween(n, 2, Min(n, 8)) {
      HasDivisorBetweenWitness(n, 2, Min(n, 8));
      var d :| 2 <= d < Min(n, 8) && n % d == 0;
      NotPrime(n, d);
    } else {
      forall d | 1 < d < n
        ensures !Divides(d, n)
      {
        if n % d == 0 {
          if d < 8 {
            HasDivisorBetweenMeans(n, 2, Min(n, 8), d);
          } else {
            CofactorSmall(n, d);
            HasDivisorBetweenMeans(n, 2, Min(n, 8), n / d);
          }
        }
      }
    }
  }

  lemma MulBounds(d: int, e: int)
    requires 8 <= d && d * e < 64 && d * e > d
    ensures 2 <= e < 8
  {
    assert e <= 1 ==> d * e <= d * 1;
    assert e >= 8 ==> d * e >= 8 * e >= 64;
  }

  lemma CofactorSmall(n: int, d: int)
    requires 8 <= d < n < 64 && n % d == 0
    ensures 2 <= n / d < 8 && n / d < n && n % (n / d) == 0
  {
    var e := n / d;
    assert n == d * e;
    MulBounds(d, e);
    ModUnique(n, e, d, 0);
  }

  /** The primes below 50, as is_prime lists them. */
  const SmallPrimes: seq<int> := [2, 3, 5, 7, 11, 13, 17, 19, 23, 29, 31, 37, 41, 43, 47]

  /** Membership in SmallPrimes, written out. */
  predicate InTable(k: int) {
    k == 2 || k == 3 || k == 5 || k == 7 || k == 11 || k == 13 || k == 17 || k == 19 ||
    k == 23 || k == 29 || k == 31 || k == 37 || k == 41 || k == 43 || k == 47
  }

  lemma InTableMeans(k: int)
    ensures k in SmallPrimes <==> InTable(k)
  {
  }

  /** The table agrees with trial division from k up to 49. */
  function TableAgrees(k: nat): bool
    decreases 50 - k
  {
    k >= 50 ||
    (InTable(k) == !HasDivisorBetween(k, 2, Min(k, 8)) && TableAgrees(k + 1))
  }

  lemma {:induction false} TableAgreesMeans(k: nat, n: int)
    requires 2 <= k <= n < 50 && TableAgrees(k)
    ensures InTable(n) == !HasDivisorBetween(n, 2, Min(n, 8))
    decreases 50 - k
  {
    if k < n {
      TableAgreesMeans(k + 1, n);
    }
  }

  lemma TableFrom40()
    ensures TableAgrees(40)
  {
    assert TableAgrees(49);
    assert TableAgrees(48);
    assert TableAgrees(47);
    assert TableAgrees(46);
    assert TableAgrees(45);
    assert TableAgrees(44);
    assert TableAgrees(43);
    assert TableAgrees(42);
    assert TableAgrees(41);
    assert TableAgrees(40);
  }

  lemma TableFrom30()
    ensures TableAgrees(30)
  {
    TableFrom40();
    assert TableAgrees(39);
    assert TableAgrees(38);
    assert TableAgrees(37);
    assert TableAgrees(36);
    assert TableAgrees(35);
    assert TableAgrees(34);
    assert TableAgrees(33);
    assert TableAgrees(32);
    assert TableAgrees(31);
    assert TableAgrees(30);
  }

  lemma TableFrom20()
    ensures TableAgrees(20)
  {
    TableFrom30();
    assert TableAgrees(29);
    assert TableAgrees(28);
    assert TableAgrees(27);
    assert TableAgrees(26);
    assert TableAgrees(25);
    assert TableAgrees(24);
    assert TableAgrees(23);
    assert TableAgrees(22);
    assert TableAgrees(21);
    assert TableAgrees(20);
  }

  lemma TableFrom10()
    ensures TableAgrees(10)
  {
    TableFrom20();
    assert TableAgrees(19);
    assert TableAgrees(18);
    assert TableAgrees(17);
    assert TableAgrees(16);
    assert TableAgrees(15);
    assert TableAgrees(14);
    assert TableAgrees(13);
    assert TableAgrees(12);
    assert TableAgrees(11);
    assert TableAgrees(10);
  }

  lemma TableFrom2()
    ensures TableAgrees(2)
  {
    TableFrom10();
    assert TableAgrees(9);
    assert TableAgrees(8);
    assert TableAgrees(7);
    assert TableAgrees(6);
    assert TableAgrees(5);
    assert TableAgrees(4);
    assert TableAgrees(3);
    assert TableAgrees(2);
  }

  /** Below 50, membership in the table is primality. */
  lemma SmallPrimesAreThePrimes(n: int)
    requires n < 50
    ensures n in SmallPrimes <==> Prime(n)
  {
    if n >= 2 {
      TableFrom2();
      TableAgreesMeans(2, n);
      SmallTrialDivision(n);
      InTableMeans(n);
    }
  }

  /** What is_prime(n) returns: the table below 50, baillie_psw above. */
  ghost predicate PrimeTest(n: int) {
    if n < 50 then n in SmallPrimes else BpswAccepts(n, 100)
  }

  /** is_prime(n). */
  method IsPrime(n: int) returns (r: bool)
    ensures r == PrimeTest(n)
    ensures n < 50 ==> (r <==> Prime(n))
  {
    if n < 50 {
      SmallPrimesAreThePrimes(n);
      return n in SmallPrimes;
    }
    r := BailliePsw(n, 100);
  }

  /** is_safe_prime(n): n and (n - 1) // 2 both pass is_prime. */
  method IsSafePrime(n: int) returns (r: bool)
    ensures r == (PrimeTest(n) && PrimeTest((n - 1) / 2))
    ensures n < 50 ==> (r <==> Prime(n) && Prime((n - 1) / 2))
  {
    var first := IsPrime(n);
    if !first {
      return false;
    }
    r := IsPrime((n - 1) / 2);
  }
}
