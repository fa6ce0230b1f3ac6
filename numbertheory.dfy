// Integer facts shared by the three components: divisibility, Euclid's
// greatest common divisor, powers, congruences modulo a positive n, primes.
// All integers are unbounded, as they are in the modelled code; `%` and `/`
// below always have a positive divisor, where Dafny's Euclidean division and
// Python's floor division agree.

module NumberTheory {

  /** d is a positive divisor of x. */
  predicate Divides(d: int, x: int) {
    d > 0 && x % d == 0
  }

  /** g is the greatest common divisor of a and b: a positive common divisor
      that every positive common divisor divides. */
  ghost predicate IsGcd(g: int, a: int, b: int) {
    Divides(g, a) && Divides(g, b) &&
    forall c :: Divides(c, a) && Divides(c, b) ==> Divides(c, g)
  }

  /** Euclid's algorithm: the value that `while b != 0: a, b = b, a % b`
      leaves in a, for a non-negative b. */
  function Gcd(a: int, b: nat): int
    decreases b
  {
    if b == 0 then a else Gcd(b, a % b)
  }

  /** n is prime: at least 2 and without a divisor strictly between 1 and n. */
  predicate Prime(n: int) {
    n >= 2 && forall d :: 1 < d < n ==> !Divides(d, n)
  }

  function Pow(b: int, e: nat): int {
    if e == 0 then 1 else b * Pow(b, e - 1)
  }

  /** Python's three-argument pow(b, e, n) for a positive modulus n. */
  function ModPow(b: int, e: nat, n: int): int
    requires n > 0
  {
    Pow(b, e) % n
  }

  /** x and y are congruent modulo the positive n. */
  predicate Cong(x: int, y: int, n: int) {
    n > 0 && x % n == y % n
  }

  function Sq(k: int): int {
    k * k
  }

  // ---------------------------------------------------------------------
  // Euclidean division

  lemma MulAtLeast(n: int, k: int)
    requires n > 0 && k >= 1
    ensures n * k >= n
  {
    assert n * k == n * (k - 1) + n;
  }

  /** Division with remainder is unique. */
  lemma ModUnique(x: int, n: int, q: int, r: int)
    requires n > 0 && 0 <= r < n && x == n * q + r
    ensures x % n == r && x / n == q
  {
    var q2, r2 := x / n, x % n;
    assert x == n * q2 + r2;
    assert n * (q - q2) == r2 - r;
    assert n * (q2 - q) == r - r2;
    if q > q2 {
      MulAtLeast(n, q - q2);
    } else if q < q2 {
      MulAtLeast(n, q2 - q);
    }
  }

  lemma ModSmall(x: int, n: int)
    requires 0 <= x < n
    ensures x % n == x
  {
    ModUnique(x, n, 0, x);
  }

  lemma ModAddMultiple(x: int, n: int, k: int)
    requires n > 0
    ensures (x + n * k) % n == x % n
  {
    assert x + n * k == n * (x / n + k) + x % n;
    ModUnique(x + n * k, n, x / n + k, x % n);
  }

  lemma MulMod(n: int, k: int)
    requires n > 0
    ensures (n * k) % n == 0
  {
    ModAddMultiple(0, n, k);
  }

  lemma CongWitness(a: int, b: int, n: int)
    requires Cong(a, b, n)
    ensures a == b + n * (a / n - b / n)
  {
    assert a == n * (a / n) + a % n;
    assert b == n * (b / n) + b % n;
    assert n * (a / n - b / n) == n * (a / n) - n * (b / n);
  }

  lemma CongFromWitness(a: int, b: int, n: int, k: int)
    requires n > 0 && a == b + n * k
    ensures Cong(a, b, n)
  {
    ModAddMultiple(b, n, k);
  }

  lemma CongMod(a: int, n: int)
    requires n > 0
    ensures Cong(a % n, a, n)
  {
    ModUnique(a % n, n, 0, a % n);
  }

  lemma CongAdd(a: int, a2: int, b: int, b2: int, n: int)
    requires Cong(a, a2, n) && Cong(b, b2, n)
    ensures Cong(a + b, a2 + b2, n)
  {
    CongWitness(a, a2, n);
    CongWitness(b, b2, n);
    var k1, k2 := a / n - a2 / n, b / n - b2 / n;
    assert a + b == a2 + b2 + n * (k1 + k2);
    CongFromWitness(a + b, a2 + b2, n, k1 + k2);
  }

  lemma CongSub(a: int, a2: int, b: int, b2: int, n: int)
    requires Cong(a, a2, n) && Cong(b, b2, n)
    ensures Cong(a - b, a2 - b2, n)
  {
    CongWitness(a, a2, n);
    CongWitness(b, b2, n);
    var k1, k2 := a / n - a2 / n, b / n - b2 / n;
    assert a - b == a2 - b2 + n * (k1 - k2);
    CongFromWitness(a - b, a2 - b2, n, k1 - k2);
  }

  lemma CongMul(a: int, a2: int, b: int, b2: int, n: int)
    requires Cong(a, a2, n) && Cong(b, b2, n)
    ensures Cong(a * b, a2 * b2, n)
  {
    CongWitness(a, a2, n);
    CongWitness(b, b2, n);
    var k1, k2 := a / n - a2 / n, b / n - b2 / n;
    AlgebraMulExpand(a, a2, b, b2, n, k1, k2);
    CongFromWitness(a * b, a2 * b2, n, k1 * b2 + a2 * k2 + n * k1 * k2);
  }

  lemma AlgebraMulExpand(a: int, a2: int, b: int, b2: int, n: int, k1: int, k2: int)
    requires a == a2 + n * k1 && b == b2 + n * k2
    ensures a * b == a2 * b2 + n * (k1 * b2 + a2 * k2 + n * k1 * k2)
  {
  }

  /** Halving is well defined modulo an odd n: 2x = 2y (mod n) gives x = y. */
  lemma CongHalve(x: int, y: int, n: int)
    requires n > 0 && n % 2 == 1 && Cong(2 * x, 2 * y, n)
    ensures Cong(x, y, n)
  {
    CongWitness(2 * x, 2 * y, n);
    var k := (2 * x) / n - (2 * y) / n;
    var h := (n + 1) / 2;
    assert 2 * h == n + 1;
    calc {
      x - y;
      (n + 1) * (x - y) - n * (x - y);
      h * (2 * (x - y)) - n * (x - y);
      { assert 2 * (x - y) == n * k; }
      h * (n * k) - n * (x - y);
      n * (h * k - (x - y));
    }
    CongFromWitness(x, y, n, h * k - (x - y));
  }

  // ---------------------------------------------------------------------
  // Divisibility and the greatest common divisor

  lemma DividesLinear(c: int, x: int, y: int, a: int, b: int)
    requires Divides(c, x) && Divides(c, y)
    ensures Divides(c, a * x + b * y)
  {
    assert x == c * (x / c);
    assert y == c * (y / c);
    var k := a * (x / c) + b * (y / c);
    calc {
      a * x + b * y;
      a * (c * (x / c)) + b * (c * (y / c));
      c * k;
    }
    MulMod(c, k);
  }

  lemma DividesLe(d: int, x: int)
    requires Divides(d, x) && x > 0
    ensures d <= x
  {
    assert x == d * (x / d);
    MulAtLeast(d, x / d);
  }

  lemma DividesTrans(a: int, b: int, c: int)
    requires Divides(a, b) && Divides(b, c)
    ensures Divides(a, c)
  {
    var j, k := b / a, c / b;
    assert b == a * j && c == b * k;
    assert c == a * (j * k);
    MulMod(a, j * k);
  }

  lemma DividesSelf(d: int)
    requires d > 0
    ensures Divides(d, d) && Divides(d, 0)
  {
    MulMod(d, 1);
    MulMod(d, 0);
  }

  /** Euclid's algorithm computes the greatest common divisor. */
  lemma {:induction false} GcdIsGcd(a: int, b: nat)
    requires b > 0
    ensures IsGcd(Gcd(a, b), a, b)
    decreases b
  {
    var r := a % b;
    DividesSelf(b);
    if r == 0 {
      assert Gcd(a, b) == Gcd(b, 0) == b;
    } else {
      GcdIsGcd(b, r);
      var g := Gcd(b, r);
      assert Gcd(a, b) == g;
      assert a == (a / b) * b + 1 * r;
      DividesLinear(g, b, r, a / b, 1);
      forall c | Divides(c, a) && Divides(c, b)
        ensures Divides(c, g)
      {
        assert r == 1 * a + (-(a / b)) * b;
        DividesLinear(c, a, b, 1, -(a / b));
      }
    }
  }

  lemma GcdUnique(g1: int, g2: int, a: int, b: int)
    requires IsGcd(g1, a, b) && IsGcd(g2, a, b)
    ensures g1 == g2
  {
    assert Divides(g1, g2) && Divides(g2, g1);
    DividesLe(g1, g2);
    DividesLe(g2, g1);
  }

  /** For a positive b, Gcd(a, b) is the only greatest common divisor. */
  lemma GcdCharacterization(a: int, b: nat, g: int)
    requires b > 0 && IsGcd(g, a, b)
    ensures Gcd(a, b) == g
  {
    GcdIsGcd(a, b);
    GcdUnique(Gcd(a, b), g, a, b);
  }

  lemma GcdOfMultiple(a: int, b: nat)
    requires b > 0 && a % b == 0
    ensures Gcd(a, b) == b
  {
    assert Gcd(a, b) == Gcd(b, 0);
  }

  // ---------------------------------------------------------------------
  // Powers

  lemma {:induction false} PowAdd(b: int, e1: nat, e2: nat)
    ensures Pow(b, e1 + e2) == Pow(b, e1) * Pow(b, e2)
    decreases e1
  {
    if e1 > 0 {
      PowAdd(b, e1 - 1, e2);
      calc {
        Pow(b, e1 + e2);
        b * Pow(b, e1 - 1 + e2);
        b * (Pow(b, e1 - 1) * Pow(b, e2));
        (b * Pow(b, e1 - 1)) * Pow(b, e2);
      }
    }
  }

  lemma PowDouble(b: int, e: nat)
    ensures Pow(b, 2 * e) == Pow(b, e) * Pow(b, e)
  {
    PowAdd(b, e, e);
  }

  lemma PowTwo(b: int)
    ensures Pow(b, 2) == b * b
  {
    assert Pow(b, 1) == b;
  }

  /** t * 2^(r+1) = 2 * (t * 2^r). */
  lemma DoublingIndex(t: int, r: nat)
    ensures t * Pow(2, r + 1) == 2 * (t * Pow(2, r))
  {
  }

  lemma {:induction false} PowPositive(b: int, e: nat)
    requires b > 0
    ensures Pow(b, e) > 0
    decreases e
  {
    if e > 0 {
      PowPositive(b, e - 1);
      MulAtLeast(Pow(b, e - 1), b);
    }
  }

  // ---------------------------------------------------------------------
  // Squares

  lemma SquareMonotonic(a: int, b: int)
    requires 0 <= a <= b
    ensures a * a <= b * b
  {
    assert a * a <= a * b <= b * b;
  }

  /** r*r <= n < (r+1)*(r+1) determines r among the non-negative integers. */
  lemma FloorSqrtUnique(n: int, r: int, k: int)
    requires 0 <= r && r * r <= n < (r + 1) * (r + 1)
    requires 0 <= k && k * k <= n < (k + 1) * (k + 1)
    ensures r == k
  {
    if r < k {
      SquareMonotonic(r + 1, k);
    } else if k < r {
      SquareMonotonic(k + 1, r);
    }
  }
}
