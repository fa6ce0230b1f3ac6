// The Lucas sequences U_k(P, Q) and V_k(P, Q) over the integers and the
// identities that the double-and-add evaluator of the strong Lucas test
// relies on. D = P*P - 4*Q throughout.

module LucasSequences {
  import opened NumberTheory

  /** U_0 = 0, U_1 = 1, U_k = P*U_(k-1) - Q*U_(k-2). */
  function U(p: int, q: int, k: nat): int
    decreases k
  {
    if k == 0 then 0
    else if k == 1 then 1
    else p * U(p, q, k - 1) - q * U(p, q, k - 2)
  }

  /** V_0 = 2, V_1 = P, V_k = P*V_(k-1) - Q*V_(k-2). */
  function V(p: int, q: int, k: nat): int
    decreases k
  {
    if k == 0 then 2
    else if k == 1 then p
    else p * V(p, q, k - 1) - q * V(p, q, k - 2)
  }

  // Polynomial identities, stated over plain integers so that the solver
  // sees no recursive definitions while it normalises them.

  lemma AlgebraVFromU(p: int, q: int, u0: int, u1: int, u2: int, u3: int, v0: int, v1: int)
    requires v1 == 2 * u2 - p * u1 && v0 == 2 * u1 - p * u0
    requires u3 == p * u2 - q * u1 && u2 == p * u1 - q * u0
    ensures p * v1 - q * v0 == 2 * u3 - p * u2
  {
  }

  lemma AlgebraVNext(p: int, q: int, d: int, u0: int, u1: int, v0: int, v1: int, v2: int)
    requires 2 * v2 == p * v1 + d * u1 && 2 * v1 == p * v0 + d * u0
    ensures 2 * (p * v2 - q * v1) == p * (p * v1 - q * v0) + d * (p * u1 - q * u0)
  {
  }

  lemma AlgebraAddition(p: int, q: int, d: int, um: int, vm: int,
                        u0: int, u1: int, un: int, v0: int, v1: int, vn: int,
                        x0: int, x1: int, xn: int, y0: int, y1: int, yn: int)
    requires un == p * u1 - q * u0 && vn == p * v1 - q * v0
    requires xn == p * x1 - q * x0 && yn == p * y1 - q * y0
    requires 2 * x1 == um * v1 + u1 * vm && 2 * x0 == um * v0 + u0 * vm
    requires 2 * y1 == vm * v1 + d * um * u1 && 2 * y0 == vm * v0 + d * um * u0
    ensures 2 * xn == um * vn + un * vm
    ensures 2 * yn == vm * vn + d * um * un
  {
  }

  lemma AlgebraQPower(p: int, q: int, a: int, b: int, c: int, r: int)
    requires c == p * a - q * b
    requires a * a - p * a * b + q * b * b == r
    ensures c * c - p * c * a + q * a * a == q * r
  {
  }

  lemma AlgebraDoubling(p: int, q: int, a: int, b: int, v: int, w: int, r: int)
    requires v == 2 * a - p * b
    requires a * a - p * a * b + q * b * b == r
    requires 2 * w == v * v + (p * p - 4 * q) * b * b
    ensures w == v * v - 2 * r
  {
  }

  /** V_k = 2*U_(k+1) - P*U_k. */
  lemma {:induction false} VFromU(p: int, q: int, k: nat)
    ensures V(p, q, k) == 2 * U(p, q, k + 1) - p * U(p, q, k)
    decreases k
  {
    if k >= 2 {
      VFromU(p, q, k - 1);
      VFromU(p, q, k - 2);
      AlgebraVFromU(p, q, U(p, q, k - 2), U(p, q, k - 1), U(p, q, k), U(p, q, k + 1),
                    V(p, q, k - 2), V(p, q, k - 1));
    }
  }

  /** 2*V_(k+1) = P*V_k + D*U_k. */
  lemma {:induction false} VNext(p: int, q: int, k: nat)
    ensures 2 * V(p, q, k + 1) == p * V(p, q, k) + (p * p - 4 * q) * U(p, q, k)
    decreases k
  {
    if k >= 2 {
      VNext(p, q, k - 1);
      VNext(p, q, k - 2);
      AlgebraVNext(p, q, p * p - 4 * q, U(p, q, k - 2), U(p, q, k - 1),
                   V(p, q, k - 2), V(p, q, k - 1), V(p, q, k));
    } else if k == 1 {
      assert V(p, q, 2) == p * p - 2 * q;
    }
  }

  /** The addition formulas:
      2*U_(m+n) = U_m*V_n + U_n*V_m and 2*V_(m+n) = V_m*V_n + D*U_m*U_n. */
  lemma {:induction false} Addition(p: int, q: int, m: nat, n: nat)
    ensures 2 * U(p, q, m + n) == U(p, q, m) * V(p, q, n) + U(p, q, n) * V(p, q, m)
    ensures 2 * V(p, q, m + n) == V(p, q, m) * V(p, q, n) + (p * p - 4 * q) * U(p, q, m) * U(p, q, n)
    decreases n
  {
    if n == 1 {
      AdditionOne(p, q, m);
    } else if n >= 2 {
      Addition(p, q, m, n - 1);
      Addition(p, q, m, n - 2);
      AdditionStep(p, q, m, n);
    }
  }

  lemma AdditionOne(p: int, q: int, m: nat)
    ensures 2 * U(p, q, m + 1) == U(p, q, m) * V(p, q, 1) + U(p, q, 1) * V(p, q, m)
    ensures 2 * V(p, q, m + 1) == V(p, q, m) * V(p, q, 1) + (p * p - 4 * q) * U(p, q, m) * U(p, q, 1)
  {
    VFromU(p, q, m);
    VNext(p, q, m);
  }

  /** The inductive step of Addition: the formulas for n - 1 and n - 2 give
      the ones for n. */
  lemma AdditionStep(p: int, q: int, m: nat, n: nat)
    requires n >= 2
    requires 2 * U(p, q, m + (n - 1)) == U(p, q, m) * V(p, q, n - 1) + U(p, q, n - 1) * V(p, q, m)
    requires 2 * V(p, q, m + (n - 1)) ==
             V(p, q, m) * V(p, q, n - 1) + (p * p - 4 * q) * U(p, q, m) * U(p, q, n - 1)
    requires 2 * U(p, q, m + (n - 2)) == U(p, q, m) * V(p, q, n - 2) + U(p, q, n - 2) * V(p, q, m)
    requires 2 * V(p, q, m + (n - 2)) ==
             V(p, q, m) * V(p, q, n - 2) + (p * p - 4 * q) * U(p, q, m) * U(p, q, n - 2)
    ensures 2 * U(p, q, m + n) == U(p, q, m) * V(p, q, n) + U(p, q, n) * V(p, q, m)
    ensures 2 * V(p, q, m + n) == V(p, q, m) * V(p, q, n) + (p * p - 4 * q) * U(p, q, m) * U(p, q, n)
  {
    var k := m + n;
    assert U(p, q, k) == p * U(p, q, k - 1) - q * U(p, q, k - 2);
    assert V(p, q, k) == p * V(p, q, k - 1) - q * V(p, q, k - 2);
    assert U(p, q, n) == p * U(p, q, n - 1) - q * U(p, q, n - 2);
    assert V(p, q, n) == p * V(p, q, n - 1) - q * V(p, q, n - 2);
    AlgebraAddition(p, q, p * p - 4 * q, U(p, q, m), V(p, q, m),
                    U(p, q, n - 2), U(p, q, n - 1), U(p, q, n),
                    V(p, q, n - 2), V(p, q, n - 1), V(p, q, n),
                    U(p, q, k - 2), U(p, q, k - 1), U(p, q, k),
                    V(p, q, k - 2), V(p, q, k - 1), V(p, q, k));
  }

  /** U_(k+1)^2 - P*U_(k+1)*U_k + Q*U_k^2 = Q^k. */
  lemma {:induction false} QPower(p: int, q: int, k: nat)
    ensures U(p, q, k + 1) * U(p, q, k + 1) - p * U(p, q, k + 1) * U(p, q, k)
            + q * U(p, q, k) * U(p, q, k) == Pow(q, k)
    decreases k
  {
    if k > 0 {
      QPower(p, q, k - 1);
      AlgebraQPower(p, q, U(p, q, k), U(p, q, k - 1), U(p, q, k + 1), Pow(q, k - 1));
    }
  }

  /** The doubling formulas: U_2k = U_k*V_k and V_2k = V_k^2 - 2*Q^k. */
  lemma Doubling(p: int, q: int, k: nat)
    ensures U(p, q, 2 * k) == U(p, q, k) * V(p, q, k)
    ensures V(p, q, 2 * k) == V(p, q, k) * V(p, q, k) - 2 * Pow(q, k)
  {
    Addition(p, q, k, k);
    VFromU(p, q, k);
    QPower(p, q, k);
    AlgebraDoubling(p, q, U(p, q, k + 1), U(p, q, k), V(p, q, k), V(p, q, 2 * k), Pow(q, k));
  }
}
