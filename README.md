# Baillie-PSW primality test, sieve and Pollard rho in Dafny

This project models three Python programs and proves properties of the model.

- The Baillie-PSW probable-prime test, `baillie/baillie_psw.py`, is the core. It covers:
  - Euclid's gcd;
  - Newton's integer square root and the perfect-square test;
  - the split n - 1 = p^s * d;
  - the Jacobi symbol;
  - Selfridge's choice of Lucas parameters (D, P, Q);
  - the binary evaluation of the Lucas sequences U and V;
  - the strong base-2 test and the strong Lucas test;
  - `baillie_psw` with its trial division;
  - `is_prime` and `is_safe_prime`.
- The sieve of Eratosthenes and gcd of `smooth/smooth-pollard_memory.py`.
- Pollard's rho divisor search with Floyd's cycle detection, its gcd and `find_two_factors`, from `rho/rho.py`.

## Layout

- `numbertheory.dfy` (module `NumberTheory`): shared definitions and lemmas.
  - Definitions: divisibility, the greatest common divisor (`IsGcd`, `Gcd`), `Prime`, `Pow`, `ModPow` and `Cong` (congruence modulo a positive n).
  - Lemmas: lemmas about these, such as `GcdIsGcd` (Euclid's algorithm computes a greatest common divisor) and the congruence and power laws.
- `lucas.dfy` (module `LucasSequences`): the integer Lucas sequences U_k(P, Q) and V_k(P, Q), with the addition and doubling formulas.
- `wrappers.dfy` (module `Wrappers`): a `Result` type for the error exits.
- `baillie.dfy` (module `Baillie`): one method for every function of `baillie_psw.py`. Each method is proved against the specification functions and predicates defined beside it.
- `sieve.dfy` (module `Sieve`) and `rho.dfy` (module `Rho`): the two factoring files.

## How the source is modelled

- Every loop of the source is a Dafny method with a `while` or `for` loop. Each one is proved equal to a specification:
  - `Factor` against `Decompose`;
  - `Jacobi` against `JacobiSymbol`;
  - `Selfridge` against `SelfridgeParams`;
  - `StrongPseudoprime` against `StrongProbablePrime`;
  - `StrongLucasPseudoprime` against `StrongLucasProbablePrime`;
  - `BailliePsw` against `BpswAccepts`;
  - `Sieve` against `PrimesBelow`.

  The properties the source relies on are then proved about those specifications.
- Python integers are unbounded, and so are Dafny's.
- Every `%` and `//` in the modelled code has a positive divisor. There, Dafny's Euclidean division and Python's floor division agree.
- The bit operations are written arithmetically:
  - `x & 1` becomes `x % 2`;
  - `x & 3` becomes `x % 4`;
  - `x & 7` becomes `x % 8`;
  - `x >> 1` becomes `x / 2`.

  Three of the `x & 1` tests can see a negative x:
  - `n & 1` in `baillie_psw` (baillie/baillie_psw.py:152), which accepts any integer;
  - `p & 1` in `jacobi` (baillie/baillie_psw.py:45), which is evaluated before the `p < 0` test;
  - `v1 & 1` in `lucas_sequence` (baillie/baillie_psw.py:100), because v1 = t3 + t4 and t4 = u2*u1*d can be negative when D < 0.

  Under Python's two's-complement semantics `x & 1` equals the Euclidean `x % 2` for every sign, so these become `x % 2` as well. `x & 3`, `x & 7` and `x >> 1` only ever see non-negative values.
- Three-argument `pow(x, e, n)` is `ModPow(x, e, n)`, which is x^e reduced modulo n.
- The exceptions are `Err` values of a `Result`:
  - `isqrt` raises on a negative argument;
  - `jacobi` raises on an even or negative p;
  - `sieve` raises "too small" for n < 2.

  In the source, the failing write to index 0 or 1 raises `IndexError`, and `sieve` turns that into its own exception.

## Behaviour of the source that the model keeps

- **The signed sentinel.** `selfridge` can stop at a candidate D that shares a factor with n. It then returns (D, 0, 0), and `strong_lucas_pseudoprime` answers `n == D` with the *signed* D. For n = 11 the search passes 5, -7 and 9 and stops at D = -11, so `baillie_psw(11)` is False although 11 is prime. `Baillie.BailliePswRejects11` proves this about the model.
- **The factor pair for prime n.** When `rho` finds no divisor, `find_two_factors` returns (n, n // 1) = (n, n), not (n, 1). `Rho.FindTwoFactors` states this outcome as it is.
- **Precedence in `1 % n`.** In `pow(a, 2, n) + 1 % n`, the `%` binds tighter than `+`. The step therefore adds 1 for n >= 2 and 0 for n == 1, and its values lie in [1, n] for n >= 2.
- **Termination of `rho`.** The `while True` loop of `rho` is proved to terminate.
  - By pigeonhole, the walk 2, f(2), f(f(2)), ... repeats a point (`Rho.RepeatedPoint`).
  - Floyd's tortoise and hare therefore meet at some step c (`Rho.CycleIndex`).
  - At step c, gcd(0, n) = n stops the loop.

## Model

| member | source | states |
|---|---|---|
| `NumberTheory.GcdIsGcd` | baillie/baillie_psw.py:5-8 | for b > 0, the value Euclid's loop leaves is a positive common divisor of a and b that every common divisor divides |
| `Baillie.Gcd` | baillie/baillie_psw.py:5-8 | the loop `a, b = b, a % b` ends with Euclid's gcd of the inputs |
| `Baillie.NewtonAbove` | baillie/baillie_psw.py:18-20 | a Newton step (x + n // x) // 2 never falls below the integer square root of n |
| `Baillie.NewtonStop` | baillie/baillie_psw.py:18-22 | when the Newton step no longer decreases x, x*x <= n |
| `Baillie.Isqrt` | baillie/baillie_psw.py:11-22 | error exactly for n < 0; otherwise r >= 0 and r*r <= n < (r+1)*(r+1) |
| `Baillie.IsSquare` | baillie/baillie_psw.py:24-26 | error exactly for n < 0, and that error is the negative-square-root error isqrt raises; otherwise True exactly when n is the square of an integer |
| `Baillie.Decompose` | baillie/baillie_psw.py:29-41 | m = p^s * d with d not divisible by p, and d > 0 for m > 0 |
| `Baillie.DecomposeUnique` | baillie/baillie_psw.py:29-41 | the split m = p^s * d with p not dividing d is unique |
| `Baillie.Factor` | baillie/baillie_psw.py:29-41 | returns (s, d) with n - 1 = p^s * d and d not divisible by p: the unique such split |
| `Baillie.JacobiSymbolValues` | baillie/baillie_psw.py:44-65 | the Jacobi symbol is -1, 0 or 1, and it is 0 exactly when gcd(a mod p, p) != 1 |
| `Baillie.HalvingStep` | baillie/baillie_psw.py:55-58 | halving an even x and flipping t when y is 3 or 5 mod 8 keeps t * (x/y) unchanged |
| `Baillie.SwapStep` | baillie/baillie_psw.py:59-62 | swapping an odd x < y, flipping t when both are 3 mod 4, and reducing keeps t * (x/y) unchanged |
| `Baillie.Jacobi` | baillie/baillie_psw.py:44-65 | error exactly for even or negative p; a itself for a in {0, 1}; otherwise the Jacobi symbol (a/p), which is in {-1, 0, 1} and is 0 exactly when a and p share a factor |
| `Baillie.StopsAtMultiple` | baillie/baillie_psw.py:73-82 | the candidate of magnitude 3n is a multiple of n, so the search always stops by then |
| `Baillie.SelfridgeIndex` | baillie/baillie_psw.py:68-82 | the first candidate index from i on where the gcd exit or the Jacobi exit is taken; every earlier one takes neither |
| `Baillie.SelfridgeParamsProperties` | baillie/baillie_psw.py:68-82 | D is the first candidate of 5, -7, 9, -11, ... where the search stops, and D = 1 (mod 4); for P = 0: Q = 0 and gcd(D, n) > 1; otherwise P = 1, D = P*P - 4Q, gcd(D, n) = 1 and (D/n) = -1 |
| `Baillie.Selfridge` | baillie/baillie_psw.py:68-82 | returns exactly the triple of the first candidate where the search stops |
| `Baillie.HalfModHalves` | baillie/baillie_psw.py:97-103 | adding n to an odd value and halving divides by 2 modulo the odd n |
| `Baillie.DoubleStep` | baillie/baillie_psw.py:88-90 | the squaring step takes U_j, V_j, Q^j (mod n) to U_2j, V_2j, Q^2j |
| `Baillie.AddStep` | baillie/baillie_psw.py:92-103 | for odd n, the combining step takes the index-a and index-b pairs (mod n) to U_(a+b), V_(a+b); the add-n-then-halve only halves modulo an odd n |
| `Baillie.LucasSequence` | baillie/baillie_psw.py:85-108 | for m <= 0 the inputs come back unchanged; for m > 0 all three results lie in [0, n); for odd n, from (U_1, V_1) with D = P*P - 4Q, the results are U, V and Q^ at index 2m + 1 modulo n |
| `Baillie.MrTermSquare` | baillie/baillie_psw.py:123 | squaring base^(d*2^r) modulo n gives base^(d*2^(r+1)) modulo n |
| `Baillie.StrongPseudoprime` | baillie/baillie_psw.py:111-124 | with n - 1 = 2^s * d and d odd: True exactly when base^d = 1 or base^(d*2^r) = n - 1 (mod n) for some r < s |
| `Baillie.OddPart` | baillie/baillie_psw.py:133-134 | for odd n, n + 1 = 2^s * t takes s >= 1 with t odd and positive, so 2 * (t >> 1) + 1 = t |
| `Baillie.VDoubleStep` | baillie/baillie_psw.py:140-141 | v*v - 2k and k*k modulo n move V and Q^ from index j to index 2j |
| `Baillie.StrongLucasPseudoprime` | baillie/baillie_psw.py:127-145 | the sentinel result n == D when Selfridge stopped at a common factor; otherwise, with n + 1 = 2^s * t and t odd, True exactly when U_t = 0 or V_(t*2^r) = 0 (mod n) for some r < s |
| `Baillie.FloorSqrt` | baillie/baillie_psw.py:158 | the integer square root r with r*r <= n < (r+1)*(r+1), which bounds the trial division |
| `Baillie.BailliePsw` | baillie/baillie_psw.py:148-163 | True for 2; False for other even n, n < 2, perfect squares and an odd divisor i with 3 <= i < min(limit, isqrt(n)); otherwise both strong tests decide |
| `Baillie.PerfectSquareNotPrime` | baillie/baillie_psw.py:155-156 | a perfect square is never prime, so the square test rejects no prime |
| `Baillie.TrialDivisorNotPrime` | baillie/baillie_psw.py:158-161 | an odd divisor found by the trial division is a proper divisor, so that rejection is sound |
| `Baillie.BpswOnPrime` | baillie/baillie_psw.py:148-163 | on a prime, baillie_psw accepts 2 and otherwise answers exactly as the two strong tests: the early stages never reject a prime |
| `Baillie.BailliePswRejects11` | baillie/baillie_psw.py:130-131 | 11 is prime yet baillie_psw(11, 100) is False, because of the signed sentinel |
| `Baillie.SmallPrimesAreThePrimes` | baillie/baillie_psw.py:171-172 | below 50, membership in the 15-entry table is exactly primality |
| `Baillie.IsPrime` | baillie/baillie_psw.py:170-173 | the table below 50, baillie_psw(n) from 50 on; below 50 the answer is exactly whether n is prime |
| `Baillie.IsSafePrime` | baillie/baillie_psw.py:166-167 | is_prime(n) and is_prime((n - 1) // 2); below 50, exactly whether n and (n - 1) // 2 are both prime |
| `LucasSequences.Addition` | baillie/baillie_psw.py:93-95 | 2*U_(m+n) = U_m*V_n + U_n*V_m and 2*V_(m+n) = V_m*V_n + D*U_m*U_n, the identities behind the combining step |
| `LucasSequences.Doubling` | baillie/baillie_psw.py:88-90 | U_2k = U_k*V_k and V_2k = V_k^2 - 2Q^k, the identities behind the squaring step |
| `Sieve.Gcd` | smooth/smooth-pollard_memory.py:33-36 | Euclid's gcd of the inputs; for a positive second argument, a positive common divisor that every common divisor divides |
| `Sieve.VisitedMark` | smooth/smooth-pollard_memory.py:24-26 | when index i >= 2 is visited, its mark is still True exactly when i is prime |
| `Sieve.SmallPrimeDivisor` | smooth/smooth-pollard_memory.py:28-29 | a composite n has a prime divisor p with p*p <= n, so clearing from i*i on misses no composite |
| `Sieve.HitStep` | smooth/smooth-pollard_memory.py:28-29 | range(i*i, n, i) visits exactly the multiples of i from i*i on |
| `Sieve.Sieve` | smooth/smooth-pollard_memory.py:11-30 | the "too small" error exactly for n < 2; otherwise the primes below n in increasing order |
| `Sieve.PrimesBelowMeans` | smooth/smooth-pollard_memory.py:23-30 | the returned list holds exactly the primes below n and is strictly increasing |
| `Rho.Gcd` | rho/rho.py:6-9 | Euclid's gcd of the inputs, also for a negative first argument; for a positive second argument, a positive common divisor that every common divisor divides |
| `Rho.StepRange` | rho/rho.py:16-18 | a step lands in [0, n]; in [1, n] for n >= 2 and at 0 for n == 1 |
| `Rho.WalkStep` | rho/rho.py:16-18 | a takes one step of the walk and b two, so after i rounds a = x_i and b = x_(2i) |
| `Rho.CycleIndex` | rho/rho.py:14-25 | some c >= 1 has x_c = x_(2c), so the loop stops after at most c rounds |
| `Rho.ProbeDivides` | rho/rho.py:19 | gcd(a - b, n) is a positive divisor of n, at most n |
| `Rho.Rho` | rho/rho.py:12-25 | 1 or a proper divisor of n; exactly the gcd(x_i - x_(2i), n) of the first round i where 1 < d < n or d == n, with d == n giving 1 |
| `Rho.FindTwoFactors` | rho/rho.py:45-52 | (2, n // 2) with product n for even n; for odd n the pair is made from rho's first stop i (`PairAt`): the divisor gcd(x_i - x_(2i), n) found there, or n when that divisor is n itself, and n // rho(n). So the pair is either (n, n), when rho found nothing, or a proper divisor r with (r, n // r) and product n |
| `Rho.PairFromStop` | rho/rho.py:45-52 | rho's answer r at its first stop gives the pair (r, n // r), or (n, n) for r = 1; r = 1 leaves n // r = n, and otherwise r is a proper divisor with r * (n // r) = n |

## Left out

- Timing, printing, the `test_primes` benchmark, the prime fixture lists and the `__main__` blocks: these are harness code and data.
- `smooth_rho` and `find_factors` of `smooth/smooth-pollard_memory.py`: they draw a random base and use floating-point `log`, `pow` and `sqrt`.
- The halve-and-retry recovery from `MemoryError` or `OverflowError` in `sieve`: the model has no memory limit.
- `find_factors` of `rho/rho.py`: it uses true division (floating point) and prints.
- Proof that `is_prime` decides primality from 50 on: the correctness of Baillie-PSW is a conjecture, and the signed sentinel shows that even primes can fail. `Baillie.BpswOnPrime` proves only that the stages before the two strong tests never reject a prime.
- Baillie.Gcd: the method's contract ties the result to the function `NumberTheory.Gcd`. The greatest-common-divisor property is the separate lemma `NumberTheory.GcdIsGcd`.
- Baillie.Gcd, Sieve.Gcd, Rho.Gcd: the second argument is a `nat`. Every call site passes a positive modulus, and a negative one is not modelled.
- Baillie.Factor: requires n != 1, because `factor(1)` never ends (0 % p == 0 forever). It also requires p >= 2, the only base the callers use.
- Baillie.Selfridge: requires an odd n >= 3, what `strong_lucas_pseudoprime` passes. For n = 1 the search never stops. Among even n, only n = 0 and a positive n divisible by 5 leave through the gcd exit; n = 10 gives (5, 0, 0). For every other even n, `jacobi` raises. That includes a negative n divisible by 5: with a negative second argument, `gcd` ends on a remainder that is not positive, so gcd(5, -10) = -5 and the `> 1` test fails. Even n are not modelled.
- Baillie.LucasSequence: requires n > 0. The congruences with U, V and Q^ are stated only for the start (1, P, 1, P) with D = P*P - 4Q and an odd n, which is what `strong_lucas_pseudoprime` uses. For an even n, adding n and halving does not halve modulo n: n = 4, u1 = v1 = u2 = v2 = 1, d = -7, q = 2, m = 1 gives (1, 1, 0), while U_3 = V_3 = 3 (mod 4).
- Baillie.StrongPseudoprime: the optional `s` and `d` arguments are not modelled, because the only caller omits them. It requires n >= 2, and the only caller, `baillie_psw`, passes an odd n >= 3. For n = 1 `factor` never ends. For n <= 0, `factor` ends with d the odd part of n - 1 < 0, so d is always negative. `pow(base, d, n)` then raises for n = 0. It also raises for every even n < 0, where 2 has no inverse: n = -4 gives d = -5. For an odd n < 0 it inverts 2 modulo n. That range is not modelled.
- Baillie.StrongLucasPseudoprime: requires an odd n >= 3, the inputs `baillie_psw` passes on to it.
- Rho.Rho: requires n >= 1. For n == 0 `pow` raises, and a negative modulus is not modelled.
- Rho.FindTwoFactors: an odd n must be positive, the same restriction as `Rho.Rho`.
