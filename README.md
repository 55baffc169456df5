# Fibonacci by matrix exponentiation

A Dafny model of the computational core of `main.c` from the Fibonacci
sequence calculator: `matrixMultiply`, the 2x2 product of GMP integer
matrices computed through a scratch matrix, and `fibonacci_matrix`, which
returns F(n) as entry (0, 1) of Q^n, with Q = [[1, 1], [1, 0]], computed by
square-and-multiply on a copy of the exponent.

GMP's `mpz_t` is modelled as Dafny's unbounded `int`; GMP's operations are
exact integer arithmetic on it (`mpz_mul` is `*`, `mpz_add` is `+`,
`mpz_odd_p(e)` is `e % 2 == 1`, `mpz_fdiv_q_2exp(e, e, 1)` is `e / 2`, which
for the non-negative exponents of the loop is floor division).

Two modules:

- `FibMath` (`fib_math.dfy`): the mathematics. The value type `Mat`
  ([[a, b], [c, d]]), entry access `At`, the product `MatMul`, the power
  `MatPow`, the Fibonacci numbers `Fib`, the bit length `BitLength`, and the
  lemmas that make the square-and-multiply loop correct.
- `FibMatrix` (`fib_matrix.dfy`): the C routines over mutable storage. A C
  matrix `mpz_t m[2][2]` is an `array2<int>` of 2 rows and 2 columns;
  `Contents` reads the `Mat` it holds. `MatrixMultiply` keeps the source's
  three nested `for` loops into a fresh scratch array and the copy-back into
  `result`; `FibonacciMatrix` keeps the `while` loop over `res`, `base` and
  `exp`, with the loop invariant `res * base^exp == Q^n`.

`fibonacci_matrix` writes its answer into an `mpz_t` out-parameter; the model
returns it instead. The argument `n` is passed by value, so the promise that
the caller's `n` is left alone (the loop works on the copy `exp`,
main.c:69-71) holds by construction. The ghost out-parameter `steps` of
`FibonacciMatrix` counts the rounds of the loop.

`fibonacci_matrix` returns every `n <= 1`, negative ones included,
unchanged (main.c:44-47), and so does `FibonacciMatrix`.

## Model

| member | source | states |
|---|---|---|
| `FibMath.MatMul` | main.c:18-29 | every entry (i, j) of the product is x[i][0]*y[0][j] + x[i][1]*y[1][j] |
| `FibMath.MatMulIdentity` | main.c:64-67 | the identity matrix `res` starts from is neutral on both sides of the product |
| `FibMath.MatMulAssoc` | main.c:84 | the product is associative, so folding `base` into `res` regroups freely |
| `FibMath.MatPowSquare` | main.c:92-100 | squaring the base and halving the exponent agree: (m*m)^k = m^(2k) |
| `FibMath.SquareAndMultiplyStep` | main.c:83-100 | one round of the loop (fold base into the accumulator on an odd exponent, square base, halve exponent) keeps acc * base^e unchanged |
| `FibMath.QPowIsFib` | main.c:103-104 | for k >= 1, Q^k = [[F(k+1), F(k)], [F(k), F(k-1)]], so entry (0, 1) of Q^k is F(k) |
| `FibMath.BitLengthBounds` | main.c:99-100 | the round count BitLength(k) is the number of binary digits of k: 2^(BitLength(k)-1) <= k < 2^BitLength(k) |
| `FibMath.FibKnownValues` | main.c:120 | F(10) = 55 and F(40) = 102334155, the value the program computes for its first input |
| `FibMatrix.CopyMatrix` | main.c:86-90 | every entry of the destination becomes the entry the source held, also when both are the same storage; nothing else changes |
| `FibMatrix.MatrixMultiply` | main.c:8-38 | `result` holds old(a) * old(b), entry by entry old(a[i][0]*b[0][j] + a[i][1]*b[1][j]), also when `result` is `a`, `b` or both; only `result` is modified |
| `FibMatrix.FibonacciMatrix` | main.c:42-115 | for n <= 1 the result is n itself (negative n included); for every n >= 0 it is F(n); for n >= 2 the loop runs BitLength(n) rounds |

## Left out

- `main` (main.c:117-145): parsing the inputs with `mpz_set_str`, printing with `gmp_printf` and `printf`, and timing with `clock()` and a floating-point division are input, output and clock reads. `main` runs n = 40 and n = 1000000 (main.c:120); F(40) = 102334155 is stated in `FibKnownValues`; no value or size of F(1000000) is stated.
- GMP itself: `mpz_t` limbs and the library's algorithms are a foreign library; the model treats every GMP call as exact arithmetic on `int`.
- `mpz_init` and `mpz_clear`: memory management with no effect on values once integers are Dafny `int`s; scratch arrays are simply allocated.
- A doubling algorithm: main.c has none; `FibIndexDoublingIdentity` is a lemma about `Fib`, used only to reach F(40).
