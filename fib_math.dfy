/**
 * The mathematics behind the matrix Fibonacci routine: 2x2 integer matrices,
 * their product and powers, the Fibonacci numbers, and the facts that make
 * square-and-multiply exponentiation of Q = [[1, 1], [1, 0]] compute F(n).
 * GMP integers are unbounded, so every entry is a Dafny `int`.
 */
module FibMath {

  /** The 2x2 matrix [[a, b], [c, d]]. */
  datatype Mat = Mat(a: int, b: int, c: int, d: int)

  /** Entry (i, j) of `m`, with rows and columns numbered from 0. */
  function At(m: Mat, i: nat, j: nat): (e: int)
    requires i < 2 && j < 2
  {
    if i == 0 then (if j == 0 then m.a else m.b)
    else (if j == 0 then m.c else m.d)
  }

  const Identity: Mat := Mat(1, 0, 0, 1)

  /** The Fibonacci matrix [[1, 1], [1, 0]]. */
  const Q: Mat := Mat(1, 1, 1, 0)

  /** The first `k` terms of row `i` of `x` times column `j` of `y`. */
  function Dot(x: Mat, y: Mat, i: nat, j: nat, k: nat): (sum: int)
    requires i < 2 && j < 2 && k <= 2
  {
    if k == 0 then 0 else Dot(x, y, i, j, k - 1) + At(x, i, k - 1) * At(y, k - 1, j)
  }

  /**
   * p * q + r * s: one entry of a 2x2 product. A function of its own rather
   * than written out in MatMul, because products of constant matrices (such
   * as Q * Identity) written out inline make the solver run far longer.
   */
  function Cell(p: int, q: int, r: int, s: int): (e: int)
  {
    p * q + r * s
  }

  /** The matrix product x * y. */
  function MatMul(x: Mat, y: Mat): (r: Mat)
    ensures forall i: nat, j: nat | i < 2 && j < 2 ::
      At(r, i, j) == At(x, i, 0) * At(y, 0, j) + At(x, i, 1) * At(y, 1, j)
  {
    Mat(Cell(x.a, y.a, x.b, y.c), Cell(x.a, y.b, x.b, y.d),
        Cell(x.c, y.a, x.d, y.c), Cell(x.c, y.b, x.d, y.d))
  }

  /** m raised to the k-th power, with m^0 = Identity. */
  function MatPow(m: Mat, k: nat): (p: Mat)
  {
    if k == 0 then Identity else MatMul(m, MatPow(m, k - 1))
  }

  /** The Fibonacci numbers: F(0) = 0, F(1) = 1, F(n) = F(n-1) + F(n-2). */
  function Fib(n: nat): (f: nat)
  {
    if n < 2 then n else Fib(n - 1) + Fib(n - 2)
  }

  /** 2^k. */
  function Pow2(k: nat): (p: nat)
  {
    if k == 0 then 1 else 2 * Pow2(k - 1)
  }

  /** The number of binary digits of k (0 for k = 0). */
  function BitLength(k: nat): (len: nat)
  {
    if k == 0 then 0 else 1 + BitLength(k / 2)
  }

  lemma MatMulIdentity(m: Mat)
    ensures MatMul(Identity, m) == m && MatMul(m, Identity) == m
  {
  }

  lemma MatMulAssoc(x: Mat, y: Mat, z: Mat)
    ensures MatMul(MatMul(x, y), z) == MatMul(x, MatMul(y, z))
  {
  }

  /** Powers of one matrix add their exponents: m^(i+j) = m^i * m^j (for FibKnownValues). */
  lemma {:induction false} MatPowAdd(m: Mat, i: nat, j: nat)
    ensures MatPow(m, i + j) == MatMul(MatPow(m, i), MatPow(m, j))
  {
    if i == 0 {
      MatMulIdentity(MatPow(m, j));
    } else {
      MatPowAdd(m, i - 1, j);
      MatMulAssoc(m, MatPow(m, i - 1), MatPow(m, j));
    }
  }

  /** Squaring the base doubles the exponent: (m * m)^k = m^(2k). */
  lemma {:induction false} MatPowSquare(m: Mat, k: nat)
    ensures MatPow(MatMul(m, m), k) == MatPow(m, 2 * k)
  {
    if k > 0 {
      calc {
        MatPow(MatMul(m, m), k);
        MatMul(MatMul(m, m), MatPow(MatMul(m, m), k - 1));
        { MatPowSquare(m, k - 1); }
        MatMul(MatMul(m, m), MatPow(m, 2 * k - 2));
        { MatMulAssoc(m, m, MatPow(m, 2 * k - 2)); }
        MatMul(m, MatMul(m, MatPow(m, 2 * k - 2)));
        MatPow(m, 2 * k);
      }
    }
  }

  /**
   * One round of square-and-multiply keeps acc * base^e unchanged: fold the
   * base into the accumulator when e is odd, square the base, halve e.
   */
  lemma SquareAndMultiplyStep(acc: Mat, base: Mat, e: nat)
    ensures MatMul(if e % 2 == 1 then MatMul(acc, base) else acc,
                   MatPow(MatMul(base, base), e / 2))
         == MatMul(acc, MatPow(base, e))
  {
    MatPowSquare(base, e / 2);
    if e % 2 == 1 {
      assert MatPow(base, e) == MatMul(base, MatPow(base, 2 * (e / 2)));
      MatMulAssoc(acc, base, MatPow(base, 2 * (e / 2)));
    } else {
      assert 2 * (e / 2) == e;
    }
  }

  /** Q^k = [[F(k+1), F(k)], [F(k), F(k-1)]] for k >= 1. */
  lemma {:induction false} QPowIsFib(k: nat)
    requires k >= 1
    ensures MatPow(Q, k) == Mat(Fib(k + 1), Fib(k), Fib(k), Fib(k - 1))
  {
    if k > 1 {
      QPowIsFib(k - 1);
    } else {
      assert MatPow(Q, k - 1) == Identity;
    }
  }

  /** k has BitLength(k) binary digits: 2^(BitLength(k)-1) <= k < 2^BitLength(k). */
  lemma {:induction false} BitLengthBounds(k: nat)
    requires k >= 1
    ensures BitLength(k) >= 1
    ensures Pow2(BitLength(k) - 1) <= k < Pow2(BitLength(k))
  {
    if k > 1 {
      BitLengthBounds(k / 2);
    }
  }

  /** The square of a matrix of three consecutive Fibonacci-like values (for FibKnownValues). */
  lemma SquareOfConsecutive(f0: int, f1: int, f2: int)
    requires f2 == f1 + f0
    ensures MatMul(Mat(f2, f1, f1, f0), Mat(f2, f1, f1, f0)).a == f2 * f2 + f1 * f1
    ensures MatMul(Mat(f2, f1, f1, f0), Mat(f2, f1, f1, f0)).b == f1 * (2 * f2 - f1)
  {
    assert f1 * f0 == f1 * f2 - f1 * f1;
  }

  /**
   * The index-doubling identities of the sequence: Q^(2k) = Q^k * Q^k read off
   * entry by entry gives F(2k) = F(k) * (2 F(k+1) - F(k)) and
   * F(2k+1) = F(k)^2 + F(k+1)^2. Used only to reach F(40) in FibKnownValues;
   * main.c computes Fibonacci numbers by the matrix loop alone.
   */
  lemma FibIndexDoublingIdentity(k: nat)
    ensures Fib(2 * k) == Fib(k) * (2 * Fib(k + 1) - Fib(k))
    ensures Fib(2 * k + 1) == Fib(k) * Fib(k) + Fib(k + 1) * Fib(k + 1)
  {
    if k > 0 {
      var f0, f1, f2 := Fib(k - 1), Fib(k), Fib(k + 1);
      var p, s := MatPow(Q, k), MatPow(Q, 2 * k);
      QPowIsFib(k);
      assert p == Mat(f2, f1, f1, f0);
      MatPowAdd(Q, k, k);
      assert s == MatMul(p, p);
      QPowIsFib(2 * k);
      assert s.a == Fib(2 * k + 1) && s.b == Fib(2 * k);
      SquareOfConsecutive(f0, f1, f2);
      assert Fib(2 * k) == f1 * (2 * f2 - f1);
    } else {
      assert Fib(2 * k) == 0 && Fib(2 * k + 1) == 1;
    }
  }

  /**
   * Known values of the sequence, among them the index main.c runs, obtained
   * by doubling from F(10) and F(11).
   */
  lemma FibKnownValues()
    ensures Fib(10) == 55
    ensures Fib(40) == 102334155
  {
    assert Fib(10) == 55 && Fib(11) == 89;
    var k := 10;
    FibIndexDoublingIdentity(k);
    assert Fib(2 * k) == 6765 && Fib(2 * k + 1) == 10946;
    k := 20;
    FibIndexDoublingIdentity(k);
  }
}
