/**
 * The matrix routines of main.c over mutable storage. A C matrix
 * `mpz_t m[2][2]` is a 2x2 `array2<int>`; GMP's integers are Dafny `int`s.
 * Every routine is proved against the functions of FibMath.
 */
module FibMatrix {
  import opened FibMath

  /** The storage has exactly two rows and two columns. */
  predicate Is2x2(m: array2<int>)
  {
    m.Length0 == 2 && m.Length1 == 2
  }

  /** The matrix value currently held by `m`. */
  function Contents(m: array2<int>): (r: Mat)
    requires Is2x2(m)
    reads m
    ensures forall i: nat, j: nat | i < 2 && j < 2 :: At(r, i, j) == m[i, j]
  {
    Mat(m[0, 0], m[0, 1], m[1, 0], m[1, 1])
  }

  /** The first `cells` entries of `m`, in row-major order, are those of `v`. */
  ghost predicate Agrees(m: array2<int>, v: Mat, cells: nat)
    requires Is2x2(m)
    reads m
  {
    forall i: nat, j: nat | i < 2 && j < 2 && 2 * i + j < cells :: m[i, j] == At(v, i, j)
  }

  /** Copies every entry of `src` into `dst`, as main.c does after each product. */
  method CopyMatrix(src: array2<int>, dst: array2<int>)
    requires Is2x2(src) && Is2x2(dst)
    modifies dst
    ensures Contents(dst) == old(Contents(src))
  {
    ghost var v := Contents(src);
    for i := 0 to 2
      invariant src != dst ==> Contents(src) == v
      invariant src == dst ==> Agrees(dst, v, 4)
      invariant Agrees(dst, v, 2 * i)
    {
      for j := 0 to 2
        invariant src != dst ==> Contents(src) == v
        invariant src == dst ==> Agrees(dst, v, 4)
        invariant Agrees(dst, v, 2 * i + j)
      {
        dst[i, j] := src[i, j];
      }
    }
  }

  /**
   * matrixMultiply: accumulates a * b into a scratch matrix and copies the
   * scratch matrix into `result` only at the end, so `result` may be `a`, `b`
   * or both.
   */
  method MatrixMultiply(a: array2<int>, b: array2<int>, result: array2<int>)
    requires Is2x2(a) && Is2x2(b) && Is2x2(result)
    modifies result
    ensures Contents(result) == MatMul(old(Contents(a)), old(Contents(b)))
    ensures forall i: nat, j: nat | i < 2 && j < 2 ::
      result[i, j] == old(a[i, 0] * b[0, j] + a[i, 1] * b[1, j])
  {
    ghost var x, y := Contents(a), Contents(b);
    var temp := new int[2, 2];
    for i := 0 to 2
      modifies temp
      invariant Agrees(temp, MatMul(x, y), 2 * i)
    {
      for j := 0 to 2
        modifies temp
        invariant Agrees(temp, MatMul(x, y), 2 * i + j)
      {
        temp[i, j] := 0;
        for k := 0 to 2
          modifies temp
          invariant Agrees(temp, MatMul(x, y), 2 * i + j)
          invariant temp[i, j] == Dot(x, y, i, j, k)
        {
          temp[i, j] := temp[i, j] + a[i, k] * b[k, j];
        }
      }
    }
    CopyMatrix(temp, result);
  }

  /**
   * fibonacci_matrix: n itself for n <= 1 (negative n included); otherwise
   * entry (0, 1) of Q^n, computed by square-and-multiply on a copy of n.
   * `steps` counts the rounds of the loop.
   */
  method FibonacciMatrix(n: int) returns (result: int, ghost steps: nat)
    ensures n <= 1 ==> result == n
    ensures n >= 0 ==> result == Fib(n)
    ensures n >= 2 ==> steps == BitLength(n)
  {
    if n <= 1 {
      return n, 0;
    }
    var base := new int[2, 2];
    var res := new int[2, 2];
    base[0, 0], base[0, 1], base[1, 0], base[1, 1] := 1, 1, 1, 0;
    res[0, 0], res[0, 1], res[1, 0], res[1, 1] := 1, 0, 0, 1;
    var exp := n;
    var temp := new int[2, 2];
    MatMulIdentity(MatPow(Q, n));
    steps := 0;
    while exp > 0
      invariant exp >= 0
      invariant MatMul(Contents(res), MatPow(Contents(base), exp)) == MatPow(Q, n)
      invariant steps + BitLength(exp) == BitLength(n)
      decreases exp
    {
      ghost var r, b := Contents(res), Contents(base);
      if exp % 2 == 1 {
        MatrixMultiply(res, base, temp);
        CopyMatrix(temp, res);
      }
      MatrixMultiply(base, base, temp);
      CopyMatrix(temp, base);
      SquareAndMultiplyStep(r, b, exp);
      exp := exp / 2;
      steps := steps + 1;
    }
    MatMulIdentity(Contents(res));
    QPowIsFib(n);
    result := res[0, 1];
  }
}
