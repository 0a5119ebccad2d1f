/** Figurate numbers: `triangle_number`, `polygonal_numbers`, and the
    generators `triangle_numbers_gen`, `pentagonal_numbers_gen`,
    `hexagonal_numbers_gen` and `fibonacci_gen`. A generator is modelled by the
    value it yields `k`-th (`k >= 1`). */
module Figurate {

  /** `0 + 1 + ... + n`. */
  function SumTo(n: nat): nat
    decreases n
  {
    if n == 0 then 0 else SumTo(n - 1) + n
  }

  /** `triangle_number(n)`: `n * (n + 1) // 2`; the product is always even, so
      the floor division is exact. */
  function TriangleNumber(n: int): (r: int)
    ensures 2 * r == n * (n + 1)
  {
    ProductOfConsecutiveIsEven(n);
    n * (n + 1) / 2
  }

  lemma ProductOfConsecutiveIsEven(n: int)
    ensures (n * (n + 1)) % 2 == 0
  {
    var h := n / 2;
    if n % 2 == 0 {
      assert n * (n + 1) == 2 * (h * (n + 1));
    } else {
      assert n == 2 * h + 1;
      assert n * (n + 1) == 2 * (n * (h + 1));
    }
  }

  /** The `n`-th triangle number is the sum of the first `n` positive integers. */
  lemma {:induction false} TriangleIsSum(n: nat)
    ensures TriangleNumber(n) == SumTo(n)
    decreases n
  {
    if n > 0 {
      TriangleIsSum(n - 1);
      assert 2 * TriangleNumber(n - 1) == (n - 1) * n;
    }
  }

  /** `polygonal_numbers(N, n)`: `((N - 2) * n ** 2 + (4 - N) * n) // 2`; the
      numerator is always even, so the floor division is exact. */
  function PolygonalNumber(N: int, n: int): (r: int)
    ensures 2 * r == (N - 2) * n * n + (4 - N) * n
  {
    PolygonalNumeratorIsEven(N, n);
    ((N - 2) * n * n + (4 - N) * n) / 2
  }

  lemma PolygonalNumeratorIsEven(N: int, n: int)
    ensures ((N - 2) * n * n + (4 - N) * n) % 2 == 0
  {
    ProductOfConsecutiveIsEven(n - 1);
    var k := (n - 1) * n / 2;
    assert (N - 2) * n * n + (4 - N) * n == N * ((n - 1) * n) + 2 * (2 * n - n * n);
    assert (N - 2) * n * n + (4 - N) * n == 2 * (N * k + 2 * n - n * n);
  }

  /** Triangle and square numbers are the 3- and 4-gonal numbers. */
  lemma PolygonalTriangleAndSquare(n: int)
    ensures PolygonalNumber(3, n) == TriangleNumber(n)
    ensures PolygonalNumber(4, n) == n * n
  {
  }

  /** One more side adds the previous triangle number. */
  lemma PolygonalAddSide(N: int, n: int)
    ensures PolygonalNumber(N + 1, n) == PolygonalNumber(N, n) + TriangleNumber(n - 1)
  {
    assert 2 * TriangleNumber(n - 1) == (n - 1) * n;
  }

  /** Consecutive `N`-gonal numbers differ by `(N - 2) * n + 1`. */
  lemma PolygonalStep(N: int, n: int)
    ensures PolygonalNumber(N, n + 1) == PolygonalNumber(N, n) + (N - 2) * n + 1
  {
    assert (N - 2) * (n + 1) * (n + 1) == (N - 2) * n * n + 2 * (N - 2) * n + (N - 2);
  }

  /** Every hexagonal number is a triangle number: `H(n) == T(2n - 1)`. */
  lemma HexagonalIsTriangle(n: int)
    ensures PolygonalNumber(6, n) == TriangleNumber(2 * n - 1)
  {
  }

  /** The `k`-th value of `triangle_numbers_gen(t, n)`: each round adds the next
      `n` to `t`. */
  method TriangleNumbersGen(t0: int, n0: int, k: int) returns (v: int)
    requires k >= 1
    ensures v == t0 + k * n0 + TriangleNumber(k)
  {
    var t, n := t0, n0;
    var j := 0;
    while j < k
      invariant 0 <= j <= k
      invariant n == n0 + j
      invariant t == t0 + j * n0 + TriangleNumber(j)
    {
      n := n + 1;
      t := t + n;
      j := j + 1;
      assert 2 * TriangleNumber(j) == 2 * TriangleNumber(j - 1) + 2 * j;
    }
    v := t;
  }

  /** The formula `pentagonal_numbers_gen` uses is the 5-gonal number. */
  lemma PentagonalClosedForm(n: int)
    ensures n * (3 * n - 1) / 2 == PolygonalNumber(5, n)
  {
    var r := PolygonalNumber(5, n);
    assert n * (3 * n - 1) == 2 * r;
  }

  /** The `k`-th value of `pentagonal_numbers_gen(n)`: `m * (3m - 1) // 2` for
      `m = n + k - 1`. */
  method PentagonalNumbersGen(n0: int, k: int) returns (v: int)
    requires k >= 1
    ensures v == PolygonalNumber(5, n0 + k - 1)
  {
    var n := n0;
    var j := 0;
    v := 0;
    while j < k
      invariant 0 <= j <= k
      invariant n == n0 + j
      invariant j >= 1 ==> v == PolygonalNumber(5, n - 1)
    {
      PentagonalClosedForm(n);
      v := n * (3 * n - 1) / 2;
      n := n + 1;
      j := j + 1;
    }
  }

  /** The `k`-th value of `hexagonal_numbers_gen(n)`: `m * (2m - 1)` for
      `m = n + k - 1`. */
  method HexagonalNumbersGen(n0: int, k: int) returns (v: int)
    requires k >= 1
    ensures v == PolygonalNumber(6, n0 + k - 1)
  {
    var n := n0;
    var j := 0;
    v := 0;
    while j < k
      invariant 0 <= j <= k
      invariant n == n0 + j
      invariant j >= 1 ==> v == PolygonalNumber(6, n - 1)
    {
      v := n * (2 * n - 1);
      n := n + 1;
      j := j + 1;
    }
  }

  /** The Fibonacci numbers `0, 1, 1, 2, 3, 5, ...`. */
  function Fib(k: nat): nat
    decreases k
  {
    if k < 2 then k else Fib(k - 2) + Fib(k - 1)
  }

  /** The `k`-th value of `fibonacci_gen(a, b)`: each round replaces `a, b` by
      `b, a + b` and yields the new `a`. */
  method FibonacciGen(a0: int, b0: int, k: int) returns (v: int)
    requires k >= 1
    ensures v == a0 * Fib(k - 1) + b0 * Fib(k)
  {
    var a, b := a0, b0;
    var j := 0;
    while j < k
      invariant 0 <= j <= k
      invariant j == 0 ==> a == a0 && b == b0
      invariant j >= 1 ==> a == a0 * Fib(j - 1) + b0 * Fib(j)
      invariant j >= 1 ==> b == a0 * Fib(j) + b0 * Fib(j + 1)
    {
      if j >= 1 {
        FibCombination(a0, b0, j);
      } else {
        assert Fib(2) == Fib(0) + Fib(1);
      }
      a, b := b, a + b;
      j := j + 1;
    }
    v := a;
  }

  /** Adding two consecutive combinations of Fibonacci numbers gives the next. */
  lemma FibCombination(a0: int, b0: int, j: nat)
    requires j >= 1
    ensures (a0 * Fib(j - 1) + b0 * Fib(j)) + (a0 * Fib(j) + b0 * Fib(j + 1))
         == a0 * Fib(j + 1) + b0 * Fib(j + 2)
  {
    var f0, f1, f2, f3 := Fib(j - 1), Fib(j), Fib(j + 1), Fib(j + 2);
    assert f2 == f0 + f1 && f3 == f1 + f2;
    assert a0 * f2 == a0 * f0 + a0 * f1;
    assert b0 * f3 == b0 * f1 + b0 * f2;
  }

}
