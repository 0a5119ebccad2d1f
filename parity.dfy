/** `is_odd`, `is_even` and `is_square`. */
module Parity {
  import opened Wrappers
  import opened NumberTheory

  /** `is_odd(n)`: `n & 1`, the lowest bit of `n` in two's complement, which for
      every integer (negative ones included) is the non-negative remainder
      modulo 2. */
  function IsOdd(n: int): (r: int)
    ensures r == 0 || r == 1
    ensures (n - r) % 2 == 0
  {
    var q := n / 2;
    assert n == 2 * q + n % 2;
    n % 2
  }

  /** `is_even(n)`: `not n & 1`, true exactly for the multiples of 2. */
  function IsEven(n: int): (r: bool)
    ensures r <==> n % 2 == 0
  {
    IsOdd(n) == 0
  }

  /** Exactly one of `is_odd` and `is_even` holds, and parity flips from `n` to
      `n + 1`. */
  lemma ParityAlternates(n: int)
    ensures IsEven(n) <==> IsOdd(n) != 1
    ensures IsEven(n) <==> !IsEven(n + 1)
  {
    var q := n / 2;
    assert n == 2 * q + n % 2;
    if n % 2 == 0 {
      DivModUnique(n + 1, 2, q, 1);
    } else {
      DivModUnique(n + 1, 2, q + 1, 0);
    }
  }

  /** `is_square(n)`: `n == math.isqrt(n) ** 2`; `math.isqrt` raises ValueError
      for a negative `n`. */
  function IsSquare(n: int): (r: Option<bool>)
    ensures r.Some? <==> n >= 0
  {
    if n < 0 then None else Some(n == Isqrt(n) * Isqrt(n))
  }

  function Square(x: int): int
  {
    x * x
  }

  /** `is_square(n)` answers True exactly for the squares of integers. */
  lemma IsSquareMeaning(n: int)
    requires n >= 0
    ensures IsSquare(n) == Some(exists x :: Square(x) == n)
  {
    var r := Isqrt(n);
    if exists x :: Square(x) == n {
      var x :| Square(x) == n;
      var a := if x >= 0 then x else -x;
      assert a * a == n;
      if a < r {
        SquareLess(a, r);
      } else if r + 1 < a {
        SquareLess(r + 1, a);
      }
    } else {
      assert Square(r) != n;
    }
  }

  lemma SquareLess(a: nat, b: nat)
    requires a < b
    ensures a * a < b * b
  {
    assert b * b - a * a == (b - a) * (b + a);
  }

}
