/** `modular_pow(base, exponent, m)`: square-and-multiply exponentiation modulo
    `m`, with Python's `%` (the remainder takes the sign of `m`). */
module ModPow {
  import opened Wrappers
  import opened NumberTheory

  /** The loop of `modular_pow`: while `e > 0`, multiplies `result` by `b` when
      `e` is odd, halves `e` (`e >> 1`) and squares `b`, reducing modulo `m`
      each time. */
  method SquareAndMultiply(result0: int, b0: int, e0: int, m: int) returns (result: int)
    requires m != 0
    ensures e0 <= 0 ==> result == result0
    ensures e0 > 0 ==> result == PyMod(result, m)
    ensures e0 > 0 ==> result % Abs(m) == (result0 * Pow(b0, e0)) % Abs(m)
  {
    result := result0;
    var b, e := b0, e0;
    while e > 0
      invariant e0 <= 0 ==> e == e0 && result == result0
      invariant e0 > 0 ==> 0 <= e && (result * Pow(b, e)) % Abs(m) == (result0 * Pow(b0, e0)) % Abs(m)
      invariant e0 > 0 && e == 0 ==> result == PyMod(result, m)
      decreases e
    {
      ghost var r1, b1, e1 := result, b, e;
      SquareAndMultiplyStep(r1, b1, e1, m);
      if e % 2 == 1 {
        result := PyMod(result * b, m);
        PyModIdempotent(r1 * b1, m);
      } else {
        assert e1 / 2 > 0;
      }
      e := e / 2;
      b := PyMod(b * b, m);
      assert (result * Pow(b, e)) % Abs(m) == (r1 * Pow(b1, e1)) % Abs(m);
    }
  }

  /** One round of the loop keeps `result * b ** e` fixed modulo `|m|`. */
  lemma SquareAndMultiplyStep(r: int, b: int, e: nat, m: int)
    requires m != 0 && e > 0
    ensures var r' := if e % 2 == 1 then PyMod(r * b, m) else r;
      (r' * Pow(PyMod(b * b, m), e / 2)) % Abs(m) == (r * Pow(b, e)) % Abs(m)
  {
    var mm := Abs(m);
    var b' := PyMod(b * b, m);
    PyModCongruent(b * b, m);
    PowCongruent(b', b * b, e / 2, mm);
    PowSquare(b, e / 2);
    if e % 2 == 1 {
      PyModCongruent(r * b, m);
      assert Pow(b, e) == b * Pow(b, 2 * (e / 2));
      assert r * Pow(b, e) == (r * b) * Pow(b * b, e / 2);
      MulCongruent(PyMod(r * b, m), r * b, Pow(b', e / 2), Pow(b * b, e / 2), mm);
    } else {
      assert Pow(b, e) == Pow(b, 2 * (e / 2));
      MulCongruent(r, r, Pow(b', e / 2), Pow(b * b, e / 2), mm);
    }
  }

  /** What `modular_pow` returns: ZeroDivisionError for `m == 0` (`base % m`),
      0 for `m == 1`, the untouched start value 1 when the loop does not run,
      and otherwise the reduced power. */
  function ModularPowResult(base: int, exponent: int, m: int): Option<int>
  {
    if m == 0 then None
    else if m == 1 then Some(0)
    else if exponent <= 0 then Some(1)
    else Some(PyMod(Pow(base, exponent), m))
  }

  /** `modular_pow(base, exponent, m)` as written. */
  method ModularPow(base: int, exponent: int, m: int) returns (r: Option<int>)
    ensures r == ModularPowResult(base, exponent, m)
  {
    if m == 1 {
      return Some(0);
    }
    if m == 0 {
      return None;
    }
    var b := PyMod(base, m);
    var result := SquareAndMultiply(1, b, exponent, m);
    if exponent > 0 {
      PowModResult(base, b, exponent, m, result);
    }
    r := Some(result);
  }

  /** `modular_pow` computes `base ** exponent % m` for a positive exponent, and
      for exponent 0 when `m` is positive. */
  lemma ModularPowIsPowMod(base: int, exponent: int, m: int)
    requires m != 0 && (exponent > 0 || (exponent == 0 && m > 0))
    ensures ModularPowResult(base, exponent, m) == Some(PyMod(Pow(base, exponent), m))
  {
    if m == 1 {
      assert PyMod(Pow(base, exponent), m) == 0;
    } else if exponent == 0 {
      assert Pow(base, 0) == 1;
      DivModUnique(1, m, 0, 1);
    }
  }

  /** A loop result congruent to `(base % m) ** e` that `PyMod` leaves alone is
      `base ** e % m`. */
  lemma PowModResult(base: int, b: int, e: nat, m: int, result: int)
    requires m != 0 && b == PyMod(base, m)
    requires result == PyMod(result, m)
    requires result % Abs(m) == (1 * Pow(b, e)) % Abs(m)
    ensures result == PyMod(Pow(base, e), m)
  {
    PyModCongruent(base, m);
    PowCongruent(b, base, e, Abs(m));
    PyModOfCongruent(result, Pow(base, e), m);
  }

  /** `modular_pow` with the start value reduced as well (`result = 1 % m`):
      `base ** exponent % m` for every non-negative exponent and every non-zero
      modulus, the `m == 1` special case included. */
  method ModularPowReduced(base: int, exponent: int, m: int) returns (r: Option<int>)
    ensures m == 0 ==> r == None
    ensures m != 0 && exponent >= 0 ==> r == Some(PyMod(Pow(base, exponent), m))
    ensures m != 0 && exponent < 0 ==> r == Some(PyMod(1, m))
  {
    if m == 0 {
      return None;
    }
    var b := PyMod(base, m);
    var start := PyMod(1, m);
    var result := SquareAndMultiply(start, b, exponent, m);
    if exponent > 0 {
      PyModCongruent(1, m);
      MulCongruent(start, 1, Pow(b, exponent), Pow(b, exponent), Abs(m));
      PowModResult(base, b, exponent, m, result);
    }
    r := Some(result);
  }

  /** With exponent 0 and modulus -1, `modular_pow` returns 1 where
      `base ** exponent % m` is 0: only `m == 1` is special-cased. */
  lemma ModularPowNegativeModulus(base: int)
    ensures ModularPowResult(base, 0, -1) == Some(1)
    ensures PyMod(Pow(base, 0), -1) == 0
  {
  }

}
