/** Integer arithmetic shared by the models of `pyzzle/ints.py`: powers, Python's
    `%` operator, the integer square root, divisibility, gcd and Bezout. */
module NumberTheory {

  /** `b ** e` for a natural exponent. */
  function Pow(b: int, e: nat): int
    decreases e
  {
    if e == 0 then 1 else b * Pow(b, e - 1)
  }

  /** `10 ** k`. */
  function Pow10(k: nat): (r: nat)
    ensures r >= 1
    decreases k
  {
    if k == 0 then 1 else 10 * Pow10(k - 1)
  }

  /** Python's `a % m`: floor division remainder, which carries the sign of `m`.
      For `m > 0` it coincides with Dafny's Euclidean `%`. */
  function PyMod(a: int, m: int): (r: int)
    requires m != 0
    ensures m > 0 ==> 0 <= r < m
    ensures m < 0 ==> m < r <= 0
  {
    if m > 0 then a % m else -((-a) % (-m))
  }

  function Abs(m: int): nat
  {
    if m >= 0 then m else -m
  }

  /** `math.isqrt(n)`: the largest `r` with `r * r <= n`. */
  function Isqrt(n: nat): (r: nat)
    ensures r * r <= n < (r + 1) * (r + 1)
    decreases n
  {
    if n == 0 then 0
    else
      var s := Isqrt(n - 1);
      if (s + 1) * (s + 1) <= n then s + 1 else s
  }

  /** `d` divides `n`, for a positive `d`. */
  predicate Divides(d: int, n: int)
  {
    d > 0 && n % d == 0
  }

  /** `p` is prime: at least 2 and without a divisor strictly between 1 and `p`. */
  ghost predicate IsPrime(p: int)
  {
    p >= 2 && forall e :: 2 <= e < p ==> !Divides(e, p)
  }

  // ---------------------------------------------------------------------------
  // Division and remainder

  /** Euclidean division is unique: any decomposition `x == d * q + r` with
      `0 <= r < d` is the one `/` and `%` compute. */
  lemma DivModUnique(x: int, d: int, q: int, r: int)
    requires d > 0 && x == d * q + r && 0 <= r < d
    ensures x / d == q && x % d == r
  {
    var q0, r0 := x / d, x % d;
    assert d * (q0 - q) == r - r0;
    if q0 - q >= 1 {
      MulAtLeast(d, q0 - q);
    } else if q - q0 >= 1 {
      MulAtLeast(d, q - q0);
    }
  }

  lemma MulAtLeast(d: int, k: int)
    requires d > 0 && k >= 1
    ensures d * k >= d
  {
    assert d * k == d + d * (k - 1);
  }

  lemma MulBothAtLeast(a: int, b: int, c: int)
    requires c >= 0 && a >= c && b >= c
    ensures a * b >= c * c
  {
    assert a * b - c * c == a * (b - c) + c * (a - c);
  }

  /** A multiple of `d` is divisible by `d`. */
  lemma MultipleDivides(d: int, k: int)
    requires d > 0
    ensures (d * k) % d == 0 && (d * k) / d == k
  {
    DivModUnique(d * k, d, k, 0);
  }

  /** Adding a multiple of `d` does not change the remainder. */
  lemma ModAddMultiple(x: int, d: int, k: int)
    requires d > 0
    ensures (d * k + x) % d == x % d
  {
    assert x == d * (x / d) + x % d;
    assert d * k + x == d * (k + x / d) + x % d;
    DivModUnique(d * k + x, d, k + x / d, x % d);
  }

  lemma ProductExpand(d: int, qa: int, ra: int, qb: int, rb: int)
    ensures (d * qa + ra) * (d * qb + rb) == d * (qa * d * qb + qa * rb + ra * qb) + ra * rb
  {
    calc {
      (d * qa + ra) * (d * qb + rb);
      d * qa * (d * qb + rb) + ra * (d * qb + rb);
      d * qa * d * qb + d * qa * rb + ra * d * qb + ra * rb;
    }
  }

  /** Remainders of a product depend only on the remainders of the factors. */
  lemma MulMod(a: int, b: int, d: int)
    requires d > 0
    ensures (a * b) % d == ((a % d) * (b % d)) % d
  {
    var qa, ra := a / d, a % d;
    var qb, rb := b / d, b % d;
    var k := qa * d * qb + qa * rb + ra * qb;
    calc {
      (a * b) % d;
      { assert a == d * qa + ra && b == d * qb + rb; }
      ((d * qa + ra) * (d * qb + rb)) % d;
      { ProductExpand(d, qa, ra, qb, rb); }
      (d * k + ra * rb) % d;
      { ModAddMultiple(ra * rb, d, k); }
      (ra * rb) % d;
    }
  }

  /** Congruent factors give congruent products. */
  lemma MulCongruent(a: int, a': int, b: int, b': int, d: int)
    requires d > 0 && a % d == a' % d && b % d == b' % d
    ensures (a * b) % d == (a' * b') % d
  {
    MulMod(a, b, d);
    MulMod(a', b', d);
  }

  /** Congruent bases give congruent powers. */
  lemma {:induction false} PowCongruent(a: int, a': int, e: nat, d: int)
    requires d > 0 && a % d == a' % d
    ensures Pow(a, e) % d == Pow(a', e) % d
    decreases e
  {
    if e > 0 {
      PowCongruent(a, a', e - 1, d);
      MulCongruent(a, a', Pow(a, e - 1), Pow(a', e - 1), d);
    }
  }

  lemma {:induction false} PowAdd(b: int, e1: nat, e2: nat)
    ensures Pow(b, e1 + e2) == Pow(b, e1) * Pow(b, e2)
    decreases e1
  {
    if e1 > 0 {
      PowAdd(b, e1 - 1, e2);
      assert Pow(b, e1 + e2) == b * Pow(b, e1 - 1 + e2);
    }
  }

  /** Squaring the base halves the exponent: the step of square-and-multiply. */
  lemma {:induction false} PowSquare(b: int, k: nat)
    ensures Pow(b, 2 * k) == Pow(b * b, k)
    decreases k
  {
    if k > 0 {
      PowSquare(b, k - 1);
      PowAdd(b, 2, 2 * (k - 1));
      assert Pow(b, 2) == b * b;
    }
  }

  /** `PyMod(a, m)` is congruent to `a` modulo `|m|`. */
  lemma PyModCongruent(a: int, m: int)
    requires m != 0
    ensures PyMod(a, m) % Abs(m) == a % Abs(m)
  {
    if m < 0 {
      var mm := -m;
      var t := (-a) % mm;
      assert -a == mm * ((-a) / mm) + t;
      assert -t == mm * ((-a) / mm) + a;
      ModAddMultiple(a, mm, (-a) / mm);
    }
  }

  /** `PyMod(a, m)` depends only on `a` modulo `|m|`. */
  lemma PyModOfCongruent(a: int, b: int, m: int)
    requires m != 0
    requires a % Abs(m) == b % Abs(m)
    ensures PyMod(a, m) == PyMod(b, m)
  {
    if m < 0 {
      var mm := -m;
      assert a == mm * (a / mm) + a % mm;
      assert b == mm * (b / mm) + b % mm;
      assert -a == mm * (-(a / mm)) + -(a % mm);
      assert -b == mm * (-(b / mm)) + -(b % mm);
      ModAddMultiple(-(a % mm), mm, -(a / mm));
      ModAddMultiple(-(b % mm), mm, -(b / mm));
    }
  }

  /** A value `PyMod` already returned is returned unchanged. */
  lemma PyModIdempotent(a: int, m: int)
    requires m != 0
    ensures PyMod(PyMod(a, m), m) == PyMod(a, m)
  {
    PyModCongruent(a, m);
    PyModOfCongruent(PyMod(a, m), a, m);
  }

  // ---------------------------------------------------------------------------
  // Divisibility

  lemma DividesTransitive(a: int, b: int, c: int)
    requires Divides(a, b) && Divides(b, c)
    ensures Divides(a, c)
  {
    var k := b / a;
    var l := c / b;
    assert b == a * k;
    assert c == b * l;
    assert c == a * (k * l);
    MultipleDivides(a, k * l);
  }

  /** A positive multiple of `d` is at least `d`. */
  lemma DivisorAtMost(d: int, n: int)
    requires Divides(d, n) && n > 0
    ensures d <= n
  {
    var k := n / d;
    assert n == d * k;
    if k >= 1 {
      MulAtLeast(d, k);
    }
  }

  /** `d * e` divides `n` exactly when `e` divides `n / d`, for `d` dividing `n`. */
  lemma DividesQuotient(d: int, e: int, n: int)
    requires Divides(d, n) && e > 0
    ensures Divides(d * e, n) <==> Divides(e, n / d)
  {
    var q := n / d;
    assert n == d * q;
    if Divides(e, q) {
      assert q == e * (q / e);
      assert n == (d * e) * (q / e);
      MultipleDivides(d * e, q / e);
    }
    if Divides(d * e, n) {
      var k := n / (d * e);
      assert n == (d * e) * k;
      assert d * q == d * (e * k);
      MulCancel(d, q, e * k);
      MultipleDivides(e, k);
    }
  }

  lemma MulCancel(d: int, x: int, y: int)
    requires d > 0 && d * x == d * y
    ensures x == y
  {
    MultipleDivides(d, x);
    MultipleDivides(d, y);
  }

  // ---------------------------------------------------------------------------
  // Gcd, Bezout and Euclid's lemma

  function Gcd(a: nat, b: nat): nat
    decreases b
  {
    if b == 0 then a else Gcd(b, a % b)
  }

  /** The gcd divides both arguments. */
  lemma {:induction false} GcdDivides(a: nat, b: nat)
    requires a > 0 || b > 0
    ensures Gcd(a, b) > 0 && Divides(Gcd(a, b), a) && Divides(Gcd(a, b), b)
    decreases b
  {
    if b == 0 {
      MultipleDivides(a, 1);
      MultipleDivides(a, 0);
    } else {
      GcdDivides(b, a % b);
      DividesFromRemainder(Gcd(b, a % b), a, b);
    }
  }

  /** A common divisor of `b` and `a % b` divides `a`. */
  lemma DividesFromRemainder(g: int, a: int, b: int)
    requires b > 0 && Divides(g, b) && Divides(g, a % b)
    ensures Divides(g, a)
  {
    var k, l, q := b / g, (a % b) / g, a / b;
    assert b == g * k && a % b == g * l;
    assert a == b * q + a % b;
    assert a == (g * k) * q + g * l;
    assert a == g * (k * q + l);
    MultipleDivides(g, k * q + l);
  }

  /** Bezout's identity: the gcd is an integer combination of the arguments. */
  lemma {:induction false} Bezout(a: nat, b: nat) returns (x: int, y: int)
    ensures a * x + b * y == Gcd(a, b)
    decreases b
  {
    if b == 0 {
      x, y := 1, 0;
    } else {
      var x', y' := Bezout(b, a % b);
      assert b * x' + (a % b) * y' == Gcd(a, b);
      assert a % b == a - b * (a / b);
      x, y := y', x' - (a / b) * y';
      assert a * x + b * y == b * x' + (a - b * (a / b)) * y';
    }
  }

  /** A prime that does not divide `d` is coprime to it. */
  lemma PrimeCoprime(p: int, d: int) returns (x: int, y: int)
    requires IsPrime(p) && d > 0 && !Divides(p, d)
    ensures p * x + d * y == 1
  {
    GcdDivides(p, d);
    var g := Gcd(p, d);
    DivisorAtMost(g, p);
    assert g == 1;
    x, y := Bezout(p, d);
  }

  /** Gauss's lemma: a divisor of `b * c` coprime to `b` divides `c`. */
  lemma CoprimeDividesFactor(a: int, b: int, c: int, x: int, y: int)
    requires a > 0 && a * x + b * y == 1 && Divides(a, b * c)
    ensures Divides(a, c)
  {
    var k := (b * c) / a;
    assert b * c == a * k;
    assert c == c * (a * x + b * y);
    assert c == a * (c * x + k * y);
    MultipleDivides(a, c * x + k * y);
  }

  /** If a prime `p` divides `n` exactly once (`p * p` does not divide `n`),
      every square dividing `n` divides `n / p`. */
  lemma SquareDividesQuotient(p: int, d: int, n: int)
    requires IsPrime(p) && Divides(p, n) && !Divides(p, n / p) && n > 0
    requires d >= 2 && Divides(d * d, n)
    ensures Divides(d * d, n / p)
  {
    if Divides(p, d) {
      var k := d / p;
      assert d == p * k;
      assert d * d == (p * p) * (k * k);
      MultipleDivides(p * p, k * k);
      DividesTransitive(p * p, d * d, n);
      DividesQuotient(p, p, n);
      assert false;
    }
    var x, y := PrimeCoprime(p, d);
    assert (p * x + d * y) * (p * x + d * y) == 1;
    assert (d * d) * (y * y) + p * (p * x * x + 2 * x * d * y) == 1;
    var q := n / p;
    assert n == p * q;
    CoprimeDividesFactor(d * d, p, q, y * y, p * x * x + 2 * x * d * y);
  }

  /** The least divisor at least 2 of a number at least 2 is prime. */
  lemma {:induction false} LeastFactorIsPrime(d: int, k: int) returns (p: int)
    requires d >= 2 && 2 <= k <= d
    requires forall e :: 2 <= e < k ==> !Divides(e, d)
    ensures IsPrime(p) && Divides(p, d)
    decreases d - k
  {
    if Divides(k, d) {
      p := k;
      forall e | 2 <= e < k
        ensures !Divides(e, k)
      {
        if Divides(e, k) {
          DividesTransitive(e, k, d);
        }
      }
    } else {
      if k == d {
        MultipleDivides(d, 1);
        assert false;
      }
      p := LeastFactorIsPrime(d, k + 1);
    }
  }

}
