/** Square-free numbers: `is_squarefree` by trial division, the brute-force
    listing and count below a bound, and the trivial-bound branch of the fast
    counter. */
module Squarefree {
  import opened Wrappers
  import opened NumberTheory
  import opened Collections

  /** No square `d * d` with `d >= 2` divides `n`. */
  ghost predicate Squarefree(n: int)
  {
    forall d :: d >= 2 ==> !Divides(d * d, n)
  }

  /** The two readings of square-free agree: no square of a number `d >= 2`
      divides `n` exactly when no square of a prime does. */
  lemma SquarefreeByPrimes(n: int)
    ensures Squarefree(n) <==> forall p :: IsPrime(p) ==> !Divides(p * p, n)
  {
    if !Squarefree(n) {
      var d :| d >= 2 && Divides(d * d, n);
      var p := LeastFactorIsPrime(d, 2);
      var k := d / p;
      assert d == p * k;
      assert d * d == (p * p) * (k * k);
      MultipleDivides(p * p, k * k);
      DividesTransitive(p * p, d * d, n);
    }
  }

  // ---------------------------------------------------------------------------
  // is_squarefree

  /** `is_squarefree(n)`: for each `p` in `2..isqrt(n)` divides `n` by `p` while
      `p` divides it, and answers False as soon as `p` has divided it twice. For a
      negative `n`, `n ** 0.5` is complex and `int` raises TypeError; 0 has an
      empty range and is reported square-free. */
  method IsSquarefree(n0: int) returns (r: Option<bool>)
    ensures n0 < 0 <==> r == None
    ensures n0 == 0 ==> r == Some(true)
    ensures n0 >= 1 ==> r == Some(Squarefree(n0))
  {
    if n0 < 0 {
      return None;
    }
    var bound := 1 + Isqrt(n0);
    var n := n0;
    var p := 2;
    while p < bound
      invariant p == 2 || 2 < p <= bound
      invariant n0 >= 1 ==> 1 <= n && Divides(n, n0)
      invariant n0 >= 1 ==> forall e :: 2 <= e < p ==> !Divides(e, n)
      invariant n0 >= 1 ==> forall d :: d >= 2 && Divides(d * d, n0) ==> Divides(d * d, n)
    {
      assert n0 >= 4;
      var m0 := n;
      var twice, c;
      n, c, twice := StripFactor(n, p);
      if twice {
        DividesTransitive(p * p, m0, n0);
        return Some(false);
      }
      DividesTransitive(n, m0, n0);
      RemovedOnce(n0, m0, n, p, c);
      p := p + 1;
    }
    if n0 >= 1 {
      NoSquareLeft(n0, n, p);
    }
    r := Some(true);
  }

  /** The inner loop of `is_squarefree`: divides `n` by `p` while `p` divides
      it, counting the divisions in `c`, and stops when the count reaches 2. */
  method StripFactor(n0: int, p: int) returns (n: int, c: int, twice: bool)
    requires p >= 2 && n0 >= 1
    ensures twice ==> Divides(p * p, n0)
    ensures !twice ==> 0 <= c <= 1 && 1 <= n && n % p != 0 && Divides(n, n0)
    ensures !twice && c == 0 ==> n == n0
    ensures !twice && c == 1 ==> n * p == n0
  {
    n, c := n0, 0;
    while n % p == 0
      invariant 0 <= c <= 1
      invariant c == 0 ==> n == n0
      invariant c == 1 ==> n * p == n0
      invariant 1 <= n && Divides(n, n0)
      decreases n
    {
      ghost var before := n;
      n, c := n / p, c + 1;
      ExactQuotient(before, p);
      DividesTransitive(n, before, n0);
      if c == 2 {
        SquareFound(n0, p, n);
        return n, c, true;
      }
    }
    twice := false;
  }

  /** Dividing `n` by a factor `p` leaves a positive divisor of whatever `n`
      divides. */
  lemma ExactQuotient(n: int, p: int)
    requires p >= 2 && n >= 1 && n % p == 0
    ensures n / p >= 1 && n == (n / p) * p && Divides(n / p, n)
  {
    DivisorAtMost(p, n);
    var q := n / p;
    assert n == p * q;
    MultipleDivides(q, p);
  }

  /** The second division by `p` shows `p * p` dividing `n0`. */
  lemma SquareFound(n0: int, p: int, q: int)
    requires p >= 2 && q >= 1 && (q * p) * p == n0
    ensures Divides(p * p, n0)
  {
    assert n0 == (p * p) * q;
    MultipleDivides(p * p, q);
  }

  /** After `p` is divided out (at most once), `n` has no factor in `2..p` and
      still holds every square that divides `n0`. */
  lemma RemovedOnce(n0: int, m0: int, n: int, p: int, c: int)
    requires p >= 2 && 1 <= n && n % p != 0 && 0 <= c <= 1
    requires c == 0 ==> n == m0
    requires c == 1 ==> n * p == m0
    requires 1 <= m0 && Divides(n, m0)
    requires forall e :: 2 <= e < p ==> !Divides(e, m0)
    requires forall d :: d >= 2 && Divides(d * d, n0) ==> Divides(d * d, m0)
    ensures forall e :: 2 <= e < p + 1 ==> !Divides(e, n)
    ensures forall d :: d >= 2 && Divides(d * d, n0) ==> Divides(d * d, n)
  {
    if c == 1 {
      assert m0 == n * p == p * n;
      MultipleDivides(n, p);
      NoSmallFactorOfDivisor(m0, n, p);
      MultipleDivides(p, n);
      PrimeWithoutSmallerFactor(m0, p);
      forall d | d >= 2 && Divides(d * d, n0)
        ensures Divides(d * d, n)
      {
        SquareDividesQuotient(p, d, m0);
      }
    }
  }

  /** A divisor `n` of `m0` has no factor `m0` lacks, nor `p` when `p` leaves a
      remainder. */
  lemma NoSmallFactorOfDivisor(m0: int, n: int, p: int)
    requires p >= 2 && Divides(n, m0) && n % p != 0
    requires forall e :: 2 <= e < p ==> !Divides(e, m0)
    ensures forall e :: 2 <= e < p + 1 ==> !Divides(e, n)
  {
    forall e | 2 <= e < p + 1
      ensures !Divides(e, n)
    {
      if e < p && Divides(e, n) {
        DividesTransitive(e, n, m0);
      }
    }
  }

  /** The least factor `p >= 2` of `m0` is prime. */
  lemma PrimeWithoutSmallerFactor(m0: int, p: int)
    requires p >= 2 && Divides(p, m0)
    requires forall e :: 2 <= e < p ==> !Divides(e, m0)
    ensures IsPrime(p)
  {
    forall e | 2 <= e < p
      ensures !Divides(e, p)
    {
      if Divides(e, p) {
        DividesTransitive(e, p, m0);
      }
    }
  }

  /** Once `p` is past the square root of `n0`, no square is left to divide
      `n`, so none divides `n0`. */
  lemma NoSquareLeft(n0: int, n: int, p: int)
    requires n0 >= 1 && 1 <= n && Divides(n, n0) && p >= Isqrt(n0) + 1
    requires forall e :: 2 <= e < p ==> !Divides(e, n)
    requires forall d :: d >= 2 && Divides(d * d, n0) ==> Divides(d * d, n)
    ensures Squarefree(n0)
  {
    forall d | d >= 2
      ensures !Divides(d * d, n0)
    {
      if Divides(d * d, n0) {
        assert Divides(d * d, n);
        MultipleDivides(d, d);
        DividesTransitive(d, d * d, n);
        assert d >= p;
        MulBothAtLeast(d, d, Isqrt(n0) + 1);
        DivisorAtMost(d * d, n);
        DivisorAtMost(n, n0);
        assert false;
      }
    }
  }

  // ---------------------------------------------------------------------------
  // The brute-force count

  /** The square-free numbers in `1..n - 1`, in increasing order. */
  ghost function SquarefreeBelow(n: int): (xs: seq<int>)
    ensures forall x :: x in xs <==> 1 <= x < n && Squarefree(x)
    ensures forall i :: 0 <= i < |xs| ==> xs[i] < n
    ensures forall i, j :: 0 <= i < j < |xs| ==> xs[i] < xs[j]
    decreases n
  {
    if n <= 1 then []
    else SquarefreeBelow(n - 1) + (if Squarefree(n - 1) then [n - 1] else [])
  }

  /** `list(squarefree_numbers_below_n(n))`: the values the generator yields for
      `i` in `1..n - 1`. */
  method SquarefreeNumbersBelow(n: int) returns (xs: seq<int>)
    ensures xs == SquarefreeBelow(n)
  {
    xs := [];
    var i := 1;
    while i < n
      invariant i == 1 || 1 < i <= n
      invariant xs == SquarefreeBelow(i)
    {
      var b := IsSquarefree(i);
      if b.value {
        xs := xs + [i];
      }
      i := i + 1;
    }
  }

  /** `count_squarefree_numbers_below_n(n)`. */
  method CountSquarefreeNumbersBelow(n: int) returns (c: nat)
    ensures c == |SquarefreeBelow(n)|
  {
    var xs := SquarefreeNumbersBelow(n);
    c := |xs|;
  }

  /** The count is the number of square-free integers in `[1, n)`. */
  lemma CountIsCardinality(n: int)
    ensures |SquarefreeBelow(n)| == |set x | 1 <= x < n && Squarefree(x)|
  {
    var xs := SquarefreeBelow(n);
    ElementsCard(xs);
    assert Elements(xs) == set x | 1 <= x < n && Squarefree(x);
  }

  /** At most `n - 1` numbers below `n` are counted. */
  lemma {:induction false} CountBound(n: int)
    ensures |SquarefreeBelow(n)| <= if n >= 1 then n - 1 else 0
    decreases n
  {
    if n > 1 {
      CountBound(n - 1);
    }
  }

  /** The count does not decrease as the bound grows. */
  lemma {:induction false} CountMonotone(n1: int, n2: int)
    requires n1 <= n2
    ensures |SquarefreeBelow(n1)| <= |SquarefreeBelow(n2)|
    decreases n2 - n1
  {
    if n1 < n2 {
      CountMonotone(n1, n2 - 1);
    }
  }

  /** 1 is square-free: no square `d * d >= 4` divides it. */
  lemma OneIsSquarefree()
    ensures Squarefree(1)
  {
    forall d | d >= 2
      ensures !Divides(d * d, 1)
    {
      MulBothAtLeast(d, d, 2);
    }
  }

  // ---------------------------------------------------------------------------
  // The fast counter's trivial bounds

  /** The early return of `fast_count_squarefree_numbers_below_n` for
      `n in [0, 1, 2]`: it agrees with the brute-force count below 0 and 1 and
      misses the number 1 below 2. */
  function FastCountSmall(n: int): (c: nat)
    requires 0 <= n <= 2
    ensures c == |SquarefreeBelow(n)| - (if n == 2 then 1 else 0)
  {
    OneIsSquarefree();
    assert SquarefreeBelow(1) == [];
    0
  }

  /** The early return disagrees with the brute-force count at `n == 2`: the
      number 1 lies below 2 and is square-free. */
  lemma FastCountSmallAtTwo()
    ensures FastCountSmall(2) == 0 && |SquarefreeBelow(2)| == 1
  {
    OneIsSquarefree();
    assert SquarefreeBelow(1) == [];
  }

  /** The trivial bounds answered as the brute-force count does: 0 below 0 and
      1, and 1 below 2. */
  function FastCountSmallCorrected(n: int): (c: nat)
    requires 0 <= n <= 2
    ensures c == |SquarefreeBelow(n)|
  {
    OneIsSquarefree();
    if n in [0, 1] then 0 else 1
  }

}
