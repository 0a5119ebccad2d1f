/** Divisors: `factors`, `proper_divisors`, the sum tests `is_deficient`,
    `is_abundant` and `is_perfect`, the lookup table `is_abundance_lookup` and
    `is_sum_of_two_abundant_numbers`. */
module Divisors {
  import opened Wrappers
  import opened NumberTheory
  import opened Collections

  // ---------------------------------------------------------------------------
  // factors and proper_divisors

  /** The list `reduce(list.__add__, ([i, n // i] for i in ... if not n % i))`
      gathers for the candidates `i, i + 1, ..., r`. */
  function DivisorPairs(n: int, i: int, r: int): seq<int>
    requires i >= 1
    decreases r - i + 1
  {
    if i > r then []
    else (if n % i == 0 then [i, n / i] else []) + DivisorPairs(n, i + 1, r)
  }

  /** `factors(n)`: the set of the pairs `i, n // i` for the divisors `i` up to
      the square root of `n`. For `n == 0` the range is empty and `reduce`
      raises TypeError; for a negative `n`, `n ** 0.5` is complex and `int`
      raises TypeError. */
  function Factors(n: int): (r: Option<set<int>>)
    ensures r.Some? <==> n >= 1
    ensures r.Some? ==> forall d :: d in r.value <==> Divides(d, n)
  {
    if n < 1 then None
    else
      FactorsAreDivisors(n);
      Some(Elements(DivisorPairs(n, 1, Isqrt(n))))
  }

  /** Every entry of the pairs list divides `n`. */
  lemma {:induction false} PairsDivide(n: int, i: int, r: int)
    requires n >= 1 && i >= 1
    ensures forall x :: x in DivisorPairs(n, i, r) ==> Divides(x, n)
    decreases r - i + 1
  {
    if i <= r {
      PairsDivide(n, i + 1, r);
      if n % i == 0 {
        DivisorAtMost(i, n);
        var q := n / i;
        assert n == i * q;
        MultipleDivides(q, i);
        assert DivisorPairs(n, i, r) == [i, q] + DivisorPairs(n, i + 1, r);
      }
    }
  }

  /** A divisor `j` among the candidates puts both `j` and `n / j` in the list. */
  lemma {:induction false} PairsContain(n: int, i: int, r: int, j: int)
    requires 1 <= i <= j <= r && n % j == 0
    ensures j in DivisorPairs(n, i, r) && n / j in DivisorPairs(n, i, r)
    decreases j - i
  {
    if i < j {
      PairsContain(n, i + 1, r, j);
    }
  }

  lemma FactorsAreDivisors(n: int)
    requires n >= 1
    ensures forall d :: d in Elements(DivisorPairs(n, 1, Isqrt(n))) <==> Divides(d, n)
  {
    var r := Isqrt(n);
    var ps := DivisorPairs(n, 1, r);
    PairsDivide(n, 1, r);
    forall d | Divides(d, n)
      ensures d in ps
    {
      if d <= r {
        PairsContain(n, 1, r, d);
      } else {
        var q := n / d;
        assert n == d * q;
        if q > r {
          MulBothAtLeast(d, q, r + 1);
          assert false;
        }
        if q < 1 {
          assert false;
        }
        MultipleDivides(q, d);
        PairsContain(n, 1, r, q);
      }
    }
  }

  /** A divisor of a positive number is at most that number. */
  lemma DivisorsAtMost(n: int)
    requires n >= 1
    ensures forall d :: Divides(d, n) ==> d <= n
  {
    forall d | Divides(d, n)
      ensures d <= n
    {
      DivisorAtMost(d, n);
    }
  }

  /** `proper_divisors(n)`: `factors(n)` without `n` itself. */
  function ProperDivisors(n: int): (r: Option<set<int>>)
    ensures r.Some? <==> n >= 1
    ensures r.Some? ==> forall d :: d in r.value <==> Divides(d, n) && d < n
  {
    match Factors(n)
    case None => None
    case Some(s) => DivisorsAtMost(n); Some(s - {n})
  }

  // ---------------------------------------------------------------------------
  // Sums

  /** A set is empty or has an element. */
  lemma Inhabited(s: set<int>)
    ensures s == {} || exists x :: x in s
  {
    if forall x :: x !in s {
      assert s == {};
    }
  }

  ghost function Pick(s: set<int>): int
    requires s != {}
  {
    Inhabited(s);
    var x :| x in s; x
  }

  /** Python's `sum` of a set of ints. */
  ghost function SumSet(s: set<int>): int
    decreases |s|
  {
    if s == {} then 0 else var x := Pick(s); x + SumSet(s - {x})
  }

  /** The sum does not depend on the element taken out first. */
  lemma {:induction false} SumSetRemove(s: set<int>, y: int)
    requires y in s
    ensures SumSet(s) == y + SumSet(s - {y})
    decreases |s|
  {
    var x := Pick(s);
    if x != y {
      SumSetRemove(s - {x}, y);
      SumSetRemove(s - {y}, x);
      assert s - {x} - {y} == s - {y} - {x};
    }
  }

  /** `sum(s)` for a set: adds the elements one at a time in whatever order the
      set yields them. */
  method SetSum(s0: set<int>) returns (total: int)
    ensures total == SumSet(s0)
  {
    var s := s0;
    total := 0;
    while s != {}
      invariant total + SumSet(s) == SumSet(s0)
      decreases |s|
    {
      var x :| x in s;
      SumSetRemove(s, x);
      total := total + x;
      s := s - {x};
    }
  }

  /** The divisors of `n` in `[1, k)`. */
  function DivisorsBelow(n: int, k: int): (r: set<int>)
    ensures forall d :: d in r <==> 1 <= d < k && n % d == 0
    decreases k
  {
    if k <= 1 then {}
    else DivisorsBelow(n, k - 1) + (if n % (k - 1) == 0 then {k - 1} else {})
  }

  /** The sum of the divisors of `n` in `[1, k)`, added up in increasing order. */
  function DivisorSumBelow(n: int, k: int): int
    decreases k
  {
    if k <= 1 then 0
    else DivisorSumBelow(n, k - 1) + (if n % (k - 1) == 0 then k - 1 else 0)
  }

  /** Summing the set of divisors below `k` in any order gives the ordered sum. */
  lemma {:induction false} SumDivisorsBelow(n: int, k: int)
    ensures SumSet(DivisorsBelow(n, k)) == DivisorSumBelow(n, k)
    decreases k
  {
    if k > 1 {
      SumDivisorsBelow(n, k - 1);
      var s := DivisorsBelow(n, k);
      if n % (k - 1) == 0 {
        SumSetRemove(s, k - 1);
        assert s - {k - 1} == DivisorsBelow(n, k - 1);
      } else {
        assert s == DivisorsBelow(n, k - 1);
      }
    }
  }

  /** The proper divisors of `n >= 1` are its divisors below `n`. */
  lemma ProperDivisorsBelow(n: int)
    requires n >= 1
    ensures ProperDivisors(n) == Some(DivisorsBelow(n, n))
  {
    var s := ProperDivisors(n).value;
    forall d
      ensures d in s <==> d in DivisorsBelow(n, n)
    {
      if d in DivisorsBelow(n, n) {
        assert Divides(d, n);
      }
    }
    assert s == DivisorsBelow(n, n);
  }

  /** The sum of the proper divisors of `n` is below, above or equal to `n`. */
  predicate Deficient(n: int)
  {
    n >= 1 && DivisorSumBelow(n, n) < n
  }

  predicate Abundant(n: int)
  {
    n >= 1 && DivisorSumBelow(n, n) > n
  }

  predicate Perfect(n: int)
  {
    n >= 1 && DivisorSumBelow(n, n) == n
  }

  /** `sum(proper_divisors(n))`. */
  method ProperDivisorSum(n: int) returns (t: Option<int>)
    ensures t.Some? <==> n >= 1
    ensures t.Some? ==> t.value == DivisorSumBelow(n, n)
  {
    var pd := ProperDivisors(n);
    if pd.None? {
      return None;
    }
    var total := SetSum(pd.value);
    ProperDivisorsBelow(n);
    SumDivisorsBelow(n, n);
    t := Some(total);
  }

  /** `is_deficient(n)`. */
  method IsDeficient(n: int) returns (r: Option<bool>)
    ensures r.Some? <==> n >= 1
    ensures r.Some? ==> (r.value <==> Deficient(n))
  {
    var t := ProperDivisorSum(n);
    r := if t.None? then None else Some(t.value < n);
  }

  /** `is_abundant(n)`. */
  method IsAbundant(n: int) returns (r: Option<bool>)
    ensures r.Some? <==> n >= 1
    ensures r.Some? ==> (r.value <==> Abundant(n))
  {
    var t := ProperDivisorSum(n);
    r := if t.None? then None else Some(t.value > n);
  }

  /** `is_perfect(n)`. */
  method IsPerfect(n: int) returns (r: Option<bool>)
    ensures r.Some? <==> n >= 1
    ensures r.Some? ==> (r.value <==> Perfect(n))
  {
    var t := ProperDivisorSum(n);
    r := if t.None? then None else Some(t.value == n);
  }

  /** The proper divisors of 28 are 1, 2, 4, 7 and 14. */
  lemma ProperDivisorsOf28()
    ensures ProperDivisors(28) == Some({1, 2, 4, 7, 14})
  {
    DivisorsOf28BelowEight();
    DivisorsOf28FromEight();
    assert DivisorsBelow(28, 28) == {1, 2, 4, 7, 14};
    ProperDivisorsBelow(28);
  }

  lemma DivisorsOf28BelowEight()
    ensures DivisorsBelow(28, 8) == {1, 2, 4, 7}
  {
    assert DivisorsBelow(28, 3) == {1, 2};
    assert DivisorsBelow(28, 5) == {1, 2, 4};
  }

  lemma DivisorsOf28FromEight()
    ensures DivisorsBelow(28, 28) == DivisorsBelow(28, 8) + {14}
  {
    assert DivisorsBelow(28, 11) == DivisorsBelow(28, 8);
    assert DivisorsBelow(28, 15) == DivisorsBelow(28, 8) + {14};
    assert DivisorsBelow(28, 18) == DivisorsBelow(28, 15);
    assert DivisorsBelow(28, 21) == DivisorsBelow(28, 15);
    assert DivisorsBelow(28, 24) == DivisorsBelow(28, 15);
  }

  /** 6 and 28 are perfect. */
  lemma PerfectNumbers()
    ensures Perfect(6) && Perfect(28)
  {
    assert DivisorSumBelow(6, 6) == 6;
    assert DivisorSumBelow(28, 3) == 3;
    assert DivisorSumBelow(28, 5) == 7;
    assert DivisorSumBelow(28, 8) == 14;
    assert DivisorSumBelow(28, 11) == 14;
    assert DivisorSumBelow(28, 15) == 28;
    assert DivisorSumBelow(28, 18) == 28;
    assert DivisorSumBelow(28, 21) == 28;
    assert DivisorSumBelow(28, 24) == 28;
    assert DivisorSumBelow(28, 28) == 28;
  }

  /** A prime is deficient: its only proper divisor is 1. */
  lemma PrimeIsDeficient(p: int)
    requires IsPrime(p)
    ensures Deficient(p)
  {
    var s := DivisorsBelow(p, p);
    forall d | d in s
      ensures d == 1
    {
      assert Divides(d, p);
    }
    assert s == {1};
    SumDivisorsBelow(p, p);
    SumSetRemove(s, 1);
    assert s - {1} == {};
  }

  /** 12 is the smallest abundant number. */
  lemma SmallestAbundant()
    ensures Abundant(12)
    ensures forall n :: n < 12 ==> !Abundant(n)
  {
    assert DivisorSumBelow(12, 12) == 16;
    forall n | 1 <= n < 12
      ensures !Abundant(n)
    {
      if n == 1 {
        assert DivisorSumBelow(1, 1) == 0;
      } else if n == 2 {
        assert DivisorSumBelow(2, 2) == 1;
      } else if n == 3 {
        assert DivisorSumBelow(3, 3) == 1;
      } else if n == 4 {
        assert DivisorSumBelow(4, 4) == 3;
      } else if n == 5 {
        assert DivisorSumBelow(5, 5) == 1;
      } else if n == 6 {
        assert DivisorSumBelow(6, 6) == 6;
      } else if n == 7 {
        assert DivisorSumBelow(7, 7) == 1;
      } else if n == 8 {
        assert DivisorSumBelow(8, 8) == 7;
      } else if n == 9 {
        assert DivisorSumBelow(9, 9) == 4;
      } else if n == 10 {
        assert DivisorSumBelow(10, 10) == 8;
      } else {
        assert DivisorSumBelow(11, 11) == 1;
      }
    }
  }

  // ---------------------------------------------------------------------------
  // The abundance lookup table

  /** The upper end of the range `is_abundance_lookup` scans. */
  const AbundanceLimit := 28123

  /** `[n for n in range(1, limit + 1) if is_abundant(n)]`. */
  method AbundantsUpTo(limit: int) returns (abundants: seq<int>)
    ensures forall x :: x in abundants <==> 1 <= x <= limit && Abundant(x)
  {
    abundants := [];
    var n := 1;
    while n <= limit
      invariant n == 1 || 1 < n <= limit + 1
      invariant forall x :: x in abundants <==> 1 <= x < n && Abundant(x)
    {
      var ab := IsAbundant(n);
      if ab.value {
        abundants := abundants + [n];
      }
      n := n + 1;
    }
  }

  /** `max(xs)` of a non-empty list. */
  method MaxOf(xs: seq<int>) returns (mx: int)
    requires |xs| >= 1
    ensures mx in xs && forall x :: x in xs ==> x <= mx
  {
    mx := xs[0];
    var j := 1;
    while j < |xs|
      invariant 1 <= j <= |xs|
      invariant mx in xs
      invariant forall k :: 0 <= k < j ==> xs[k] <= mx
    {
      if xs[j] > mx {
        mx := xs[j];
      }
      j := j + 1;
    }
  }

  /** `for a in xs: is_ab[a] = True`. */
  method MarkAll(isAb: array<bool>, xs: seq<int>)
    requires forall x :: x in xs ==> 0 <= x < isAb.Length
    modifies isAb
    ensures forall i :: 0 <= i < isAb.Length ==> (isAb[i] <==> old(isAb[i]) || i in xs)
  {
    var k := 0;
    while k < |xs|
      invariant 0 <= k <= |xs|
      invariant forall i :: 0 <= i < isAb.Length ==> (isAb[i] <==> old(isAb[i]) || i in xs[..k])
    {
      assert xs[k] in xs;
      isAb[xs[k]] := true;
      k := k + 1;
      assert xs[..k] == xs[..k - 1] + [xs[k - 1]];
    }
    assert xs[..k] == xs;
  }

  /** `is_abundance_lookup()` with the upper end of its range as a parameter:
      lists the abundant numbers in `1..limit`, allocates `[False] * (max + 1)`
      and sets the entries of the abundant numbers. `max` of an empty list
      raises ValueError. */
  method IsAbundanceLookupUpTo(limit: int) returns (r: Option<array<bool>>)
    ensures r.None? <==> limit < 12
    ensures r.Some? ==> fresh(r.value)
    ensures r.Some? ==> forall i :: 0 <= i < r.value.Length ==> (r.value[i] <==> Abundant(i))
    ensures r.Some? ==> 1 <= r.value.Length - 1 <= limit && Abundant(r.value.Length - 1)
    ensures r.Some? ==> forall i :: r.value.Length <= i <= limit ==> !Abundant(i)
  {
    SmallestAbundant();
    var abundants := AbundantsUpTo(limit);
    assert limit >= 12 ==> 12 in abundants;
    if |abundants| == 0 {
      return None;
    }
    var mx := MaxOf(abundants);
    var isAb := new bool[mx + 1](i => false);
    MarkAll(isAb, abundants);
    forall i | mx + 1 <= i <= limit
      ensures !Abundant(i)
    {
      assert Abundant(i) ==> i in abundants;
    }
    r := Some(isAb);
  }

  /** `is_abundance_lookup()`: the table for the range `1..28123`. */
  method IsAbundanceLookup() returns (isAb: array<bool>)
    ensures fresh(isAb)
    ensures forall i :: 0 <= i < isAb.Length ==> (isAb[i] <==> Abundant(i))
    ensures 1 <= isAb.Length - 1 <= AbundanceLimit && Abundant(isAb.Length - 1)
    ensures forall i :: isAb.Length <= i <= AbundanceLimit ==> !Abundant(i)
  {
    var r := IsAbundanceLookupUpTo(AbundanceLimit);
    isAb := r.value;
  }

  // ---------------------------------------------------------------------------
  // Sums of two abundant numbers

  /** `len(is_ab[:n])` for a list of length `len`. */
  function SliceLength(n: int, len: nat): (l: nat)
    ensures l <= len
  {
    if n >= 0 then (if n < len then n else len)
    else (if len + n > 0 then len + n else 0)
  }

  /** `n` is the sum of two abundant numbers. */
  ghost predicate IsSumOfTwoAbundant(n: int)
  {
    exists a :: 1 <= a < n && Abundant(a) && Abundant(n - a)
  }

  /** `is_ab` marks exactly the abundant numbers below its length. */
  ghost predicate IsAbundanceTable(t: seq<bool>)
  {
    forall i :: 0 <= i < |t| ==> (t[i] <==> Abundant(i))
  }

  /** `is_sum_of_two_abundant_numbers(n, is_ab)`: scans `i` over the indices of
      `is_ab[:n]` and stops with True at the first `i` with `is_ab[i]`,
      `n - i > 0` and `is_ab[n - i]`; an index `n - i` past the end raises
      IndexError. */
  method IsSumOfTwoAbundantNumbers(n: int, isAb: array<bool>) returns (r: Option<bool>)
    ensures r == Some(true) ==>
      exists i :: 0 <= i < SliceLength(n, isAb.Length) && isAb[i] && 0 < n - i < isAb.Length && isAb[n - i]
    ensures r == Some(false) ==>
      forall i :: 0 <= i < SliceLength(n, isAb.Length) && isAb[i] && n - i > 0 ==> n - i < isAb.Length && !isAb[n - i]
    ensures r == None ==>
      exists i :: 0 <= i < SliceLength(n, isAb.Length) && isAb[i] && n - i >= isAb.Length
    ensures (forall i :: 0 <= i < SliceLength(n, isAb.Length) && isAb[i] && n - i > 0 ==> n - i < isAb.Length) ==>
      r.Some?
    ensures IsAbundanceTable(isAb[..]) && n < isAb.Length + 12 ==> r == Some(IsSumOfTwoAbundant(n))
  {
    var stop := SliceLength(n, isAb.Length);
    var hit := false;
    var i := 0;
    while i < stop
      invariant 0 <= i <= stop
      invariant !hit
      invariant forall j :: 0 <= j < i && isAb[j] && n - j > 0 ==> n - j < isAb.Length && !isAb[n - j]
    {
      if isAb[i] {
        var m := n - i;
        if m > 0 {
          if m >= isAb.Length {
            TableScanInRange(n, isAb[..]);
            return None;
          }
          if isAb[m] {
            hit := true;
            break;
          }
        }
      }
      i := i + 1;
    }
    if IsAbundanceTable(isAb[..]) && n < isAb.Length + 12 {
      TableScanInRange(n, isAb[..]);
      TableScanFinds(n, isAb[..]);
    }
    r := Some(hit);
  }

  /** With a correct table and `n < len + 12`, every index the scan reads is in
      range: a marked `i` is at least 12. */
  lemma TableScanInRange(n: int, t: seq<bool>)
    ensures IsAbundanceTable(t) && n < |t| + 12 ==>
      forall i :: 0 <= i < SliceLength(n, |t|) && t[i] && n - i > 0 ==> n - i < |t|
  {
    SmallestAbundant();
  }

  /** With a correct table and `n < len + 12`, the scan finds a pair exactly
      when `n` is the sum of two abundant numbers. */
  lemma TableScanFinds(n: int, t: seq<bool>)
    requires IsAbundanceTable(t) && n < |t| + 12
    ensures (exists i :: 0 <= i < SliceLength(n, |t|) && t[i] && 0 < n - i < |t| && t[n - i])
      <==> IsSumOfTwoAbundant(n)
  {
    SmallestAbundant();
    if IsSumOfTwoAbundant(n) {
      var a :| 1 <= a < n && Abundant(a) && Abundant(n - a);
      assert 0 <= a < SliceLength(n, |t|) && t[a] && 0 < n - a < |t| && t[n - a];
    }
  }

  /** 24 = 12 + 12 is the smallest sum of two abundant numbers. */
  lemma SmallestSumOfTwoAbundant()
    ensures IsSumOfTwoAbundant(24)
    ensures forall n :: n < 24 ==> !IsSumOfTwoAbundant(n)
  {
    SmallestAbundant();
    assert Abundant(12) && Abundant(24 - 12);
  }

}
