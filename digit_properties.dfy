/** Properties of the digit helpers: the round trips between `digits`,
    `from_digits` and `reverse`, what `is_palindrome`, `num_digits`,
    `get_last_digits`, `concatenate`, `is_lychrel` and the pandigital tests mean. */
module DigitProperties {
  import opened Wrappers
  import opened NumberTheory
  import opened Decimal
  import opened Collections
  import opened DigitOps

  /** `from_digits` of the digits of `n` taken most significant first gives `n`
      back; taken in the order `digits` yields them it gives `reverse(n)`. */
  lemma DigitsRoundTrip(n: nat)
    ensures FromDigits(Reversed(DigitsLE(n))) == Some(n)
    ensures FromDigits(DigitsLE(n)) == Reverse(n)
  {
    var ds := DigitsLE(n);
    ReversedDigits(ds);
    ReversedReversed(ds);
  }

  lemma CharsInjective(xs: seq<int>, ys: seq<int>)
    requires AllDigits(xs) && AllDigits(ys) && Chars(xs) == Chars(ys)
    ensures xs == ys
  {
    forall i | 0 <= i < |xs|
      ensures xs[i] == ys[i]
    {
      assert CharValue(DigitChar(xs[i])) == xs[i];
      assert CharValue(DigitChar(ys[i])) == ys[i];
    }
  }

  /** A number is a palindrome exactly when it is not negative and its digit list
      reads the same both ways. */
  lemma PalindromeDigits(n: int)
    ensures IsPalindrome(n) <==> n >= 0 && DigitsLE(n) == Reversed(DigitsLE(n))
  {
    if n >= 0 {
      ReadsSameBackwardsIff(IntString(n));
      PalindromeString(n);
    } else {
      NegativeNotPalindrome(n);
    }
  }

  /** `str(n)` for `n >= 0` reads the same backwards exactly when the digit list
      does. */
  lemma PalindromeString(n: nat)
    ensures IntString(n) == Reversed(IntString(n)) <==> DigitsLE(n) == Reversed(DigitsLE(n))
  {
    var s := IntString(n);
    var ds := DigitsLE(n);
    NatStringIsDigits(n);
    ReversedDigits(ds);
    ReversedChars(Reversed(ds));
    ReversedReversed(ds);
    assert Reversed(s) == Chars(ds);
    if s == Reversed(s) {
      CharsInjective(Reversed(ds), ds);
    }
  }

  /** The minus sign of a negative number ends up last, where a digit was. */
  lemma NegativeNotPalindrome(n: int)
    requires n < 0
    ensures !IsPalindrome(n)
  {
    var s := IntString(n);
    var t := NatString(-n);
    assert s == "-" + t;
    assert s[|s| - 1] == t[|t| - 1];
    assert IsDigitChar(t[|t| - 1]);
  }

  /** A number is a palindrome exactly when `reverse` leaves it unchanged. */
  lemma PalindromeIffReverseFixed(n: int)
    ensures IsPalindrome(n) <==> Reverse(n) == Some(n)
  {
    PalindromeDigits(n);
    if n >= 0 {
      var ds := DigitsLE(n);
      ReversedDigits(ds);
      if Reverse(n) == Some(n) {
        ValueLEInjective(Reversed(ds), ds);
      }
    }
  }

  /** `num_digits(n)` is the `k` with `10 ** (k - 1) <= n < 10 ** k` for `n >= 1`. */
  lemma NumDigitsBounds(n: int)
    requires n >= 1
    ensures Pow10(NumDigits(n) - 1) <= n < Pow10(NumDigits(n))
  {
    var k := NumDigits(n);
    assert k == |DigitsLE(n)|;
    DigitsLEBounds(n);
  }

  /** `concatenate(a, b)` of non-negative numbers shifts `a` left by the number of
      digits of `b` and adds `b`. */
  lemma ConcatenatePair(a: nat, b: nat)
    ensures Concatenate([a, b]) == Some(a * Pow10(NumDigits(b)) + b)
  {
    PairValue(a, b);
  }

  lemma PairValue(a: nat, b: nat)
    ensures ConcatValue([a, b]) == a * Pow10(NumDigits(b)) + b
  {
    assert [a, b][1..] == [b] && [b][1..] == [];
    assert DigitCount([b]) == NumDigits(b);
    assert DigitsValue([b]) == b;
    assert Abs(a) == a;
  }

  /** The example of `concatenated_product`: 12 times 1, 2 and 3 joined. */
  lemma ConcatenatedProductExample()
    ensures ConcatenatedProduct(12, [1, 2, 3]) == Some(122436)
  {
    ProductsOfTwelve();
    JoinedValue();
    ConcatenatedProductIs(12, [1, 2, 3], [12, 24, 36], 122436);
  }

  lemma ProductsOfTwelve()
    ensures Products(12, [1, 2, 3]) == [12, 24, 36]
  {
  }

  /** `concatenated_product` of products it accepts is their `ConcatValue`. */
  lemma ConcatenatedProductIs(n: int, p: seq<int>, ps: seq<int>, v: int)
    requires ps == Products(n, p) && |ps| > 0
    requires forall i :: 1 <= i < |ps| ==> ps[i] >= 0
    requires ConcatValue(ps) == v
    ensures ConcatenatedProduct(n, p) == Some(v)
  {
  }

  lemma JoinedValue()
    ensures ConcatValue([12, 24, 36]) == 122436
  {
    assert [12, 24, 36][1..] == [24, 36];
    TwoEntries();
    assert Pow10(4) == 10000;
  }

  lemma TwoEntries()
    ensures DigitCount([24, 36]) == 4 && DigitsValue([24, 36]) == 2436
  {
    assert [24, 36][1..] == [36];
    OneEntry();
    assert DigitsLE(24) == [4, 2];
  }

  lemma OneEntry()
    ensures DigitCount([36]) == 2 && DigitsValue([36]) == 36
  {
    assert [36][1..] == [];
    assert DigitsLE(36) == [6, 3];
  }

  /** A negative first entry keeps its sign in front of all the digits:
      `concatenate(-5, 3)` is -53. */
  lemma ConcatenateNegativeExample()
    ensures Concatenate([-5, 3]) == Some(-53)
  {
    assert [-5, 3][1..] == [3];
    assert DigitsLE(3) == [3];
    assert DigitCount([3]) == 1;
    assert DigitsValue([3]) == 3;
  }

  /** `reverse(32)` is 23, not the 55 of its docstring `32 -> 32 + 23 = 55`. */
  lemma ReverseThirtyTwo()
    ensures Reverse(32) == Some(23) && Reverse(32) != Some(55)
  {
    assert RevAcc(32, 0) == 23;
  }

  /** The docstring example `32 -> 32 + 23 = 55` is what `reverse_and_sum`
      computes. */
  lemma ReverseAndSumThirtyTwo()
    ensures ReverseAndSum(32) == Some(55)
  {
    assert RevAcc(32, 0) == 23;
  }

  /** Splitting off the last decimal digit of a remainder modulo `10 * p`. */
  lemma ModTenSplit(i: int, p: int)
    requires i >= 0 && p >= 1
    ensures i % (10 * p) == i % 10 + 10 * ((i / 10) % p)
  {
    var q, r := i / 10, i % 10;
    var a, b := q / p, q % p;
    assert i == 10 * q + r;
    assert q == p * a + b;
    assert i == (10 * p) * a + (10 * b + r);
    DivModUnique(i, 10 * p, a, 10 * b + r);
  }

  function Min(a: int, b: int): int
  {
    if a <= b then a else b
  }

  /** `get_last_digits(i, k)` is the number formed by the last `k` digits of `i`
      (all of them when `i` has fewer). */
  lemma {:induction false} LastDigitsAreDigits(i: nat, k: nat)
    ensures GetLastDigits(i, k) == ValueLE(DigitsLE(i)[..Min(k, |DigitsLE(i)|)])
    decreases k
  {
    if k == 0 {
      LastNoDigits(i);
    } else if i < 10 {
      LastDigitsSmall(i, k);
    } else {
      LastDigitsAreDigits(i / 10, k - 1);
      LastDigitsStep(i, k);
    }
  }

  lemma LastDigitsStep(i: nat, k: nat)
    requires i >= 10 && k >= 1
    requires GetLastDigits(i / 10, k - 1) ==
      ValueLE(DigitsLE(i / 10)[..Min(k - 1, |DigitsLE(i / 10)|)])
    ensures GetLastDigits(i, k) == ValueLE(DigitsLE(i)[..Min(k, |DigitsLE(i)|)])
  {
    var ds := DigitsLE(i);
    var rest := DigitsLE(i / 10);
    var m := Min(k - 1, |rest|);
    var low := ValueLE(rest[..m]);
    assert ds == [i % 10] + rest;
    var prefix := ds[..Min(k, |ds|)];
    assert prefix == [i % 10] + rest[..m];
    assert prefix[1..] == rest[..m];
    assert ValueLE(prefix) == i % 10 + 10 * low;
    var q := Pow10(k - 1);
    assert Pow10(k) == 10 * q;
    ModTenSplit(i, q);
  }

  lemma LastNoDigits(i: nat)
    ensures GetLastDigits(i, 0) == ValueLE(DigitsLE(i)[..Min(0, |DigitsLE(i)|)])
  {
    DivModUnique(i, 1, i, 0);
    assert DigitsLE(i)[..0] == [];
  }

  lemma LastDigitsSmall(i: nat, k: nat)
    requires i < 10 && k >= 1
    ensures GetLastDigits(i, k) == ValueLE(DigitsLE(i)[..Min(k, |DigitsLE(i)|)])
  {
    var ds := DigitsLE(i);
    assert ds == [i];
    var p := Pow10(k);
    assert p == 10 * Pow10(k - 1);
    DivModUnique(i, p, 0, i);
    assert ds[..Min(k, |ds|)] == [i];
    assert ValueLE([i]) == i + 10 * ValueLE([]);
  }

  /** None of the first `steps` reverse-and-add results from `n` satisfies `p`,
      checked one step at a time. */
  ghost predicate NoneWithin(p: int -> bool, n: nat, steps: nat)
    decreases steps
  {
    steps == 0 || (!p(RevAdd(n)) && NoneWithin(p, RevAdd(n), steps - 1))
  }

  /** The step-by-step check is the plain statement about the iterates. */
  lemma {:induction false} NoneWithinIterates(p: int -> bool, n: nat, steps: nat)
    ensures NoneWithin(p, n, steps) <==> forall j :: 1 <= j <= steps ==> !p(Iterate(n, j))
    decreases steps
  {
    if steps >= 1 {
      var m := RevAdd(n);
      NoneWithinIterates(p, m, steps - 1);
      assert Iterate(n, 1) == m;
      if NoneWithin(p, n, steps) {
        forall j | 1 <= j <= steps
          ensures !p(Iterate(n, j))
        {
          if j >= 2 {
            assert Iterate(n, j) == Iterate(m, j - 1);
          }
        }
      } else if p(m) {
        assert p(Iterate(n, 1));
      } else {
        var j :| 1 <= j <= steps - 1 && p(Iterate(m, j));
        assert Iterate(n, j + 1) == Iterate(m, j);
      }
    }
  }

  /** `is_lychrel` from `n >= 0` with `steps` iterations left follows the
      step-by-step check for palindromes. */
  lemma {:induction false} LychrelSteps(n: nat, steps: nat)
    ensures LychrelFrom(n, steps) == Some(NoneWithin(IsPalindrome, n, steps))
    decreases steps
  {
    if steps >= 1 {
      var m := RevAdd(n);
      var p := IsPalindrome(m);
      assert LychrelFrom(n, steps) == if p then Some(false) else LychrelFrom(m, steps - 1);
      assert NoneWithin(IsPalindrome, n, steps) == (!p && NoneWithin(IsPalindrome, m, steps - 1));
      LychrelSteps(m, steps - 1);
    } else {
      assert LychrelFrom(n, steps) == Some(true);
    }
  }

  /** `is_lychrel` from `n >= 0` with `steps` iterations left answers False
      exactly when one of the next `steps` reverse-and-add results is a
      palindrome, and True otherwise. */
  lemma LychrelMeaning(n: nat, steps: nat)
    ensures LychrelFrom(n, steps) == Some(forall j :: 1 <= j <= steps ==> !IsPalindrome(Iterate(n, j)))
  {
    LychrelSteps(n, steps);
    NoneWithinIterates(IsPalindrome, n, steps);
  }

  /** A negative number of nine characters can pass `is_1_to_9_pandigital`:
      the values `digits(-87654322)` yields under floor division are 8, 7, ...,
      1 and then 9 forever. */
  lemma NegativeNinePandigital()
    ensures Is1To9Pandigital(-87654322) == Some(true)
  {
    NegativeStreamExample();
    LengthEight();
    var vs := NegativeDigitValues(-87654322);
    forall v | 1 <= v < 1 + 9
      ensures v in vs
    {
      assert v == 1 || v == 2 || v == 3 || v == 4 || v == 5 || v == 6 || v == 7 || v == 8 || v == 9;
    }
    assert Covers(vs, 1, 9);
  }

  lemma NegativeStreamExample()
    ensures NegativeDigitValues(-87654322) == {1, 2, 3, 4, 5, 6, 7, 8, 9}
  {
    assert NegativeDigitValues(-9) == {1, 9};
    assert NegativeDigitValues(-88) == {1, 2, 9};
    assert NegativeDigitValues(-877) == {1, 2, 3, 9};
    assert NegativeDigitValues(-8766) == {1, 2, 3, 4, 9};
    assert NegativeDigitValues(-87655) == {1, 2, 3, 4, 5, 9};
    assert NegativeDigitValues(-876544) == {1, 2, 3, 4, 5, 6, 9};
    assert NegativeDigitValues(-8765433) == {1, 2, 3, 4, 5, 6, 7, 9};
  }

  lemma LengthEight()
    ensures NumDigits(-87654322) == 9
  {
    OneMoreDigit(87654322);
    OneMoreDigit(8765432);
    OneMoreDigit(876543);
    OneMoreDigit(87654);
    FourDigits();
  }

  lemma FourDigits()
    ensures |DigitsLE(8765)| == 4
  {
    OneMoreDigit(8765);
    OneMoreDigit(876);
    OneMoreDigit(87);
    assert |DigitsLE(8)| == 1;
  }

  /** Where a value is missing the test never answers: `digits(-12345678)`
      yields 2, 2, 3, ..., 8 and then 9 forever, so the search for 1 never
      ends. */
  lemma NegativeNeverAnswers()
    ensures Is1To9Pandigital(-12345678) == None
  {
    NineCharacters();
    MissingOne();
    assert !Covers(NegativeDigitValues(-12345678), 1, 9);
  }

  lemma NineCharacters()
    ensures NumDigits(-12345678) == 9
  {
    OneMoreDigit(12345678);
    OneMoreDigit(1234567);
    OneMoreDigit(123456);
    OneMoreDigit(12345);
    FourOtherDigits();
  }

  lemma FourOtherDigits()
    ensures |DigitsLE(1234)| == 4
  {
    OneMoreDigit(1234);
    OneMoreDigit(123);
    OneMoreDigit(12);
    assert |DigitsLE(1)| == 1;
  }

  lemma MissingOne()
    ensures 1 !in NegativeDigitValues(-12345678)
  {
    assert NegativeDigitValues(-2) == {8, 9};
    assert NegativeDigitValues(-13) == {7, 8, 9};
    assert NegativeDigitValues(-124) == {6, 7, 8, 9};
    assert NegativeDigitValues(-1235) == {5, 6, 7, 8, 9};
    assert NegativeDigitValues(-12346) == {4, 5, 6, 7, 8, 9};
    assert NegativeDigitValues(-123457) == {3, 4, 5, 6, 7, 8, 9};
    assert NegativeDigitValues(-1234568) == {2, 3, 4, 5, 6, 7, 8, 9};
    assert NegativeDigitValues(-12345678) == {2, 3, 4, 5, 6, 7, 8, 9};
  }

  /** Dropping the last digit of a number of two or more digits. */
  lemma OneMoreDigit(n: nat)
    requires n >= 10
    ensures |DigitsLE(n)| == |DigitsLE(n / 10)| + 1
  {
  }

}
