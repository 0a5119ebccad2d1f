/** The digit helpers of `pyzzle/ints.py`: `digits`, `from_digits`, `num_digits`,
    `concatenate`, `concatenated_product`, `reverse`, `reverse_and_sum`,
    `is_palindrome`, `is_lychrel`, `get_last_digits` and the pandigital tests. */
module DigitOps {
  import opened Wrappers
  import opened NumberTheory
  import opened Decimal
  import opened Collections

  /** `digits(n)`: the generator run to exhaustion. It yields `n % 10`, then keeps
      replacing `n` by `n // 10` and yields its last digit while `n` is non-zero.
      For a negative `n` the floor division never reaches 0 (it stops at -1), so
      the generator is infinite; only `n >= 0` is modelled. */
  method Digits(n: int) returns (ds: seq<int>)
    requires n >= 0
    ensures ds == DigitsLE(n)
  {
    var m := n;
    ds := [m % 10];
    m := m / 10;
    while m != 0
      invariant m >= 0
      invariant m == 0 ==> ds == DigitsLE(n)
      invariant m != 0 ==> ds + DigitsLE(m) == DigitsLE(n)
      decreases m
    {
      var rest := if m / 10 == 0 then [] else DigitsLE(m / 10);
      assert DigitsLE(m) == [m % 10] + rest;
      AppendAssoc(ds, [m % 10], rest);
      ds := ds + [m % 10];
      m := m / 10;
    }
  }

  lemma AppendAssoc(a: seq<int>, b: seq<int>, c: seq<int>)
    ensures a + (b + c) == (a + b) + c
  {
  }

  /** `concatenate(*ints)`: `int` of the joined decimal strings. It raises
      ValueError for no arguments and for a negative argument after the first
      (its minus sign lands inside the digits). */
  function Concatenate(xs: seq<int>): (r: Option<int>)
    ensures r.Some? <==> |xs| > 0 && forall i :: 1 <= i < |xs| ==> xs[i] >= 0
    ensures r.Some? ==> r.value == ConcatValue(xs)
  {
    JoinParses(xs);
    if |xs| > 0 && forall i :: 1 <= i < |xs| ==> xs[i] >= 0 then
      ConcatenateValue(xs);
      ParseInt(JoinStrings(xs))
    else
      ParseInt(JoinStrings(xs))
  }

  predicate NonNegative(ys: seq<int>)
  {
    forall i :: 0 <= i < |ys| ==> ys[i] >= 0
  }

  /** The number of decimal digits of the entries of `ys` together. */
  function DigitCount(ys: seq<int>): nat
    requires NonNegative(ys)
  {
    if ys == [] then 0 else NonNegativeTail(ys); NumDigits(ys[0]) + DigitCount(ys[1..])
  }

  lemma NonNegativeTail(ys: seq<int>)
    requires |ys| > 0 && NonNegative(ys)
    ensures NonNegative(ys[1..])
  {
    var rest := ys[1..];
    forall i | 0 <= i < |rest| ensures rest[i] >= 0 {
      assert rest[i] == ys[i + 1];
    }
  }

  /** The number whose decimal digits are those of the entries of `ys`, one
      entry after the other: each entry is shifted left past the digits of the
      entries after it. */
  function DigitsValue(ys: seq<int>): int
    requires NonNegative(ys)
  {
    if ys == [] then 0 else NonNegativeTail(ys); ys[0] * Pow10(DigitCount(ys[1..])) + DigitsValue(ys[1..])
  }

  /** The number `concatenate` forms from a first entry of either sign followed by
      non-negative entries: the magnitude of the first entry shifted left past
      the digits of the others, plus their value, with the sign of the first
      entry. */
  function ConcatValue(xs: seq<int>): int
    requires |xs| > 0 && forall i :: 1 <= i < |xs| ==> xs[i] >= 0
  {
    TailNonNegative(xs);
    var k, v := DigitCount(xs[1..]), DigitsValue(xs[1..]);
    var m := Abs(xs[0]) * Pow10(k) + v;
    if xs[0] >= 0 then m else -m
  }

  lemma TailNonNegative(xs: seq<int>)
    requires |xs| > 0 && forall i :: 1 <= i < |xs| ==> xs[i] >= 0
    ensures NonNegative(xs[1..])
  {
    var tail := xs[1..];
    forall i | 0 <= i < |tail| ensures tail[i] >= 0 {
      assert tail[i] == xs[i + 1];
    }
  }

  /** The join of non-negative entries is a digit string with `DigitCount`
      characters that reads as `DigitsValue`. */
  lemma {:induction false} JoinValue(ys: seq<int>)
    requires NonNegative(ys)
    ensures AllDigitChars(JoinStrings(ys))
    ensures |JoinStrings(ys)| == DigitCount(ys)
    ensures StrValue(JoinStrings(ys)) == DigitsValue(ys)
    decreases |ys|
  {
    if ys != [] {
      var y, rest := ys[0], ys[1..];
      NonNegativeTail(ys);
      JoinValue(rest);
      var h, t := NatString(y), JoinStrings(rest);
      assert JoinStrings(ys) == h + t;
      StrValueAppend(h, t);
      StrValueNatString(y);
    }
  }

  /** `int` of the join of a first entry of either sign and non-negative entries
      after it is `ConcatValue`. */
  lemma ConcatenateValue(xs: seq<int>)
    requires |xs| > 0 && forall i :: 1 <= i < |xs| ==> xs[i] >= 0
    ensures ParseInt(JoinStrings(xs)) == Some(ConcatValue(xs))
  {
    TailNonNegative(xs);
    var d := NatString(Abs(xs[0])) + JoinStrings(xs[1..]);
    var m := Abs(xs[0]) * Pow10(DigitCount(xs[1..])) + DigitsValue(xs[1..]);
    HeadBeforeDigits(Abs(xs[0]), xs[1..]);
    JoinShape(xs);
    assert ConcatValue(xs) == (if xs[0] >= 0 then m else -m);
    if xs[0] >= 0 {
      ReadsAs(d, m);
      assert ParseInt(JoinStrings(xs)) == Some(m);
    } else {
      ReadsNegatedAs(d, m);
      assert ParseInt(JoinStrings(xs)) == Some(-m);
    }
  }

  /** The join is the sign of the first entry, then the digits of its
      magnitude, then the rest. */
  lemma JoinShape(xs: seq<int>)
    requires |xs| > 0
    ensures xs[0] >= 0 ==> JoinStrings(xs) == NatString(Abs(xs[0])) + JoinStrings(xs[1..])
    ensures xs[0] < 0 ==> JoinStrings(xs) == "-" + (NatString(Abs(xs[0])) + JoinStrings(xs[1..]))
  {
    var n, t := NatString(Abs(xs[0])), JoinStrings(xs[1..]);
    assert JoinStrings(xs) == IntString(xs[0]) + t;
    if xs[0] < 0 {
      assert IntString(xs[0]) == "-" + n;
      SignConcat(n, t);
    }
  }

  /** Regrouping a leading minus sign; kept apart so that the regrouping is
      decided on its own. */
  lemma SignConcat(n: string, t: string)
    ensures ("-" + n) + t == "-" + (n + t)
  {
  }

  /** A non-empty digit string of value `w` reads as `w`. */
  lemma ReadsAs(d: string, w: int)
    requires |d| >= 1 && AllDigitChars(d) && StrValue(d) == w
    ensures ParseInt(d) == Some(w)
  {
    assert IsDigitChar(d[0]);
  }

  /** A minus sign before a non-empty digit string of value `w` reads as `-w`. */
  lemma ReadsNegatedAs(d: string, w: int)
    requires |d| >= 1 && AllDigitChars(d) && StrValue(d) == w
    ensures ParseInt("-" + d) == Some(-w)
  {
    assert ("-" + d)[1..] == d;
  }

  /** The digits of `a` followed by the join of non-negative entries read as `a`
      shifted left past the digits of the entries, plus their value. */
  lemma HeadBeforeDigits(a: nat, ys: seq<int>)
    requires NonNegative(ys)
    ensures |NatString(a) + JoinStrings(ys)| >= 1 && AllDigitChars(NatString(a) + JoinStrings(ys))
    ensures StrValue(NatString(a) + JoinStrings(ys)) == a * Pow10(DigitCount(ys)) + DigitsValue(ys)
  {
    JoinValue(ys);
    StrValueAppend(NatString(a), JoinStrings(ys));
    StrValueNatString(a);
  }

  /** A non-empty digit string reads as its value. */
  lemma SignedValue(digits: string)
    requires |digits| >= 1 && AllDigitChars(digits)
    ensures ParseInt(digits) == Some(StrValue(digits) as int)
  {
    assert IsDigitChar(digits[0]);
  }

  lemma JoinParses(xs: seq<int>)
    ensures ParseInt(JoinStrings(xs)).Some? <==> |xs| > 0 && forall i :: 1 <= i < |xs| ==> xs[i] >= 0
  {
    if xs == [] {
    } else if i :| 1 <= i < |xs| && xs[i] < 0 {
      JoinNegativeTail(xs, i);
    } else {
      JoinNonNegativeTail(xs);
    }
  }

  /** A negative entry after the first makes the join unparsable. */
  lemma JoinNegativeTail(xs: seq<int>, i: int)
    requires 1 <= i < |xs| && xs[i] < 0
    ensures ParseInt(JoinStrings(xs)).None?
  {
    JoinNegative(xs[1..], i - 1);
    var rest := JoinStrings(xs[1..]);
    var j :| 0 <= j < |rest| && !IsDigitChar(rest[j]);
    NonDigitAfterHead(IntString(xs[0]), rest, j);
  }

  /** A string of at least one character followed by a non-digit is not a
      signed number. */
  lemma NonDigitAfterHead(head: string, rest: string, j: int)
    requires |head| >= 1 && 0 <= j < |rest| && !IsDigitChar(rest[j])
    ensures ParseInt(head + rest).None?
  {
    var s := head + rest;
    assert s[|head| + j] == rest[j];
    assert s[1..][|head| + j - 1] == rest[j];
  }

  /** With no negative entry after the first, the join parses. */
  lemma JoinNonNegativeTail(xs: seq<int>)
    requires |xs| > 0 && forall i :: 1 <= i < |xs| ==> xs[i] >= 0
    ensures ParseInt(JoinStrings(xs)).Some?
  {
    var tail := xs[1..];
    assert forall i :: 0 <= i < |tail| ==> tail[i] >= 0 by {
      forall i | 0 <= i < |tail| ensures tail[i] >= 0 {
        assert tail[i] == xs[i + 1];
      }
    }
    JoinNonNegative(tail);
    SignedBeforeDigits(xs[0], JoinStrings(tail));
  }

  /** `str(v)` followed by digits is a signed number. */
  lemma SignedBeforeDigits(v: int, rest: string)
    requires AllDigitChars(rest)
    ensures ParseInt(IntString(v) + rest).Some?
  {
    var a := if v >= 0 then v else -v;
    var digits := NatString(a) + rest;
    AppendDigitChars(NatString(a), rest);
    if v < 0 {
      assert IntString(v) + rest == "-" + digits;
      assert ("-" + digits)[1..] == digits;
    }
  }

  /** `from_digits(d)`: the same joining of decimal strings as `concatenate`,
      applied to a list; for a non-empty list of single digits it reads the digits
      most significant first. */
  function FromDigits(d: seq<int>): (r: Option<int>)
    ensures r.Some? <==> |d| > 0 && forall i :: 1 <= i < |d| ==> d[i] >= 0
    ensures AllDigits(d) && |d| > 0 ==> r == Some(ValueLE(Reversed(d)))
  {
    if AllDigits(d) && |d| > 0 then
      JoinDigits(d);
      StrValueChars(d);
      Concatenate(d)
    else
      Concatenate(d)
  }

  /** `concatenated_product(n, p)`: the products `n * i` for `i` in `p`, joined. */
  function ConcatenatedProduct(n: int, p: seq<int>): (r: Option<int>)
    ensures r.Some? <==> |p| > 0 && forall i :: 1 <= i < |p| ==> n * p[i] >= 0
    ensures r.Some? ==> r.value == ConcatValue(Products(n, p))
  {
    Concatenate(Products(n, p))
  }

  /** `[n * i for i in p]`. */
  function Products(n: int, p: seq<int>): (ps: seq<int>)
    ensures |ps| == |p| && forall i :: 0 <= i < |p| ==> ps[i] == n * p[i]
  {
    seq(|p|, i requires 0 <= i < |p| => n * p[i])
  }

  /** `num_digits(n)`: the length of `str(n)`, which counts the minus sign. */
  function NumDigits(n: int): (r: nat)
    ensures n >= 0 ==> r == |DigitsLE(n)|
    ensures n < 0 ==> r == |DigitsLE(-n)| + 1
  {
    IntStringLength(n);
    |IntString(n)|
  }

  lemma IntStringLength(n: int)
    ensures n >= 0 ==> |IntString(n)| == |DigitsLE(n)|
    ensures n < 0 ==> |IntString(n)| == |DigitsLE(-n)| + 1
  {
    var a := if n >= 0 then n else -n;
    NatStringIsDigits(a);
    assert |NatString(a)| == |DigitsLE(a)|;
  }

  /** `is_palindrome(n)`: `str(n) == str(n)[::-1]`, decided by comparing from
      both ends inwards (`PalindromeMeaning`). */
  predicate IsPalindrome(n: int)
  {
    ReadsSameBackwards(IntString(n))
  }

  /** `is_palindrome(n)` compares `str(n)` with its reversal. */
  lemma PalindromeMeaning(n: int)
    ensures IsPalindrome(n) <==> IntString(n) == Reversed(IntString(n))
  {
    ReadsSameBackwardsIff(IntString(n));
  }

  /** A string equal to its reversal, compared from both ends inwards. */
  predicate ReadsSameBackwards(s: string)
    decreases |s|
  {
    |s| <= 1 || (s[0] == s[|s| - 1] && ReadsSameBackwards(s[1..|s| - 1]))
  }

  /** Comparing from both ends inwards is comparing with `s[::-1]`. */
  lemma {:induction false} ReadsSameBackwardsIff(s: string)
    ensures ReadsSameBackwards(s) <==> s == Reversed(s)
    decreases |s|
  {
    if |s| >= 2 {
      ReadsSameBackwardsIff(s[1..|s| - 1]);
      if s == Reversed(s) {
        ReversedInner(s);
      }
      if s[0] == s[|s| - 1] && s[1..|s| - 1] == Reversed(s[1..|s| - 1]) {
        ReversedFromInner(s);
      }
    } else {
      assert s == Reversed(s);
    }
  }

  /** A string equal to its reversal has equal ends and an inner part equal to
      its reversal. */
  lemma ReversedInner(s: string)
    requires |s| >= 2 && s == Reversed(s)
    ensures s[0] == s[|s| - 1] && s[1..|s| - 1] == Reversed(s[1..|s| - 1])
  {
    var t := s[1..|s| - 1];
    assert s[0] == Reversed(s)[0];
    forall i | 0 <= i < |t|
      ensures t[i] == Reversed(t)[i]
    {
      assert t[i] == s[i + 1] == Reversed(s)[i + 1];
    }
  }

  /** Equal ends around an inner part equal to its reversal make a string equal
      to its reversal. */
  lemma ReversedFromInner(s: string)
    requires |s| >= 2 && s[0] == s[|s| - 1] && s[1..|s| - 1] == Reversed(s[1..|s| - 1])
    ensures s == Reversed(s)
  {
    var t := s[1..|s| - 1];
    forall i | 0 <= i < |s|
      ensures s[i] == Reversed(s)[i]
    {
      if 0 < i < |s| - 1 {
        InnerMirror(t, i - 1);
        assert s[i] == t[i - 1] && s[|s| - 1 - i] == t[|t| - i];
      }
      MirrorEntry(s, i);
    }
  }

  /** Entry `k` of a string equal to its reversal equals entry `k` from the
      other end. */
  lemma InnerMirror(t: string, k: int)
    requires t == Reversed(t) && 0 <= k < |t|
    ensures t[k] == t[|t| - 1 - k]
  {
    assert Reversed(t)[k] == t[|t| - 1 - k];
  }

  /** One entry of `ReversedFromInner`: entry `i` of `s` equals entry `i` from
      the other end once the inner entries mirror each other. */
  lemma MirrorEntry(s: string, i: int)
    requires |s| >= 2 && s[0] == s[|s| - 1]
    requires 0 <= i < |s|
    requires 0 < i < |s| - 1 ==> s[i] == s[|s| - 1 - i]
    ensures s[i] == Reversed(s)[i]
  {
    assert Reversed(s)[i] == s[|s| - 1 - i];
  }

  /** `reverse(n)`: `int` of `str(n)` backwards. A negative `n` puts the minus
      sign last, which `int` rejects with ValueError. */
  function Reverse(n: int): (r: Option<int>)
    ensures n < 0 <==> r.None?
    ensures n >= 0 ==> r == Some(ValueLE(Reversed(DigitsLE(n))))
    ensures n >= 0 ==> r == Some(ReverseValue(n))
  {
    ReverseParses(n);
    if n >= 0 then ReverseValueDigits(n); ParseInt(Reversed(IntString(n)))
    else ParseInt(Reversed(IntString(n)))
  }

  /** The digits of `n` read in the opposite order, computed arithmetically:
      the last digit of `n` is moved onto `acc` until `n` runs out. */
  function RevAcc(n: nat, acc: nat): nat
    decreases n
  {
    if n == 0 then acc else RevAcc(n / 10, 10 * acc + n % 10)
  }

  function ReverseValue(n: nat): nat
  {
    RevAcc(n, 0)
  }

  /** `RevAcc` appends the reversed digits of `n >= 1` below `acc`. */
  lemma {:induction false} RevAccDigits(n: nat, acc: nat)
    requires n >= 1
    ensures RevAcc(n, acc) == acc * Pow10(|DigitsLE(n)|) + ValueLE(Reversed(DigitsLE(n)))
    decreases n
  {
    if n < 10 {
      RevAccOneDigit(n, acc);
    } else {
      var acc' := 10 * acc + n % 10;
      RevAccDigits(n / 10, acc');
      RevAccStep(n, acc);
    }
  }

  lemma RevAccOneDigit(n: nat, acc: nat)
    requires 1 <= n < 10
    ensures RevAcc(n, acc) == acc * Pow10(|DigitsLE(n)|) + ValueLE(Reversed(DigitsLE(n)))
  {
    var ds := DigitsLE(n);
    assert ds == [n];
    assert Reversed(ds) == [n];
    assert ValueLE([n]) == n + 10 * ValueLE([]);
    assert Pow10(|ds|) == 10 by {
      assert Pow10(1) == 10 * Pow10(0);
    }
    assert RevAcc(n, acc) == 10 * acc + n by {
      assert RevAcc(n, acc) == RevAcc(0, 10 * acc + n);
    }
    assert acc * Pow10(|ds|) == 10 * acc;
    assert ValueLE(Reversed(ds)) == n;
  }

  lemma RevAccStep(n: nat, acc: nat)
    requires n >= 10
    requires RevAcc(n / 10, 10 * acc + n % 10) ==
      (10 * acc + n % 10) * Pow10(|DigitsLE(n / 10)|) + ValueLE(Reversed(DigitsLE(n / 10)))
    ensures RevAcc(n, acc) == acc * Pow10(|DigitsLE(n)|) + ValueLE(Reversed(DigitsLE(n)))
  {
    var d := n % 10;
    var rest := DigitsLE(n / 10);
    assert DigitsLE(n) == [d] + rest;
    assert (DigitsLE(n))[1..] == rest;
    assert Reversed(DigitsLE(n)) == Reversed(rest) + [d];
    ValueLESnoc(Reversed(rest), d);
    var p := Pow10(|rest|);
    assert Pow10(|DigitsLE(n)|) == 10 * p;
    HornerShift(acc, d, p, ValueLE(Reversed(rest)));
  }

  lemma HornerShift(acc: int, d: int, p: int, v: int)
    ensures (10 * acc + d) * p + v == acc * (10 * p) + (v + d * p)
  {
  }

  /** The arithmetic reversal agrees with reading the digit list backwards. */
  lemma ReverseValueDigits(n: nat)
    ensures ReverseValue(n) == ValueLE(Reversed(DigitsLE(n)))
  {
    if n == 0 {
      assert DigitsLE(0) == [0];
      assert ValueLE([0]) == 0 + 10 * ValueLE([]);
    } else {
      RevAccDigits(n, 0);
    }
  }

  lemma ReverseParses(n: int)
    ensures n < 0 <==> ParseInt(Reversed(IntString(n))).None?
    ensures n >= 0 ==> ParseInt(Reversed(IntString(n))) == Some(ValueLE(Reversed(DigitsLE(n))))
  {
    if n >= 0 {
      ReverseNatParses(n);
    } else {
      ReverseNegativeFails(n);
    }
  }

  /** `str(n)[::-1]` of `n >= 0` reads as the digit list in `digits` order. */
  lemma ReverseNatParses(n: nat)
    ensures ParseInt(Reversed(IntString(n))) == Some(ValueLE(Reversed(DigitsLE(n))))
  {
    ReversedStringIsDigits(n);
    CharsParse(DigitsLE(n));
  }

  /** `str(n)[::-1]` of `n >= 0` is the characters of the digit list in `digits`
      order. */
  lemma ReversedStringIsDigits(n: nat)
    ensures Reversed(IntString(n)) == Chars(DigitsLE(n))
  {
    var ds := DigitsLE(n);
    NatStringIsDigits(n);
    ReversedChars(Reversed(ds));
    ReversedReversed(ds);
  }

  /** The characters of a non-empty digit list read as its digits in the
      opposite order. */
  lemma CharsParse(ds: seq<int>)
    requires |ds| >= 1 && AllDigits(ds)
    ensures ParseInt(Chars(ds)) == Some(ValueLE(Reversed(ds)))
  {
    StrValueChars(ds);
    SignedValue(Chars(ds));
  }

  /** Reversing `str(n)` of a negative `n` moves the minus sign to the end. */
  lemma ReverseNegativeFails(n: int)
    requires n < 0
    ensures ParseInt(Reversed(IntString(n))).None?
  {
    var d := NatString(-n);
    var t := IntString(n);
    assert t == "-" + d;
    var s := Reversed(t);
    assert |s| == |d| + 1;
    assert s[|s| - 1] == t[0] == '-';
    assert !IsDigitChar(s[|s| - 1]);
    assert s[1..][|s| - 2] == '-';
    assert !AllDigitChars(s) && !AllDigitChars(s[1..]);
  }

  /** `reverse_and_sum(n)`: `n` plus its reversal. */
  function ReverseAndSum(n: int): (r: Option<int>)
    ensures n < 0 <==> r.None?
    ensures n >= 0 ==> r == Some(RevAdd(n))
  {
    var rev := Reverse(n);
    if rev.None? then None
    else
      assert rev == Some(ReverseValue(n));
      Some(n + rev.value)
  }

  /** One reverse-and-add step on a natural number. */
  function RevAdd(n: nat): nat
  {
    n + ReverseValue(n)
  }

  /** `RevAdd` applied `j` times. */
  function Iterate(n: nat, j: nat): nat
    decreases j
  {
    if j == 0 then n else Iterate(RevAdd(n), j - 1)
  }

  /** What `is_lychrel` returns when its loop may run `steps` more times from
      `n`: True when the steps run out, None when `reverse_and_sum` raises (a
      negative `n`), False at the first palindrome. */
  function LychrelFrom(n: int, steps: nat): Option<bool>
    decreases steps
  {
    if steps == 0 then Some(true)
    else if n < 0 then None
    else if IsPalindrome(RevAdd(n)) then Some(false)
    else LychrelFrom(RevAdd(n), steps - 1)
  }

  /** `is_lychrel(n, i, max_itt)`: replaces `n` by `reverse_and_sum(n)` while
      `i <= max_itt`, counting `i` up, and answers False as soon as `n` is a
      palindrome. The defaults are `i = 0`, `max_itt = 50` (51 steps). */
  method IsLychrel(n: int, i: int, maxItt: int) returns (r: Option<bool>)
    ensures r == LychrelFrom(n, if i <= maxItt then maxItt - i + 1 else 0)
  {
    var cur, count := n, i;
    while count <= maxItt
      invariant i <= maxItt ==> count <= maxItt + 1
      invariant i > maxItt ==> count == i
      invariant LychrelFrom(cur, if count <= maxItt then maxItt - count + 1 else 0)
             == LychrelFrom(n, if i <= maxItt then maxItt - i + 1 else 0)
      decreases maxItt - count + 1
    {
      var next := ReverseAndSum(cur);
      if next.None? {
        return None;
      }
      count, cur := count + 1, next.value;
      if IsPalindrome(cur) {
        return Some(false);
      }
    }
    r := Some(true);
  }

  /** `get_last_digits(i, n)`: `i % 10 ** n`. A negative `n` makes `10 ** n` a
      float, which is not modelled. */
  function GetLastDigits(i: int, n: nat): (r: int)
    ensures 0 <= r < Pow10(n)
    ensures (i - r) % Pow10(n) == 0
  {
    assert i == Pow10(n) * (i / Pow10(n)) + i % Pow10(n);
    MultipleDivides(Pow10(n), i / Pow10(n));
    i % Pow10(n)
  }

  /** The values `digits(n)` yields for a negative `n`, an endless stream:
      floor division by 10 reaches -1 and stays there, so after the last digits
      of `n`, `n // 10`, ... the value 9 repeats forever. */
  function NegativeDigitValues(n: int): (vs: set<int>)
    requires n < 0
    ensures 9 in vs && n % 10 in vs
    ensures forall v :: v in vs ==> 0 <= v <= 9
    decreases -n
  {
    if n == -1 then {9} else {n % 10} + NegativeDigitValues(n / 10)
  }

  /** `is_pandigital(n, start)`: each of `start, ..., start + num_digits(n) - 1`
      occurs among the values `digits(n)` yields. Each `in` test runs a fresh
      `digits(n)` until it meets the value; for a negative `n` that stream never
      ends, so a value it lacks is searched for forever, and the answer is True
      or no answer at all (`None`). */
  function IsPandigital(n: int, start: int): (r: Option<bool>)
    ensures n >= 0 ==> r == Some(IsPermutedRange(DigitsLE(n), start))
    ensures n < 0 ==> r != Some(false)
    ensures n < 0 ==> (r == Some(true) <==> Covers(NegativeDigitValues(n), start, NumDigits(n)))
  {
    if n >= 0 then
      var ds := DigitsLE(n);
      CoversRangeIff(ds, start);
      Some(forall v :: start <= v < start + NumDigits(n) ==> v in ds)
    else if Covers(NegativeDigitValues(n), start, NumDigits(n)) then
      Some(true)
    else
      None
  }

  /** Each of `start, ..., start + k - 1` is in `vs`. */
  predicate Covers(vs: set<int>, start: int, k: int)
  {
    forall v :: start <= v < start + k ==> v in vs
  }

  /** `is_1_to_9_pandigital(n)`: nine characters, and the digits are 1, ..., 9
      in some order. A negative `n` of nine characters (a minus sign and eight
      digits) answers True or never returns. */
  function Is1To9Pandigital(n: int): (r: Option<bool>)
    ensures NumDigits(n) != 9 ==> r == Some(false)
    ensures n >= 0 ==> r == Some(|DigitsLE(n)| == 9 && IsPermutedRange(DigitsLE(n), 1))
    ensures n < 0 ==> r != Some(false) || NumDigits(n) != 9
  {
    if NumDigits(n) != 9 then Some(false) else IsPandigital(n, 1)
  }

  /** `is_0_to_9_pandigital(n)`: ten characters, and the digits are 0, ..., 9 in
      some order; for a negative `n` of ten characters, True or no answer. */
  function Is0To9Pandigital(n: int): (r: Option<bool>)
    ensures NumDigits(n) != 10 ==> r == Some(false)
    ensures n >= 0 ==> r == Some(|DigitsLE(n)| == 10 && IsPermutedRange(DigitsLE(n), 0))
    ensures n < 0 ==> r != Some(false) || NumDigits(n) != 10
  {
    if NumDigits(n) != 10 then Some(false) else IsPandigital(n, 0)
  }

}
