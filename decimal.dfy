/** Decimal notation as Python's `str(int)` writes it and `int(str)` reads it
    back, together with digit lists (least significant digit first, the order in
    which `digits` yields them). */
module Decimal {
  import opened Wrappers
  import opened NumberTheory

  predicate IsDigitChar(c: char)
  {
    '0' <= c <= '9'
  }

  predicate AllDigitChars(s: string)
  {
    forall i :: 0 <= i < |s| ==> IsDigitChar(s[i])
  }

  predicate AllDigits(ds: seq<int>)
  {
    forall i :: 0 <= i < |ds| ==> 0 <= ds[i] <= 9
  }

  function DigitChar(d: int): (c: char)
    requires 0 <= d <= 9
    ensures IsDigitChar(c)
  {
    (d + '0' as int) as char
  }

  function CharValue(c: char): (d: int)
    requires IsDigitChar(c)
    ensures 0 <= d <= 9
  {
    c as int - '0' as int
  }

  /** The characters of a digit list, in the same order. */
  function Chars(ds: seq<int>): (s: string)
    requires AllDigits(ds)
    ensures |s| == |ds| && AllDigitChars(s)
    ensures forall i :: 0 <= i < |ds| ==> s[i] == DigitChar(ds[i])
  {
    seq(|ds|, i requires 0 <= i < |ds| => DigitChar(ds[i]))
  }

  /** Python's `s[::-1]`: entry `i` of the result is entry `|s| - 1 - i` of `s`. */
  function Reversed<T>(s: seq<T>): (r: seq<T>)
    ensures |r| == |s|
    ensures forall i :: 0 <= i < |s| ==> r[i] == s[|s| - 1 - i]
  {
    seq(|s|, i requires 0 <= i < |s| => s[|s| - 1 - i])
  }

  /** The value of a digit list read least significant digit first. */
  function ValueLE(ds: seq<int>): int
  {
    if ds == [] then 0 else ds[0] + 10 * ValueLE(ds[1..])
  }

  /** The values `digits(n)` yields: `n % 10` first, then the digits of `n // 10`
      while that is non-zero. */
  function DigitsLE(n: nat): (ds: seq<int>)
    ensures |ds| >= 1 && AllDigits(ds) && AllDigits(Reversed(ds))
    ensures ValueLE(ds) == n
    ensures n > 0 ==> ds[|ds| - 1] != 0
    decreases n
  {
    var ds := [n % 10] + (if n / 10 == 0 then [] else DigitsLE(n / 10));
    ReversedDigits(ds);
    ds
  }

  /** `str(n)` for `n >= 0`: the most significant digit first. */
  function NatString(n: nat): (s: string)
    ensures |s| >= 1 && AllDigitChars(s)
    decreases n
  {
    (if n / 10 == 0 then "" else NatString(n / 10)) + [DigitChar(n % 10)]
  }

  /** `str(n)` for any int: a leading minus sign for negatives. */
  function IntString(n: int): (s: string)
    ensures |s| >= 1
  {
    if n < 0 then "-" + NatString(-n) else NatString(n)
  }

  /** The value of a string of digit characters, most significant first. */
  function StrValue(s: string): nat
    requires AllDigitChars(s)
  {
    if s == [] then 0 else 10 * StrValue(s[..|s| - 1]) + CharValue(s[|s| - 1])
  }

  /** Python's `int(s)` on the strings this model builds from `str` of ints:
      an optional leading minus sign and at least one digit; anything else
      raises ValueError. */
  function ParseInt(s: string): (r: Option<int>)
    ensures r.Some? <==> (|s| >= 1 && AllDigitChars(s)) || (|s| >= 2 && s[0] == '-' && AllDigitChars(s[1..]))
  {
    if |s| >= 2 && s[0] == '-' && AllDigitChars(s[1..]) then Some(-(StrValue(s[1..]) as int))
    else if |s| >= 1 && AllDigitChars(s) then Some(StrValue(s))
    else None
  }

  /** `"".join(str(x) for x in xs)`. */
  function JoinStrings(xs: seq<int>): string
  {
    if xs == [] then "" else IntString(xs[0]) + JoinStrings(xs[1..])
  }

  // ---------------------------------------------------------------------------
  // Lemmas relating the notations

  lemma {:induction false} StrValueNatString(n: nat)
    ensures StrValue(NatString(n)) == n
    decreases n
  {
    var s := NatString(n);
    var prefix := if n / 10 == 0 then "" else NatString(n / 10);
    assert s[..|s| - 1] == prefix;
    assert CharValue(DigitChar(n % 10)) == n % 10;
    if n / 10 != 0 {
      StrValueNatString(n / 10);
    }
    assert StrValue(prefix) == n / 10;
    assert StrValue(s) == 10 * (n / 10) + n % 10;
  }

  lemma {:induction false} StrValueAppend(s: string, t: string)
    requires AllDigitChars(s) && AllDigitChars(t)
    ensures AllDigitChars(s + t)
    ensures StrValue(s + t) == StrValue(s) * Pow10(|t|) + StrValue(t)
    decreases |t|
  {
    if t == [] {
      assert s + t == s;
    } else {
      var t' := t[..|t| - 1];
      var c := CharValue(t[|t| - 1]);
      assert (s + t)[..|s + t| - 1] == s + t';
      assert (s + t)[|s + t| - 1] == t[|t| - 1];
      StrValueAppend(s, t');
      HornerStep(StrValue(s), Pow10(|t'|), StrValue(t'), c);
    }
  }

  lemma HornerStep(a: int, p: int, v: int, c: int)
    ensures 10 * (a * p + v) + c == a * (10 * p) + (10 * v + c)
  {
  }

  lemma {:induction false} NatStringIsDigits(n: nat)
    ensures NatString(n) == Chars(Reversed(DigitsLE(n)))
    decreases n
  {
    var ds := DigitsLE(n);
    if n / 10 != 0 {
      var rest := DigitsLE(n / 10);
      NatStringIsDigits(n / 10);
      assert ds == [n % 10] + rest;
      assert ds[1..] == rest;
      assert Reversed(ds) == Reversed(rest) + [n % 10];
      assert Chars(Reversed(ds)) == Chars(Reversed(rest)) + [DigitChar(n % 10)];
    } else {
      assert ds == [n % 10];
      assert Reversed(ds) == [n % 10];
    }
  }

  lemma {:induction false} StrValueChars(ds: seq<int>)
    requires AllDigits(ds)
    ensures StrValue(Chars(ds)) == ValueLE(Reversed(ds))
    decreases |ds|
  {
    if ds != [] {
      var ds' := ds[..|ds| - 1];
      StrValueChars(ds');
      assert Chars(ds)[..|ds| - 1] == Chars(ds');
      assert Reversed(ds) == [ds[|ds| - 1]] + Reversed(ds');
      assert Reversed(ds)[1..] == Reversed(ds');
    }
  }

  lemma ReversedReversed<T>(s: seq<T>)
    ensures Reversed(Reversed(s)) == s
  {
  }

  lemma ReversedDigits(ds: seq<int>)
    requires AllDigits(ds)
    ensures AllDigits(Reversed(ds))
  {
  }

  lemma ReversedChars(ds: seq<int>)
    requires AllDigits(ds)
    ensures AllDigits(Reversed(ds)) && Reversed(Chars(ds)) == Chars(Reversed(ds))
  {
  }

  /** Digit lists of the same length and value are equal. */
  lemma {:induction false} ValueLEInjective(xs: seq<int>, ys: seq<int>)
    requires AllDigits(xs) && AllDigits(ys) && |xs| == |ys| && ValueLE(xs) == ValueLE(ys)
    ensures xs == ys
    decreases |xs|
  {
    if xs != [] {
      DivModUnique(ValueLE(xs), 10, ValueLE(xs[1..]), xs[0]);
      DivModUnique(ValueLE(ys), 10, ValueLE(ys[1..]), ys[0]);
      ValueLEInjective(xs[1..], ys[1..]);
      assert xs == [xs[0]] + xs[1..];
      assert ys == [ys[0]] + ys[1..];
    }
  }

  /** A digit list of length `k` has a value below `10 ** k`. */
  lemma {:induction false} ValueLEBound(ds: seq<int>)
    requires AllDigits(ds)
    ensures 0 <= ValueLE(ds) < Pow10(|ds|)
    decreases |ds|
  {
    if ds != [] {
      ValueLEBound(ds[1..]);
    }
  }

  /** Appending a digit `d` at the most significant end adds `d * 10 ** |ds|`. */
  lemma {:induction false} ValueLESnoc(ds: seq<int>, d: int)
    ensures ValueLE(ds + [d]) == ValueLE(ds) + d * Pow10(|ds|)
    decreases |ds|
  {
    if ds == [] {
      assert ValueLE([d]) == d + 10 * ValueLE([]);
    } else {
      assert (ds + [d])[1..] == ds[1..] + [d];
      ValueLESnoc(ds[1..], d);
    }
  }

  /** The number of digits of `n >= 1` is the `k` with `10 ** (k-1) <= n < 10 ** k`. */
  lemma DigitsLEBounds(n: nat)
    ensures n < Pow10(|DigitsLE(n)|)
    ensures n >= 1 ==> Pow10(|DigitsLE(n)| - 1) <= n
  {
    var ds := DigitsLE(n);
    ValueLEBound(ds);
    if n >= 1 {
      var k := |ds| - 1;
      assert ds == ds[..k] + [ds[k]];
      ValueLESnoc(ds[..k], ds[k]);
      ValueLEBound(ds[..k]);
      assert ds[k] >= 1;
    }
  }

  /** `JoinStrings` of single digits is their characters. */
  lemma {:induction false} JoinDigits(ds: seq<int>)
    requires AllDigits(ds)
    ensures JoinStrings(ds) == Chars(ds)
    decreases |ds|
  {
    if ds != [] {
      JoinDigits(ds[1..]);
      OneDigitString(ds[0]);
      CharsCons(ds);
    }
  }

  /** `str(n)` of a single digit is its character. */
  lemma OneDigitString(n: nat)
    requires n < 10
    ensures NatString(n) == [DigitChar(n)]
  {
    assert n / 10 == 0 && n % 10 == n;
  }

  lemma CharsCons(ds: seq<int>)
    requires |ds| >= 1 && AllDigits(ds)
    ensures Chars(ds) == [DigitChar(ds[0])] + Chars(ds[1..])
  {
  }

  /** The join of non-negative ints is a non-empty digit string when the list is
      non-empty. */
  lemma {:induction false} JoinNonNegative(xs: seq<int>)
    requires forall i :: 0 <= i < |xs| ==> xs[i] >= 0
    ensures AllDigitChars(JoinStrings(xs))
    ensures xs != [] ==> |JoinStrings(xs)| >= 1
    decreases |xs|
  {
    if xs != [] {
      JoinNonNegative(xs[1..]);
      AppendDigitChars(IntString(xs[0]), JoinStrings(xs[1..]));
    }
  }

  lemma AppendDigitChars(s: string, t: string)
    requires AllDigitChars(s) && AllDigitChars(t)
    ensures AllDigitChars(s + t)
  {
  }

  /** A negative entry puts a minus sign into the join. */
  lemma {:induction false} JoinNegative(xs: seq<int>, i: int)
    requires 0 <= i < |xs| && xs[i] < 0
    ensures !AllDigitChars(JoinStrings(xs))
    decreases |xs|
  {
    var head := IntString(xs[0]);
    if i == 0 {
      assert JoinStrings(xs)[0] == '-';
    } else {
      JoinNegative(xs[1..], i - 1);
      var rest := JoinStrings(xs[1..]);
      var j :| 0 <= j < |rest| && !IsDigitChar(rest[j]);
      assert JoinStrings(xs)[|head| + j] == rest[j];
    }
  }

}
