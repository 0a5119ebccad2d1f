/** Roman numerals: `roman2arabic` reads a numeral with the subtraction rule and
    `arabic2roman` writes the greedy form from the table of thirteen values. */
module Roman {
  import opened Wrappers

  /** The keys of `rc2a`. */
  predicate IsRomanLetter(c: char)
  {
    c == 'I' || c == 'V' || c == 'X' || c == 'L' || c == 'C' || c == 'D' || c == 'M'
  }

  predicate AllRomanLetters(s: string)
  {
    forall i :: 0 <= i < |s| ==> IsRomanLetter(s[i])
  }

  /** `rc2a[c]`. */
  function LetterValue(c: char): (v: int)
    requires IsRomanLetter(c)
    ensures v >= 1
  {
    match c
    case 'I' => 1
    case 'V' => 5
    case 'X' => 10
    case 'L' => 50
    case 'C' => 100
    case 'D' => 500
    case 'M' => 1000
  }

  /** The sum `roman2arabic` forms: each letter counts positively when it is
      the last one or the next letter is worth no more, negatively otherwise. */
  function SignedSum(s: string): int
    requires AllRomanLetters(s)
    decreases |s|
  {
    if s == [] then 0
    else
      var v := LetterValue(s[0]);
      (if |s| == 1 || LetterValue(s[1]) <= v then v else -v) + SignedSum(s[1..])
  }

  /** `roman2arabic(num)`: a letter outside `rc2a` raises KeyError. A numeral
      whose letters never increase in value, such as the additive XXXXVIIII,
      reads as the plain sum of its letters. */
  function RomanToArabic(num: string): (r: Option<int>)
    ensures r.Some? <==> AllRomanLetters(num)
    ensures r.Some? ==> r.value == SignedSum(num)
    ensures AllRomanLetters(num) && NonIncreasing(num) ==> r == Some(LetterSum(num))
  {
    if AllRomanLetters(num) then
      if NonIncreasing(num) then
        NonIncreasingReadsAsSum(num);
        Some(SignedSum(num))
      else
        Some(SignedSum(num))
    else
      None
  }

  /** No letter is worth more than one before it. */
  predicate NonIncreasing(s: string)
    requires AllRomanLetters(s)
  {
    forall i, j :: 0 <= i < j < |s| ==> LetterValue(s[j]) <= LetterValue(s[i])
  }

  /** The values of the letters added up, ignoring their order. */
  function LetterSum(s: string): int
    requires AllRomanLetters(s)
    decreases |s|
  {
    if s == [] then 0 else LetterValue(s[0]) + LetterSum(s[1..])
  }

  /** The subtraction rule never applies to a numeral whose letters do not
      increase, so the signed sum is the plain sum. */
  lemma {:induction false} NonIncreasingReadsAsSum(s: string)
    requires AllRomanLetters(s) && NonIncreasing(s)
    ensures SignedSum(s) == LetterSum(s)
    decreases |s|
  {
    if s != [] {
      var t := s[1..];
      assert AllRomanLetters(t) by {
        forall i | 0 <= i < |t| ensures IsRomanLetter(t[i]) {
          assert t[i] == s[i + 1];
        }
      }
      assert NonIncreasing(t) by {
        forall i, j | 0 <= i < j < |t| ensures LetterValue(t[j]) <= LetterValue(t[i]) {
          assert t[i] == s[i + 1] && t[j] == s[j + 1];
        }
      }
      NonIncreasingReadsAsSum(t);
      if |s| > 1 {
        assert LetterValue(s[1]) <= LetterValue(s[0]);
      }
    }
  }

  /** The keys of `a2rc` in its iteration order, and their numerals. */
  const Values: seq<int> := [1000, 900, 500, 400, 100, 90, 50, 40, 10, 9, 5, 4, 1]
  const Numerals: seq<string> := ["M", "CM", "D", "CD", "C", "XC", "L", "XL", "X", "IX", "V", "IV", "I"]

  /** What `arabic2roman` appends from table entry `i` on when `n` is left. */
  function RomanFrom(n: nat, i: nat): string
    requires i <= 13
    decreases 13 - i, n
  {
    if i == 13 then ""
    else if n >= Values[i] then Numerals[i] + RomanFrom(n - Values[i], i)
    else RomanFrom(n, i + 1)
  }

  /** `arabic2roman(n)`: for each table entry, appends its numeral while `n` is
      at least its value and subtracts the value. A negative `n` is left over
      and fails `assert n == 0`. */
  method ArabicToRoman(n0: int) returns (r: Option<string>)
    ensures n0 < 0 ==> r == None
    ensures n0 >= 0 ==> r == Some(RomanFrom(n0, 0))
  {
    var s := "";
    var n := n0;
    var i := 0;
    while i < 13
      invariant 0 <= i <= 13
      invariant n0 >= 0 ==> 0 <= n && (i > 0 ==> n < Values[i - 1]) && s + RomanFrom(n, i) == RomanFrom(n0, 0)
      invariant n0 < 0 ==> n == n0
    {
      while n >= Values[i]
        invariant n0 >= 0 ==> 0 <= n && (i > 0 ==> n < Values[i - 1]) && s + RomanFrom(n, i) == RomanFrom(n0, 0)
        invariant n0 < 0 ==> n == n0
        decreases n
      {
        RomanFromStep(s, n, i);
        s := s + Numerals[i];
        n := n - Values[i];
      }
      i := i + 1;
    }
    if n0 >= 0 {
      assert n == 0 && RomanFrom(n, 13) == "";
      assert s + "" == s;
    }
    if n != 0 {
      return None;
    }
    r := Some(s);
  }

  /** One step of the inner loop: the numeral of entry `i` moves from what is
      left to write onto what is written. */
  lemma RomanFromStep(s: string, n: nat, i: nat)
    requires i < 13 && n >= Values[i]
    ensures s + RomanFrom(n, i) == (s + Numerals[i]) + RomanFrom(n - Values[i], i)
  {
    assert RomanFrom(n, i) == Numerals[i] + RomanFrom(n - Values[i], i);
  }

  function LastValue(s: string): int
    requires |s| >= 1 && AllRomanLetters(s)
  {
    LetterValue(s[|s| - 1])
  }

  /** A bound on the first letter of the numerals from entry `i` on. */
  const FirstBound: seq<int> := [1000, 500, 500, 100, 100, 50, 50, 10, 10, 5, 5, 1, 1]

  /** Entries of the table: each numeral is made of Roman letters and reads
      back as its value; its first letter is within `FirstBound`, the bound does
      not grow from one entry to the next, and no numeral from entry `i` on
      starts with a letter worth more than the one numeral `i` ends with. */
  lemma TableEntry(i: nat)
    requires i < 13
    ensures |Numerals[i]| >= 1 && AllRomanLetters(Numerals[i])
    ensures SignedSum(Numerals[i]) == Values[i]
    ensures LetterValue(Numerals[i][0]) <= FirstBound[i]
    ensures i + 1 < 13 ==> FirstBound[i + 1] <= FirstBound[i]
    ensures FirstBound[i] <= LastValue(Numerals[i])
  {
    TableNumeral(i);
    TableBounds(i);
  }

  /** Each numeral of the table is made of Roman letters and reads back as its
      value. */
  lemma TableNumeral(i: nat)
    requires i < 13
    ensures |Numerals[i]| >= 1 && AllRomanLetters(Numerals[i])
    ensures SignedSum(Numerals[i]) == Values[i]
  {
    assert SignedSum("") == 0;
    if i < 6 {
      NumeralsFromThousand(i);
    } else {
      NumeralsFromFifty(i);
    }
  }

  /** The numerals from "M" to "XC". */
  lemma NumeralsFromThousand(i: nat)
    requires i < 6
    ensures |Numerals[i]| >= 1 && AllRomanLetters(Numerals[i])
    ensures SignedSum(Numerals[i]) == Values[i]
  {
    assert SignedSum("") == 0;
    if i == 0 {
      assert SignedSum("M") == 1000;
    } else if i == 1 {
      assert SignedSum("CM") == -100 + SignedSum("M");
    } else if i == 2 {
      assert SignedSum("D") == 500;
    } else if i == 3 {
      assert SignedSum("CD") == -100 + SignedSum("D");
    } else if i == 4 {
      assert SignedSum("C") == 100;
    } else {
      assert SignedSum("XC") == -10 + SignedSum("C");
    }
  }

  /** The numerals from "L" to "I". */
  lemma NumeralsFromFifty(i: nat)
    requires 6 <= i < 13
    ensures |Numerals[i]| >= 1 && AllRomanLetters(Numerals[i])
    ensures SignedSum(Numerals[i]) == Values[i]
  {
    assert SignedSum("") == 0;
    if i == 6 {
      assert SignedSum("L") == 50;
    } else if i == 7 {
      assert SignedSum("XL") == -10 + SignedSum("L");
    } else if i == 8 {
      assert SignedSum("X") == 10;
    } else if i == 9 {
      assert SignedSum("IX") == -1 + SignedSum("X");
    } else if i == 10 {
      assert SignedSum("V") == 5;
    } else if i == 11 {
      assert SignedSum("IV") == -1 + SignedSum("V");
    } else {
      assert SignedSum("I") == 1;
    }
  }

  /** The first and last letters of each numeral against `FirstBound`. */
  lemma TableBounds(i: nat)
    requires i < 13
    ensures |Numerals[i]| >= 1 && AllRomanLetters(Numerals[i])
    ensures LetterValue(Numerals[i][0]) <= FirstBound[i]
    ensures i + 1 < 13 ==> FirstBound[i + 1] <= FirstBound[i]
    ensures FirstBound[i] <= LastValue(Numerals[i])
  {
  }

  /** Reading `x + y` is reading `x` and `y` apart when `y` does not start with a
      letter worth more than the last letter of `x`. */
  lemma {:induction false} SignedSumAppend(x: string, y: string)
    requires |x| >= 1 && AllRomanLetters(x) && AllRomanLetters(y)
    requires y == [] || LetterValue(y[0]) <= LastValue(x)
    ensures AllRomanLetters(x + y)
    ensures SignedSum(x + y) == SignedSum(x) + SignedSum(y)
    decreases |x|
  {
    var xy := x + y;
    assert xy[0] == x[0];
    if |x| == 1 {
      assert xy[1..] == y;
      if y != [] {
        assert xy[1] == y[0];
      }
    } else {
      assert xy[1..] == x[1..] + y;
      assert xy[1] == x[1];
      SignedSumAppend(x[1..], y);
    }
  }

  /** Every letter `RomanFrom` writes from entry `j` on is a Roman letter, and
      the first one is within `FirstBound[j]`. */
  lemma {:induction false} RomanFromShape(n: nat, j: nat)
    requires j < 13
    ensures AllRomanLetters(RomanFrom(n, j))
    ensures RomanFrom(n, j) == [] || LetterValue(RomanFrom(n, j)[0]) <= FirstBound[j]
    decreases 13 - j, n
  {
    if n >= Values[j] {
      RomanFromShape(n - Values[j], j);
      NumeralInFront(n, j);
    } else if j + 1 < 13 {
      RomanFromShape(n, j + 1);
      TableEntry(j);
    } else {
      assert RomanFrom(n, j + 1) == "";
    }
  }

  /** The step of `RomanFromShape` that writes the numeral of entry `j`. */
  lemma NumeralInFront(n: nat, j: nat)
    requires j < 13 && n >= Values[j]
    requires AllRomanLetters(RomanFrom(n - Values[j], j))
    ensures AllRomanLetters(RomanFrom(n, j))
    ensures LetterValue(RomanFrom(n, j)[0]) <= FirstBound[j]
  {
    TableEntry(j);
    var rest := RomanFrom(n - Values[j], j);
    AppendRomanLetters(Numerals[j], rest);
    assert RomanFrom(n, j)[0] == Numerals[j][0];
  }

  lemma AppendRomanLetters(x: string, y: string)
    requires AllRomanLetters(x) && AllRomanLetters(y)
    ensures AllRomanLetters(x + y)
  {
    assert forall k :: |x| <= k < |x + y| ==> (x + y)[k] == y[k - |x|];
  }

  /** `roman2arabic` reads back what `arabic2roman` writes. */
  lemma {:induction false} RomanFromReadsBack(n: nat, i: nat)
    requires i <= 13 && (i == 0 || n < Values[i - 1])
    ensures AllRomanLetters(RomanFrom(n, i)) && SignedSum(RomanFrom(n, i)) == n
    decreases 13 - i, n
  {
    if i < 13 {
      if n >= Values[i] {
        RomanFromReadsBack(n - Values[i], i);
        ReadsBackOneNumeral(n, i);
      } else {
        RomanFromReadsBack(n, i + 1);
        assert RomanFrom(n, i) == RomanFrom(n, i + 1);
      }
    }
  }

  /** Writing the numeral of entry `i` in front of what reads back as `n - v`
      reads back as `n`. */
  lemma ReadsBackOneNumeral(n: nat, i: nat)
    requires i < 13 && n >= Values[i]
    requires AllRomanLetters(RomanFrom(n - Values[i], i)) && SignedSum(RomanFrom(n - Values[i], i)) == n - Values[i]
    ensures AllRomanLetters(RomanFrom(n, i)) && SignedSum(RomanFrom(n, i)) == n
  {
    var numeral, v := Numerals[i], Values[i];
    var rest := RomanFrom(n - v, i);
    assert RomanFrom(n, i) == numeral + rest;
    TableEntry(i);
    RomanFromShape(n - v, i);
    SignedSumAppend(numeral, rest);
  }

  /** The round trip for every non-negative number. */
  lemma RomanRoundTrip(n: nat)
    ensures RomanToArabic(RomanFrom(n, 0)) == Some(n)
  {
    RomanFromReadsBack(n, 0);
  }

  // ---------------------------------------------------------------------------
  // The docstring examples

  /** The additive numeral of the `roman2arabic` docstring reads as 49. */
  lemma AdditiveFortyNine()
    ensures RomanToArabic("XXXXVIIII") == Some(49)
  {
    assert "XXXXVIIII" == "XXXX" + "VIIII";
    SignedSumAppend("XXXX", "VIIII");
    FourTens();
    FiveAndFourOnes();
  }

  lemma FourTens()
    ensures SignedSum("XXXX") == 40
  {
  }

  lemma FiveAndFourOnes()
    ensures SignedSum("VIIII") == 9
  {
  }

  /** The other numeral of the `roman2arabic` docstring, LXIX, reads as 69 and
      not as the 49 the docstring gives. */
  lemma SixtyNine()
    ensures RomanToArabic("LXIX") == Some(69)
  {
  }

  /** The numeral with the subtraction rule that does read as 49 is XLIX. */
  lemma SubtractiveFortyNine()
    ensures RomanToArabic("XLIX") == Some(49)
  {
  }

  /** `arabic2roman(49)` writes XLIX (by the `ensures` of `ArabicToRoman`), not
      the LXIX of its docstring. */
  lemma FortyNineWritten()
    ensures RomanFrom(49, 0) == "XLIX"
    ensures RomanFrom(49, 0) != "LXIX"
  {
  }

}
