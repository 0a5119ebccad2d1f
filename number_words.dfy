/** `write_number`: English words for the numbers up to one thousand, built by
    appending to a string, and the word tokens they spell out. */
module NumberWords {
  import opened Wrappers
  import opened NumberTheory
  import opened Decimal

  /** `words`: the names of 0 to 20. */
  const Words: seq<string> := [
    "zero", "one", "two", "three", "four", "five", "six", "seven", "eight", "nine", "ten",
    "eleven", "twelve", "thirteen", "fourteen", "fifteen", "sixteen", "seventeen", "eighteen",
    "nineteen", "twenty"]

  /** `tens`: the names of the multiples of ten. Entry 0 is None in the source and
      is never read; it is the empty string here. */
  const Tens: seq<string> := [
    "", "ten", "twenty", "thirty", "forty", "fifty", "sixty", "seventy", "eighty", "ninety",
    "onehundred"]

  // ---------------------------------------------------------------------------
  // Reading the digits through `str`

  lemma TwoDigitString(n: nat)
    requires 10 <= n < 100
    ensures NatString(n) == [DigitChar(n / 10), DigitChar(n % 10)]
  {
    var m := n / 10;
    assert 1 <= m < 10;
    OneDigitString(m);
    assert NatString(n) == NatString(m) + [DigitChar(n % 10)];
  }

  lemma ThreeDigitString(n: nat)
    requires 100 <= n < 1000
    ensures NatString(n) == [DigitChar(n / 100), DigitChar(n / 10 % 10), DigitChar(n % 10)]
  {
    var m := n / 10;
    assert 10 <= m < 100 && m / 10 == n / 100 && m % 10 == n / 10 % 10;
    TwoDigitString(m);
    assert NatString(n) == NatString(m) + [DigitChar(n % 10)];
  }

  /** The decimal string of `n` has one character below 10 and more from 10 on. */
  lemma NatStringLength(n: nat)
    ensures n < 10 ==> |NatString(n)| == 1
    ensures n >= 10 ==> |NatString(n)| >= 2
  {
    if n < 10 {
      OneDigitString(n);
    } else {
      assert NatString(n) == NatString(n / 10) + [DigitChar(n % 10)];
    }
  }

  /** `int(str(n)[0])`: the leading digit. */
  function LeadingDigit(n: nat): (d: int)
    ensures 0 <= d <= 9
    ensures n < 10 ==> d == n
    ensures 10 <= n < 100 ==> d == n / 10
    ensures 100 <= n < 1000 ==> d == n / 100
  {
    LeadingDigitValue(n);
    CharValue(NatString(n)[0])
  }

  lemma LeadingDigitValue(n: nat)
    ensures n < 10 ==> CharValue(NatString(n)[0]) == n
    ensures 10 <= n < 100 ==> CharValue(NatString(n)[0]) == n / 10
    ensures 100 <= n < 1000 ==> CharValue(NatString(n)[0]) == n / 100
  {
    if n < 10 {
      OneDigitString(n);
    } else if n < 100 {
      TwoDigitString(n);
    } else if n < 1000 {
      ThreeDigitString(n);
    }
  }

  /** `int(str(n)[1:])`: the number without its leading digit. A one-digit `n`
      leaves the empty string, which `int` rejects with ValueError. */
  function DropLeadingDigit(n: nat): (r: Option<int>)
    ensures r.Some? <==> n >= 10
    ensures 10 <= n < 100 ==> r == Some(n % 10)
    ensures 100 <= n < 1000 ==> r == Some(n % 100)
  {
    TailValue(n);
    ParseInt(NatString(n)[1..])
  }

  /** The digits after the leading one, and their value for two and three
      digits. */
  lemma TailValue(n: nat)
    ensures AllDigitChars(NatString(n)[1..])
    ensures |NatString(n)[1..]| >= 1 <==> n >= 10
    ensures 10 <= n < 100 ==> StrValue(NatString(n)[1..]) == n % 10
    ensures 100 <= n < 1000 ==> StrValue(NatString(n)[1..]) == n % 100
  {
    NatStringLength(n);
    var s := NatString(n);
    assert AllDigitChars(s[1..]);
    if 10 <= n < 100 {
      TwoDigitTail(n);
    } else if 100 <= n < 1000 {
      ThreeDigitTail(n);
    }
  }

  lemma TwoDigitTail(n: nat)
    requires 10 <= n < 100
    ensures AllDigitChars(NatString(n)[1..]) && StrValue(NatString(n)[1..]) == n % 10
  {
    TwoDigitString(n);
    var t := NatString(n)[1..];
    assert t == [DigitChar(n % 10)];
    assert t[..0] == [];
    assert StrValue(t) == 10 * StrValue([]) + n % 10;
  }

  lemma ThreeDigitTail(n: nat)
    requires 100 <= n < 1000
    ensures AllDigitChars(NatString(n)[1..]) && StrValue(NatString(n)[1..]) == n % 100
  {
    ThreeDigitString(n);
    var t := NatString(n)[1..];
    var a, b := n / 10 % 10, n % 10;
    assert t == [DigitChar(a), DigitChar(b)];
    assert t[..1] == [DigitChar(a)];
    assert t[..1][..0] == [];
    assert StrValue(t[..1]) == 10 * StrValue([]) + a;
    assert StrValue(t) == 10 * a + b;
    LastTwoDigits(n);
  }

  lemma LastTwoDigits(n: nat)
    ensures n % 100 == 10 * (n / 10 % 10) + n % 10
  {
    var q := n / 10;
    assert n == 10 * q + n % 10;
    assert q == 10 * (q / 10) + q % 10;
    assert n == 100 * (q / 10) + (10 * (q % 10) + n % 10);
    DivModUnique(n, 100, q / 10, 10 * (q % 10) + n % 10);
  }

  // ---------------------------------------------------------------------------
  // The words of a number

  /** A word of the text: a number name, "hundred", "thousand" or "and". */
  datatype Word = Number(v: nat) | Hundred | Thousand | And

  /** The number words `write_number` can name: 0 to 19 from `words`, the
      multiples of ten up to ninety from `tens`. */
  predicate Nameable(w: Word)
  {
    w.Number? ==> w.v < 20 || (w.v <= 90 && w.v % 10 == 0)
  }

  predicate AllNameable(ws: seq<Word>)
  {
    forall i :: 0 <= i < |ws| ==> Nameable(ws[i])
  }

  function Name(w: Word): string
    requires Nameable(w)
  {
    match w
    case Number(v) => if v < 20 then Words[v] else Tens[v / 10]
    case Hundred => "hundred"
    case Thousand => "thousand"
    case And => "and"
  }

  function Names(ws: seq<Word>): (r: seq<string>)
    requires AllNameable(ws)
    ensures |r| == |ws| && forall i :: 0 <= i < |ws| ==> r[i] == Name(ws[i])
  {
    seq(|ws|, i requires 0 <= i < |ws| => Name(ws[i]))
  }

  /** The words for `0 <= n < 100`: none for 0, one name below 20, otherwise the
      tens followed by the units when they are not zero. */
  function BelowHundred(n: int): (ws: seq<Word>)
    requires 0 <= n < 100
    ensures AllNameable(ws)
  {
    if n == 0 then []
    else if n < 20 then [Number(n)]
    else [Number(n / 10 * 10)] + (if n % 10 == 0 then [] else [Number(n % 10)])
  }

  /** The words for `n <= 1000`: "one thousand", or the hundreds followed by
      "and" when something follows, then the words below a hundred. */
  function WordList(n: int): (ws: seq<Word>)
    requires n <= 1000
    ensures AllNameable(ws)
  {
    if n <= 0 then []
    else if n == 1000 then [Number(1), Thousand]
    else if n >= 100 then
      [Number(n / 100), Hundred] + (if n % 100 > 0 then [And] else []) + BelowHundred(n % 100)
    else BelowHundred(n)
  }

  /** Each name preceded by one space. */
  function Spaced(names: seq<string>): string
    decreases |names|
  {
    if names == [] then "" else Spaced(names[..|names| - 1]) + " " + names[|names| - 1]
  }

  /** The text of a word list: the names, each after a space. */
  function Text(ws: seq<Word>): string
    requires AllNameable(ws)
  {
    Spaced(Names(ws))
  }

  lemma TextAppend(ws: seq<Word>, w: Word)
    requires AllNameable(ws) && Nameable(w)
    ensures AllNameable(ws + [w])
    ensures Text(ws + [w]) == Text(ws) + " " + Name(w)
  {
    var names := Names(ws + [w]);
    assert names[..|ws|] == Names(ws);
  }

  /** The value a word list spells: number words add, "hundred" and
      "thousand" multiply what came before, "and" is skipped. */
  function ReadWord(acc: int, w: Word): int
  {
    match w
    case Number(v) => acc + v
    case Hundred => acc * 100
    case Thousand => acc * 1000
    case And => acc
  }

  function ReadWords(ws: seq<Word>, acc: int): int
    decreases |ws|
  {
    if ws == [] then acc else ReadWords(ws[1..], ReadWord(acc, ws[0]))
  }

  // ---------------------------------------------------------------------------
  // write_number

  /** `write_number(n)` for `n <= 1000`: appends "one thousand" for 1000, the
      hundreds and " hundred", " and" when something was written and more
      follows, then the tens and the units. The text is the word list with a
      space before each word except a leading thousand or hundreds, and
      splitting it at spaces gives the names of the words. */
  method WriteNumber(n0: int) returns (s: string)
    requires n0 <= 1000
    ensures n0 >= 100 ==> " " + s == Text(WordList(n0))
    ensures n0 < 100 ==> s == Text(WordList(n0))
    ensures SplitWords(s) == Names(WordList(n0))
  {
    s := "";
    var n := n0;
    ghost var head: seq<Word> := [];
    var something := false;
    if n >= 1000 {
      s := s + "one thousand";
      n := n - 1000;
      something := true;
      head := [Number(1), Thousand];
      ThousandText();
    }
    if n >= 100 {
      var h := LeadingDigit(n);
      s := s + Words[h];
      s := s + " hundred";
      head := [Number(h), Hundred];
      HundredText(h);
      n := DropLeadingDigit(n).value;
      something := true;
    }
    assert something <==> head != [];
    assert something ==> " " + s == Text(head);
    assert !something ==> s == "";
    if something && n > 0 {
      TextAppend(head, And);
      SpaceAnd(s);
      s := s + " and";
      head := head + [And];
    }
    ghost var before := s;
    s := AppendBelowHundred(s, n);
    ghost var tail := if n <= 0 then "" else Text(BelowHundred(n));
    assert s == before + tail;
    if n0 >= 0 {
      WordListSplit(n0);
      assert WordList(n0) == head + BelowHundred(n);
      TextConcat(head, BelowHundred(n));
      if something {
        SpaceConcat(before, tail);
      } else {
        assert s == Text(BelowHundred(n));
      }
    }
    TextSplits(n0, s);
  }

  /** The tens and units steps of `write_number`: from `n >= 20` on appends the
      tens after a space and keeps the units, then appends the units after a
      space when they are not zero. */
  method AppendBelowHundred(s0: string, n0: int) returns (s: string)
    requires n0 < 100
    ensures n0 <= 0 ==> s == s0
    ensures n0 > 0 ==> s == s0 + Text(BelowHundred(n0))
  {
    s := s0;
    var n := n0;
    ghost var added := "";
    assert s == s0 + added;
    if n >= 20 {
      var tens := Tens[LeadingDigit(n)];
      AppendSpaced(s0, added, tens);
      s := s + " " + tens;
      added := added + " " + tens;
      n := DropLeadingDigit(n).value;
      assert n == n0 % 10 && added == "" + " " + Tens[n0 / 10];
    }
    if n > 0 {
      var units := Words[n];
      AppendSpaced(s0, added, units);
      s := s + " " + units;
      added := added + " " + units;
    }
    assert s == s0 + added;
    if n0 > 0 {
      BelowHundredText(n0);
      assert added == Text(BelowHundred(n0));
    }
  }

  /** Appending a spaced word after `a + b` is appending it after `b`. */
  lemma AppendSpaced(a: string, b: string, w: string)
    ensures (a + b) + " " + w == a + (b + " " + w)
  {
  }

  /** The text of the words below a hundred. */
  lemma BelowHundredText(n: int)
    requires 0 < n < 100
    ensures n < 20 ==> Text(BelowHundred(n)) == " " + Words[n]
    ensures n >= 20 && n % 10 == 0 ==> Text(BelowHundred(n)) == "" + " " + Tens[n / 10]
    ensures n >= 20 && n % 10 != 0 ==>
      Text(BelowHundred(n)) == "" + " " + Tens[n / 10] + " " + Words[n % 10]
  {
    if n < 20 {
      assert BelowHundred(n) == [Number(n)];
      OneWordText(Number(n));
    } else {
      var tens := Number(n / 10 * 10);
      assert Name(tens) == Tens[n / 10] by {
        assert (n / 10 * 10) / 10 == n / 10;
      }
      if n % 10 == 0 {
        assert BelowHundred(n) == [tens];
        OneWordText(tens);
        EmptyBeforeSpace(Name(tens));
      } else {
        assert BelowHundred(n) == [tens, Number(n % 10)];
        TwoWordsText(tens, Number(n % 10));
        EmptyBeforeSpace(Name(tens));
      }
    }
  }

  lemma EmptyBeforeSpace(w: string)
    ensures "" + " " + w == " " + w
  {
  }

  /** The text of one word. */
  lemma OneWordText(w: Word)
    requires Nameable(w)
    ensures Text([w]) == " " + Name(w)
  {
    var names := Names([w]);
    assert names == [Name(w)];
    assert names[..|names| - 1] == [];
    assert Spaced(names) == Spaced([]) + " " + Name(w);
    EmptyBeforeSpace(Name(w));
  }

  /** The text of two word lists one after the other. */
  lemma TextConcat(xs: seq<Word>, ys: seq<Word>)
    requires AllNameable(xs) && AllNameable(ys)
    ensures AllNameable(xs + ys)
    ensures Text(xs + ys) == Text(xs) + Text(ys)
  {
    assert Names(xs + ys) == Names(xs) + Names(ys);
    SpacedConcat(Names(xs), Names(ys));
  }

  /** Spacing two name lists one after the other. */
  lemma {:induction false} SpacedConcat(xs: seq<string>, ys: seq<string>)
    ensures Spaced(xs + ys) == Spaced(xs) + Spaced(ys)
    decreases |ys|
  {
    if ys == [] {
      assert xs + ys == xs;
    } else {
      var init := ys[..|ys| - 1];
      var last := ys[|ys| - 1];
      assert (xs + ys)[..|xs + ys| - 1] == xs + init;
      assert (xs + ys)[|xs + ys| - 1] == last;
      SpacedConcat(xs, init);
    }
  }

  /** The word list is the head written by the thousand and hundreds steps
      followed by the words below a hundred. */
  lemma WordListSplit(n: int)
    requires 0 <= n <= 1000
    ensures n == 1000 ==> WordList(n) == [Number(1), Thousand] + BelowHundred(0)
    ensures 100 <= n < 1000 ==>
      WordList(n) == [Number(n / 100), Hundred] + (if n % 100 > 0 then [And] else []) + BelowHundred(n % 100)
    ensures n < 100 ==> WordList(n) == BelowHundred(n)
  {
  }

  /** The text of two words. */
  lemma TwoWordsText(a: Word, b: Word)
    requires Nameable(a) && Nameable(b)
    ensures Text([a, b]) == " " + Name(a) + " " + Name(b)
  {
    TextAppend([a], b);
    assert [a] + [b] == [a, b];
    OneWordText(a);
  }

  lemma ThousandText()
    ensures " " + ("" + "one thousand") == Text([Number(1), Thousand])
  {
    TwoWordsText(Number(1), Thousand);
    OneThousand(Words[1]);
  }

  lemma OneThousand(one: string)
    requires one == "one"
    ensures " " + ("" + "one thousand") == " " + one + " " + "thousand"
  {
  }

  lemma HundredText(h: nat)
    requires h < 20
    ensures " " + ("" + Words[h] + " hundred") == Text([Number(h), Hundred])
  {
    TwoWordsText(Number(h), Hundred);
    SpaceHundred(Words[h]);
  }

  lemma SpaceHundred(w: string)
    ensures " " + ("" + w + " hundred") == " " + w + " " + "hundred"
  {
  }

  lemma SpaceAnd(s: string)
    ensures " " + (s + " and") == (" " + s) + " " + "and"
  {
  }

  lemma SpaceConcat(a: string, b: string)
    ensures " " + (a + b) == (" " + a) + b
  {
  }

  /** The text `write_number` builds splits into the names of its words. */
  lemma TextSplits(n: int, s: string)
    requires n <= 1000
    requires n >= 100 ==> " " + s == Text(WordList(n))
    requires n < 100 ==> s == Text(WordList(n))
    ensures SplitWords(s) == Names(WordList(n))
  {
    var ws := WordList(n);
    WordListWords(ws);
    SplitSpaced(Names(ws));
    if n >= 100 {
      SplitLeadingSpace(s);
    }
  }

  // ---------------------------------------------------------------------------
  // Splitting a text into words

  /** A word: at least one character and no space. */
  predicate IsWord(w: string)
  {
    |w| >= 1 && forall i :: 0 <= i < |w| ==> w[i] != ' '
  }

  /** The characters after the last space. */
  function LastWord(s: string): (w: string)
    ensures |w| <= |s|
    ensures s != [] && s[|s| - 1] != ' ' ==> |w| >= 1
    decreases |s|
  {
    if s == [] || s[|s| - 1] == ' ' then [] else LastWord(s[..|s| - 1]) + [s[|s| - 1]]
  }

  /** The words of `s`, split at spaces; runs of spaces separate nothing. */
  function SplitWords(s: string): seq<string>
    decreases |s|
  {
    if s == [] then []
    else if s[|s| - 1] == ' ' then SplitWords(s[..|s| - 1])
    else
      var w := LastWord(s);
      SplitWords(s[..|s| - |w|]) + [w]
  }

  /** The last word of `x + " " + w` is `w`, for a `w` without spaces. */
  lemma {:induction false} LastWordAfterSpace(x: string, w: string)
    requires forall i :: 0 <= i < |w| ==> w[i] != ' '
    ensures LastWord(x + " " + w) == w
    decreases |w|
  {
    var s := x + " " + w;
    if w != [] {
      var w' := w[..|w| - 1];
      assert s[..|s| - 1] == x + " " + w';
      LastWordAfterSpace(x, w');
      assert w == w' + [w[|w| - 1]];
    }
  }

  /** Splitting the spaced words gives the words back. */
  lemma {:induction false} SplitSpaced(names: seq<string>)
    requires forall i :: 0 <= i < |names| ==> IsWord(names[i])
    ensures SplitWords(Spaced(names)) == names
    decreases |names|
  {
    if names != [] {
      var init := names[..|names| - 1];
      var w := names[|names| - 1];
      var x := Spaced(init);
      var s := x + " " + w;
      assert Spaced(names) == s;
      LastWordAfterSpace(x, w);
      assert s[..|s| - |w|] == x + " ";
      assert (x + " ")[..|x|] == x;
      SplitSpaced(init);
      assert names == init + [w];
    }
  }

  lemma {:induction false} LastWordLeadingSpace(s: string)
    ensures LastWord(" " + s) == LastWord(s)
    decreases |s|
  {
    if s != [] && s[|s| - 1] != ' ' {
      assert (" " + s)[..|s|] == " " + s[..|s| - 1];
      LastWordLeadingSpace(s[..|s| - 1]);
    }
  }

  /** A space in front adds no word. */
  lemma {:induction false} SplitLeadingSpace(s: string)
    ensures SplitWords(" " + s) == SplitWords(s)
    decreases |s|
  {
    var t := " " + s;
    if s == [] {
      assert t[..0] == [];
    } else if s[|s| - 1] == ' ' {
      assert t[..|t| - 1] == " " + s[..|s| - 1];
      SplitLeadingSpace(s[..|s| - 1]);
    } else {
      var w := LastWord(s);
      LastWordLeadingSpace(s);
      assert t[..|t| - |w|] == " " + s[..|s| - |w|];
      SplitLeadingSpace(s[..|s| - |w|]);
    }
  }

  // ---------------------------------------------------------------------------
  // Lemmas about the word lists

  /** The names in `words` are words. */
  lemma WordsAreWords(k: int)
    requires 0 <= k < |Words|
    ensures IsWord(Words[k])
  {
  }

  /** The names in `tens` after the unused entry 0 are words. */
  lemma TensAreWords(k: int)
    requires 1 <= k < |Tens|
    ensures IsWord(Tens[k])
  {
  }

  /** Every name of a nameable word is a word. */
  lemma WordListWords(ws: seq<Word>)
    requires AllNameable(ws)
    ensures forall i :: 0 <= i < |ws| ==> IsWord(Names(ws)[i])
  {
    forall i | 0 <= i < |ws|
      ensures IsWord(Names(ws)[i])
    {
      var w := ws[i];
      if w.Number? {
        if w.v < 20 {
          WordsAreWords(w.v);
        } else {
          TensAreWords(w.v / 10);
        }
      }
    }
  }

  lemma ReadWordsCons(w: Word, ws: seq<Word>, acc: int)
    ensures ReadWords([w] + ws, acc) == ReadWords(ws, ReadWord(acc, w))
  {
    assert ([w] + ws)[1..] == ws;
  }

  /** The words for `m < 100` add `m` to the value read so far. */
  lemma ReadBelowHundred(m: int, acc: int)
    requires 0 <= m < 100
    ensures ReadWords(BelowHundred(m), acc) == acc + m
  {
    if 0 < m < 20 {
      ReadWordsCons(Number(m), [], acc);
    } else if m >= 20 {
      var units := if m % 10 == 0 then [] else [Number(m % 10)];
      ReadWordsCons(Number(m / 10 * 10), units, acc);
      if m % 10 != 0 {
        ReadWordsCons(Number(m % 10), [], acc + m / 10 * 10);
      }
    }
  }

  /** The words of `n` spell `n`. */
  lemma WordListReadsBack(n: int)
    requires 0 <= n <= 1000
    ensures ReadWords(WordList(n), 0) == n
  {
    if n == 1000 {
      ReadWordsCons(Number(1), [Thousand], 0);
      ReadWordsCons(Thousand, [], 1);
    } else if n >= 100 {
      var h := n / 100;
      var rest := BelowHundred(n % 100);
      var tail := (if n % 100 > 0 then [And] else []) + rest;
      assert WordList(n) == [Number(h)] + ([Hundred] + tail);
      ReadWordsCons(Number(h), [Hundred] + tail, 0);
      ReadWordsCons(Hundred, tail, h);
      if n % 100 > 0 {
        ReadWordsCons(And, rest, 100 * h);
      }
      ReadBelowHundred(n % 100, 100 * h);
    } else {
      ReadBelowHundred(n, 0);
    }
  }

  /** Different numbers have different word lists. */
  lemma WordListInjective(a: int, b: int)
    requires 0 <= a <= 1000 && 0 <= b <= 1000 && WordList(a) == WordList(b)
    ensures a == b
  {
    WordListReadsBack(a);
    WordListReadsBack(b);
  }

}
