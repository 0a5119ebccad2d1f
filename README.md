# pyzzle integer helpers in Dafny

This project models the integer toolbox of pyzzle, a collection of helpers for
Project Euler style puzzles. The helpers come from `pyzzle/ints.py`:

- parity and squares: `is_odd`, `is_even`, `is_square`;
- figurate numbers and their generators: `triangle_number`,
  `polygonal_numbers`, `triangle_numbers_gen`, `pentagonal_numbers_gen`,
  `hexagonal_numbers_gen`, `fibonacci_gen`;
- divisors: `factors`, `proper_divisors`, `is_deficient`, `is_abundant`,
  `is_perfect`, the lookup table `is_abundance_lookup` and
  `is_sum_of_two_abundant_numbers`;
- decimal digits: `digits`, `from_digits`, `num_digits`, `concatenate`,
  `concatenated_product`, `reverse`, `reverse_and_sum`, `is_palindrome`,
  `is_lychrel`, `get_last_digits` and the pandigital tests;
- `write_number`, which spells a number up to one thousand in English;
- square-free numbers: `is_squarefree`, the listing and brute-force count
  below a bound, and the early return of the fast counter;
- `modular_pow`, square-and-multiply exponentiation;
- Roman numerals: `roman2arabic` and `arabic2roman`.

Python integers are unbounded, and so are Dafny's `int`. Python's `%` and `//`
with a positive divisor agree with Dafny's Euclidean operators. Where the
divisor may be negative (`modular_pow`), the model uses `PyMod`, the floor
remainder that carries the sign of the divisor. Every exception the source can
raise becomes `None` of an `Option` result. This covers ValueError from `int()`
and `max()`, TypeError from `reduce` and complex powers, ZeroDivisionError,
KeyError, IndexError and a failed `assert`. In the pandigital tests `None` also
stands for a call that never returns (see `DigitOps.IsPandigital`). `str(n)` and `int(s)` are modelled
over decimal digit strings in module `Decimal`. Each generator is modelled by
the value it yields `k`-th. Loops in the source are methods with loop
invariants. The in-place table of `is_abundance_lookup` is a Dafny `array`.

Modules: `Wrappers` (Option), `NumberTheory` (powers, `PyMod`, `Isqrt`,
divisibility, gcd, primes), `Collections` (elements of sequences, ranges),
`Decimal` (digit lists and decimal strings), `Parity`, `Figurate`,
`Divisors`, `DigitOps` (the digit helpers), `DigitProperties` (their
properties), `NumberWords`, `Squarefree`, `ModPow`, `Roman`.

## Model

| member | source | states |
|---|---|---|
| `Parity.IsOdd` | pyzzle/ints.py:8-10 | `n & 1` is 0 or 1 and differs from `n` by a multiple of 2, for negative `n` too |
| `Parity.IsEven` | pyzzle/ints.py:13-15 | `not n & 1` is True exactly for the multiples of 2, negative ones included |
| `Parity.ParityAlternates` | pyzzle/ints.py:13-15 | `is_even` holds exactly when `is_odd` is 0, and parity flips from `n` to `n + 1` |
| `Parity.IsSquare` | pyzzle/ints.py:30-32 | the test answers for every `n >= 0` and raises exactly for negative `n` |
| `Parity.IsSquareMeaning` | pyzzle/ints.py:30-32 | `is_square(n)` is True exactly when `n` is the square of some integer |
| `NumberTheory.Isqrt` | pyzzle/ints.py:32 | `math.isqrt(n)` is the `r` with `r * r <= n < (r + 1) * (r + 1)` |
| `NumberTheory.PyMod` | pyzzle/ints.py:316 | Python's `%` lies in `[0, m)` for positive `m` and in `(m, 0]` for negative `m` |
| `Figurate.TriangleNumber` | pyzzle/ints.py:42-44 | twice the result is `n * (n + 1)`: the floor division is exact |
| `Figurate.TriangleIsSum` | pyzzle/ints.py:42-44 | the `n`-th triangle number is `1 + 2 + ... + n` |
| `Figurate.PolygonalNumber` | pyzzle/ints.py:255-257 | twice the result is the numerator: the floor division is exact for every `N`, `n` |
| `Figurate.PolygonalTriangleAndSquare` | pyzzle/ints.py:255-257 | 3-gonal numbers are the triangle numbers and 4-gonal numbers are the squares |
| `Figurate.PolygonalAddSide` | pyzzle/ints.py:255-257 | going from `N` to `N + 1` sides adds the previous triangle number |
| `Figurate.PolygonalStep` | pyzzle/ints.py:255-257 | consecutive `N`-gonal numbers differ by `(N - 2) * n + 1` |
| `Figurate.HexagonalIsTriangle` | pyzzle/ints.py:196-200 | every hexagonal number `H(n)` is the triangle number `T(2n - 1)` |
| `Figurate.TriangleNumbersGen` | pyzzle/ints.py:35-39 | the `k`-th yielded value is `t + k * n + T(k)`; from the defaults, the `k`-th triangle number |
| `Figurate.PentagonalClosedForm` | pyzzle/ints.py:187 | the generator's formula `n * (3n - 1) // 2` is the 5-gonal number |
| `Figurate.PentagonalNumbersGen` | pyzzle/ints.py:184-188 | the `k`-th yielded value is the pentagonal number of `n + k - 1` |
| `Figurate.HexagonalNumbersGen` | pyzzle/ints.py:196-200 | the `k`-th yielded value is the hexagonal number of `n + k - 1` |
| `Figurate.FibonacciGen` | pyzzle/ints.py:23-27 | the `k`-th yielded value is `a * F(k - 1) + b * F(k)`; from `0, 1`, the `k`-th Fibonacci number |
| `Divisors.Factors` | pyzzle/ints.py:47-49 | for `n >= 1` the set holds exactly the positive divisors of `n`; `n < 1` raises |
| `Divisors.FactorsAreDivisors` | pyzzle/ints.py:49 | the pairs `i, n // i` up to the square root cover every divisor and nothing else |
| `Divisors.ProperDivisors` | pyzzle/ints.py:52-56 | for `n >= 1` the set holds exactly the divisors of `n` below `n`; `n < 1` raises |
| `Divisors.ProperDivisorsOf28` | pyzzle/ints.py:53 | the documented example: the proper divisors of 28 are `{1, 2, 4, 7, 14}` |
| `Divisors.SetSum` | pyzzle/ints.py:61 | `sum` of a set equals its sum in any order of the elements |
| `Divisors.SumSetRemove` | pyzzle/ints.py:61 | a set's sum does not depend on which element is added first |
| `Divisors.ProperDivisorSum` | pyzzle/ints.py:61 | `sum(proper_divisors(n))` is the sum of the divisors of `n` below `n`; raises for `n < 1` |
| `Divisors.IsDeficient` | pyzzle/ints.py:59-61 | True exactly when the proper divisors sum to less than `n` |
| `Divisors.IsAbundant` | pyzzle/ints.py:64-66 | True exactly when the proper divisors sum to more than `n` |
| `Divisors.IsPerfect` | pyzzle/ints.py:69-70 | True exactly when the proper divisors sum to `n` |
| `Divisors.PerfectNumbers` | pyzzle/ints.py:69-70 | 6 and 28 are perfect |
| `Divisors.PrimeIsDeficient` | pyzzle/ints.py:59-61 | every prime is deficient |
| `Divisors.SmallestAbundant` | pyzzle/ints.py:64-66 | 12 is abundant and no smaller number is |
| `Divisors.AbundantsUpTo` | pyzzle/ints.py:75 | the list holds exactly the abundant numbers in `1..limit` |
| `Divisors.MaxOf` | pyzzle/ints.py:76 | `max` of a non-empty list is an element at least as large as every element |
| `Divisors.MarkAll` | pyzzle/ints.py:77-78 | afterwards an entry is True exactly when it was True before or its index is in the list |
| `Divisors.IsAbundanceLookupUpTo` | pyzzle/ints.py:73-79 | a fresh table marking exactly the abundant indices, ending at the largest abundant number up to the bound; raises when there is none (bound below 12) |
| `Divisors.IsAbundanceLookup` | pyzzle/ints.py:73-79 | with the bound 28123: the table marks exactly the abundant numbers and its last index is the largest abundant number up to 28123 |
| `Divisors.IsSumOfTwoAbundantNumbers` | pyzzle/ints.py:82-89 | True only with a marked pair `i`, `n - i`; False only when no marked `i` has a marked partner; IndexError only when a partner index is past the table; with a correct table and `n < len + 12`, the answer is whether `n` is the sum of two abundant numbers |
| `Divisors.TableScanInRange` | pyzzle/ints.py:86 | with a correct table and `n < len + 12`, every partner index the scan reads is in range |
| `Divisors.TableScanFinds` | pyzzle/ints.py:85-88 | with a correct table the scan finds a pair exactly when `n` is the sum of two abundant numbers |
| `Divisors.SmallestSumOfTwoAbundant` | pyzzle/ints.py:82-89 | 24 is the smallest sum of two abundant numbers |
| `DigitOps.Digits` | pyzzle/ints.py:92-96 | the yielded values are the decimal digits of `n`, least significant first; they read back as `n` and the last is non-zero for `n > 0` |
| `Decimal.DigitsLE` | pyzzle/ints.py:92-96 | the digit list is non-empty, has digits only, reads back as `n`, and has no leading zero |
| `Decimal.StrValueNatString` | pyzzle/ints.py:101 | `int(str(n)) == n` for `n >= 0` |
| `Decimal.NatStringIsDigits` | pyzzle/ints.py:106 | `str(n)` is the digits of `n` written most significant first |
| `Decimal.ParseInt` | pyzzle/ints.py:101 | `int(s)` succeeds exactly on an optional minus sign followed by at least one digit |
| `Decimal.JoinDigits` | pyzzle/ints.py:101 | joining the strings of single digits gives their characters |
| `Decimal.JoinNegative` | pyzzle/ints.py:216 | a negative entry puts a non-digit into the join |
| `DigitOps.Concatenate` | pyzzle/ints.py:214-216 | raises exactly for no argument or a negative argument after the first; otherwise the value is `ConcatValue`: the magnitude of the first argument shifted left past the digits of the rest, plus their value, with the first argument's sign |
| `DigitOps.JoinValue` | pyzzle/ints.py:216 | the join of the strings of non-negative numbers is a digit string as long as their digits together, read as each number shifted past the digits of those after it |
| `DigitOps.ConcatenateValue` | pyzzle/ints.py:214-216 | `int` of the joined strings of a first number of either sign and non-negative numbers after it is `ConcatValue` |
| `DigitProperties.ConcatenateNegativeExample` | pyzzle/ints.py:214-216 | a negative first argument signs the whole result: `concatenate(-5, 3) == -53` |
| `DigitProperties.ConcatenatePair` | pyzzle/ints.py:214-216 | `concatenate(a, b)` of non-negative numbers is `a * 10 ** num_digits(b) + b` |
| `DigitOps.FromDigits` | pyzzle/ints.py:99-101 | the result exists exactly for a non-empty list without negative entries after the first; a list of digits reads as the number they spell most significant first |
| `DigitProperties.DigitsRoundTrip` | pyzzle/ints.py:92-101 | `from_digits` of the digits of `n` in most-significant-first order is `n`; in `digits` order it is `reverse(n)` |
| `DigitOps.ConcatenatedProduct` | pyzzle/ints.py:128-131 | raises exactly for an empty `p` or a negative product after the first; otherwise the value is `ConcatValue` of the products `n * i` |
| `DigitOps.Products` | pyzzle/ints.py:131 | the list has one entry `n * p[i]` per entry of `p` |
| `DigitProperties.ConcatenatedProductExample` | pyzzle/ints.py:128-131 | the documented example: 12 times `[1, 2, 3]` gives 122436 |
| `DigitOps.NumDigits` | pyzzle/ints.py:104-106 | `len(str(n))` is the number of digits, plus one for the minus sign of a negative `n` |
| `DigitProperties.NumDigitsBounds` | pyzzle/ints.py:104-106 | for `n >= 1`, `num_digits(n)` is the `k` with `10 ** (k - 1) <= n < 10 ** k` |
| `DigitOps.ReadsSameBackwardsIff` | pyzzle/ints.py:20 | comparing from both ends inwards is the same as `s == s[::-1]` |
| `DigitOps.PalindromeMeaning` | pyzzle/ints.py:18-20 | `is_palindrome(n)` holds exactly when `str(n)` equals its reversal |
| `DigitProperties.PalindromeDigits` | pyzzle/ints.py:18-20 | `is_palindrome(n)` holds exactly when `n >= 0` and its digit list equals its reversal |
| `DigitProperties.NegativeNotPalindrome` | pyzzle/ints.py:18-20 | no negative number is a palindrome |
| `DigitProperties.PalindromeIffReverseFixed` | pyzzle/ints.py:18-20 | `is_palindrome(n)` holds exactly when `reverse(n) == n` |
| `DigitOps.Reverse` | pyzzle/ints.py:265-267 | raises exactly for negative `n`; otherwise the digits of `n` read in the opposite order, equal to the arithmetic reversal |
| `DigitOps.RevAccDigits` | pyzzle/ints.py:267 | the arithmetic digit reversal appends the reversed digits of `n` below the accumulator |
| `DigitOps.ReverseValueDigits` | pyzzle/ints.py:267 | the arithmetic reversal equals the reversed digit list read as a number |
| `DigitOps.ReverseAndSum` | pyzzle/ints.py:260-262 | raises exactly for negative `n`; otherwise `n` plus its reversal |
| `DigitProperties.ReverseThirtyTwo` | pyzzle/ints.py:265-267 | `reverse(32)` is 23, not the 55 its docstring gives |
| `DigitProperties.ReverseAndSumThirtyTwo` | pyzzle/ints.py:260-262 | the docstring example: `reverse_and_sum(32)` is 55 |
| `DigitOps.IsLychrel` | pyzzle/ints.py:270-276 | the answer after up to `max_itt - i + 1` reverse-and-add steps: False at the first palindrome, True when the steps run out, an error from a negative start |
| `DigitProperties.LychrelSteps` | pyzzle/ints.py:270-276 | from `n >= 0`, the loop answers True exactly when no step produces a palindrome |
| `DigitProperties.NoneWithinIterates` | pyzzle/ints.py:272-275 | the step-by-step check is the statement about all the iterates |
| `DigitProperties.LychrelMeaning` | pyzzle/ints.py:270-276 | from `n >= 0`, True exactly when none of the first `steps` reverse-and-add iterates is a palindrome |
| `DigitOps.GetLastDigits` | pyzzle/ints.py:288-290 | the result is below `10 ** n` and congruent to `i` modulo `10 ** n` |
| `DigitProperties.LastDigitsAreDigits` | pyzzle/ints.py:288-290 | `get_last_digits(i, k)` is the number formed by the last `k` digits of `i` |
| `DigitOps.NegativeDigitValues` | pyzzle/ints.py:92-96 | the values `digits(n)` yields for negative `n` are digits and include `n % 10` and the 9 that floor division repeats forever |
| `DigitOps.IsPandigital` | pyzzle/ints.py:109-111 | for `n >= 0`, True exactly when the digits of `n` are `start, ..., start + len - 1`, each once; for `n < 0` never False: True when the endless digit stream covers the range, otherwise no answer |
| `Collections.CoversRangeIff` | pyzzle/ints.py:111 | `k` values cover `k` consecutive values exactly when they are those values, each once |
| `Collections.CoveredRangeIsPermutation` | pyzzle/ints.py:111 | `k` values covering `k` consecutive values hold each exactly once |
| `Collections.PermutationCoversRange` | pyzzle/ints.py:111 | a permutation of a range covers every value of it |
| `DigitOps.Is1To9Pandigital` | pyzzle/ints.py:114-118 | False for any length but 9; for `n >= 0` True exactly for nine distinct digits from 1 to 9; never False for a negative `n` of nine characters |
| `DigitOps.Is0To9Pandigital` | pyzzle/ints.py:121-125 | False for any length but 10; for `n >= 0` True exactly for ten distinct digits; never False for a negative `n` of ten characters |
| `DigitProperties.NegativeNinePandigital` | pyzzle/ints.py:109-118 | `is_1_to_9_pandigital(-87654322)` is True: its digit stream holds 8, 7, ..., 1 and then 9 |
| `DigitProperties.NegativeNeverAnswers` | pyzzle/ints.py:109-118 | `is_1_to_9_pandigital(-12345678)` never answers: its digit stream lacks 1 |
| `NumberWords.LeadingDigit` | pyzzle/ints.py:168 | `int(str(n)[0])` is the hundreds digit of a three-digit `n` and the tens digit of a two-digit `n` |
| `NumberWords.DropLeadingDigit` | pyzzle/ints.py:170 | `int(str(n)[1:])` raises for one digit and leaves `n % 100` or `n % 10` otherwise |
| `NumberWords.WriteNumber` | pyzzle/ints.py:134-181 | the text is the spaced names of the words of `n` (after one leading space when `n >= 100`), and splitting it at spaces gives those names |
| `NumberWords.AppendBelowHundred` | pyzzle/ints.py:176-180 | appends nothing for 0 and otherwise the words of `n < 100`: a name below 20, or tens then units |
| `NumberWords.SplitSpaced` | pyzzle/ints.py:134-181 | splitting spaced words at spaces gives the words back |
| `NumberWords.WordListReadsBack` | pyzzle/ints.py:134-181 | the words written for `n` spell `n` |
| `NumberWords.WordListInjective` | pyzzle/ints.py:134-181 | different numbers up to 1000 get different words |
| `Squarefree.SquarefreeByPrimes` | pyzzle/ints.py:220 | no square of a number `d >= 2` divides `n` exactly when no square of a prime does |
| `Squarefree.IsSquarefree` | pyzzle/ints.py:219-227 | raises exactly for negative `n`; 0 is reported square-free; for `n >= 1` True exactly when `n` is square-free |
| `Squarefree.StripFactor` | pyzzle/ints.py:222-226 | either `p * p` divides `n`, or `p` divided `n` at most once and the quotient keeps no factor `p` |
| `Squarefree.NoSquareLeft` | pyzzle/ints.py:221 | trial division up to the square root is enough: nothing larger can have its square divide `n` |
| `Squarefree.SquarefreeNumbersBelow` | pyzzle/ints.py:230-233 | the list holds exactly the square-free numbers in `1..n - 1`, in increasing order |
| `Squarefree.CountSquarefreeNumbersBelow` | pyzzle/ints.py:236-237 | the count is the length of that list |
| `Squarefree.CountIsCardinality` | pyzzle/ints.py:236-237 | the count is the number of square-free integers in `[1, n)` |
| `Squarefree.CountBound` | pyzzle/ints.py:236-237 | at most `n - 1` numbers below `n` are counted |
| `Squarefree.CountMonotone` | pyzzle/ints.py:236-237 | the count does not decrease as the bound grows |
| `Squarefree.FastCountSmall` | pyzzle/ints.py:245-246 | the early return for `n` in 0, 1, 2 equals the brute-force count `len(list(squarefree_numbers_below_n(n)))`, less one at `n == 2` |
| `Squarefree.FastCountSmallAtTwo` | pyzzle/ints.py:245-246 | at `n == 2` the early return says 0 where the brute-force count is 1 |
| `Squarefree.FastCountSmallCorrected` | pyzzle/ints.py:240-246 | the corrected early return equals the brute-force count for `n` in 0, 1, 2 |
| `ModPow.SquareAndMultiply` | pyzzle/ints.py:317-321 | the loop keeps `result * base ** e` fixed modulo `m` and ends with a reduced result |
| `ModPow.ModularPow` | pyzzle/ints.py:310-322 | raises for `m == 0`, answers 0 for `m == 1`, 1 when the loop does not run, and `base ** exponent % m` otherwise |
| `ModPow.ModularPowIsPowMod` | pyzzle/ints.py:310-322 | the result is `base ** exponent % m` for a positive exponent, and for exponent 0 with `m > 0` |
| `ModPow.ModularPowNegativeModulus` | pyzzle/ints.py:313-315 | with exponent 0 and `m == -1` the result is 1 where `base ** 0 % -1` is 0 |
| `ModPow.ModularPowReduced` | pyzzle/ints.py:310-322 | with the start value reduced too, the result is `base ** exponent % m` for every exponent `>= 0` and `m != 0` |
| `Roman.RomanToArabic` | pyzzle/ints.py:325-328 | raises exactly for a letter outside `IVXLCDM`; otherwise the signed sum with the subtraction rule, which for letters that never increase in value (additive numerals such as XXXXVIIII) is the plain sum of the letters |
| `Roman.NonIncreasingReadsAsSum` | pyzzle/ints.py:328 | no letter is subtracted in a numeral whose letter values never increase |
| `Roman.AdditiveFortyNine` | pyzzle/ints.py:325-328 | the docstring example: XXXXVIIII reads as 49 |
| `Roman.SixtyNine` | pyzzle/ints.py:325-328 | LXIX reads as 69, not the 49 the docstring gives |
| `Roman.SubtractiveFortyNine` | pyzzle/ints.py:325-328 | XLIX reads as 49 |
| `Roman.ArabicToRoman` | pyzzle/ints.py:331-354 | fails the final assert exactly for negative `n`; otherwise the greedy numeral from the thirteen-entry table |
| `Roman.TableEntry` | pyzzle/ints.py:333-347 | each table numeral reads back as its value, and no later numeral starts with a letter worth more than its last |
| `Roman.SignedSumAppend` | pyzzle/ints.py:328 | reading `x + y` is reading `x` and `y` apart when `y` starts no higher than `x` ends |
| `Roman.RomanFromReadsBack` | pyzzle/ints.py:325-354 | what `arabic2roman` writes from any table position on is made of Roman letters and reads back as the rest of the number |
| `Roman.ReadsBackOneNumeral` | pyzzle/ints.py:349-352 | one more table numeral in front of the rest adds its value to what is read back |
| `Roman.RomanRoundTrip` | pyzzle/ints.py:325-354 | `roman2arabic(arabic2roman(n)) == n` for every `n >= 0` |
| `Roman.FortyNineWritten` | pyzzle/ints.py:331-354 | `arabic2roman(49)` writes XLIX, not the LXIX its docstring gives |

## Left out

- `is_pentagonal`, `get_number_of_digits` and `get_first_digits` work through floating-point `math.sqrt` and `math.log10`; floating point is not modelled.
- `p6_test_ordered_set` is a puzzle-specific filter built on `get_first_digits`; it is left out with it.
- `all_ints_digit_gen` calls `len` on the generator `digits` returns, which raises TypeError at its first step; it has no behaviour beyond that error to model.
- `Squarefree.FastCountSmall`: models only the early return for `n` in 0, 1, 2. Every other `n` takes the main path of `fast_count_squarefree_numbers_below_n`, which calls `primes.primes_below_n` and `primes.pi`; `pyzzle/primes.py` is not part of this model. A negative `n` fails on that path before it reaches `primes`: `n ** 0.5` is complex and `int()` of it raises TypeError.
- `factors`, `proper_divisors` and `is_squarefree` compute `int(n ** 0.5)` in floating point; the model uses the exact integer square root. The two can differ once `n` is around `2 ** 52` or larger, where the float square root can round either way: up to the next integer, or down, as for `n = (2 ** 53 + 1) ** 2`, whose float square root is `2 ** 53`. Such `n` are not covered, nor is the OverflowError `n ** 0.5` raises for `n` beyond the float range.
- `str(n)` and `int(s)` are modelled without CPython's default limit of 4300 digits on decimal conversion, past which both raise ValueError.
- `IsAbundanceLookup`: the scan bound 28123 is the constant `AbundanceLimit`; `IsAbundanceLookupUpTo` takes it as a parameter so that the empty case is modelled too.
- Generators are modelled by the value they yield `k`-th, not as lazy streams.
- `Digits`: a negative `n` makes the source generator run forever (floor division stops at -1); only `n >= 0` is modelled.
- `IsPandigital`, `Is1To9Pandigital`, `Is0To9Pandigital`: for a negative `n` whose digit stream misses a value of the range, the source searches forever; the model answers `None` there, and does not tell a call that never returns from an exception.
- `GetLastDigits`: a negative digit count makes `10 ** n` a float; only `n >= 0` is modelled.
- `ParseInt` models `int()` only on strings of an optional minus sign and digits. Whitespace, underscores and a plus sign, which `int()` also accepts, never occur in the strings this code builds from `str`.
- `Roman.ArabicToRoman`: the docstring's claim that the greedy form is minimal is not proved; the round trip with `roman2arabic` is.
- `Divisors.IsSumOfTwoAbundantNumbers`: when both a hit and an out-of-range partner index occur in one scan, the contract says only that the answer is one of True or IndexError, with the witness for each.
- `NumberWords.WriteNumber`: requires `n <= 1000`, the range the source's own comment assumes. The round trip is stated on word tokens (`WordList`), not by parsing English text back.
- `NumberWords.Tens`: entry 0 is None in the source and is never read; it is the empty string here.

## Findings

| source | as written | input that shows it | evidently intended | confidence | as-written member | corrected member |
|---|---|---|---|---|---|---|
| pyzzle/ints.py:313-315 | only `m == 1` is special-cased and `result` starts at 1 unreduced | `modular_pow(2, 0, -1)` returns 1 | `base ** exponent % m`, which is 0 for `m == -1` (start from `1 % m`) | not executed | `ModPow.ModularPowNegativeModulus` | `ModPow.ModularPowReduced` |
| pyzzle/ints.py:326 | the docstring says LXIX reads as 49 | `roman2arabic("LXIX")` returns 69 | a numeral with the subtraction rule for 49, XLIX | not executed | `Roman.SixtyNine` | `Roman.SubtractiveFortyNine` |
| pyzzle/ints.py:332 | the docstring says 49 is written LXIX | `arabic2roman(49)` returns `"XLIX"` | the numeral that reads back as 49 | not executed | `Roman.FortyNineWritten` | `Roman.RomanRoundTrip` |
| pyzzle/ints.py:266 | the docstring of `reverse` is that of `reverse_and_sum`, `32 -> 55` | `reverse(32)` returns 23 | `32 -> 23` for `reverse`; `32 -> 55` for `reverse_and_sum` | not executed | `DigitProperties.ReverseThirtyTwo` | `DigitProperties.ReverseAndSumThirtyTwo` |
| pyzzle/ints.py:245-246 | `n in [0, 1, 2]` returns 0 | `fast_count_squarefree_numbers_below_n(2)` returns 0, but 1 is square-free and below 2 | 1 for `n == 2`, as `count_squarefree_numbers_below_n(2)` gives | not executed | `Squarefree.FastCountSmallAtTwo` | `Squarefree.FastCountSmallCorrected` |
