/** Facts about the elements of a sequence and about integer ranges, used to
    count digits (the pandigital tests) and numbers below a bound. */
module Collections {

  /** The set of values that occur in `s`. */
  function Elements(s: seq<int>): set<int>
  {
    set x | x in s
  }

  /** No value occurs twice in `s`. */
  ghost predicate Distinct(s: seq<int>)
  {
    forall i, j :: 0 <= i < j < |s| ==> s[i] != s[j]
  }

  /** The integers `a, a + 1, ..., b - 1`. */
  ghost function Range(a: int, b: int): (r: set<int>)
    ensures forall x :: x in r <==> a <= x < b
    decreases b - a
  {
    if b <= a then {} else Range(a, b - 1) + {b - 1}
  }

  /** A sequence has at most as many distinct values as entries, and exactly as
      many when its entries are distinct. */
  lemma {:induction false} ElementsCard(s: seq<int>)
    ensures |Elements(s)| <= |s|
    ensures |Elements(s)| == |s| <==> Distinct(s)
    decreases |s|
  {
    if s != [] {
      var t := s[1..];
      ElementsCard(t);
      assert Elements(s) == {s[0]} + Elements(t);
      if s[0] in t {
        assert Elements(s) == Elements(t);
        var j :| 0 <= j < |t| && t[j] == s[0];
        assert s[0] == s[j + 1];
      } else {
        assert |Elements(s)| == 1 + |Elements(t)|;
        if Distinct(t) {
          forall i, j | 0 <= i < j < |s|
            ensures s[i] != s[j]
          {
            if i > 0 {
              assert s[i] == t[i - 1] && s[j] == t[j - 1];
            }
          }
        }
        if Distinct(s) {
          forall i, j | 0 <= i < j < |t|
            ensures t[i] != t[j]
          {
            assert t[i] == s[i + 1] && t[j] == s[j + 1];
          }
        }
      }
    }
  }

  lemma {:induction false} RangeCard(a: int, b: int)
    requires a <= b
    ensures |Range(a, b)| == b - a
    decreases b - a
  {
    if a < b {
      RangeCard(a, b - 1);
    }
  }

  /** A subset as large as its superset is the whole superset. */
  lemma SubsetSameCard(a: set<int>, b: set<int>)
    requires a <= b && |b| <= |a|
    ensures a == b
  {
    assert b == a + (b - a);
    assert a * (b - a) == {};
    assert |b| == |a| + |b - a|;
    assert b - a == {};
  }

  lemma SubsetCard(a: set<int>, b: set<int>)
    requires a <= b
    ensures |a| <= |b|
  {
    assert b == a + (b - a);
  }

  /** `s` holds the values `start, ..., start + |s| - 1`, each once. */
  ghost predicate IsPermutedRange(s: seq<int>, start: int)
  {
    (forall i :: 0 <= i < |s| ==> start <= s[i] < start + |s|) && Distinct(s)
  }

  /** Pigeonhole: `|s|` entries cover the `|s|` consecutive values from `start`
      exactly when they are those values, each once. */
  lemma CoversRangeIff(s: seq<int>, start: int)
    ensures (forall v :: start <= v < start + |s| ==> v in s) <==> IsPermutedRange(s, start)
  {
    if forall v :: start <= v < start + |s| ==> v in s {
      CoveredRangeIsPermutation(s, start);
    }
    if IsPermutedRange(s, start) {
      PermutationCoversRange(s, start);
    }
  }

  lemma CoveredRangeIsPermutation(s: seq<int>, start: int)
    requires forall v :: start <= v < start + |s| ==> v in s
    ensures IsPermutedRange(s, start)
  {
    var k := |s|;
    var r := Range(start, start + k);
    RangeCard(start, start + k);
    ElementsCard(s);
    assert r <= Elements(s);
    SubsetSameCard(r, Elements(s));
    forall i | 0 <= i < k
      ensures start <= s[i] < start + k
    {
      assert s[i] in Elements(s);
    }
  }

  lemma PermutationCoversRange(s: seq<int>, start: int)
    requires IsPermutedRange(s, start)
    ensures forall v :: start <= v < start + |s| ==> v in s
  {
    var k := |s|;
    var r := Range(start, start + k);
    RangeCard(start, start + k);
    ElementsCard(s);
    assert Elements(s) <= r;
    SubsetSameCard(Elements(s), r);
    forall v | start <= v < start + k
      ensures v in s
    {
      assert v in r;
    }
  }

}
