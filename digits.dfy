/** Facts about nine values being the digits 1..9: the question that every
  * completeness check of the board reduces to. */
module Digits {

  /** The digits a finished line, column or sub-grid must hold. */
  const DigitSet: set<int> := {1, 2, 3, 4, 5, 6, 7, 8, 9}

  /** The distinct values of `s` (what Kotlin's `distinct()` keeps, as a set). */
  function Elems(s: seq<int>): set<int>
  {
    set x | x in s
  }

  /** No value occurs twice in `s`. */
  predicate Distinct(s: seq<int>)
  {
    forall i, j :: 0 <= i < j < |s| ==> s[i] != s[j]
  }

  /** Every value of `s` is a cell value the game can hold: 0 (empty) or a digit. */
  predicate InDigitRange(s: seq<int>)
  {
    forall x :: x in s ==> 0 <= x <= 9
  }

  /** `s` is an ordering of the digits 1..9, each exactly once. */
  predicate IsDigitPermutation(s: seq<int>)
  {
    |s| == 9 && (forall x :: x in s ==> x in DigitSet) && (forall v :: v in DigitSet ==> v in s)
  }

  /** Kotlin's `distinct()`: the values of `s` in order of first occurrence,
    * each once. */
  function Dedup(s: seq<int>): (d: seq<int>)
    ensures |d| <= |s|
    ensures forall x :: x in d ==> x in s
  {
    if s == [] then []
    else if s[|s| - 1] in s[..|s| - 1] then Dedup(s[..|s| - 1])
    else Dedup(s[..|s| - 1]) + [s[|s| - 1]]
  }

  /** The test that assertSubGrid and assertRowCol make,
    * `distinct().size == 9 && !(0 in ...)`. */
  predicate NineDistinctNonZero(s: seq<int>): (ok: bool)
    ensures ok ==> 9 <= |s| && 0 !in s
  {
    |Dedup(s)| == 9 && 0 !in s
  }

  lemma DigitSetSize()
    ensures |DigitSet| == 9
  {
  }

  /** A subset is no larger than its superset. */
  lemma SubsetSize(a: set<int>, b: set<int>)
    requires a <= b
    ensures |a| <= |b|
  {
    assert b == a + (b - a);
    assert a * (b - a) == {};
  }

  /** A sequence without repetition has as many distinct values as elements. */
  lemma {:induction false} DistinctElemsSize(s: seq<int>)
    requires Distinct(s)
    ensures |Elems(s)| == |s|
  {
    if s != [] {
      var init, last := s[..|s| - 1], s[|s| - 1];
      assert Distinct(init) by {
        forall i, j | 0 <= i < j < |init| ensures init[i] != init[j] {
          assert init[i] == s[i] && init[j] == s[j];
        }
      }
      DistinctElemsSize(init);
      assert Elems(s) == Elems(init) + {last} by {
        assert s == init + [last];
      }
      assert last !in Elems(init);
    }
  }

  /** `Dedup` keeps every value once and drops nothing else: it holds the same
    * values as its input, without repetition, and is as long as its input
    * exactly when the input had no repetition. */
  lemma {:induction false} DedupProperties(s: seq<int>)
    ensures Distinct(Dedup(s))
    ensures forall x :: x in Dedup(s) <==> x in s
    ensures |Dedup(s)| <= |s|
    ensures |Dedup(s)| == |s| <==> Distinct(s)
  {
    if s != [] {
      var init, last := s[..|s| - 1], s[|s| - 1];
      assert s == init + [last];
      DedupProperties(init);
      if last in init {
        var k :| 0 <= k < |init| && init[k] == last;
        assert s[k] == s[|s| - 1];
      } else {
        var d := Dedup(init);
        assert Dedup(s) == d + [last];
        assert last !in d;
        if Distinct(init) {
          forall i, j | 0 <= i < j < |s| ensures s[i] != s[j] {
            if j == |s| - 1 {
              assert s[i] in init;
            } else {
              assert s[i] == init[i] && s[j] == init[j];
            }
          }
        } else {
          var i, j :| 0 <= i < j < |init| && init[i] == init[j];
          assert s[i] == s[j];
        }
      }
    }
  }

  /** The length of `Dedup` is the number of distinct values. */
  lemma DedupSize(s: seq<int>)
    ensures |Dedup(s)| == |Elems(s)|
  {
    DedupProperties(s);
    DistinctElemsSize(Dedup(s));
    assert Elems(Dedup(s)) == Elems(s) by {
      forall x ensures x in Elems(Dedup(s)) <==> x in Elems(s) {
        assert x in Dedup(s) <==> x in s;
      }
    }
  }

  /** For nine values, the completeness test means: pairwise distinct, none 0. */
  lemma NineDistinctNonZeroMeansDistinct(s: seq<int>)
    ensures |s| == 9 ==> (NineDistinctNonZero(s) <==> Distinct(s) && 0 !in s)
  {
    DedupProperties(s);
  }

  /** For values in 0..9, the completeness test means: exactly the digits 1..9
    * occur (whatever the number of values). */
  lemma NineDistinctNonZeroMeansDigits(s: seq<int>)
    ensures InDigitRange(s) ==>
              (NineDistinctNonZero(s) <==> forall v :: v in s <==> v in DigitSet)
  {
    DigitSetSize();
    DedupSize(s);
    if InDigitRange(s) {
      if NineDistinctNonZero(s) {
        forall x | x in Elems(s) ensures x in DigitSet {
          assert x in s && x != 0;
        }
        if v :| v in DigitSet && v !in Elems(s) {
          SubsetSize(Elems(s), DigitSet - {v});
          assert false;
        }
        assert Elems(s) == DigitSet;
      }
      if forall v :: v in s <==> v in DigitSet {
        assert Elems(s) == DigitSet;
      }
    }
  }

  /** A permutation of the digits holds exactly the digits. */
  lemma DigitPermutationElems(s: seq<int>)
    requires IsDigitPermutation(s)
    ensures Elems(s) == DigitSet
  {
    forall x | x in Elems(s) ensures x in DigitSet {
      assert x in s;
    }
    forall v | v in DigitSet ensures v in Elems(s) {
      assert v in s;
    }
  }

  /** A permutation of the digits has no repeated value. */
  lemma DigitPermutationDistinct(s: seq<int>)
    requires IsDigitPermutation(s)
    ensures Distinct(s) && 0 !in s && InDigitRange(s)
  {
    DigitSetSize();
    DigitPermutationElems(s);
    FullElemsDistinct(s);
  }

  /** A sequence with as many distinct values as elements has no repetition. */
  lemma FullElemsDistinct(s: seq<int>)
    requires |Elems(s)| == |s|
    ensures Distinct(s)
  {
    DedupSize(s);
    DedupProperties(s);
  }

  /** For nine values in 0..9, the completeness test holds exactly for the
    * permutations of the digits. */
  lemma NineDistinctNonZeroIsPermutation(s: seq<int>)
    requires |s| == 9 && InDigitRange(s)
    ensures NineDistinctNonZero(s) <==> IsDigitPermutation(s)
  {
    NineDistinctNonZeroMeansDigits(s);
  }
}
