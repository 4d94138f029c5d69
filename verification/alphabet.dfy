/**
  The fixed 27-symbol alphabet of both ciphers: the capitals A to Z followed
  by the word separator `_`, and what it means for a key to be a permutation
  of it.
 */
module Alphabet {
  import opened Text

  const Symbols: string := "ABCDEFGHIJKLMNOPQRSTUVWXYZ_"

  /** Each symbol has a larger code than the one before it. */
  lemma SymbolsIncreasing()
    ensures forall i :: 0 <= i < |Symbols| - 1 ==> Symbols[i] < Symbols[i + 1]
  {
  }

  /** Consecutive increase extends to any two positions. */
  lemma {:induction false} IncreasingIsSorted(s: seq<char>, i: nat, j: nat)
    requires forall k :: 0 <= k < |s| - 1 ==> s[k] < s[k + 1]
    requires i < j < |s|
    ensures s[i] < s[j]
    decreases j - i
  {
    if i + 1 < j {
      IncreasingIsSorted(s, i + 1, j);
    }
  }

  /** The 27 symbols are pairwise different. */
  lemma SymbolsDistinct()
    ensures |Symbols| == 27 && Distinct(Symbols)
  {
    SymbolsIncreasing();
    forall i, j | 0 <= i < j < |Symbols|
      ensures Symbols[i] != Symbols[j]
    {
      IncreasingIsSorted(Symbols, i, j);
    }
  }

  /** Every symbol is already upper case. */
  lemma SymbolsUpper()
    ensures forall c :: c in Symbols ==> UpperChar(c) == c
    ensures Upper(Symbols) == Symbols
  {
  }

  /**
    A key that is a permutation of the alphabet: 27 symbols, no repeats,
    every one taken from the alphabet.
   */
  predicate IsPermutation(key: seq<char>) {
    && |key| == |Symbols|
    && Distinct(key)
    && forall i :: 0 <= i < |key| ==> key[i] in Symbols
  }

  /** Number of different characters of a string without repeats. */
  lemma {:induction false} DistinctCardinality(s: seq<char>)
    requires Distinct(s)
    ensures |set c | c in s| == |s|
  {
    if s != [] {
      var tail := s[1..];
      DistinctCardinality(tail);
      assert (set c | c in s) == {s[0]} + (set c | c in tail) by {
        assert s == [s[0]] + tail;
      }
      assert s[0] !in tail;
    }
  }

  /** A subset as large as its finite superset is the whole superset. */
  lemma SubsetOfSameSize(small: set<char>, large: set<char>)
    requires small <= large && |small| == |large|
    ensures small == large
  {
    assert large * small == small;
    assert |large - small| == 0;
    forall y | y in large
      ensures y in small
    {
      assert y !in large - small;
    }
  }

  /** A permutation key contains every symbol of the alphabet. */
  lemma PermutationCovers(key: seq<char>)
    requires IsPermutation(key)
    ensures forall c :: c in Symbols ==> c in key
  {
    SymbolsDistinct();
    DistinctCardinality(key);
    DistinctCardinality(Symbols);
    var used := set c | c in key;
    var all := set c | c in Symbols;
    assert used <= all;
    SubsetOfSameSize(used, all);
    forall c | c in Symbols
      ensures c in key
    {
      assert c in all;
    }
  }

  /** The alphabet itself is a permutation key (the identity key). */
  lemma IdentityIsPermutation()
    ensures IsPermutation(Symbols)
  {
    SymbolsDistinct();
  }
}
