/**
  Operations on strings (sequences of characters) that both cipher
  implementations rely on: upper-casing, counting occurrences, and finding
  the first or last position of a character.
 */
module Text {

  /** No character occurs twice in `s`. */
  predicate Distinct(s: seq<char>) {
    forall i, j :: 0 <= i < j < |s| ==> s[i] != s[j]
  }

  predicate IsLower(c: char) {
    'a' <= c <= 'z'
  }

  predicate IsUpper(c: char) {
    'A' <= c <= 'Z'
  }

  /**
    Upper-casing of one character, restricted to ASCII: the 26 lower-case
    Latin letters become their capitals and every other character is kept.
   */
  function UpperChar(c: char): (u: char)
    ensures !IsLower(u)
    ensures IsLower(c) ==> IsUpper(u) && u as int - 'A' as int == c as int - 'a' as int
    ensures !IsLower(c) ==> u == c
  {
    if IsLower(c) then (c as int - 32) as char else c
  }

  /** Upper-casing of a whole string (Python's `str.upper` on ASCII text). */
  function Upper(s: string): (r: string)
    ensures |r| == |s|
    ensures forall i :: 0 <= i < |s| ==> r[i] == UpperChar(s[i])
  {
    if s == [] then [] else Upper(s[..|s| - 1]) + [UpperChar(s[|s| - 1])]
  }

  /** Upper-casing twice is upper-casing once. */
  lemma UpperIdempotent(s: string)
    ensures Upper(Upper(s)) == Upper(s)
  {
  }

  /** A string without lower-case letters is its own upper-casing. */
  lemma UpperOfNoLower(s: string)
    requires forall i :: 0 <= i < |s| ==> !IsLower(s[i])
    ensures Upper(s) == s
  {
  }

  /** Number of occurrences of `c` in `s` (Python's `str.count` for one character). */
  function Count(s: seq<char>, c: char): nat {
    if s == [] then 0 else (if s[0] == c then 1 else 0) + Count(s[1..], c)
  }

  /** A character is counted at least once exactly when it occurs. */
  lemma {:induction false} CountPositive(s: seq<char>, c: char)
    ensures Count(s, c) > 0 <==> c in s
  {
    if s != [] {
      CountPositive(s[1..], c);
      assert s == [s[0]] + s[1..];
    }
  }

  /** Two occurrences at different positions make the count at least two. */
  lemma {:induction false} CountTwoOccurrences(s: seq<char>, i: nat, j: nat)
    requires i < j < |s| && s[i] == s[j]
    ensures Count(s, s[i]) >= 2
  {
    if i == 0 {
      assert s[1..][j - 1] == s[j];
      CountPositive(s[1..], s[i]);
    } else {
      CountTwoOccurrences(s[1..], i - 1, j - 1);
    }
  }

  /** In a string without repeats, every character that occurs is counted once. */
  lemma {:induction false} DistinctCountOne(s: seq<char>, c: char)
    requires Distinct(s) && c in s
    ensures Count(s, c) == 1
  {
    if s[0] == c {
      assert c !in s[1..];
      CountPositive(s[1..], c);
    } else {
      DistinctCountOne(s[1..], c);
    }
  }

  /**
    The duplicate test of the validating cipher: a string has no repeated
    character exactly when no character of it is counted more than once.
   */
  lemma DistinctIffCountsAtMostOne(s: seq<char>)
    ensures Distinct(s) <==> forall i :: 0 <= i < |s| ==> Count(s, s[i]) <= 1
  {
    if Distinct(s) {
      forall i | 0 <= i < |s|
        ensures Count(s, s[i]) <= 1
      {
        DistinctCountOne(s, s[i]);
      }
    } else {
      var i, j :| 0 <= i < j < |s| && s[i] == s[j];
      CountTwoOccurrences(s, i, j);
    }
  }

  /** Position of the first occurrence of `c` in `s`. */
  function IndexOf(s: seq<char>, c: char): (i: nat)
    requires c in s
    ensures i < |s| && s[i] == c
    ensures forall j :: 0 <= j < i ==> s[j] != c
  {
    if s[0] == c then 0 else 1 + IndexOf(s[1..], c)
  }

  /** Position of the last occurrence of `c` in `s`. */
  function LastIndexOf(s: seq<char>, c: char): (i: nat)
    requires c in s
    ensures i < |s| && s[i] == c
    ensures forall j :: i < j < |s| ==> s[j] != c
  {
    if s[|s| - 1] == c then |s| - 1 else LastIndexOf(s[..|s| - 1], c)
  }

  /** In a string without repeats the first and the last occurrence coincide. */
  lemma DistinctIndexUnique(s: seq<char>, i: nat)
    requires Distinct(s) && i < |s|
    ensures IndexOf(s, s[i]) == i && LastIndexOf(s, s[i]) == i
  {
  }

  /** In a string without repeats every character's first position is its last one. */
  lemma DistinctFirstIsLast(s: seq<char>)
    requires Distinct(s)
    ensures forall c :: c in s ==> LastIndexOf(s, c) == IndexOf(s, c)
  {
    forall c | c in s
      ensures LastIndexOf(s, c) == IndexOf(s, c)
    {
      DistinctIndexUnique(s, IndexOf(s, c));
    }
  }
}
