/**
  The character-to-character dictionaries both ciphers build, and the
  per-character replacement that turns text into text through such a
  dictionary.
 */
module Lookup {
  import opened Text

  /**
    The dictionary `{keys[i]: vals[i] for i in range(|keys|)}`, filled in
    order: when a character occurs several times among the keys, the entry
    written last (its last occurrence) is the one kept.
   */
  function Table(keys: seq<char>, vals: seq<char>): (m: map<char, char>)
    requires |keys| == |vals|
    ensures forall c :: c in m <==> c in keys
    ensures forall c :: c in keys ==> m[c] == vals[LastIndexOf(keys, c)]
  {
    if keys == [] then map[]
    else
      var n := |keys| - 1;
      Table(keys[..n], vals[..n])[keys[n] := vals[n]]
  }

  /** Dictionary lookup with the character itself as the default (`m.get(c, c)`). */
  function Get(m: map<char, char>, c: char): (d: char)
    ensures c in m ==> d == m[c]
    ensures c !in m ==> d == c
  {
    if c in m then m[c] else c
  }

  /**
    The text obtained by looking every character up, one output character
    per input character, in order.
   */
  function Substitute(text: string, m: map<char, char>): (r: string)
    ensures |r| == |text|
    ensures forall i :: 0 <= i < |text| ==> r[i] == Get(m, text[i])
  {
    if text == [] then []
    else Substitute(text[..|text| - 1], m) + [Get(m, text[|text| - 1])]
  }

  /** Every character of `s` occurs in `t`. */
  predicate Within(s: seq<char>, t: seq<char>) {
    forall i :: 0 <= i < |s| ==> s[i] in t
  }

  /**
    Looking up through `from -> to` and then through `to -> from` restores
    every character of `from`, and every character outside `from` as well
    when `to` uses only characters of `from`.
   */
  lemma GetRoundTrip(from: seq<char>, to: seq<char>, c: char)
    requires |from| == |to| && Distinct(from) && Distinct(to)
    requires c in from || Within(to, from)
    ensures Get(Table(to, from), Get(Table(from, to), c)) == c
  {
    if c in from {
      var p := IndexOf(from, c);
      DistinctIndexUnique(from, p);
      DistinctIndexUnique(to, p);
    } else {
      assert c !in to;
    }
  }

  /**
    Substituting through `from -> to` and then through `to -> from` gives
    back the text, provided every character of the text is in `from` or
    `to` uses only characters of `from`.
   */
  lemma SubstituteRoundTrip(text: string, from: seq<char>, to: seq<char>)
    requires |from| == |to| && Distinct(from) && Distinct(to)
    requires Within(text, from) || Within(to, from)
    ensures Substitute(Substitute(text, Table(from, to)), Table(to, from)) == text
  {
    var e := Substitute(text, Table(from, to));
    var d := Substitute(e, Table(to, from));
    forall i | 0 <= i < |text|
      ensures d[i] == text[i]
    {
      GetRoundTrip(from, to, text[i]);
    }
  }

  /** Substituting upper-case text with upper-case replacements yields upper-case text. */
  lemma SubstituteKeepsUpper(text: string, m: map<char, char>)
    requires Upper(text) == text
    requires forall c :: c in m ==> UpperChar(m[c]) == m[c]
    ensures Upper(Substitute(text, m)) == Substitute(text, m)
  {
    var r := Substitute(text, m);
    forall i | 0 <= i < |r|
      ensures UpperChar(r[i]) == r[i]
    {
      assert UpperChar(text[i]) == text[i];
    }
  }

  /** The dictionary that sends every symbol of `s` to itself leaves every text unchanged. */
  lemma IdentityTable(text: string, s: seq<char>)
    ensures Substitute(text, Table(s, s)) == text
  {
    var r := Substitute(text, Table(s, s));
    forall i | 0 <= i < |text|
      ensures r[i] == text[i]
    {
    }
  }
}
