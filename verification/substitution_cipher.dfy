/**
  The non-validating substitution cipher: no upper-casing and no key checks.
  Only the first 27 entries of the key are read; encryption sends the
  alphabet symbol at position `p` to `key[p]`, decryption sends `key[p]`
  back to the alphabet symbol at `p` (the last such `p` when the key
  repeats a character), and every other character is kept.
 */
module SubstitutionCipher {
  import opened Text
  import opened Alphabet
  import opened Lookup

  /** The part of the key the cipher reads. */
  function Used(key: seq<char>): (u: seq<char>)
    requires |key| >= |Symbols|
    ensures |u| == |Symbols| && forall i :: 0 <= i < |Symbols| ==> u[i] == key[i]
  {
    key[..|Symbols|]
  }

  function Encrypt(plaintext: string, key: seq<char>): (r: string)
    requires |key| >= |Symbols|
    ensures |r| == |plaintext|
    ensures forall i :: 0 <= i < |plaintext| ==>
      && (plaintext[i] in Symbols ==> r[i] == key[IndexOf(Symbols, plaintext[i])])
      && (plaintext[i] !in Symbols ==> r[i] == plaintext[i])
  {
    SymbolsDistinct();
    var u := Used(key);
    DistinctFirstIsLast(Symbols);
    Substitute(plaintext, Table(Symbols, u))
  }

  function Decrypt(ciphertext: string, key: seq<char>): (r: string)
    requires |key| >= |Symbols|
    ensures |r| == |ciphertext|
    ensures forall i :: 0 <= i < |ciphertext| ==>
      && (ciphertext[i] in key[..|Symbols|] ==>
            r[i] == Symbols[LastIndexOf(key[..|Symbols|], ciphertext[i])])
      && (ciphertext[i] !in key[..|Symbols|] ==> r[i] == ciphertext[i])
  {
    Substitute(ciphertext, Table(Used(key), Symbols))
  }

  /** Lower-case letters are outside the alphabet, so encryption keeps them as they are. */
  lemma NoCaseFolding(plaintext: string, key: seq<char>, i: nat)
    requires |key| >= |Symbols| && i < |plaintext| && IsLower(plaintext[i])
    ensures Encrypt(plaintext, key)[i] == plaintext[i]
  {
    assert plaintext[i] !in Symbols;
  }

  /**
    A character the key repeats decrypts to the alphabet symbol of its last
    occurrence among the first 27 entries: later dictionary entries overwrite
    earlier ones.
   */
  lemma LastOccurrenceWins(key: seq<char>, p: nat, q: nat)
    requires |key| >= |Symbols| && p < q < |Symbols| && key[p] == key[q]
    requires forall j :: q < j < |Symbols| ==> key[j] != key[q]
    ensures Decrypt([key[p]], key) == [Symbols[q]]
  {
    var u := key[..|Symbols|];
    assert u[q] == key[q];
    assert LastIndexOf(u, key[q]) == q;
  }

  /** Entries of the key beyond the 27th change neither direction. */
  lemma OnlyFirstEntriesRead(text: string, key: seq<char>, extra: seq<char>)
    requires |key| == |Symbols|
    ensures Encrypt(text, key + extra) == Encrypt(text, key)
    ensures Decrypt(text, key + extra) == Decrypt(text, key)
  {
    assert Used(key + extra) == Used(key);
  }

  /** With a permutation key, decryption undoes encryption for every text. */
  lemma RoundTrip(text: string, key: seq<char>)
    requires |key| >= |Symbols| && IsPermutation(Used(key))
    ensures Decrypt(Encrypt(text, key), key) == text
  {
    SymbolsDistinct();
    SubstituteRoundTrip(text, Symbols, Used(key));
  }

  /** With a permutation key, encryption undoes decryption for every text. */
  lemma EncryptUndoesDecrypt(text: string, key: seq<char>)
    requires |key| >= |Symbols| && IsPermutation(Used(key))
    ensures Encrypt(Decrypt(text, key), key) == text
  {
    SymbolsDistinct();
    PermutationCovers(Used(key));
    SubstituteRoundTrip(text, Used(key), Symbols);
  }

  /** The demonstration key: the alphabet shifted by three positions. */
  const ShiftKey: seq<char> := "DEFGHIJKLMNOPQRSTUVWXYZ_ABC"

  /** The shifted key is the alphabet rotated, hence a permutation of it. */
  lemma ShiftKeyIsPermutation()
    ensures |ShiftKey| == |Symbols| && IsPermutation(Used(ShiftKey))
  {
    SymbolsDistinct();
    assert ShiftKey == Symbols[3..] + Symbols[..3];
    assert Used(ShiftKey) == ShiftKey;
    forall i, j | 0 <= i < j < |ShiftKey|
      ensures ShiftKey[i] != ShiftKey[j]
    {
      var a := if i < 24 then i + 3 else i - 24;
      var b := if j < 24 then j + 3 else j - 24;
      assert ShiftKey[i] == Symbols[a] && ShiftKey[j] == Symbols[b];
    }
  }

  /** The shifted key holds at each position the symbol three places further on. */
  lemma ShiftKeyRotates(p: nat)
    requires p < |Symbols|
    ensures ShiftKey[p] == Symbols[(p + 3) % |Symbols|]
  {
    assert ShiftKey == Symbols[3..] + Symbols[..3];
    if p < 24 {
      assert (p + 3) % |Symbols| == p + 3;
      assert ShiftKey[p] == Symbols[3..][p];
    } else {
      assert (p + 3) % |Symbols| == p - 24;
      assert ShiftKey[p] == Symbols[..3][p - 24];
    }
  }

  /** Encrypting with the shifted key moves every alphabet symbol three places on, wrapping around. */
  lemma ShiftKeyShifts(text: string, i: nat)
    requires i < |text| && text[i] in Symbols
    ensures Encrypt(text, ShiftKey)[i] == Symbols[(IndexOf(Symbols, text[i]) + 3) % |Symbols|]
  {
    var p := IndexOf(Symbols, text[i]);
    ShiftKeyRotates(p);
  }

  /** The demonstration: decrypting the encryption of the sample text gives the sample text. */
  lemma ShiftKeyDemo()
    ensures Decrypt(Encrypt("BYL_POZDNI_VECER", ShiftKey), ShiftKey) == "BYL_POZDNI_VECER"
  {
    ShiftKeyIsPermutation();
    RoundTrip("BYL_POZDNI_VECER", ShiftKey);
  }
}
