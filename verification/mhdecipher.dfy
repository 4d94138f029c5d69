/**
  The validating substitution cipher: key and text are upper-cased, the key
  must have as many characters as the alphabet and no repeated character,
  and only then is the text transformed through the alphabet-to-key
  dictionary (encryption) or the key-to-alphabet dictionary (decryption).
 */
module MhDecipher {
  import opened Results
  import opened Text
  import opened Alphabet
  import opened Lookup

  /** The two `ValueError`s the cipher raises for a bad key. */
  datatype KeyError =
    | WrongLength  // the upper-cased key does not have 27 characters
    | Duplicity    // some character occurs more than once in the upper-cased key

  /** The duplicate scan: some character of `key` is counted more than once. */
  function HasDuplicity(key: string): (found: bool)
    ensures found <==> !Distinct(key)
  {
    DistinctIffCountsAtMostOne(key);
    exists i :: 0 <= i < |key| && Count(key, key[i]) > 1
  }

  /**
    Key validation shared by both directions: the length test runs first,
    then the duplicate test; on success the upper-cased key is returned.
   */
  function ValidKey(key: string): (r: Result<string, KeyError>)
    ensures r == Failure(WrongLength) <==> |key| != |Symbols|
    ensures r == Failure(Duplicity) <==> |key| == |Symbols| && !Distinct(Upper(key))
    ensures r.Success? ==> r.value == Upper(key) && |r.value| == |Symbols| && Distinct(r.value)
  {
    var k := Upper(key);
    if |k| != |Symbols| then Failure(WrongLength)
    else if HasDuplicity(k) then Failure(Duplicity)
    else Success(k)
  }

  /**
    Encryption. On success every upper-cased plaintext character that is
    the alphabet symbol at position `p` becomes the upper-cased key's
    character at `p`; every other character is only upper-cased.
   */
  function Encrypt(plaintext: string, key: string): (r: Result<string, KeyError>)
    ensures r == Failure(WrongLength) <==> |key| != |Symbols|
    ensures r == Failure(Duplicity) <==> |key| == |Symbols| && !Distinct(Upper(key))
    ensures r.Success? ==>
      && |r.value| == |plaintext|
      && forall i :: 0 <= i < |plaintext| ==>
        var c := UpperChar(plaintext[i]);
        && (c in Symbols ==> r.value[i] == Upper(key)[IndexOf(Symbols, c)])
        && (c !in Symbols ==> r.value[i] == c)
  {
    match ValidKey(key)
    case Failure(e) => Failure(e)
    case Success(k) =>
      SymbolsDistinct();
      var r := Substitute(Upper(plaintext), Table(Symbols, k));
      DistinctFirstIsLast(Symbols);
      Success(r)
  }

  /**
    Decryption. On success every upper-cased ciphertext character that is
    the upper-cased key's character at position `p` becomes the alphabet
    symbol at `p`; every other character is only upper-cased.
   */
  function Decrypt(ciphertext: string, key: string): (r: Result<string, KeyError>)
    ensures r == Failure(WrongLength) <==> |key| != |Symbols|
    ensures r == Failure(Duplicity) <==> |key| == |Symbols| && !Distinct(Upper(key))
    ensures r.Success? ==>
      && |r.value| == |ciphertext|
      && forall i :: 0 <= i < |ciphertext| ==>
        var c := UpperChar(ciphertext[i]);
        && (c in Upper(key) ==> r.value[i] == Symbols[IndexOf(Upper(key), c)])
        && (c !in Upper(key) ==> r.value[i] == c)
  {
    match ValidKey(key)
    case Failure(e) => Failure(e)
    case Success(k) =>
      var r := Substitute(Upper(ciphertext), Table(k, Symbols));
      DistinctFirstIsLast(k);
      Success(r)
  }

  /** Both directions accept and reject exactly the same keys, with the same error. */
  lemma SameValidation(plaintext: string, ciphertext: string, key: string)
    ensures Encrypt(plaintext, key).Success? <==> Decrypt(ciphertext, key).Success?
    ensures Encrypt(plaintext, key).Failure? ==>
      Encrypt(plaintext, key).error == Decrypt(ciphertext, key).error
  {
  }

  /** The length test comes first: a short key full of repeats reports the length. */
  lemma LengthCheckedFirst(text: string)
    ensures Encrypt(text, "AAB") == Failure(WrongLength)
    ensures Decrypt(text, "AAB") == Failure(WrongLength)
  {
  }

  /** Upper-casing comes before the duplicate test, so `a` and `A` clash. */
  lemma CaseInsensitiveDuplicity(text: string)
    ensures Encrypt(text, "aABCDEFGHIJKLMNOPQRSTUVWXY_") == Failure(Duplicity)
    ensures Decrypt(text, "aABCDEFGHIJKLMNOPQRSTUVWXY_") == Failure(Duplicity)
  {
    var k := Upper("aABCDEFGHIJKLMNOPQRSTUVWXY_");
    assert k[0] == k[1];
  }

  /** On success, encryption is the substitution of the upper-cased text through alphabet -> key. */
  lemma EncryptSubstitutes(plaintext: string, key: string)
    requires ValidKey(key).Success?
    ensures Encrypt(plaintext, key)
      == Success(Substitute(Upper(plaintext), Table(Symbols, Upper(key))))
  {
  }

  /** On success, decryption is the substitution of the upper-cased text through key -> alphabet. */
  lemma DecryptSubstitutes(ciphertext: string, key: string)
    requires ValidKey(key).Success?
    ensures Decrypt(ciphertext, key)
      == Success(Substitute(Upper(ciphertext), Table(Upper(key), Symbols)))
  {
  }

  /** Encrypted text is upper case already, so decryption's own upper-casing leaves it alone. */
  lemma EncryptedIsUpper(plaintext: string, key: string)
    requires ValidKey(key).Success?
    ensures Upper(Encrypt(plaintext, key).value) == Encrypt(plaintext, key).value
  {
    var k := Upper(key);
    var m := Table(Symbols, k);
    EncryptSubstitutes(plaintext, key);
    UpperIdempotent(plaintext);
    forall c | c in m
      ensures UpperChar(m[c]) == m[c]
    {
      assert m[c] == UpperChar(key[LastIndexOf(Symbols, c)]);
    }
    SubstituteKeepsUpper(Upper(plaintext), m);
  }

  /**
    Round trip over the alphabet: once a key passes validation, decrypting
    the encryption of a text whose upper-cased characters are all alphabet
    symbols gives back the upper-cased text. The key need not consist of
    alphabet symbols.
   */
  lemma RoundTripOverAlphabet(plaintext: string, key: string)
    requires ValidKey(key).Success?
    requires forall i :: 0 <= i < |plaintext| ==> UpperChar(plaintext[i]) in Symbols
    ensures Encrypt(plaintext, key).Success?
    ensures Decrypt(Encrypt(plaintext, key).value, key) == Success(Upper(plaintext))
  {
    var k := Upper(key);
    EncryptSubstitutes(plaintext, key);
    EncryptedIsUpper(plaintext, key);
    DecryptSubstitutes(Encrypt(plaintext, key).value, key);
    SymbolsDistinct();
    SubstituteRoundTrip(Upper(plaintext), Symbols, k);
  }

  /**
    Round trip for arbitrary text: when the upper-cased key is a permutation
    of the alphabet, decryption undoes encryption up to upper-casing.
   */
  lemma RoundTripPermutation(plaintext: string, key: string)
    requires IsPermutation(Upper(key))
    ensures Encrypt(plaintext, key).Success?
    ensures Decrypt(Encrypt(plaintext, key).value, key) == Success(Upper(plaintext))
  {
    var k := Upper(key);
    EncryptSubstitutes(plaintext, key);
    EncryptedIsUpper(plaintext, key);
    DecryptSubstitutes(Encrypt(plaintext, key).value, key);
    SymbolsDistinct();
    SubstituteRoundTrip(Upper(plaintext), Symbols, k);
  }

  /**
    The other direction: with a permutation key, encryption undoes
    decryption up to upper-casing.
   */
  lemma EncryptUndoesDecrypt(ciphertext: string, key: string)
    requires IsPermutation(Upper(key))
    ensures Decrypt(ciphertext, key).Success?
    ensures Encrypt(Decrypt(ciphertext, key).value, key) == Success(Upper(ciphertext))
  {
    var k := Upper(key);
    var m := Table(k, Symbols);
    DecryptSubstitutes(ciphertext, key);
    var d := Decrypt(ciphertext, key).value;
    SymbolsUpper();
    UpperIdempotent(ciphertext);
    SubstituteKeepsUpper(Upper(ciphertext), m);
    EncryptSubstitutes(d, key);
    SymbolsDistinct();
    PermutationCovers(k);
    SubstituteRoundTrip(Upper(ciphertext), k, Symbols);
  }

  /**
    Validation alone is not enough for arbitrary text: when the upper-cased
    key holds at position `p` a character outside the alphabet, that
    character passes encryption unchanged but decrypts to the alphabet
    symbol at `p`.
   */
  lemma RoundTripFailsOutsideAlphabet(key: string, p: nat)
    requires ValidKey(key).Success?
    requires p < |key| && UpperChar(key[p]) !in Symbols
    ensures Encrypt([key[p]], key) == Success([UpperChar(key[p])])
    ensures Decrypt(Encrypt([key[p]], key).value, key) == Success([Symbols[p]])
    ensures Symbols[p] != UpperChar(key[p])
  {
    var k := Upper(key);
    var c := k[p];
    assert Upper([key[p]]) == [c];
    EncryptSubstitutes([key[p]], key);
    var e := Substitute([c], Table(Symbols, k));
    assert e[0] == c;
    assert e == [c];
    UpperOfNoLower(e);
    DecryptSubstitutes(e, key);
    DistinctIndexUnique(k, p);
    var d := Substitute(e, Table(k, Symbols));
    assert d[0] == Symbols[p];
    assert d == [Symbols[p]];
  }

  /** A key that passes validation although it uses `1` in place of `_`. */
  lemma DigitKeyPassesValidation()
    ensures ValidKey("ABCDEFGHIJKLMNOPQRSTUVWXYZ1").Success?
    ensures UpperChar("ABCDEFGHIJKLMNOPQRSTUVWXYZ1"[26]) !in Symbols
  {
    var key := "ABCDEFGHIJKLMNOPQRSTUVWXYZ1";
    SymbolsDistinct();
    assert key == Symbols[..26] + "1";
    UpperOfNoLower(key);
    assert '1' !in Symbols;
  }

  /** With the alphabet itself as the key both directions only upper-case the text. */
  lemma IdentityKey(text: string)
    ensures Encrypt(text, Symbols) == Success(Upper(text))
    ensures Decrypt(text, Symbols) == Success(Upper(text))
  {
    IdentityIsPermutation();
    SymbolsUpper();
    EncryptSubstitutes(text, Symbols);
    DecryptSubstitutes(text, Symbols);
    IdentityTable(Upper(text), Symbols);
  }
}
