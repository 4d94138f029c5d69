/**
  How the two cipher implementations relate: once a key passes validation,
  the validating cipher is the non-validating one applied to the
  upper-cased text and the upper-cased key.
 */
module Agreement {
  import opened Results
  import opened Text
  import opened Alphabet
  import MhDecipher
  import SubstitutionCipher

  lemma ValidatingIsUpperCasedPlain(text: string, key: string)
    requires MhDecipher.ValidKey(key).Success?
    ensures MhDecipher.Encrypt(text, key)
      == Success(SubstitutionCipher.Encrypt(Upper(text), Upper(key)))
    ensures MhDecipher.Decrypt(text, key)
      == Success(SubstitutionCipher.Decrypt(Upper(text), Upper(key)))
  {
    var k := Upper(key);
    assert SubstitutionCipher.Used(k) == k;
    MhDecipher.EncryptSubstitutes(text, key);
    MhDecipher.DecryptSubstitutes(text, key);
  }
}
