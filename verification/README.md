# Substitution cipher over the 27-symbol alphabet

This project models, in Dafny, the monoalphabetic substitution cipher of the
UUN-Sifry repository. The cipher works over the fixed alphabet of the capitals
`A`–`Z` followed by the word separator `_`. The repository implements the
transform twice:

- `MH_decipher/mhdecipher.py` is the **validating** version. It upper-cases the
  key and the text. It raises `ValueError("Wrong key length")` when the key
  does not have 27 characters. It raises a "Duplicity in key" `ValueError`
  when a character occurs twice. Only then does it map `alphabet[i] -> key[i]`
  to encrypt, or `key[i] -> alphabet[i]` to decrypt. Characters without a
  mapping pass through.
- `substitution_cipher.py` is the **non-validating** version. It takes the
  key as a list and builds the same two dictionaries from its first 27
  entries. It looks every character up with `get(c, c)`. It does no
  upper-casing and no key checks.

Modules:

- `Results` (`results.dfy`): `Result<T, E>`, which stands for "returns a value
  or raises".
- `Text` (`text.dfy`): ASCII upper-casing (`UpperChar`, `Upper`),
  `Distinct`, `Count` (Python's `str.count`), and first and last positions
  (`IndexOf`, `LastIndexOf`).
- `Alphabet` (`alphabet.dfy`): the `Symbols` constant, a proof that its 27
  symbols are distinct, and `IsPermutation` for keys.
- `Lookup` (`lookup.dfy`): Python's dictionary comprehension, in which later
  entries overwrite earlier ones (`Table`). Also `dict.get(c, c)` (`Get`) and
  the per-character rewrite of a text (`Substitute`). It holds the round-trip
  lemmas both ciphers use.
- `MhDecipher` (`mhdecipher.dfy`): the validating cipher. `Encrypt` and
  `Decrypt` return `Result<string, KeyError>`, where `KeyError` is
  `WrongLength | Duplicity`.
- `SubstitutionCipher` (`substitution_cipher.dfy`): the non-validating
  cipher, as total functions on keys of at least 27 entries.
- `Agreement` (`agreement.dfy`): how the two versions relate to each other.

Nothing here is executed; all statements are proved by the Dafny verifier.

Neither version checks that the key is a permutation of the alphabet:

- `substitution_cipher.py` neither upper-cases nor checks the key.
- `mhdecipher.py` checks only the key's length and distinctness. It never
  checks that the key's symbols come from the alphabet. A full round trip
  therefore needs the stronger hypothesis `IsPermutation(Upper(key))`.
  `MhDecipher.RoundTripFailsOutsideAlphabet` shows what goes wrong without
  it.

## Model

| member | source | states |
|---|---|---|
| Text.Upper | MH_decipher/mhdecipher.py:33-34 | upper-casing keeps the length and upper-cases each character in place (ASCII letters only) |
| Text.UpperIdempotent | MH_decipher/mhdecipher.py:70-71 | upper-casing text that is already upper-cased changes nothing |
| Text.DistinctIffCountsAtMostOne | MH_decipher/mhdecipher.py:39-41 | the `key.count(c) > 1` scan finds a character exactly when the key has a repeated character |
| Alphabet.SymbolsDistinct | MH_decipher/mhdecipher.py:3 | the alphabet has 27 pairwise different symbols |
| Alphabet.PermutationCovers | substitution_cipher.py:16 | a key of 27 distinct alphabet symbols contains every alphabet symbol |
| Lookup.Table | substitution_cipher.py:36 | the dictionary built from key/value lists has exactly the listed keys, and a repeated key maps to the value of its last occurrence |
| Lookup.Substitute | substitution_cipher.py:22 | the output has one character per input character, each being the dictionary value or, for a missing key, the character itself |
| Lookup.SubstituteRoundTrip | substitution_cipher.py:21-37 | the forward and reverse dictionaries of two distinct lists undo each other on text over the first list, or on all text when the second list uses only symbols of the first |
| MhDecipher.HasDuplicity | MH_decipher/mhdecipher.py:39-41 | the duplicate check fails exactly when the (upper-cased) key is not repeat-free |
| MhDecipher.ValidKey | MH_decipher/mhdecipher.py:33-41 | the length error is raised exactly when the key does not have 27 characters, so it takes precedence; the duplicate error exactly for a 27-character key whose upper-casing repeats a character; otherwise the upper-cased key is used |
| MhDecipher.Encrypt | MH_decipher/mhdecipher.py:17-52 | same two errors in the same order; on success the output has the input's length, each upper-cased alphabet symbol at position p becomes the upper-cased key's character at p, every other character is only upper-cased |
| MhDecipher.Decrypt | MH_decipher/mhdecipher.py:54-89 | same two errors in the same order; on success the output has the input's length, each upper-cased character equal to the upper-cased key's character at p becomes the alphabet symbol at p, every other character is only upper-cased |
| MhDecipher.SameValidation | MH_decipher/mhdecipher.py:70-78 | encryption and decryption accept the same keys and report the same error for the others |
| MhDecipher.LengthCheckedFirst | MH_decipher/mhdecipher.py:36-41 | a short key with repeats ("AAB") reports the length error in both directions |
| MhDecipher.CaseInsensitiveDuplicity | MH_decipher/mhdecipher.py:33-41 | a 27-character key holding both `a` and `A` reports the duplicate error, because upper-casing comes first |
| MhDecipher.EncryptedIsUpper | MH_decipher/mhdecipher.py:43-52 | with a valid key, the ciphertext is already upper case |
| MhDecipher.RoundTripOverAlphabet | MH_decipher/mhdecipher.py:43-89 | for any key that passes validation and any text whose upper-cased characters are alphabet symbols, decrypting the encryption gives the upper-cased text |
| MhDecipher.RoundTripPermutation | MH_decipher/mhdecipher.py:43-89 | when the upper-cased key is a permutation of the alphabet, decrypting the encryption of any text gives the upper-cased text |
| MhDecipher.EncryptUndoesDecrypt | MH_decipher/mhdecipher.py:43-89 | when the upper-cased key is a permutation of the alphabet, encrypting the decryption of any text gives the upper-cased text |
| MhDecipher.RoundTripFailsOutsideAlphabet | MH_decipher/mhdecipher.py:36-87 | when a valid key holds a non-alphabet character at position p, that character encrypts to itself but decrypts to the alphabet symbol at p, so the round trip fails |
| MhDecipher.DigitKeyPassesValidation | MH_decipher/mhdecipher.py:36-41 | a key using `1` instead of `_` passes both checks, so the failing round trip above does occur |
| MhDecipher.IdentityKey | MH_decipher/mhdecipher.py:43-87 | with the alphabet as the key, both encryption and decryption only upper-case the text |
| SubstitutionCipher.Encrypt | substitution_cipher.py:10-22 | the output has the input's length; an alphabet symbol at position p becomes `key[p]`; every other character, lower-case letters included, is kept |
| SubstitutionCipher.Decrypt | substitution_cipher.py:25-37 | the output has the input's length; a character among the key's first 27 entries becomes the alphabet symbol at its last position there; every other character is kept |
| SubstitutionCipher.NoCaseFolding | substitution_cipher.py:21-22 | a lower-case letter passes encryption unchanged |
| SubstitutionCipher.LastOccurrenceWins | substitution_cipher.py:36 | a key character repeated at positions p < q (q its last occurrence) decrypts to the alphabet symbol at q |
| SubstitutionCipher.OnlyFirstEntriesRead | substitution_cipher.py:21-37 | key entries beyond the 27th change neither encryption nor decryption |
| SubstitutionCipher.RoundTrip | substitution_cipher.py:10-37 | when the key's first 27 entries are a permutation of the alphabet, decrypting the encryption of any text gives the text back |
| SubstitutionCipher.EncryptUndoesDecrypt | substitution_cipher.py:10-37 | when the key's first 27 entries are a permutation of the alphabet, encrypting the decryption of any text gives the text back |
| SubstitutionCipher.ShiftKeyIsPermutation | substitution_cipher.py:42 | the shifted demonstration key is a permutation of the alphabet |
| SubstitutionCipher.ShiftKeyRotates | substitution_cipher.py:42 | position p of the demonstration key holds the alphabet symbol at (p + 3) mod 27 |
| SubstitutionCipher.ShiftKeyShifts | substitution_cipher.py:42-45 | encrypting with the demonstration key moves each alphabet symbol three places on, wrapping around |
| SubstitutionCipher.ShiftKeyDemo | substitution_cipher.py:42-46 | the sample text `BYL_POZDNI_VECER` comes back unchanged after encryption and decryption with the demonstration key |
| Agreement.ValidatingIsUpperCasedPlain | MH_decipher/mhdecipher.py:30-89 | once the key passes validation, the validating cipher equals the non-validating one applied to the upper-cased text and the upper-cased key, in both directions |

## Left out

- `prolom_substitute`, `get_bigrams`, `transition_matrix` and `plausibility` (`MH_decipher/mhdecipher.py:5-15`): their bodies are `pass`, so they have no behaviour to model. The intended Metropolis–Hastings search would be randomised and use floating point anyway.
- The `numpy` import (`MH_decipher/mhdecipher.py:1`): it is a foreign library, and nothing from it is used in the modelled code.
- The demonstration's `print` calls (`substitution_cipher.py:48-50`): console output. Only the round-trip fact is kept, as `ShiftKeyDemo`. The printed ciphertext is characterised by `ShiftKeyShifts` rather than stated as a literal.
- Text.Upper: models Python's `str.upper` on ASCII only (`a`–`z` to `A`–`Z`, everything else kept). Non-ASCII case mappings are not modelled, including those that change length, such as `ß` to `SS`.
- MhDecipher.Encrypt, MhDecipher.Decrypt: the `ValueError` message texts are not modelled, only which error is raised (`WrongLength` or `Duplicity`). The two directions' duplicate messages differ only in "coding" versus "decoding".
- SubstitutionCipher.Encrypt, SubstitutionCipher.Decrypt: a key shorter than 27 entries makes the source raise `IndexError`. The model states this as the precondition `|key| >= 27` instead of modelling the exception.
- SubstitutionCipher.Encrypt, SubstitutionCipher.Decrypt: key entries are modelled as single characters. The source types the key as `list[str]`, and `seq<char>` cannot express other entries. In encryption, an empty entry would make the output shorter than the input, and a multi-character entry would make it longer. In decryption, an empty or multi-character entry becomes a dictionary key that no single character ever matches, so that entry acts as if absent.
- The cost of the source's algorithms is not modelled: the quadratic `key.count` scan and the repeated string concatenation. Only their results are modelled.
