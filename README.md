# Classical ciphers and ElGamal signatures, modelled in Dafny

This project models four exercises from a small collection of cryptography labs and
proves what each one promises.

- **ElGamal signatures** (`lab6/elgamal_signature.py`). Key generation `y = g^x mod p`,
  the nonce loop that retries until `gcd(k, p - 1) = 1`, signing
  `r = g^k mod p`, `s = (hm - x r) k^-1 mod (p - 1)`, verification
  `g^hm == y^r r^s (mod p)`, and the big-endian conversion of the 16-byte digest into
  the integer `hm`. The main theorem is that every signature made with an invertible
  nonce verifies under the matching public key, given Fermat's little theorem for `g`
  and `p`.
- **Vigenère cipher over the 31-letter Romanian alphabet** (`lab3/main.py`,
  `VigenereCipher`). It covers:
  - the alphabet and its two lookup tables;
  - text validation, and key validation with its fixed order of checks;
  - text preparation (spaces removed, upper-cased);
  - encryption and decryption by per-position addition or subtraction modulo 31, with
    the key cycled.

  Both round trips are proved.
- **Keyed-alphabet shift cipher** (`Lab1/improved.py`). The accepted key's distinct
  letters come first, followed by the remaining letters of A-Z. This gives the
  permuted alphabet `dic` and its inverse `dic_r`, and messages are shifted within that
  permutation. `dic` is built by two loops that store each new character under
  `len(dic)`. That construction is a method proved against a specification, and the
  resulting order is proved to be a permutation of A-Z with the shape the code gives
  it.
- **Caesar cipher** (`Lab1/easy.py`): the fixed A-Z tables. It is proved to be the
  keyed cipher under any key made of the first letters of the alphabet in order.

Modules:

- `Wrappers` holds `Option` and `Result`.
- `Text` holds upper-casing, space removal, first-occurrence lookup and the positions
  table `{c: i for i, c in enumerate(s)}`.
- `NumberTheory` holds powers, remainders, `gcd` and modular inverses.
- `ElGamal`, `Vigenere`, `ShiftCipher`, `Caesar` and `KeyedShift` hold the four
  exercises. `ShiftCipher` contains what the two Lab1 scripts share: the message check,
  the shift normalisation `abs(n) % 26`, and encoding/decoding through a pair of tables.

`elgamal_sign_and_verify` checks neither `r` nor `s` against a range before testing the
verification equation (lab6/elgamal_signature.py:55-58). `Verify` therefore has no range
check either, and `VerifyHasNoRangeCheck` exhibits an out-of-range pair that it accepts.

The shift normalisation `abs(n) % 26` makes `n` and `-n` equivalent. It does not make
`n` and `n + 26` equivalent when `n` is negative: for example, -3 normalises to 3 while
23 stays 23. `NormalizeShiftPeriodic` states exactly when adding 26 changes nothing.

## Model

| member | source | states |
|---|---|---|
| ElGamal.PublicKey | lab6/elgamal_signature.py:24-25 | `pow(g, x, p)` computed by square-and-multiply equals g^x mod p, so `0 <= y < p` |
| NumberTheory.ModExpIsPow | lab6/elgamal_signature.py:25 | `ModExp`, the square-and-multiply `pow(b, e, m)`, equals the remainder of the full power b^e modulo m |
| ElGamal.DigestToInt | lab6/elgamal_signature.py:36 | the big-endian value of n bytes is below 2^(8n) |
| ElGamal.DigestRoundTrip | lab6/elgamal_signature.py:36 | converting the digest to an integer and back to the same number of bytes gives the digest back |
| ElGamal.IntRoundTrip | lab6/elgamal_signature.py:36 | an integer below 2^(8 len), written as len big-endian bytes and read back, is unchanged |
| ElGamal.DigestBelow2To128 | lab6/elgamal_signature.py:35-36 | a 16-byte MD5 digest read as an integer satisfies `0 <= hm < 2^128` |
| ElGamal.ChooseNonce | lab6/elgamal_signature.py:40-43 | the loop returns the first draw coprime to p - 1, which lies in `[2, p - 2]`; it returns nothing exactly when no draw is coprime |
| NumberTheory.GcdDivides | lab6/elgamal_signature.py:42 | `Gcd`, Euclid's `math.gcd(a, b)`, divides both a and b |
| NumberTheory.GcdGreatest | lab6/elgamal_signature.py:42 | every common divisor of a and b divides `Gcd(a, b)`, so it is the greatest one |
| NumberTheory.ModInverse | lab6/elgamal_signature.py:49 | `pow(k, -1, m)` exists exactly when `gcd(k, m) = 1`, and then `0 <= k_inv < m` and `k k_inv == 1 (mod m)` |
| NumberTheory.InverseUnique | lab6/elgamal_signature.py:49 | two inverses of k in `[0, m)` are equal |
| NumberTheory.InverseNeedsCoprime | lab6/elgamal_signature.py:49 | any inverse of k modulo m forces `gcd(k, m) = 1` |
| ElGamal.Sign | lab6/elgamal_signature.py:48-50 | signing succeeds exactly when `gcd(k, p - 1) = 1`; then `r = g^k mod p < p`, `s < p - 1`, and `k s == hm - x r (mod p - 1)` |
| ElGamal.Verify | lab6/elgamal_signature.py:55-58 | returns true exactly when `g^hm == y^r r^s (mod p)` |
| ElGamal.VerifyHasNoRangeCheck | lab6/elgamal_signature.py:55-58 | with digest 0, the out-of-range pair `r = 0, s = 0` verifies under any key |
| NumberTheory.FermatReduce | lab6/elgamal_signature.py:55 | when `g^(p-1) mod p = 1`, exponents of g matter only modulo p - 1 |
| ElGamal.PublicKeyPower | lab6/elgamal_signature.py:56 | `(g^a mod p)^e == g^(a e) (mod p)`, for the public key and for r alike |
| ElGamal.PowerProduct | lab6/elgamal_signature.py:56 | numbers congruent to g^a and g^b multiply to one congruent to g^(a + b) |
| ElGamal.ExponentSum | lab6/elgamal_signature.py:50 | the signing equation makes `x r + k s == hm (mod p - 1)` |
| ElGamal.SignThenVerify | lab6/elgamal_signature.py:48-58 | with an invertible nonce and Fermat's little theorem for g and p, the signature exists and verifies under `g^x mod p` |
| ElGamal.SignAndVerify | lab6/elgamal_signature.py:11-63 | the whole exercise: no result exactly when no draw is usable, and otherwise `True` whenever Fermat's little theorem holds for g and p |
| ElGamal.SourceParametersInRange | lab6/elgamal_signature.py:16-18 | the hard-coded p is odd and at least 4, and `1 < g < p` |
| ElGamal.SmallInstancePublicKey | lab6/elgamal_signature.py:25 | for p = 467, g = 2, x = 127 the public key is 132 |
| ElGamal.SmallInstanceInverse | lab6/elgamal_signature.py:49 | the inverse of 213 modulo 466 is 431 |
| ElGamal.SmallInstanceSignature | lab6/elgamal_signature.py:48-50 | for p = 467, g = 2, x = 127, hm = 100, k = 213 the signature is (29, 51) |
| ElGamal.SmallInstanceFermat | lab6/elgamal_signature.py:55 | 2^466 mod 467 is 1, so the small instance meets the Fermat hypothesis |
| ElGamal.SmallInstanceVerifies | lab6/elgamal_signature.py:55-58 | the signature (29, 51) of hm = 100 verifies under the public key 132 |
| Vigenere.VigenereCipher.constructor | lab3/main.py:2-9 | the alphabet is the 31 Romanian letters, `char_to_num`/`num_to_char` are mutually inverse bijections with 0..30, and each letter gets its number in alphabet order |
| Vigenere.RomanianLetters | lab3/main.py:4-5 | the alphabet has 31 distinct letters: exactly A-Z, Ă, Â, Î, Ș and Ț |
| Vigenere.LetterNumbers | lab3/main.py:4-9 | letter i of the alphabet is the one with number i (A 0, Ă 1, Â 2, ..., Z 30) |
| Vigenere.TablesInverse | lab3/main.py:8-9 | for an alphabet without repeats the two tables are inverse bijections between its letters and its positions |
| Vigenere.NumToCharTable | lab3/main.py:9 | `num_to_char` holds exactly the letters of the alphabet as its values |
| Text.Positions | lab3/main.py:8 | `{c: i for i, c in enumerate(s)}` has exactly the characters of s as keys, and each maps to a position holding it |
| Text.PositionsInverse | lab3/main.py:8 | `{c: i for i, c in enumerate(s)}` inverts indexing when s has no repeats |
| Vigenere.VigenereCipher.TextValidity | lab3/main.py:11-21 | text is accepted exactly when every character is a letter in either case or a space; otherwise the error names the first character that is not |
| Vigenere.VigenereCipher.ValidateText | lab3/main.py:15-21 | the scanning loop with early return gives exactly that verdict |
| Vigenere.VigenereCipher.ValidateKey | lab3/main.py:23-36 | a short key is refused first, then a key with a disallowed character, then one with a space; a key is accepted exactly when it passes all three; a long key with a disallowed character is refused naming its first such character |
| Text.RemoveSpaces | lab3/main.py:40 | the result has no spaces, is no longer than the input, and contains exactly the input's other characters |
| Text.RemoveSpacesCounts | lab3/main.py:40 | each character other than space occurs as often in the result as in the input |
| Text.RemoveSpacesAppend | lab3/main.py:40 | space removal distributes over concatenation |
| Text.RemoveSpacesSingle | lab3/main.py:40 | on one character it drops a space and keeps anything else; with the line above this fixes the result, order included |
| Text.Upper | Lab1/easy.py:18 | `str.upper()` keeps the length and the spaces, and yields A-Z exactly where the input had a Latin letter in either case |
| Text.UpperIdempotent | Lab1/easy.py:18 | upper-casing twice is the same as upper-casing once |
| Vigenere.VigenereCipher.PrepareText | lab3/main.py:38-42 | `prepare_text` leaves no spaces, never lengthens the text, and equals upper-casing before removing spaces |
| Text.UpperRemoveSpacesCommute | lab3/main.py:40-41 | upper-casing and space removal commute |
| Vigenere.VigenereCipher.PrepareTextIdempotent | lab3/main.py:38-42 | preparing a text twice is the same as preparing it once |
| Vigenere.VigenereCipher.UpperAllowed | lab3/main.py:13 | every allowed character other than space upper-cases to a letter of the alphabet |
| Vigenere.VigenereCipher.AllowedLetters | lab3/main.py:13 | `Allowed`: a character is allowed exactly when it is a space or upper-cases to a Romanian letter |
| Vigenere.VigenereCipher.PreparedLetters | lab3/main.py:38-42 | a text that passes validation prepares to letters only |
| Vigenere.VigenereCipher.PreparedKey | lab3/main.py:58-63 | an accepted key prepares to at least 7 letters, so `key_length` is never 0 |
| Vigenere.VigenereCipher.PrepareLetters | lab3/main.py:38-42 | a string of letters passes validation and is unchanged by preparation |
| Vigenere.VigenereCipher.Shift | lab3/main.py:62-65 | shifting a letter by a key letter, either way, gives a letter |
| Vigenere.VigenereCipher.Shifted | lab3/main.py:60-65 | the output is no longer than the input and holds letters only |
| Vigenere.VigenereCipher.ShiftedAt | lab3/main.py:60-65 | on letters the output has the input's length, and character i is input i shifted by key letter `i mod len(key)` |
| Vigenere.VigenereCipher.ShiftInverse | lab3/main.py:64-89 | shifting a letter back undoes shifting it forward, and the other way round |
| Vigenere.VigenereCipher.ShiftedInverse | lab3/main.py:60-90 | shifting a text of letters one way and then the other with the same key gives it back |
| Vigenere.VigenereCipher.Encrypted | lab3/main.py:44-67 | encryption succeeds exactly when text and key are valid; an invalid text is reported before the key, and a valid text with a refused key gives `validate_key`'s error; the ciphertext has the prepared text's length and holds letters only |
| Vigenere.VigenereCipher.Decrypted | lab3/main.py:69-92 | the same for decryption |
| Vigenere.VigenereCipher.Encrypt | lab3/main.py:44-67 | the method computes exactly `Encrypted` |
| Vigenere.VigenereCipher.EncipherLetters | lab3/main.py:57-67 | the appending loop computes the forward shift of the whole prepared text |
| Vigenere.VigenereCipher.Decrypt | lab3/main.py:69-92 | the method computes exactly `Decrypted` |
| Vigenere.VigenereCipher.DecipherLetters | lab3/main.py:82-92 | the appending loop computes the backward shift of the whole prepared text |
| Vigenere.VigenereCipher.DecryptEncrypt | lab3/main.py:44-92 | decrypting the ciphertext with the same key gives back the prepared plaintext |
| Vigenere.VigenereCipher.EncryptDecrypt | lab3/main.py:44-92 | encrypting a decrypted text with the same key gives back the prepared ciphertext |
| NumberTheory.AddSubMod | lab3/main.py:64-89 | adding a and then subtracting it modulo n returns any remainder x |
| NumberTheory.SubAddMod | lab3/main.py:64-89 | subtracting a and then adding it modulo n returns any remainder x |
| ShiftCipher.PrepareMessage | Lab1/easy.py:18-21 | a message is accepted exactly when, upper-cased and without spaces, it is non-empty and all A-Z; the accepted form is that string |
| ShiftCipher.PrepareMessageAcceptsLetters | Lab1/easy.py:18-21 | any line of Latin letters and spaces with at least one letter is accepted |
| ShiftCipher.PrepareMessageLatin | Lab1/easy.py:18-21 | a non-empty A-Z string is accepted unchanged |
| ShiftCipher.NormalizeShift | Lab1/easy.py:24 | `abs(n) % 26` lies in `[0, 25]` and is congruent to n or to -n |
| ShiftCipher.NormalizeShiftSymmetric | Lab1/easy.py:24 | n and -n normalise to the same shift |
| ShiftCipher.NormalizeShiftPeriodic | Lab1/easy.py:24 | n and n + 26 normalise alike exactly when n >= 0, n <= -26 or n = -13 |
| ShiftCipher.Encode | Lab1/improved.py:50 | encoding keeps the length, stays in the table, and moves each letter's position up by the amount modulo 26 |
| ShiftCipher.Decode | Lab1/improved.py:54 | decoding keeps the length, stays in the table, and moves each letter's position down by the amount modulo 26 |
| ShiftCipher.DecodeEncode | Lab1/improved.py:50-54 | decoding with the same amount undoes encoding |
| ShiftCipher.EncodeDecode | Lab1/improved.py:50-54 | encoding with the same amount undoes decoding |
| ShiftCipher.Process | Lab1/improved.py:40-54 | one menu pass gives a result exactly when the message is accepted, and then it is the accepted message encoded or decoded by the normalised shift |
| ShiftCipher.ProcessShifts | Lab1/improved.py:45-54 | the pass moves every letter's table position up (encode) or down (decode) by the normalised shift, modulo 26 |
| ShiftCipher.ProcessRoundTrip | Lab1/improved.py:40-54 | running the opposite choice on the output with the same shift gives back the accepted message |
| Caesar.CaesarTables | Lab1/easy.py:1-2 | `dict`/`dict_r` form a shift table over exactly A-Z, with `dict_r[c] = ord(c) - 65` |
| Caesar.Encode | Lab1/easy.py:28 | output letter i is the letter `(x_i + amount) mod 26` places after A |
| Caesar.Decode | Lab1/easy.py:32 | output letter i is the letter `(x_i - amount) mod 26` places after A |
| Caesar.DecodeEncode | Lab1/easy.py:28-32 | decoding inverts encoding for every amount, and the other way round |
| Caesar.Process | Lab1/easy.py:18-32 | one menu pass gives a result exactly when the message is accepted, namely the accepted message encoded or decoded by the normalised shift |
| Caesar.ProcessRoundTrip | Lab1/easy.py:18-32 | decoding the encoded message with the same shift gives back the accepted message |
| KeyedShift.AlphaLetters | Lab1/improved.py:1 | `alpha` holds each of A-Z once, in increasing order |
| KeyedShift.NormalizeKey | Lab1/improved.py:4-10 | a key shorter than 7 after upper-casing and space removal is refused first, then one with a character outside A-Z; an accepted key has no spaces, only A-Z and length at least 7 |
| KeyedShift.Dedup | Lab1/improved.py:16-22 | keeping first occurrences gives a string without repeats holding exactly the input's characters |
| KeyedShift.Indexed | Lab1/improved.py:14-22 | the dictionary has keys exactly `0..len(s)-1` and key i holds `s[i]` |
| KeyedShift.IndexedValues | Lab1/improved.py:17 | its values are exactly the characters of s |
| KeyedShift.StoreStep | Lab1/improved.py:17-18 | one loop step (store under `len(dic)` unless already a value) extends the deduplicated prefix by the character |
| KeyedShift.BuildKeyedAlphabet | Lab1/improved.py:14-22 | the two loops build exactly the dictionary of the key's distinct letters followed by the unused letters of `alpha` |
| KeyedShift.IndexedInOrder | Lab1/improved.py:26 | `dic.values()` yields the stored letters in the order they were stored: reading the dictionary built from s in key order gives s back |
| KeyedShift.ReverseTable | Lab1/improved.py:26 | every stored letter has a `dic_r` entry, and `dic_r` maps each letter to a key of `dic` that holds it |
| KeyedShift.KeyedOrder | Lab1/improved.py:14-22 | the keyed alphabet has no repeats and holds exactly the letters of the key and of `alpha` |
| KeyedShift.KeyedOrderPermutation | Lab1/improved.py:14-22 | for an accepted key the keyed alphabet has 26 letters, no repeats, and is exactly A-Z |
| KeyedShift.Unused | Lab1/improved.py:20-22 | the characters kept are exactly those of `alpha` not in the key |
| KeyedShift.UnusedIncreasing | Lab1/improved.py:20-22 | taken from an increasing string, the unused characters stay increasing |
| KeyedShift.DedupAppend | Lab1/improved.py:16-22 | deduplicating key + alpha lists the key deduplicated, then the characters of alpha missing from the key |
| KeyedShift.KeyedOrderShape | Lab1/improved.py:16-22 | `dic` lists the key's distinct letters, then the unused letters A-Z in alphabetical order |
| KeyedShift.DedupFirstOccurrence | Lab1/improved.py:16-18 | the key's letters appear in `dic` in the order of their first occurrence in the key |
| KeyedShift.PermutationTable | Lab1/improved.py:26 | any arrangement of the 26 letters stored in order, with its `dic_r`, is a shift table over exactly A-Z |
| KeyedShift.KeyedTable | Lab1/improved.py:26 | for an accepted key, `dic_r[dic[i]] == i` and `dic[dic_r[c]] == c`, with keys 0..25 and letters exactly A-Z |
| KeyedShift.IdentityIsCaesar | Lab1/improved.py:14-26 | built from `alpha` in order, `dic` and `dic_r` are the Caesar `dict` and `dict_r` |
| KeyedShift.KeyedProcess | Lab1/improved.py:40-54 | under an accepted key, one menu pass gives a result exactly when the message is accepted, of the same length and in A-Z |
| KeyedShift.KeyedEncodeShifts | Lab1/improved.py:50 | encoding moves every letter's position in the keyed alphabet (`dic_r`) up by the normalised shift, modulo 26 |
| KeyedShift.KeyedDecodeShifts | Lab1/improved.py:54 | decoding moves every letter's position in the keyed alphabet down by the normalised shift, modulo 26 |
| KeyedShift.KeyedRoundTrip | Lab1/improved.py:50-54 | under every accepted key, decoding the encoded message with the same shift gives back the accepted message, and vice versa |
| KeyedShift.AlphabetKeyOrder | Lab1/improved.py:14-22 | a key made of the first m letters of `alpha` leaves `alpha` unchanged as the keyed alphabet |
| KeyedShift.AlphabetKeyIsCaesar | Lab1/improved.py:14-54 | under such a key the keyed cipher is exactly the Caesar cipher of `Lab1/easy.py` |
| KeyedShift.Run | Lab1/improved.py:3-54 | a refused key is reported with its reason; otherwise the built tables give exactly the keyed cipher's result |

## Left out

- The MD5 hash and `random.randint` are not modelled. The digest bytes, the private key `x` and the nonce draws are parameters.
- ElGamal.ChooseNonce runs over a finite sequence of draws. It returns `None` when they run out, where the program would keep drawing. It does not model termination of the random retry loop.
- Primality of `p` and Fermat's little theorem are taken as the hypothesis `FermatHolds(p, g)` and are not proved. The 2048-bit prime is kept only as a constant.
- ElGamal.SignAndVerify: the result `True` is proved only under that Fermat hypothesis, and is not evaluated for the hard-coded 2048-bit parameters.
- The signature and verification use the mathematical power `g^e mod p`. Only the public key is computed by square-and-multiply, and the two are proved equal.
- Printing, `input()` prompts, the encode/decode/exit menus and the key prompt's retry loop are not modelled. One menu pass, or one key attempt, is modelled, with the choice given as a boolean.
- Error messages are returned as constructors (`CharNotAllowed`, `KeyTooShort`, `KeyCharNotAllowed`, `KeyHasSpaces`, `TooShort`, `NotLatin`) rather than as strings.
- Parsing the shift with `int()` is left out: the shift is given as an integer, and a line that is not a number has no counterpart.
- `str.upper()`, `str.lower()` and `str.isalpha()` are modelled only on A-Z, a-z and the Romanian letters Ă, Â, Î, Ș, Ț and their lower-case forms. Other characters are left unchanged by upper-casing.
- ShiftCipher.PrepareMessage rejects every character outside A-Z, a-z and space. Python's `str.upper()` maps some other characters into A-Z, sometimes changing the length: 'ß' becomes "SS", 'ı' becomes "I", 'ſ' becomes "S", and 'ﬁ' becomes "FI". The program accepts and encodes lines containing them, but the model rejects those lines. Only the remaining alphabetic characters pass `isalpha()` and then fail with `KeyError` at the table lookup, which the model also reports as a rejection.
- KeyedShift.NormalizeKey: for the same reason, keys whose upper case reaches A-Z only through such characters are refused by the model but accepted by the program. For example, "ßßßß" upper-cases to the eight letters "SSSSSSSS", yet the model refuses it as too short.
- Dictionary insertion order is modelled as key order. This agrees with the code, because `dic` receives keys 0, 1, 2, ... in that order.
- `dic_r` is modelled as keeping the first index of each value. The code keeps the last, but the values of `dic` are distinct, so both agree.
- The interactive `main` of `lab3/main.py` and the alphabet table printout are not modelled.
- `lab5/main.py`, `lab6/rsa_signature.py` and `lab6/main.py` are not part of this model: they are process plumbing, library calls and printing.
