/** The Vigenère cipher over the 31-letter Romanian alphabet. A `VigenereCipher` holds
    the alphabet and the two lookup tables built from it at construction; none of them
    changes afterwards, so they are `const` fields. */
module Vigenere {
  import opened Wrappers
  import opened Text
  import opened NumberTheory

  /** The alphabet; the position of a letter is its number, 0 to 30. */
  const RomanianAlphabet: string := "AĂÂBCDEFGHIÎJKLMNOPQRSȘTȚUVWXYZ"

  /** Keys shorter than this are rejected. */
  const MinKeyLength: nat := 7

  /** `{i: char for i, char in enumerate(alphabet)}`: each position to its letter. */
  function NumToCharTable(alphabet: string): (t: map<nat, char>)
    ensures forall c :: c in t.Values <==> c in alphabet
  {
    var t := map i: nat | i < |alphabet| :: alphabet[i];
    assert forall c | c in alphabet :: c in t.Values by {
      forall c | c in alphabet ensures c in t.Values {
        var i :| 0 <= i < |alphabet| && alphabet[i] == c;
        assert t[i] == c;
      }
    }
    t
  }

  /** The two tables of an alphabet without repeated letters are mutually inverse
      bijections between its letters and 0..|alphabet|-1. */
  lemma TablesInverse(alphabet: string)
    requires Distinct(alphabet)
    ensures forall c :: c in Positions(alphabet) <==> c in alphabet
    ensures forall i :: i in NumToCharTable(alphabet) <==> 0 <= i < |alphabet|
    ensures forall c :: c in Positions(alphabet) ==>
              Positions(alphabet)[c] < |alphabet| && NumToCharTable(alphabet)[Positions(alphabet)[c]] == c
    ensures forall i :: 0 <= i < |alphabet| ==>
              NumToCharTable(alphabet)[i] in Positions(alphabet) && Positions(alphabet)[NumToCharTable(alphabet)[i]] == i
  {
    PositionsInverse(alphabet);
  }

  /** The letters of the Romanian alphabet, described character by character. */
  predicate IsLetter(c: char)
  {
    'A' <= c <= 'Z' || c == 'Ă' || c == 'Â' || c == 'Î' || c == 'Ș' || c == 'Ț'
  }

  /** The number of each letter, spelled out: A is 0, Ă 1, Â 2, B to I 3 to 10, Î 11,
      J to S 12 to 21, Ș 22, T 23, Ț 24 and U to Z 25 to 30. */
  function LetterNumber(c: char): int
  {
    if c == 'Ă' then 1 else if c == 'Â' then 2 else if c == 'Î' then 11
    else if c == 'Ș' then 22 else if c == 'Ț' then 24
    else if c <= 'A' then 0
    else if c <= 'I' then c as int - 'B' as int + 3
    else if c <= 'S' then c as int - 'J' as int + 12
    else if c <= 'T' then 23
    else c as int - 'U' as int + 25
  }

  /** Letter i of the alphabet has number i. */
  lemma LetterNumbers()
    ensures |RomanianAlphabet| == 31
    ensures forall i :: 0 <= i < |RomanianAlphabet| ==> LetterNumber(RomanianAlphabet[i]) == i
  {
  }

  /** The Romanian alphabet has 31 distinct letters, exactly those IsLetter describes. */
  lemma RomanianLetters()
    ensures |RomanianAlphabet| == 31 && Distinct(RomanianAlphabet)
    ensures forall c :: c in RomanianAlphabet <==> IsLetter(c)
  {
    LetterNumbers();
    RomanianMembership();
  }

  lemma RomanianMembership()
    ensures forall c :: c in RomanianAlphabet <==> IsLetter(c)
  {
  }

  /** Upper-casing leaves a letter alone and undoes lower-casing it. */
  lemma UpperLetter(c: char)
    requires IsLetter(c)
    ensures UpperChar(c) == c && UpperChar(LowerChar(c)) == c
  {
  }

  /** Why a text or key is refused; each stands for one of the messages the source returns. */
  datatype Error =
    | CharNotAllowed(c: char)
    | KeyTooShort
    | KeyCharNotAllowed(c: char)
    | KeyHasSpaces

  datatype Validity = Accepted | Rejected(error: Error)

  class VigenereCipher {
    const alphabet: string
    const alphabetSize: nat
    /** `char_to_num`: each letter to its position (`{char: i for i, char in enumerate(alphabet)}`). */
    const charToNum: map<char, nat>
    /** `num_to_char`: each position to its letter. */
    const numToChar: map<nat, char>

    /** The alphabet is the 31 Romanian letters, and the two tables are mutually inverse
        between those letters and 0..30. */
    ghost predicate Valid()
    {
      alphabetSize == |alphabet| == 31
      && (forall c :: c in alphabet <==> IsLetter(c))
      && (forall c :: c in charToNum <==> c in alphabet)
      && (forall i :: i in numToChar <==> 0 <= i < alphabetSize)
      && (forall c :: c in charToNum ==> charToNum[c] < alphabetSize && numToChar[charToNum[c]] == c)
      && (forall i :: 0 <= i < alphabetSize ==> numToChar[i] in charToNum && charToNum[numToChar[i]] == i)
    }

    constructor()
      ensures alphabet == RomanianAlphabet && alphabetSize == |RomanianAlphabet|
      ensures charToNum == Positions(RomanianAlphabet) && numToChar == NumToCharTable(RomanianAlphabet)
      ensures Valid()
      ensures forall c :: c in charToNum ==> charToNum[c] == LetterNumber(c)
    {
      alphabet := RomanianAlphabet;
      alphabetSize := |RomanianAlphabet|;
      charToNum := Positions(RomanianAlphabet);
      numToChar := NumToCharTable(RomanianAlphabet);
      RomanianLetters();
      TablesInverse(RomanianAlphabet);
      LetterNumbers();
    }

    /** The characters `validate_text` accepts: the letters in either case, and space. */
    predicate Allowed(c: char)
    {
      c in alphabet || c in Lower(alphabet) || c == ' '
    }

    predicate AllAllowed(s: string)
    {
      forall i :: 0 <= i < |s| ==> Allowed(s[i])
    }

    /** Every character is a letter of the alphabet. */
    predicate Letters(s: string)
    {
      forall i :: 0 <= i < |s| ==> s[i] in charToNum
    }

    /** `validate_text`, as a specification: the first character that is not allowed. */
    function TextValidity(text: string): (v: Validity)
      ensures v.Accepted? <==> AllAllowed(text)
      ensures v.Rejected? ==> exists i :: 0 <= i < |text| && v.error == CharNotAllowed(text[i]) &&
                                !Allowed(text[i]) && forall j :: 0 <= j < i ==> Allowed(text[j])
    {
      if text == [] then Accepted
      else if !Allowed(text[0]) then Rejected(CharNotAllowed(text[0]))
      else
        var v := TextValidity(text[1..]);
        assert v.Rejected? ==> exists i :: 1 <= i < |text| && v.error == CharNotAllowed(text[i]) &&
                                !Allowed(text[i]) && forall j :: 0 <= j < i ==> Allowed(text[j]) by {
          if v.Rejected? {
            var i :| 0 <= i < |text[1..]| && v.error == CharNotAllowed(text[1..][i]) &&
                     !Allowed(text[1..][i]) && forall j :: 0 <= j < i ==> Allowed(text[1..][j]);
            assert forall j :: 1 <= j < i + 1 ==> Allowed(text[j]) by {
              forall j | 1 <= j < i + 1 ensures Allowed(text[j]) {
                assert text[j] == text[1..][j - 1];
              }
            }
          }
        }
        v
    }

    /** `validate_text`: scans the text and stops at the first character not allowed. */
    method ValidateText(text: string) returns (v: Validity)
      ensures v == TextValidity(text)
    {
      for i := 0 to |text|
        invariant TextValidity(text) == TextValidity(text[i..])
      {
        assert text[i..][1..] == text[i + 1..];
        if !Allowed(text[i]) {
          return Rejected(CharNotAllowed(text[i]));
        }
      }
      return Accepted;
    }

    /** `validate_key`: the length is checked first, then the characters, then spaces. */
    function ValidateKey(key: string): (v: Validity)
      ensures v.Accepted? <==> |key| >= MinKeyLength && AllAllowed(key) && ' ' !in key
      ensures v == Rejected(KeyTooShort) <==> |key| < MinKeyLength
      ensures v.Rejected? && v.error.KeyCharNotAllowed? ==>
                |key| >= MinKeyLength && v.error.c in key && !Allowed(v.error.c)
      ensures v == Rejected(KeyHasSpaces) <==> |key| >= MinKeyLength && AllAllowed(key) && ' ' in key
      ensures |key| >= MinKeyLength && !AllAllowed(key) ==> v == Rejected(KeyCharNotAllowed(TextValidity(key).error.c))
    {
      if |key| < MinKeyLength then Rejected(KeyTooShort)
      else match TextValidity(key)
        case Rejected(e) => Rejected(KeyCharNotAllowed(e.c))
        case Accepted => if ' ' in key then Rejected(KeyHasSpaces) else Accepted
    }

    /** `prepare_text`: spaces removed, then upper-cased. */
    function PrepareText(text: string): (t: string)
      ensures ' ' !in t && |t| <= |text|
      ensures t == RemoveSpaces(Upper(text))
    {
      UpperRemoveSpacesCommute(text);
      Upper(RemoveSpaces(text))
    }

    /** Preparing twice is the same as preparing once. */
    lemma PrepareTextIdempotent(text: string)
      ensures PrepareText(PrepareText(text)) == PrepareText(text)
    {
      var t := RemoveSpaces(text);
      UpperRemoveSpacesCommute(Upper(t));
      UpperRemoveSpacesCommute(t);
      RemoveSpacesNoop(t);
      UpperIdempotent(t);
    }

    /** Upper-casing maps every allowed character other than space to a letter. */
    lemma UpperAllowed(c: char)
      requires Valid() && Allowed(c) && c != ' '
      ensures UpperChar(c) in charToNum
    {
      if c in alphabet {
        UpperLetter(c);
      } else {
        var i :| 0 <= i < |alphabet| && Lower(alphabet)[i] == c;
        assert alphabet[i] in alphabet;
        UpperLetter(alphabet[i]);
      }
    }

    /** The allowed characters are the space and exactly those that upper-case to a letter
        of the alphabet. */
    lemma AllowedLetters(c: char)
      requires Valid()
      ensures Allowed(c) <==> c == ' ' || IsLetter(UpperChar(c))
    {
      if Allowed(c) && c != ' ' {
        UpperAllowed(c);
      }
      var d := UpperChar(c);
      if c != ' ' && IsLetter(d) && c != d {
        assert LowerChar(d) == c;
        assert d in alphabet;
        var i :| 0 <= i < |alphabet| && alphabet[i] == d;
        assert Lower(alphabet)[i] == c;
      }
    }

    /** A text that passes `validate_text` prepares to letters only. */
    lemma PreparedLetters(text: string)
      requires Valid() && AllAllowed(text)
      ensures Letters(PrepareText(text))
    {
      var t := RemoveSpaces(text);
      forall i | 0 <= i < |t| ensures UpperChar(t[i]) in charToNum {
        assert t[i] in t;
        var j :| 0 <= j < |text| && text[j] == t[i];
        UpperAllowed(t[i]);
      }
    }

    /** An accepted key prepares to at least seven letters, so `key_length` is never 0. */
    lemma PreparedKey(key: string)
      requires Valid() && ValidateKey(key).Accepted?
      ensures |PrepareText(key)| >= MinKeyLength && Letters(PrepareText(key))
    {
      RemoveSpacesNoop(key);
      PreparedLetters(key);
    }

    /** Letters are already prepared: preparing them changes nothing, and they pass
        `validate_text`. */
    lemma PrepareLetters(s: string)
      requires Valid() && Letters(s)
      ensures AllAllowed(s) && PrepareText(s) == s
    {
      forall i | 0 <= i < |s| ensures s[i] != ' ' && UpperChar(s[i]) == s[i] {
        UpperLetter(s[i]);
      }
      assert ' ' !in s;
      RemoveSpacesNoop(s);
    }

    /** What the letter c becomes when shifted by the key letter k: number
        `(num + key_num) % 31` when enciphering, `(num - key_num) % 31` when deciphering. */
    function Shift(c: char, k: char, forward: bool): (d: char)
      requires Valid() && c in charToNum && k in charToNum
      ensures d in charToNum
    {
      var n: int := if forward then charToNum[c] + charToNum[k] else charToNum[c] as int - charToNum[k];
      numToChar[n % alphabetSize]
    }

    /** The loop of `encrypt` (forward) or `decrypt` (backward): character i is shifted
        by the key letter at i mod |key|, and a character that is not a letter is skipped. */
    function Shifted(text: string, key: string, forward: bool): (out: string)
      requires Valid() && |key| > 0 && Letters(key)
      ensures |out| <= |text| && Letters(out)
    {
      if text == [] then []
      else
        var n := |text| - 1;
        var c := text[n];
        Shifted(text[..n], key, forward) + (if c in charToNum then [Shift(c, key[n % |key|], forward)] else [])
    }

    /** On letters nothing is skipped: output character i is input character i shifted by
        key letter i mod |key|. */
    lemma {:induction false} ShiftedAt(text: string, key: string, forward: bool)
      requires Valid() && |key| > 0 && Letters(key) && Letters(text)
      ensures |Shifted(text, key, forward)| == |text|
      ensures forall i :: 0 <= i < |text| ==>
                Shifted(text, key, forward)[i] == Shift(text[i], key[i % |key|], forward)
    {
      if text != [] {
        var n := |text| - 1;
        ShiftedAt(text[..n], key, forward);
      }
    }

    /** One more character of input adds at most one character of output. */
    lemma ShiftedStep(text: string, key: string, forward: bool, i: nat)
      requires Valid() && |key| > 0 && Letters(key) && i < |text|
      ensures Shifted(text[..i + 1], key, forward) ==
              Shifted(text[..i], key, forward) + (if text[i] in charToNum then [Shift(text[i], key[i % |key|], forward)] else [])
    {
      assert text[..i + 1][..i] == text[..i];
    }

    /** Shifting back undoes shifting forward, and the other way round, letter by letter. */
    lemma ShiftInverse(c: char, k: char)
      requires Valid() && c in charToNum && k in charToNum
      ensures Shift(Shift(c, k, true), k, false) == c
      ensures Shift(Shift(c, k, false), k, true) == c
    {
      ShiftForwardBack(c, k);
      ShiftBackForward(c, k);
    }

    lemma ShiftForwardBack(c: char, k: char)
      requires Valid() && c in charToNum && k in charToNum
      ensures Shift(Shift(c, k, true), k, false) == c
    {
      var a, b := charToNum[c], charToNum[k];
      var e := (a + b) % alphabetSize;
      assert charToNum[Shift(c, k, true)] == e;
      AddSubMod(a, b, alphabetSize);
    }

    lemma ShiftBackForward(c: char, k: char)
      requires Valid() && c in charToNum && k in charToNum
      ensures Shift(Shift(c, k, false), k, true) == c
    {
      var a, b := charToNum[c], charToNum[k];
      var e := (a as int - b) % alphabetSize;
      assert charToNum[Shift(c, k, false)] == e;
      SubAddMod(a, b, alphabetSize);
    }

    /** `encrypt` as a specification: the text is validated before the key, and only then
        is the prepared text enciphered with the prepared key. */
    function Encrypted(plaintext: string, key: string): (r: Result<string, Error>)
      requires Valid()
      ensures r.Ok? <==> AllAllowed(plaintext) && ValidateKey(key).Accepted?
      ensures !AllAllowed(plaintext) ==> r == Err(TextValidity(plaintext).error)
      ensures AllAllowed(plaintext) && ValidateKey(key).Rejected? ==> r == Err(ValidateKey(key).error)
      ensures r.Ok? ==> |r.value| == |PrepareText(plaintext)| && Letters(r.value)
    {
      match TextValidity(plaintext)
      case Rejected(e) => Err(e)
      case Accepted =>
        match ValidateKey(key)
        case Rejected(e) => Err(e)
        case Accepted =>
          PreparedLetters(plaintext);
          PreparedKey(key);
          ShiftedAt(PrepareText(plaintext), PrepareText(key), true);
          Ok(Shifted(PrepareText(plaintext), PrepareText(key), true))
    }

    /** `decrypt` as a specification, validated in the same order as `encrypt`. */
    function Decrypted(ciphertext: string, key: string): (r: Result<string, Error>)
      requires Valid()
      ensures r.Ok? <==> AllAllowed(ciphertext) && ValidateKey(key).Accepted?
      ensures !AllAllowed(ciphertext) ==> r == Err(TextValidity(ciphertext).error)
      ensures AllAllowed(ciphertext) && ValidateKey(key).Rejected? ==> r == Err(ValidateKey(key).error)
      ensures r.Ok? ==> |r.value| == |PrepareText(ciphertext)| && Letters(r.value)
    {
      match TextValidity(ciphertext)
      case Rejected(e) => Err(e)
      case Accepted =>
        match ValidateKey(key)
        case Rejected(e) => Err(e)
        case Accepted =>
          PreparedLetters(ciphertext);
          PreparedKey(key);
          ShiftedAt(PrepareText(ciphertext), PrepareText(key), false);
          Ok(Shifted(PrepareText(ciphertext), PrepareText(key), false))
    }

    /** `encrypt`: validates the text, then the key, prepares both and enciphers the
        prepared text. */
    method Encrypt(plaintext: string, key: string) returns (r: Result<string, Error>)
      requires Valid()
      ensures r == Encrypted(plaintext, key)
    {
      var valid := ValidateText(plaintext);
      if valid.Rejected? {
        return Err(valid.error);
      }
      valid := ValidateKey(key);
      if valid.Rejected? {
        return Err(valid.error);
      }
      PreparedKey(key);
      var ciphertext := EncipherLetters(PrepareText(plaintext), PrepareText(key));
      return Ok(ciphertext);
    }

    /** The loop of `encrypt`: one enciphered letter is appended per letter of the text,
        shifted forward by the key letter at the same position modulo the key length. */
    method EncipherLetters(text: string, key: string) returns (ciphertext: string)
      requires Valid() && |key| > 0 && Letters(key)
      ensures ciphertext == Shifted(text, key, true)
    {
      ciphertext := [];
      var keyLength := |key|;
      for i := 0 to |text|
        invariant ciphertext == Shifted(text[..i], key, true)
      {
        ShiftedStep(text, key, true, i);
        var c := text[i];
        if c in charToNum {
          var plaintextNum: int := charToNum[c];
          var keyNum := charToNum[key[i % keyLength]];
          var encryptedNum := (plaintextNum + keyNum) % alphabetSize;
          assert numToChar[encryptedNum] == Shift(c, key[i % keyLength], true);
          ciphertext := ciphertext + [numToChar[encryptedNum]];
        }
      }
      assert text[..|text|] == text;
    }

    /** `decrypt`: validates the text, then the key, prepares both and deciphers the
        prepared text. */
    method Decrypt(ciphertext: string, key: string) returns (r: Result<string, Error>)
      requires Valid()
      ensures r == Decrypted(ciphertext, key)
    {
      var valid := ValidateText(ciphertext);
      if valid.Rejected? {
        return Err(valid.error);
      }
      valid := ValidateKey(key);
      if valid.Rejected? {
        return Err(valid.error);
      }
      PreparedKey(key);
      var plaintext := DecipherLetters(PrepareText(ciphertext), PrepareText(key));
      return Ok(plaintext);
    }

    /** The loop of `decrypt`: one deciphered letter is appended per letter of the text,
        shifted back by the key letter at the same position modulo the key length. */
    method DecipherLetters(text: string, key: string) returns (plaintext: string)
      requires Valid() && |key| > 0 && Letters(key)
      ensures plaintext == Shifted(text, key, false)
    {
      plaintext := [];
      var keyLength := |key|;
      for i := 0 to |text|
        invariant plaintext == Shifted(text[..i], key, false)
      {
        ShiftedStep(text, key, false, i);
        var c := text[i];
        if c in charToNum {
          var ciphertextNum: int := charToNum[c];
          var keyNum := charToNum[key[i % keyLength]];
          var decryptedNum := (ciphertextNum - keyNum) % alphabetSize;
          assert numToChar[decryptedNum] == Shift(c, key[i % keyLength], false);
          plaintext := plaintext + [numToChar[decryptedNum]];
        }
      }
      assert text[..|text|] == text;
    }

    /** Shifting a text of letters one way and then the other with the same key gives it
        back. */
    lemma ShiftedInverse(text: string, key: string, forward: bool)
      requires Valid() && |key| > 0 && Letters(key) && Letters(text)
      ensures Shifted(Shifted(text, key, forward), key, !forward) == text
    {
      var out := Shifted(text, key, forward);
      ShiftedAt(text, key, forward);
      ShiftedAt(out, key, !forward);
      var back := Shifted(out, key, !forward);
      forall i | 0 <= i < |text| ensures back[i] == text[i] {
        ShiftInverse(text[i], key[i % |key|]);
      }
    }

    /** Round trip: deciphering the ciphertext with the same key gives back the prepared
        plaintext. */
    lemma DecryptEncrypt(plaintext: string, key: string)
      requires Valid() && Encrypted(plaintext, key).Ok?
      ensures Decrypted(Encrypted(plaintext, key).value, key) == Ok(PrepareText(plaintext))
    {
      var c := Encrypted(plaintext, key).value;
      PreparedLetters(plaintext);
      PreparedKey(key);
      PrepareLetters(c);
      ShiftedInverse(PrepareText(plaintext), PrepareText(key), true);
    }

    /** The other round trip: enciphering a deciphered text with the same key gives back
        the prepared ciphertext. */
    lemma EncryptDecrypt(ciphertext: string, key: string)
      requires Valid() && Decrypted(ciphertext, key).Ok?
      ensures Encrypted(Decrypted(ciphertext, key).value, key) == Ok(PrepareText(ciphertext))
    {
      var p := Decrypted(ciphertext, key).value;
      PreparedLetters(ciphertext);
      PreparedKey(key);
      PrepareLetters(p);
      ShiftedInverse(PrepareText(ciphertext), PrepareText(key), false);
    }
  }
}
