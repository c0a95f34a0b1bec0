/** The Caesar cipher of `Lab1/easy.py`: the shift cipher over the plain A-Z tables. */
module Caesar {
  import opened Wrappers
  import ShiftCipher

  /** `dict`: position i to the letter chr(65 + i), for i in 0..25. */
  const Dict: map<int, char> := map i | 0 <= i < 26 :: (65 + i) as char

  /** `dict_r`: the letter chr(i) to i - 65, for i in 65..90; written over the letters. */
  const DictR: map<char, int> := map c | 'A' <= c <= 'Z' :: c as int - 65

  /** The two maps are a shift table whose letters are exactly A-Z. */
  lemma CaesarTables()
    ensures ShiftCipher.Table(Dict, DictR) && ShiftCipher.LatinDomain(DictR)
    ensures forall c :: c in DictR ==> DictR[c] == c as int - 'A' as int
  {
    forall i | 0 <= i < 26 ensures Dict[i] in DictR && DictR[Dict[i]] == i {
    }
  }

  /** Encoding keeps the length and sends letter x to the letter (x + amount) mod 26
      places after A. */
  function Encode(message: string, amount: int): (c: string)
    requires ShiftCipher.AllLatin(message)
    ensures |c| == |message| && ShiftCipher.AllLatin(c)
    ensures forall i :: 0 <= i < |c| ==> c[i] as int - 'A' as int == (message[i] as int - 'A' as int + amount) % 26
  {
    CaesarTables();
    ShiftCipher.Encode(Dict, DictR, message, amount)
  }

  /** Decoding keeps the length and sends letter x to the letter (x - amount) mod 26
      places after A. */
  function Decode(message: string, amount: int): (p: string)
    requires ShiftCipher.AllLatin(message)
    ensures |p| == |message| && ShiftCipher.AllLatin(p)
    ensures forall i :: 0 <= i < |p| ==> p[i] as int - 'A' as int == (message[i] as int - 'A' as int - amount) % 26
  {
    CaesarTables();
    ShiftCipher.Decode(Dict, DictR, message, amount)
  }

  /** Decoding inverts encoding for every amount, and the other way round. */
  lemma DecodeEncode(message: string, amount: int)
    requires ShiftCipher.AllLatin(message)
    ensures Decode(Encode(message, amount), amount) == message
    ensures Encode(Decode(message, amount), amount) == message
  {
    CaesarTables();
    ShiftCipher.DecodeEncode(Dict, DictR, message, amount);
    ShiftCipher.EncodeDecode(Dict, DictR, message, amount);
  }

  /** The menu step of `Lab1/easy.py` after the choice: check the message, normalise the
      shift, encode or decode. */
  function Process(encode: bool, raw: string, n: int): (r: Option<string>)
    ensures r.Some? <==> ShiftCipher.PrepareMessage(raw).Some?
    ensures r.Some? ==> r.value == (if encode then Encode else Decode)(ShiftCipher.PrepareMessage(raw).value, ShiftCipher.NormalizeShift(n))
  {
    CaesarTables();
    ShiftCipher.Process(Dict, DictR, encode, raw, n)
  }

  /** Decoding what was encoded, with the same shift, gives back the checked message. */
  lemma ProcessRoundTrip(encode: bool, raw: string, n: int)
    requires Process(encode, raw, n).Some?
    ensures Process(!encode, Process(encode, raw, n).value, n) == ShiftCipher.PrepareMessage(raw)
  {
    CaesarTables();
    ShiftCipher.ProcessRoundTrip(Dict, DictR, encode, raw, n);
  }
}
