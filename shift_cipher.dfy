/** What the two Lab1 shift ciphers share: the message check, the shift normalisation
    and encoding/decoding through a pair of tables `dic`/`dic_r` between the positions
    0..25 and 26 letters. The Caesar cipher uses the plain A-Z tables, the keyed cipher a
    permuted alphabet. */
module ShiftCipher {
  import opened Wrappers
  import opened Text
  import opened NumberTheory

  /** Both ciphers shift modulo the 26 letters of the Latin alphabet. */
  const Size: nat := 26

  /** The letters the ciphers can look up: A to Z. */
  predicate IsLatin(c: char)
  {
    'A' <= c <= 'Z'
  }

  predicate AllLatin(s: string)
  {
    forall i :: 0 <= i < |s| ==> IsLatin(s[i])
  }

  /** The message line: upper-cased, spaces removed, and accepted only if what is left
      is non-empty and alphabetic. */
  function PrepareMessage(raw: string): (r: Option<string>)
    ensures r.Some? ==> 0 < |r.value| <= |raw| && AllLatin(r.value) && ' ' !in r.value
    ensures r.Some? ==> r.value == RemoveSpaces(Upper(raw))
    ensures r.None? <==> RemoveSpaces(Upper(raw)) == [] || !AllLatin(RemoveSpaces(Upper(raw)))
  {
    var message := RemoveSpaces(Upper(raw));
    if |message| > 0 && AllLatin(message) then Some(message) else None
  }

  /** Any message that is non-empty and made of A-Z and a-z letters and spaces only,
      with at least one letter, is accepted. */
  lemma {:induction false} PrepareMessageAcceptsLetters(raw: string)
    requires exists i :: 0 <= i < |raw| && raw[i] != ' '
    requires forall i :: 0 <= i < |raw| ==> raw[i] == ' ' || 'A' <= raw[i] <= 'Z' || 'a' <= raw[i] <= 'z'
    ensures PrepareMessage(raw).Some?
  {
    var u := Upper(raw);
    var m := RemoveSpaces(u);
    var i :| 0 <= i < |raw| && raw[i] != ' ';
    assert u[i] in u && u[i] != ' ';
    assert u[i] in m;
    forall j | 0 <= j < |m| ensures IsLatin(m[j]) {
      assert m[j] in u;
    }
  }

  /** A non-empty string of A-Z letters is accepted unchanged; in particular an
      accepted message is accepted again as it is. */
  lemma PrepareMessageLatin(message: string)
    requires |message| > 0 && AllLatin(message)
    ensures PrepareMessage(message) == Some(message)
  {
    assert Upper(message) == message;
    RemoveSpacesNoop(message);
  }

  /** `abs(int(amount)) % 26`. */
  function NormalizeShift(n: int): (a: nat)
    ensures a < Size
    ensures (a - n) % Size == 0 || (a + n) % Size == 0
  {
    (if n < 0 then -n else n) % Size
  }

  /** A shift and its negation normalise alike. */
  lemma NormalizeShiftSymmetric(n: int)
    ensures NormalizeShift(-n) == NormalizeShift(n)
  {
  }

  /** Adding 26 to the shift changes nothing exactly when the shift is non-negative, at
      most -26, or -13; for other negative shifts such as -3 (which normalises to 3,
      while 23 stays 23) the normalisation is not periodic. */
  lemma NormalizeShiftPeriodic(n: int)
    ensures NormalizeShift(n + Size) == NormalizeShift(n) <==> n >= 0 || n <= -26 || n == -13
  {
    if n >= 0 {
      ModStep(n);
    } else if n <= -26 {
      ModStep(-n - 26);
    } else {
      assert NormalizeShift(n) == -n;
      assert NormalizeShift(n + Size) == n + 26;
    }
  }

  lemma ModStep(m: nat)
    ensures (m + 26) % 26 == m % 26
  {
  }

  /** `dic`/`dic_r` as the ciphers need them: `dic` has keys exactly 0..25, and `dic_r`
      maps each of its letters back to its key. */
  ghost predicate Table(dic: map<int, char>, dicR: map<char, int>)
  {
    (forall i :: i in dic <==> 0 <= i < Size)
    && (forall i :: 0 <= i < Size ==> dic[i] in dicR && dicR[dic[i]] == i)
    && (forall c :: c in dicR ==> 0 <= dicR[c] < Size && dic[dicR[c]] == c)
  }

  predicate InTable(dicR: map<char, int>, message: string)
  {
    forall i :: 0 <= i < |message| ==> message[i] in dicR
  }

  /** `"".join([dic[(dic_r[x] + amount) % 26] for x in message])`. */
  function Encode(dic: map<int, char>, dicR: map<char, int>, message: string, amount: int): (c: string)
    requires Table(dic, dicR) && InTable(dicR, message)
    ensures |c| == |message| && InTable(dicR, c)
    ensures forall i :: 0 <= i < |c| ==> dicR[c[i]] == (dicR[message[i]] + amount) % Size
  {
    seq(|message|, i requires 0 <= i < |message| => dic[(dicR[message[i]] + amount) % Size])
  }

  /** `"".join([dic[(dic_r[x] - amount) % 26] for x in message])`. */
  function Decode(dic: map<int, char>, dicR: map<char, int>, message: string, amount: int): (p: string)
    requires Table(dic, dicR) && InTable(dicR, message)
    ensures |p| == |message| && InTable(dicR, p)
    ensures forall i :: 0 <= i < |p| ==> dicR[p[i]] == (dicR[message[i]] - amount) % Size
  {
    seq(|message|, i requires 0 <= i < |message| => dic[(dicR[message[i]] - amount) % Size])
  }

  /** Decoding with the same amount undoes encoding. */
  lemma DecodeEncode(dic: map<int, char>, dicR: map<char, int>, message: string, amount: int)
    requires Table(dic, dicR) && InTable(dicR, message)
    ensures Decode(dic, dicR, Encode(dic, dicR, message, amount), amount) == message
  {
    var e := Encode(dic, dicR, message, amount);
    var d := Decode(dic, dicR, e, amount);
    forall i | 0 <= i < |message| ensures d[i] == message[i] {
      AddSubMod(dicR[message[i]], amount, Size);
    }
  }

  /** Encoding with the same amount undoes decoding. */
  lemma EncodeDecode(dic: map<int, char>, dicR: map<char, int>, message: string, amount: int)
    requires Table(dic, dicR) && InTable(dicR, message)
    ensures Encode(dic, dicR, Decode(dic, dicR, message, amount), amount) == message
  {
    var d := Decode(dic, dicR, message, amount);
    var e := Encode(dic, dicR, d, amount);
    forall i | 0 <= i < |message| ensures e[i] == message[i] {
      SubAddMod(dicR[message[i]], amount, Size);
    }
  }

  /** Every letter A-Z has an entry in `dic_r`, and nothing else does. */
  predicate LatinDomain(dicR: map<char, int>)
  {
    forall c :: c in dicR <==> IsLatin(c)
  }

  /** One pass of the menu after the choice: the message is checked, the shift
      normalised, and the message encoded or decoded. `None` is the "Text must be only in
      the English alphabet" rejection. */
  function Process(dic: map<int, char>, dicR: map<char, int>, encode: bool, raw: string, n: int): (r: Option<string>)
    requires Table(dic, dicR) && LatinDomain(dicR)
    ensures r.Some? <==> PrepareMessage(raw).Some?
    ensures r.Some? ==> |r.value| == |PrepareMessage(raw).value| && AllLatin(r.value)
    ensures r.Some? ==> InTable(dicR, PrepareMessage(raw).value)
    ensures r.Some? ==> r.value == if encode then Encode(dic, dicR, PrepareMessage(raw).value, NormalizeShift(n))
                                   else Decode(dic, dicR, PrepareMessage(raw).value, NormalizeShift(n))
  {
    match PrepareMessage(raw)
    case None => None
    case Some(message) =>
      var amount := NormalizeShift(n);
      Some(if encode then Encode(dic, dicR, message, amount) else Decode(dic, dicR, message, amount))
  }

  /** out is message with every letter's table position moved by delta, modulo 26. */
  predicate ShiftedBy(dicR: map<char, int>, message: string, out: string, delta: int)
  {
    |out| == |message| && InTable(dicR, message) && InTable(dicR, out)
    && forall i :: 0 <= i < |message| ==> dicR[out[i]] == (dicR[message[i]] + delta) % Size
  }

  /** One menu pass moves every letter's table position by the normalised shift, up for
      encoding and down for decoding. */
  lemma ProcessShifts(dic: map<int, char>, dicR: map<char, int>, encode: bool, raw: string, n: int)
    requires Table(dic, dicR) && LatinDomain(dicR)
    requires PrepareMessage(raw).Some?
    ensures Process(dic, dicR, encode, raw, n).Some?
    ensures ShiftedBy(dicR, PrepareMessage(raw).value, Process(dic, dicR, encode, raw, n).value,
                      if encode then NormalizeShift(n) as int else -(NormalizeShift(n) as int))
  {
  }

  /** Decoding the encoded message with the same shift gives back the checked message,
      and encoding a decoded one gives it back too. */
  lemma ProcessRoundTrip(dic: map<int, char>, dicR: map<char, int>, encode: bool, raw: string, n: int)
    requires Table(dic, dicR) && LatinDomain(dicR)
    requires Process(dic, dicR, encode, raw, n).Some?
    ensures Process(dic, dicR, !encode, Process(dic, dicR, encode, raw, n).value, n) == PrepareMessage(raw)
  {
    var message := PrepareMessage(raw).value;
    var out := Process(dic, dicR, encode, raw, n).value;
    PrepareMessageLatin(out);
    if encode {
      DecodeEncode(dic, dicR, message, NormalizeShift(n));
    } else {
      EncodeDecode(dic, dicR, message, NormalizeShift(n));
    }
  }
}
