/** The keyed-alphabet shift cipher of `Lab1/improved.py`. The key's distinct letters,
    then the rest of A-Z, give a permuted alphabet `dic`; messages are shifted within that
    permutation. */
module KeyedShift {
  import opened Wrappers
  import opened Text
  import ShiftCipher
  import Caesar

  /** `alpha`: the letters A to Z, in order. */
  const Alpha: string := "ABCDEFGHIJKLMNOPQRSTUVWXYZ"

  /** Keys shorter than this, once spaces are removed, are refused. */
  const MinKeyLength: nat := 7

  /** The letters of `alpha` are A-Z in strictly increasing order. */
  lemma AlphaLetters()
    ensures |Alpha| == 26 && Distinct(Alpha)
    ensures forall c :: c in Alpha <==> ShiftCipher.IsLatin(c)
    ensures Increasing(Alpha)
  {
    AlphaCodes();
    CodesAreLetters(Alpha);
  }

  /** A string holding the codes 65, 66, ... 90 in order holds each of A-Z once, in
      increasing order. */
  lemma CodesAreLetters(s: string)
    requires |s| == 26 && forall i :: 0 <= i < |s| ==> s[i] as int == 65 + i
    ensures Distinct(s)
    ensures forall c :: c in s <==> ShiftCipher.IsLatin(c)
    ensures Increasing(s)
  {
    forall c | ShiftCipher.IsLatin(c) ensures c in s {
      assert s[c as int - 65] == c;
    }
  }

  /** The letter at position i of `alpha` has code 65 + i. */
  lemma AlphaCodes()
    ensures |Alpha| == 26
    ensures forall i :: 0 <= i < |Alpha| ==> Alpha[i] as int == 65 + i
  {
  }

  /** Why a key is refused: the two messages of the key prompt. */
  datatype KeyError = TooShort | NotLatin

  /** The key prompt: upper-cased, spaces removed; too short is refused first, then any
      character outside A-Z. */
  function NormalizeKey(raw: string): (r: Result<string, KeyError>)
    ensures r == Err(TooShort) <==> |RemoveSpaces(Upper(raw))| < MinKeyLength
    ensures r == Err(NotLatin) <==> |RemoveSpaces(Upper(raw))| >= MinKeyLength && !ShiftCipher.AllLatin(RemoveSpaces(Upper(raw)))
    ensures r.Ok? ==> r.value == RemoveSpaces(Upper(raw))
    ensures r.Ok? ==> |r.value| >= MinKeyLength && ShiftCipher.AllLatin(r.value) && ' ' !in r.value
  {
    var k2 := RemoveSpaces(Upper(raw));
    AlphaLetters();
    if |k2| < MinKeyLength then Err(TooShort)
    else if exists x :: x in k2 && !(x in Alpha || x == ' ') then Err(NotLatin)
    else Ok(k2)
  }

  /** The distinct characters of s, in order of first occurrence. */
  function Dedup(s: string): (d: string)
    ensures Distinct(d) && |d| <= |s|
    ensures forall c :: c in d <==> c in s
  {
    if s == [] then []
    else
      var n := |s| - 1;
      assert s == s[..n] + [s[n]];
      var p := Dedup(s[..n]);
      if s[n] in p then p else p + [s[n]]
  }

  lemma DedupSnoc(s: string, c: char)
    ensures Dedup(s + [c]) == if c in s then Dedup(s) else Dedup(s) + [c]
  {
    assert (s + [c])[..|s|] == s;
  }

  /** The dictionary whose key i holds s[i]: what repeated `dic[len(dic)] = char` builds. */
  function Indexed(s: string): (m: map<int, char>)
    ensures forall i :: i in m <==> 0 <= i < |s|
    ensures forall i :: 0 <= i < |s| ==> m[i] == s[i]
    ensures |m| == |s|
  {
    if s == [] then map[]
    else
      var n := |s| - 1;
      Indexed(s[..n])[n := s[n]]
  }

  lemma IndexedValues(s: string)
    ensures forall c :: c in Indexed(s).Values <==> c in s
  {
    var m := Indexed(s);
    forall c | c in s ensures c in m.Values {
      var i :| 0 <= i < |s| && s[i] == c;
      assert m[i] == c;
    }
  }

  /** The order of the keyed alphabet: the distinct letters of the key, then every other
      letter of `alpha`. */
  function KeyedOrder(k2: string): (order: string)
    ensures Distinct(order)
    ensures forall c :: c in order <==> c in k2 || c in Alpha
  {
    Dedup(k2 + Alpha)
  }

  /** Lines 14-22: `dic` starts empty, and each character of the key and then of `alpha`
      not yet among its values is stored under the next free key `len(dic)`. */
  method BuildKeyedAlphabet(k2: string) returns (dic: map<int, char>)
    ensures dic == Indexed(KeyedOrder(k2))
  {
    dic := map[];
    for i := 0 to |k2|
      invariant dic == Indexed(Dedup(k2[..i]))
    {
      var c := k2[i];
      StoreStep(k2[..i], c, dic);
      if c !in dic.Values {
        dic := dic[|dic| := c];
      }
      PrefixSnoc(k2, i);
    }
    EmptySuffix(k2, Alpha);
    for j := 0 to |Alpha|
      invariant dic == Indexed(Dedup(k2 + Alpha[..j]))
    {
      var c := Alpha[j];
      StoreStep(k2 + Alpha[..j], c, dic);
      if c !in dic.Values {
        dic := dic[|dic| := c];
      }
      AppendPrefixSnoc(k2, Alpha, j);
    }
    FullSuffix(k2, Alpha);
  }

  lemma PrefixSnoc(s: string, i: nat)
    requires i < |s|
    ensures s[..i + 1] == s[..i] + [s[i]]
  {
  }

  /** Where the second loop starts: nothing of t appended yet. */
  lemma EmptySuffix(s: string, t: string)
    ensures s + t[..0] == s[..|s|]
  {
  }

  /** One step of the second loop: appending one more character of t. */
  lemma AppendPrefixSnoc(s: string, t: string, j: nat)
    requires j < |t|
    ensures s + t[..j + 1] == (s + t[..j]) + [t[j]]
  {
  }

  /** Where the second loop ends: all of t appended. */
  lemma FullSuffix(s: string, t: string)
    ensures s + t[..|t|] == s + t
  {
  }

  /** One step of either loop: storing c under `len(dic)` unless it is already a value
      extends the deduplicated prefix by c. */
  lemma StoreStep(p: string, c: char, dic: map<int, char>)
    requires dic == Indexed(Dedup(p))
    ensures (if c in dic.Values then dic else dic[|dic| := c]) == Indexed(Dedup(p + [c]))
  {
    IndexedValues(Dedup(p));
    DedupSnoc(p, c);
    IndexedSnoc(Dedup(p), c);
  }

  lemma IndexedSnoc(s: string, c: char)
    ensures Indexed(s + [c]) == Indexed(s)[|s| := c]
  {
    assert (s + [c])[..|s|] == s;
  }

  /** The values of a dictionary with keys 0..n-1, in key order; for `dic` this is also
      its insertion order. */
  function ValuesInOrder(dic: map<int, char>): (s: string)
    requires forall i :: 0 <= i < |dic| ==> i in dic
    ensures |s| == |dic| && forall i :: 0 <= i < |s| ==> s[i] == dic[i]
  {
    seq(|dic|, i requires 0 <= i < |dic| => dic[i])
  }

  /** Line 26: `dic_r = {char: i for i, char in enumerate(dic.values())}`. */
  function ReverseTable(dic: map<int, char>): (dicR: map<char, int>)
    requires forall i :: 0 <= i < |dic| ==> i in dic
    ensures forall i :: 0 <= i < |dic| ==> dic[i] in dicR
    ensures forall c :: c in dicR ==> 0 <= dicR[c] < |dic| && dic[dicR[c]] == c
  {
    Positions(ValuesInOrder(dic))
  }

  /** Elements of a string without repeats are counted by its length. */
  lemma {:induction false} DistinctCard(s: string)
    requires Distinct(s)
    ensures |set c | c in s| == |s|
  {
    if s != [] {
      var n := |s| - 1;
      assert s == s[..n] + [s[n]];
      DistinctCard(s[..n]);
      assert (set c | c in s) == (set c | c in s[..n]) + {s[n]};
    }
  }

  /** Two strings without repeats and with the same characters have the same length. */
  lemma SameCharsSameLength(s: string, t: string)
    requires Distinct(s) && Distinct(t) && forall c :: c in s <==> c in t
    ensures |s| == |t|
  {
    DistinctCard(s);
    DistinctCard(t);
    assert (set c | c in s) == (set c | c in t);
  }

  /** The keyed alphabet is a permutation of A-Z: 26 letters, each once. */
  lemma KeyedOrderPermutation(k2: string)
    requires ShiftCipher.AllLatin(k2)
    ensures |KeyedOrder(k2)| == 26 && Distinct(KeyedOrder(k2))
    ensures forall c :: c in KeyedOrder(k2) <==> ShiftCipher.IsLatin(c)
  {
    AlphaLetters();
    var d := KeyedOrder(k2);
    forall c ensures c in d <==> c in Alpha {
      if c in k2 {
        var i :| 0 <= i < |k2| && k2[i] == c;
      }
    }
    SameCharsSameLength(d, Alpha);
  }

  /** The characters of t missing from s, in the order of t. */
  function Unused(t: string, s: string): (u: string)
    ensures forall c :: c in u <==> c in t && c !in s
  {
    if t == [] then []
    else
      var n := |t| - 1;
      assert t == t[..n] + [t[n]];
      var p := Unused(t[..n], s);
      if t[n] in s then p else p + [t[n]]
  }

  predicate Increasing(s: string)
  {
    forall i, j :: 0 <= i < j < |s| ==> s[i] < s[j]
  }

  /** Taken from a strictly increasing string, the unused characters stay strictly
      increasing. */
  lemma {:induction false} UnusedIncreasing(t: string, s: string)
    requires Increasing(t)
    ensures Increasing(Unused(t, s))
  {
    if t != [] {
      var n := |t| - 1;
      var front := t[..n];
      UnusedIncreasing(front, s);
      var p := Unused(front, s);
      forall i | 0 <= i < |p| ensures p[i] < t[n] {
        assert p[i] in p;
        var k :| 0 <= k < n && front[k] == p[i];
      }
      if t[n] !in s {
        SnocIncreasing(p, t[n]);
      }
    }
  }

  lemma SnocIncreasing(p: string, x: char)
    requires Increasing(p) && forall i :: 0 <= i < |p| ==> p[i] < x
    ensures Increasing(p + [x])
  {
  }

  /** Deduplicating s + t, for t without repeats, lists s deduplicated and then the
      characters of t missing from s. */
  lemma {:induction false} DedupAppend(s: string, t: string)
    requires Distinct(t)
    ensures Dedup(s + t) == Dedup(s) + Unused(t, s)
  {
    if t == [] {
      assert s + t == s;
    } else {
      var n := |t| - 1;
      var front, last := t[..n], t[n];
      assert t == front + [last];
      DedupAppend(s, front);
      DedupAppendStep(s, front, last);
    }
  }

  lemma DedupAppendStep(s: string, front: string, last: char)
    requires last !in front
    requires Dedup(s + front) == Dedup(s) + Unused(front, s)
    ensures Dedup(s + (front + [last])) == Dedup(s) + Unused(front + [last], s)
  {
    var d, u := Dedup(s), Unused(front, s);
    assert Dedup(s + (front + [last])) == Dedup((s + front) + [last]) by {
      assert s + (front + [last]) == (s + front) + [last];
    }
    assert last in s + front <==> last in s;
    DedupSnoc(s + front, last);
    UnusedSnoc(front, last, s);
    if last !in s {
      SnocAssoc(d, u, last);
    }
  }

  lemma SnocAssoc(d: string, u: string, x: char)
    ensures (d + u) + [x] == d + (u + [x])
  {
  }

  lemma UnusedSnoc(t: string, c: char, s: string)
    ensures Unused(t + [c], s) == if c in s then Unused(t, s) else Unused(t, s) + [c]
  {
    assert (t + [c])[..|t|] == t;
  }

  /** The shape of `dic`: first the distinct letters of the key, then the unused letters
      in alphabetical order. */
  lemma KeyedOrderShape(k2: string)
    ensures KeyedOrder(k2) == Dedup(k2) + Unused(Alpha, k2)
    ensures forall c :: c in Unused(Alpha, k2) <==> ShiftCipher.IsLatin(c) && c !in k2
    ensures Increasing(Unused(Alpha, k2))
  {
    AlphaLetters();
    DedupAppend(k2, Alpha);
    UnusedIncreasing(Alpha, k2);
  }

  /** The first entries of `dic` come in the order the letters first occur in the key. */
  lemma {:induction false} DedupFirstOccurrence(s: string)
    ensures forall i, j :: 0 <= i < j < |Dedup(s)| ==> IndexOf(s, Dedup(s)[i]) < IndexOf(s, Dedup(s)[j])
  {
    if s != [] {
      var n := |s| - 1;
      var front := s[..n];
      var p := Dedup(front);
      DedupFirstOccurrence(front);
      forall x | x in front ensures IndexOf(s, x) == IndexOf(front, x) {
        IndexOfInit(s, x);
      }
      if s[n] !in front {
        forall x | x in p ensures IndexOf(s, x) < n {
          assert x in front;
        }
      }
    }
  }

  /** The first occurrence of a character already in s[..|s| - 1] is found there. */
  lemma IndexOfInit(s: string, x: char)
    requires |s| > 0 && x in s[..|s| - 1]
    ensures IndexOf(s, x) == IndexOf(s[..|s| - 1], x)
  {
    var front := s[..|s| - 1];
    var i, j := IndexOf(s, x), IndexOf(front, x);
    assert s[j] == front[j] == x;
  }

  /** `dic` and `dic_r` built from an accepted key form a shift table over exactly the
      letters A-Z: `dic_r[dic[i]] == i` and `dic[dic_r[c]] == c`. */
  lemma KeyedTable(k2: string)
    requires ShiftCipher.AllLatin(k2)
    ensures var dic := Indexed(KeyedOrder(k2));
            (forall i :: 0 <= i < |dic| ==> i in dic) &&
            ShiftCipher.Table(dic, ReverseTable(dic)) && ShiftCipher.LatinDomain(ReverseTable(dic))
  {
    KeyedOrderPermutation(k2);
    PermutationTable(KeyedOrder(k2));
  }

  /** Any arrangement of the 26 letters, stored in order, gives a shift table. */
  lemma PermutationTable(order: string)
    requires |order| == 26 && Distinct(order)
    requires forall c :: c in order <==> ShiftCipher.IsLatin(c)
    ensures var dic := Indexed(order);
            (forall i :: 0 <= i < |dic| ==> i in dic) &&
            ShiftCipher.Table(dic, ReverseTable(dic)) && ShiftCipher.LatinDomain(ReverseTable(dic))
  {
    IndexedInOrder(order);
    PositionsInverse(order);
  }

  /** Reading the values of Indexed(s) back in key order gives s. */
  lemma IndexedInOrder(s: string)
    ensures forall i :: 0 <= i < |Indexed(s)| ==> i in Indexed(s)
    ensures ValuesInOrder(Indexed(s)) == s
  {
  }

  /** With the key's letters already in alphabetical order at the front of `alpha`, the
      keyed cipher is the Caesar cipher: `dic` and `dic_r` are `dict` and `dict_r`. */
  lemma IdentityIsCaesar()
    ensures Indexed(Alpha) == Caesar.Dict
    ensures ReverseTable(Indexed(Alpha)) == Caesar.DictR
  {
    IndexedAlphaIsDict();
    ReverseAlphaIsDictR();
  }

  lemma IndexedAlphaIsDict()
    ensures Indexed(Alpha) == Caesar.Dict
  {
    AlphaCodes();
    var dic := Indexed(Alpha);
    forall i | i in dic ensures i in Caesar.Dict && dic[i] == Caesar.Dict[i] {
    }
  }

  lemma ReverseAlphaIsDictR()
    ensures ReverseTable(Indexed(Alpha)) == Caesar.DictR
  {
    assert ValuesInOrder(Indexed(Alpha)) == Alpha;
    AlphaCodes();
    PositionsOfCodes(Alpha);
  }

  /** Any string holding the codes 65, 66, ... 90 in order has `dict_r` as its positions. */
  lemma PositionsOfCodes(s: string)
    requires |s| == 26 && forall i :: 0 <= i < |s| ==> s[i] as int == 65 + i
    ensures Positions(s) == Caesar.DictR
  {
    var pos := Positions(s);
    assert forall c :: c in pos <==> c in Caesar.DictR by {
      CodesAreLetters(s);
      Caesar.CaesarTables();
    }
    assert forall c :: c in pos ==> pos[c] == Caesar.DictR[c] by {
      CodesAreLetters(s);
      PositionsInverse(s);
      Caesar.CaesarTables();
      forall c | c in pos ensures pos[c] == Caesar.DictR[c] {
        assert s[pos[c]] == c;
      }
    }
  }

  /** Lines 40-54 with `dic` and `dic_r` built from an accepted key: the message is
      checked, the shift normalised, and the message encoded or decoded within the keyed
      alphabet. */
  function KeyedProcess(k2: string, encode: bool, raw: string, n: int): (r: Option<string>)
    requires ShiftCipher.AllLatin(k2)
    ensures r.Some? <==> ShiftCipher.PrepareMessage(raw).Some?
    ensures r.Some? ==> |r.value| == |ShiftCipher.PrepareMessage(raw).value| && ShiftCipher.AllLatin(r.value)
  {
    KeyedTable(k2);
    var dic := Indexed(KeyedOrder(k2));
    ShiftCipher.Process(dic, ReverseTable(dic), encode, raw, n)
  }

  /** Encoding shifts each letter's position in the keyed alphabet up by the normalised
      shift, modulo 26: output letter i sits that many places after message letter i. */
  lemma KeyedEncodeShifts(k2: string, raw: string, n: int)
    requires ShiftCipher.AllLatin(k2) && ShiftCipher.PrepareMessage(raw).Some?
    ensures KeyedProcess(k2, true, raw, n).Some?
    ensures ShiftCipher.ShiftedBy(ReverseTable(Indexed(KeyedOrder(k2))), ShiftCipher.PrepareMessage(raw).value,
                                  KeyedProcess(k2, true, raw, n).value, ShiftCipher.NormalizeShift(n))
  {
    KeyedTable(k2);
    var dic := Indexed(KeyedOrder(k2));
    ShiftCipher.ProcessShifts(dic, ReverseTable(dic), true, raw, n);
  }

  /** Decoding shifts each letter's position in the keyed alphabet down by the normalised
      shift, modulo 26. */
  lemma KeyedDecodeShifts(k2: string, raw: string, n: int)
    requires ShiftCipher.AllLatin(k2) && ShiftCipher.PrepareMessage(raw).Some?
    ensures KeyedProcess(k2, false, raw, n).Some?
    ensures ShiftCipher.ShiftedBy(ReverseTable(Indexed(KeyedOrder(k2))), ShiftCipher.PrepareMessage(raw).value,
                                  KeyedProcess(k2, false, raw, n).value, -(ShiftCipher.NormalizeShift(n) as int))
  {
    KeyedTable(k2);
    var dic := Indexed(KeyedOrder(k2));
    ShiftCipher.ProcessShifts(dic, ReverseTable(dic), false, raw, n);
  }

  /** Under every accepted key, decoding what was encoded with the same shift gives back
      the checked message, and so does encoding what was decoded. */
  lemma KeyedRoundTrip(k2: string, encode: bool, raw: string, n: int)
    requires ShiftCipher.AllLatin(k2) && ShiftCipher.PrepareMessage(raw).Some?
    ensures KeyedProcess(k2, encode, raw, n).Some?
    ensures KeyedProcess(k2, !encode, KeyedProcess(k2, encode, raw, n).value, n) == ShiftCipher.PrepareMessage(raw)
  {
    KeyedTable(k2);
    var dic := Indexed(KeyedOrder(k2));
    ShiftCipher.ProcessRoundTrip(dic, ReverseTable(dic), encode, raw, n);
  }

  /** A string without repeats is its own deduplication. */
  lemma {:induction false} DedupDistinct(s: string)
    requires Distinct(s)
    ensures Dedup(s) == s
  {
    if s != [] {
      var n := |s| - 1;
      DedupDistinct(s[..n]);
      assert s[n] !in s[..n];
      assert s == s[..n] + [s[n]];
    }
  }

  /** Taking from a string without repeats the characters missing from its first m
      leaves the rest of it. */
  lemma {:induction false} UnusedAfterPrefix(t: string, m: nat)
    requires Distinct(t) && m <= |t|
    ensures Unused(t, t[..m]) == t[m..]
  {
    if m == |t| {
      assert t[..m] == t;
      UnusedNone(t, t);
    } else {
      var n := |t| - 1;
      var front := t[..n];
      PrefixOfFront(t, m);
      UnusedAfterPrefix(front, m);
      assert t[n] !in t[..m];
    }
  }

  lemma PrefixOfFront(t: string, m: nat)
    requires m < |t|
    ensures t[..|t| - 1][..m] == t[..m]
    ensures t[m..] == t[..|t| - 1][m..] + [t[|t| - 1]]
  {
  }

  lemma {:induction false} UnusedNone(t: string, s: string)
    requires forall i :: 0 <= i < |t| ==> t[i] in s
    ensures Unused(t, s) == []
  {
    if t != [] {
      UnusedNone(t[..|t| - 1], s);
    }
  }

  /** A key that is the first m letters of `alpha` keeps `alpha` in order, so the keyed
      cipher is then exactly the Caesar cipher. */
  lemma AlphabetKeyIsCaesar(m: nat, encode: bool, raw: string, n: int)
    requires MinKeyLength <= m <= 26
    ensures ShiftCipher.AllLatin(Alpha[..m])
    ensures KeyedOrder(Alpha[..m]) == Alpha
    ensures KeyedProcess(Alpha[..m], encode, raw, n) == Caesar.Process(encode, raw, n)
  {
    AlphabetKeyOrder(m);
    IdentityIsCaesar();
  }

  /** The first m letters of `alpha` are letters, and as a key they leave `alpha` as it
      is. */
  lemma AlphabetKeyOrder(m: nat)
    requires m <= 26
    ensures ShiftCipher.AllLatin(Alpha[..m])
    ensures KeyedOrder(Alpha[..m]) == Alpha
  {
    AlphaLetters();
    var k2 := Alpha[..m];
    forall i | 0 <= i < m ensures ShiftCipher.IsLatin(k2[i]) {
      assert k2[i] in Alpha;
    }
    assert Distinct(k2);
    DedupAppend(k2, Alpha);
    DedupDistinct(k2);
    UnusedAfterPrefix(Alpha, m);
    PrefixSuffix(Alpha, m);
  }

  lemma PrefixSuffix(s: string, m: nat)
    requires m <= |s|
    ensures s[..m] + s[m..] == s
  {
  }

  /** The whole keyed cipher for one key line and one menu pass: the key is checked,
      `dic`/`dic_r` are built, then the message is processed with them. */
  method Run(rawKey: string, encode: bool, raw: string, n: int) returns (r: Result<Option<string>, KeyError>)
    ensures NormalizeKey(rawKey).Err? ==> r == Err(NormalizeKey(rawKey).error)
    ensures NormalizeKey(rawKey).Ok? ==>
              r == Ok(KeyedProcess(NormalizeKey(rawKey).value, encode, raw, n))
  {
    var key := NormalizeKey(rawKey);
    if key.Err? {
      return Err(key.error);
    }
    var k2 := key.value;
    var dic := BuildKeyedAlphabet(k2);
    KeyedTable(k2);
    var dicR := ReverseTable(dic);
    return Ok(ShiftCipher.Process(dic, dicR, encode, raw, n));
  }
}
