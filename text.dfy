/** The two string operations every cipher applies to its input: `str.upper()` and
    `str.replace(" ", "")`. Upper-casing is modelled on the letters the ciphers accept:
    the Latin letters a-z and the Romanian letters ă, â, î, ș, ț. */
module Text {
  /** `c.upper()` on the modelled letters; every other character is left unchanged. */
  function UpperChar(c: char): char
  {
    if 'a' <= c <= 'z' then (c as int - 32) as char
    else if c == 'ă' then 'Ă'
    else if c == 'â' then 'Â'
    else if c == 'î' then 'Î'
    else if c == 'ș' then 'Ș'
    else if c == 'ț' then 'Ț'
    else c
  }

  /** `c.lower()` on the modelled letters; every other character is left unchanged. */
  function LowerChar(c: char): char
  {
    if 'A' <= c <= 'Z' then (c as int + 32) as char
    else if c == 'Ă' then 'ă'
    else if c == 'Â' then 'â'
    else if c == 'Î' then 'î'
    else if c == 'Ș' then 'ș'
    else if c == 'Ț' then 'ț'
    else c
  }

  /** `s.upper()`: the length is kept, spaces stay where they are, and a character comes
      out as A-Z exactly when it was a Latin letter in either case. */
  function Upper(s: string): (u: string)
    ensures |u| == |s|
    ensures forall i :: 0 <= i < |s| ==> (u[i] == ' ' <==> s[i] == ' ')
    ensures forall i :: 0 <= i < |s| ==> ('A' <= u[i] <= 'Z' <==> 'A' <= s[i] <= 'Z' || 'a' <= s[i] <= 'z')
  {
    seq(|s|, i requires 0 <= i < |s| => UpperChar(s[i]))
  }

  function Lower(s: string): (l: string)
    ensures |l| == |s|
  {
    seq(|s|, i requires 0 <= i < |s| => LowerChar(s[i]))
  }

  /** `s.replace(" ", "")`: the characters of s other than spaces, in order. */
  function RemoveSpaces(s: string): (t: string)
    ensures ' ' !in t
    ensures |t| <= |s|
    ensures forall c :: c in t <==> c in s && c != ' '
  {
    if s == [] then []
    else if s[0] == ' ' then RemoveSpaces(s[1..])
    else [s[0]] + RemoveSpaces(s[1..])
  }

  /** Space removal keeps every other character as often as it occurs: only the spaces
      are dropped. */
  lemma {:induction false} RemoveSpacesCounts(s: string)
    ensures multiset(RemoveSpaces(s)) == multiset(s)[' ' := 0]
  {
    if s != [] {
      assert s == [s[0]] + s[1..];
      RemoveSpacesCounts(s[1..]);
    }
  }

  /** Space removal works character by character: it distributes over concatenation. */
  lemma {:induction false} RemoveSpacesAppend(a: string, b: string)
    ensures RemoveSpaces(a + b) == RemoveSpaces(a) + RemoveSpaces(b)
  {
    if a == [] {
      assert a + b == b;
    } else {
      assert (a + b)[0] == a[0];
      assert (a + b)[1..] == a[1..] + b;
      RemoveSpacesAppend(a[1..], b);
      if a[0] != ' ' {
        assert [a[0]] + (RemoveSpaces(a[1..]) + RemoveSpaces(b)) == ([a[0]] + RemoveSpaces(a[1..])) + RemoveSpaces(b);
      }
    }
  }

  /** On one character, space removal drops a space and keeps anything else. */
  lemma RemoveSpacesSingle(c: char)
    ensures RemoveSpaces([c]) == if c == ' ' then [] else [c]
  {
  }

  lemma {:induction false} RemoveSpacesNoop(s: string)
    requires ' ' !in s
    ensures RemoveSpaces(s) == s
  {
    if s != [] {
      RemoveSpacesNoop(s[1..]);
    }
  }

  /** Upper-casing never creates or removes a space, so it commutes with space removal. */
  lemma {:induction false} UpperRemoveSpacesCommute(s: string)
    ensures Upper(RemoveSpaces(s)) == RemoveSpaces(Upper(s))
  {
    if s == [] {
      assert Upper(s) == [];
    } else {
      var c, t := s[0], s[1..];
      assert s == [c] + t;
      UpperRemoveSpacesCommute(t);
      UpperAppend([c], t);
      RemoveSpacesAppend([c], t);
      RemoveSpacesAppend(Upper([c]), Upper(t));
      UpperAppend(RemoveSpaces([c]), RemoveSpaces(t));
      assert Upper([c]) == [UpperChar(c)];
    }
  }

  /** Upper-casing works character by character: it distributes over concatenation. */
  lemma UpperAppend(a: string, b: string)
    ensures Upper(a + b) == Upper(a) + Upper(b)
  {
  }

  /** The position of the first occurrence of c in s (`s.index(c)`). */
  function IndexOf(s: string, c: char): (i: nat)
    requires c in s
    ensures i < |s| && s[i] == c && forall j :: 0 <= j < i ==> s[j] != c
  {
    if s[0] == c then 0 else 1 + IndexOf(s[1..], c)
  }

  predicate Distinct(s: string)
  {
    forall i, j :: 0 <= i < j < |s| ==> s[i] != s[j]
  }

  /** `{c: i for i, c in enumerate(s)}` for a string without repeated characters: each
      character to its position. */
  function Positions(s: string): (p: map<char, nat>)
    ensures forall c :: c in p <==> c in s
    ensures forall c :: c in p ==> p[c] < |s| && s[p[c]] == c
  {
    map c | c in s :: IndexOf(s, c)
  }

  /** For a string without repeats, Positions is the exact inverse of indexing. */
  lemma PositionsInverse(s: string)
    requires Distinct(s)
    ensures forall c :: c in Positions(s) <==> c in s
    ensures forall c :: c in Positions(s) ==> Positions(s)[c] < |s| && s[Positions(s)[c]] == c
    ensures forall i :: 0 <= i < |s| ==> s[i] in Positions(s) && Positions(s)[s[i]] == i
  {
    forall i | 0 <= i < |s|
      ensures s[i] in Positions(s) && Positions(s)[s[i]] == i
    {
      assert s[i] in s;
      var j := IndexOf(s, s[i]);
      assert j == i;
    }
  }

  lemma UpperIdempotent(s: string)
    ensures Upper(Upper(s)) == Upper(s)
  {
  }
}
