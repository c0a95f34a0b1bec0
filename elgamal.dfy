/** ElGamal digital signatures over the integers modulo a prime p with generator g:
    key generation, nonce choice, signing, verification and the conversion of the
    message digest into an integer. The digest itself (MD5) and the random draws
    are inputs. */
module ElGamal {
  import opened Wrappers
  import opened NumberTheory

  /** The 2048-bit modulus the exercise hard-codes. */
  const SourcePrime: nat := 32317006071311007300153513477825163362488057133489075174588434139269806834136210002792056362640164685458556357935330816928829023080573472625273554742461245741026202527916572972862706300325263428213145766931414223654220941111348629991657478268034230553086349050635557712219187890332729569696129743856241741236237225197346402691855797767976823014625397933058015226858730761197532436467475855460715043896844940366130497697812854295958659597567051283852132784468522925504568272879113720098931873959143374175837826000278034973198552060607533234122603254684088120031105907484281003994966956119696956248629032338072839127039

  /** The generator the exercise hard-codes. */
  const SourceGenerator: nat := 2

  /** An MD5 digest is 16 bytes long. */
  const DigestLength: nat := 16

  type byte = x: int | 0 <= x < 256

  datatype Signature = Signature(r: nat, s: nat)

  /** `pow(g, x, p)`: the public key belonging to private key x, computed by
      square-and-multiply; it is the remainder of the full power g^x. */
  function PublicKey(p: nat, g: nat, x: nat): (y: nat)
    requires p >= 1
    ensures y < p
    ensures y == Pow(g, x) % p
  {
    ModExpIsPow(g, x, p);
    ModExp(g, x, p)
  }

  /** `int.from_bytes(digest, "big")`: the big-endian value of the digest bytes. */
  function DigestToInt(digest: seq<byte>): (n: nat)
    ensures n < Pow(2, 8 * |digest|)
  {
    if digest == [] then 0
    else
      var init := digest[..|digest| - 1];
      var n0 := DigestToInt(init);
      PowAdd(2, 8 * |init|, 8);
      assert Pow(2, 8) == 256;
      assert 8 * |digest| == 8 * |init| + 8;
      BigEndianStep(n0, digest[|digest| - 1], Pow(2, 8 * |init|));
      n0 * 256 + digest[|digest| - 1]
  }

  lemma BigEndianStep(n0: nat, b: byte, bound: nat)
    requires n0 < bound
    ensures n0 * 256 + b < bound * 256
  {
  }

  /** The inverse of DigestToInt: the `len` big-endian bytes of n modulo 2^(8 len). */
  function IntToDigest(n: nat, len: nat): (d: seq<byte>)
    ensures |d| == len
  {
    if len == 0 then [] else IntToDigest(n / 256, len - 1) + [n % 256]
  }

  lemma {:induction false} DigestRoundTrip(digest: seq<byte>)
    ensures IntToDigest(DigestToInt(digest), |digest|) == digest
  {
    if digest != [] {
      var init := digest[..|digest| - 1];
      var b := digest[|digest| - 1];
      var n := DigestToInt(digest);
      assert n == DigestToInt(init) * 256 + b;
      ModUnique(n, 256, DigestToInt(init), b);
      DigestRoundTrip(init);
      assert digest == init + [b];
    }
  }

  lemma {:induction false} IntRoundTrip(n: nat, len: nat)
    requires n < Pow(2, 8 * len)
    ensures DigestToInt(IntToDigest(n, len)) == n
  {
    if len > 0 {
      var d := IntToDigest(n, len);
      PowAdd(2, 8 * (len - 1), 8);
      assert Pow(2, 8) == 256;
      assert 8 * len == 8 * (len - 1) + 8;
      QuotientBound(n, Pow(2, 8 * (len - 1)));
      IntRoundTrip(n / 256, len - 1);
      assert d[..|d| - 1] == IntToDigest(n / 256, len - 1);
      assert n == (n / 256) * 256 + n % 256;
    }
  }

  lemma QuotientBound(n: nat, bound: nat)
    requires n < bound * 256
    ensures n / 256 < bound
  {
  }

  /** An MD5 digest, read as an integer, is below 2^128. */
  lemma DigestBelow2To128(digest: seq<byte>)
    requires |digest| == DigestLength
    ensures DigestToInt(digest) < Pow(2, 128)
  {
  }

  /** The nonce loop: draws are taken in order until one is coprime to p - 1. `None`
      means the supplied draws ran out, where the program would keep drawing. */
  method ChooseNonce(p: nat, draws: seq<nat>) returns (k: Option<nat>)
    requires p >= 4
    requires forall i :: 0 <= i < |draws| ==> 2 <= draws[i] <= p - 2
    ensures k.Some? ==> 2 <= k.value <= p - 2 && Gcd(k.value, p - 1) == 1
    ensures k.Some? ==> exists i :: 0 <= i < |draws| && draws[i] == k.value &&
                          forall j :: 0 <= j < i ==> Gcd(draws[j], p - 1) != 1
    ensures k.None? <==> forall j :: 0 <= j < |draws| ==> Gcd(draws[j], p - 1) != 1
  {
    var i := 0;
    while i < |draws|
      invariant 0 <= i <= |draws|
      invariant forall j :: 0 <= j < i ==> Gcd(draws[j], p - 1) != 1
    {
      var candidate := draws[i];
      if Gcd(candidate, p - 1) == 1 {
        return Some(candidate);
      }
      i := i + 1;
    }
    return None;
  }

  /** Signing with nonce k: r = g^k mod p and s = (hm - x r) k^-1 mod (p - 1).
      `None` is the ValueError raised when k has no inverse modulo p - 1. */
  function Sign(p: nat, g: nat, x: nat, hm: nat, k: nat): (sig: Option<Signature>)
    requires p >= 2
    ensures sig.Some? <==> Gcd(k, p - 1) == 1
    ensures sig.Some? ==> sig.value.r < p && sig.value.s < p - 1
    ensures sig.Some? ==> sig.value.r == PublicKey(p, g, k)
    ensures sig.Some? ==> (k * sig.value.s) % (p - 1) == (hm - x * sig.value.r) % (p - 1)
  {
    var r := Pow(g, k) % p;
    match ModInverse(k, p - 1)
    case None => None
    case Some(kInv) =>
      var s := ((hm - x * r) * kInv) % (p - 1);
      SolveLinear(k, kInv, hm - x * r, p - 1);
      Some(Signature(r, s))
  }

  /** Multiplying by an inverse of k solves k * s == d modulo m. */
  lemma SolveLinear(k: int, kInv: int, d: int, m: int)
    requires m >= 1 && (k * kInv) % m == 1 % m
    ensures (k * ((d * kInv) % m)) % m == d % m
  {
    ModMul(k, (d * kInv) % m, m);
    ModUnique((d * kInv) % m, m, 0, (d * kInv) % m);
    ModMul(k, d * kInv, m);
    assert k * (d * kInv) == d * (k * kInv);
    ModMul(d, k * kInv, m);
    ModUnique(1, m, if m == 1 then 1 else 0, if m == 1 then 0 else 1);
    if m == 1 {
      ModUnique(d, m, d, 0);
      ModUnique(k * ((d * kInv) % m), m, k * ((d * kInv) % m), 0);
    } else {
      ModMul(d, 1, m);
    }
  }

  /** Verification: g^hm == (y^r mod p)(r^s mod p) mod p. It holds exactly when
      g^hm and y^r r^s are congruent modulo p. */
  function Verify(p: nat, g: nat, y: nat, hm: nat, r: nat, s: nat): (valid: bool)
    requires p >= 1
    ensures valid <==> (Pow(g, hm) - Pow(y, r) * Pow(r, s)) % p == 0
  {
    var left := Pow(g, hm) % p;
    var right := (Pow(y, r) % p * (Pow(r, s) % p)) % p;
    ModMul(Pow(y, r), Pow(r, s), p);
    CongruentIff(Pow(g, hm), Pow(y, r) * Pow(r, s), p);
    left == right
  }

  /** Verification checks only the congruence, not the ranges of r and s: with digest
      0, the pair r = 0, s = 0 is accepted under any key, although 0 is not a possible
      value of g^k mod p for a prime p. */
  lemma VerifyHasNoRangeCheck(p: nat, g: nat, y: nat)
    requires p >= 2
    ensures Verify(p, g, y, 0, 0, 0)
  {
    assert Pow(g, 0) == 1 && Pow(y, 0) == 1 && Pow(0, 0) == 1;
  }

  /** Correctness: a signature made with private key x verifies under the public key
      g^x mod p, whenever the nonce is invertible modulo p - 1 and Fermat's little
      theorem holds for g and p. */
  lemma SignThenVerify(p: nat, g: nat, x: nat, hm: nat, k: nat)
    requires p >= 2 && FermatHolds(p, g)
    requires Gcd(k, p - 1) == 1
    ensures Sign(p, g, x, hm, k).Some?
    ensures var sig := Sign(p, g, x, hm, k).value;
            Verify(p, g, PublicKey(p, g, x), hm, sig.r, sig.s)
  {
    var sig := Sign(p, g, x, hm, k).value;
    var r, s := sig.r, sig.s;
    var y := PublicKey(p, g, x);
    // y^r r^s == g^(x r) g^(k s) == g^(x r + k s), modulo p
    PublicKeyPower(p, g, x, r);
    PublicKeyPower(p, g, k, s);
    PowerProduct(p, g, x * r, k * s, Pow(y, r), Pow(r, s));
    // and x r + k s == hm modulo p - 1, so by Fermat g^(x r + k s) == g^hm modulo p
    ExponentSum(x * r, k * s, hm, p - 1);
    FermatReduce(p, g, x * r + k * s);
    FermatReduce(p, g, hm);
    CongruentIff(Pow(g, hm), Pow(y, r) * Pow(r, s), p);
  }

  /** Raising a public key g^a mod p to the power e gives g^(a e), modulo p. */
  lemma PublicKeyPower(p: nat, g: nat, a: nat, e: nat)
    requires p >= 1
    ensures Pow(PublicKey(p, g, a), e) % p == Pow(g, a * e) % p
  {
    PowMod(Pow(g, a), e, p);
    PowMul(g, a, e);
  }

  /** If u and v are congruent to g^a and g^b modulo p, then u v is congruent to
      g^(a + b). */
  lemma PowerProduct(p: nat, g: nat, a: nat, b: nat, u: nat, v: nat)
    requires p >= 1 && u % p == Pow(g, a) % p && v % p == Pow(g, b) % p
    ensures (u * v) % p == Pow(g, a + b) % p
  {
    ModMul(u, v, p);
    ModMul(Pow(g, a), Pow(g, b), p);
    PowAdd(g, a, b);
  }

  /** The signing equation k s == hm - x r modulo m makes x r + k s congruent to hm. */
  lemma ExponentSum(xr: int, ks: int, hm: int, m: int)
    requires m >= 1 && ks % m == (hm - xr) % m
    ensures (xr + ks) % m == hm % m
  {
    ModAdd(xr, ks, m);
    ModAdd(xr, hm - xr, m);
  }

  /** The whole exercise: key generation from private key x, digest conversion, the
      nonce loop over the draws, signing and verification. It reports `None` only
      when no draw is usable, and otherwise reports success whenever Fermat's
      little theorem holds for g and p. */
  method SignAndVerify(p: nat, g: nat, x: nat, digest: seq<byte>, draws: seq<nat>)
    returns (outcome: Option<bool>)
    requires p >= 4 && 2 <= x <= p - 2
    requires |digest| == DigestLength
    requires forall i :: 0 <= i < |draws| ==> 2 <= draws[i] <= p - 2
    ensures outcome.None? <==> forall j :: 0 <= j < |draws| ==> Gcd(draws[j], p - 1) != 1
    ensures outcome.Some? && FermatHolds(p, g) ==> outcome.value
  {
    var y := PublicKey(p, g, x);
    var hm := DigestToInt(digest);
    var nonce := ChooseNonce(p, draws);
    if nonce.None? {
      return None;
    }
    var k := nonce.value;
    var sig := Sign(p, g, x, hm, k);
    var valid := Verify(p, g, y, hm, sig.value.r, sig.value.s);
    if FermatHolds(p, g) {
      SignThenVerify(p, g, x, hm, k);
    }
    return Some(valid);
  }

  /** The exercise's own parameters fit the scheme: p is odd and large enough for
      the private key and nonce ranges to be non-empty. */
  lemma SourceParametersInRange()
    ensures SourcePrime >= 4 && SourcePrime % 2 == 1
    ensures 1 < SourceGenerator < SourcePrime
  {
  }

  // A small fixed-nonce instance: p = 467, g = 2, x = 127, hm = 100, k = 213. The
  // powers are evaluated step by step, in the order square-and-multiply visits them.

  lemma SmallInstancePublicKey()
    ensures PublicKey(467, 2, 127) == 132
  {
    assert ModExp(2, 1, 467) == 2;
    assert ModExp(2, 2, 467) == 4;
    assert ModExp(2, 3, 467) == 8;
    assert ModExp(2, 6, 467) == 64;
    assert ModExp(2, 7, 467) == 128;
    assert ModExp(2, 14, 467) == 39;
    assert ModExp(2, 15, 467) == 78;
    assert ModExp(2, 30, 467) == 13;
    assert ModExp(2, 31, 467) == 26;
    assert ModExp(2, 62, 467) == 209;
    assert ModExp(2, 63, 467) == 418;
    assert ModExp(2, 126, 467) == 66;
    assert ModExp(2, 127, 467) == 132;
    ModExpIsPow(2, 127, 467);
  }

  lemma SmallInstanceSignature()
    ensures Sign(467, 2, 127, 100, 213) == Some(Signature(29, 51))
  {
    assert ModExp(2, 1, 467) == 2;
    assert ModExp(2, 2, 467) == 4;
    assert ModExp(2, 3, 467) == 8;
    assert ModExp(2, 6, 467) == 64;
    assert ModExp(2, 12, 467) == 360;
    assert ModExp(2, 13, 467) == 253;
    assert ModExp(2, 26, 467) == 30;
    assert ModExp(2, 52, 467) == 433;
    assert ModExp(2, 53, 467) == 399;
    assert ModExp(2, 106, 467) == 421;
    assert ModExp(2, 212, 467) == 248;
    assert ModExp(2, 213, 467) == 29;
    ModExpIsPow(2, 213, 467);
    SmallInstanceInverse();
    SmallInstanceS();
  }

  /** Fermat's little theorem for the small instance: 2^466 mod 467 is 1. */
  lemma SmallInstanceFermat()
    ensures FermatHolds(467, 2)
  {
    assert ModExp(2, 1, 467) == 2;
    assert ModExp(2, 2, 467) == 4;
    assert ModExp(2, 3, 467) == 8;
    assert ModExp(2, 6, 467) == 64;
    assert ModExp(2, 7, 467) == 128;
    assert ModExp(2, 14, 467) == 39;
    assert ModExp(2, 28, 467) == 120;
    assert ModExp(2, 29, 467) == 240;
    assert ModExp(2, 58, 467) == 159;
    assert ModExp(2, 116, 467) == 63;
    assert ModExp(2, 232, 467) == 233;
    assert ModExp(2, 233, 467) == 466;
    assert ModExp(2, 466, 467) == 1;
    ModExpIsPow(2, 466, 467);
  }

  /** The fixed-nonce signature verifies under the small instance's public key. */
  lemma SmallInstanceVerifies()
    ensures Verify(467, 2, 132, 100, 29, 51)
  {
    SmallInstanceFermat();
    SmallInstancePublicKey();
    SmallInstanceSignature();
    assert Gcd(213, 466) == 1;
    SignThenVerify(467, 2, 127, 100, 213);
  }

  lemma SmallInstanceInverse()
    ensures ModInverse(213, 466) == Some(431)
  {
    assert Gcd(213, 466) == 1;
    var v := ModInverse(213, 466).value;
    assert (213 * 431) % 466 == 1;
    InverseUnique(213, v, 431, 466);
  }

  lemma SmallInstanceS()
    ensures ((100 - 127 * 29) * 431) % 466 == 51
  {
  }
}
