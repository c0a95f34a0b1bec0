/** Integer arithmetic behind the signature scheme: powers, Euclidean remainders,
    greatest common divisors and modular inverses (Python's `pow`, `%` and `math.gcd`). */
module NumberTheory {
  import opened Wrappers

  /** b to the power e. */
  function Pow(b: nat, e: nat): nat
  {
    if e == 0 then 1 else b * Pow(b, e - 1)
  }

  lemma {:induction false} PowAdd(b: nat, e1: nat, e2: nat)
    ensures Pow(b, e1 + e2) == Pow(b, e1) * Pow(b, e2)
  {
    if e1 > 0 {
      PowAdd(b, e1 - 1, e2);
      assert Pow(b, e1 + e2) == b * Pow(b, (e1 - 1) + e2);
      assert b * (Pow(b, e1 - 1) * Pow(b, e2)) == (b * Pow(b, e1 - 1)) * Pow(b, e2);
    }
  }

  lemma {:induction false} PowMul(b: nat, e1: nat, e2: nat)
    ensures Pow(Pow(b, e1), e2) == Pow(b, e1 * e2)
  {
    if e2 > 0 {
      PowMul(b, e1, e2 - 1);
      PowAdd(b, e1, e1 * (e2 - 1));
      assert e1 + e1 * (e2 - 1) == e1 * e2;
    }
  }

  /** Adding a multiple of m does not change the remainder modulo m. */
  lemma ModAddMultiple(a: int, q: int, m: int)
    requires m > 0
    ensures (a + q * m) % m == a % m
  {
    var r := a % m;
    var d := a / m;
    assert a == d * m + r;
    assert a + q * m == (d + q) * m + r;
    ModUnique(a + q * m, m, d + q, r);
  }

  /** The Euclidean quotient and remainder are the only ones with the remainder in [0, m). */
  lemma ModUnique(a: int, m: int, q: int, r: int)
    requires m > 0 && 0 <= r < m && a == q * m + r
    ensures a % m == r && a / m == q
  {
    var q0, r0 := a / m, a % m;
    assert (q0 - q) * m == r - r0;
    if q0 > q {
      MulAtLeast(q0 - q, m);
    } else if q0 < q {
      MulAtLeast(q - q0, m);
    }
  }

  lemma MulAtLeast(d: int, m: int)
    requires d >= 1 && m > 0
    ensures d * m >= m
  {
  }

  lemma ModMulLeft(a: int, b: int, m: int)
    requires m > 0
    ensures ((a % m) * b) % m == (a * b) % m
  {
    var q := a / m;
    assert a == q * m + a % m;
    assert a * b == (a % m) * b + (q * b) * m;
    ModAddMultiple((a % m) * b, q * b, m);
  }

  lemma ModMul(a: int, b: int, m: int)
    requires m > 0
    ensures ((a % m) * (b % m)) % m == (a * b) % m
  {
    ModMulLeft(a, b % m, m);
    ModMulLeft(b, a, m);
    assert a * (b % m) == (b % m) * a;
    assert b * a == a * b;
  }

  lemma ModAdd(a: int, b: int, m: int)
    requires m > 0
    ensures (a % m + b % m) % m == (a + b) % m
  {
    ModAddMultiple(a % m + b % m, a / m + b / m, m);
    assert a % m + b % m + (a / m + b / m) * m == a + b;
  }

  /** Two numbers are congruent modulo m exactly when m divides their difference. */
  lemma CongruentIff(a: int, b: int, m: int)
    requires m > 0
    ensures a % m == b % m <==> (a - b) % m == 0
  {
    var d := (a - b) % m;
    var k := (a - b) / m;
    assert a == (b + d) + k * m;
    ModAddMultiple(b + d, k, m);
    ModAdd(b, d, m);
    ModUnique(d, m, 0, d);
    ShiftedRemainder(b % m, d, m);
  }

  /** Adding a and then subtracting it again, modulo n, gives back a remainder x. */
  lemma AddSubMod(x: int, a: int, n: int)
    requires n > 0 && 0 <= x < n
    ensures ((x + a) % n - a) % n == x
  {
    var q, u := (x + a) / n, (x + a) % n;
    assert x + a == q * n + u;
    assert u - a == x + (-q) * n;
    ModAddMultiple(x, -q, n);
    ModUnique(x, n, 0, x);
  }

  /** Subtracting a and then adding it again, modulo n, gives back a remainder x. */
  lemma SubAddMod(x: int, a: int, n: int)
    requires n > 0 && 0 <= x < n
    ensures ((x - a) % n + a) % n == x
  {
    var q, u := (x - a) / n, (x - a) % n;
    assert x - a == q * n + u;
    assert u + a == x + (-q) * n;
    ModAddMultiple(x, -q, n);
    ModUnique(x, n, 0, x);
  }

  /** Adding d in [0, m) to a remainder r leaves r unchanged modulo m only when d == 0. */
  lemma ShiftedRemainder(r: int, d: int, m: int)
    requires m > 0 && 0 <= r < m && 0 <= d < m
    ensures (r + d) % m == r <==> d == 0
  {
    if r + d < m {
      ModUnique(r + d, m, 0, r + d);
    } else {
      ModUnique(r + d, m, 1, r + d - m);
    }
  }

  lemma {:induction false} PowMod(a: nat, e: nat, m: nat)
    requires m > 0
    ensures Pow(a % m, e) % m == Pow(a, e) % m
  {
    if e > 0 {
      var u, v := Pow(a % m, e - 1), Pow(a, e - 1);
      PowMod(a, e - 1, m);
      assert u % m == v % m;
      ModMul(a % m, u, m);
      ModMul(a, v, m);
      ModUnique(a % m, m, 0, a % m);
      assert Pow(a % m, e) == (a % m) * u;
      assert Pow(a, e) == a * v;
    }
  }

  /** Square-and-multiply exponentiation modulo m, the way `pow(b, e, m)` computes it. */
  function ModExp(b: nat, e: nat, m: nat): nat
    requires m >= 1
    decreases e
  {
    if e == 0 then 1 % m
    else if e % 2 == 0 then
      var h := ModExp(b, e / 2, m);
      (h * h) % m
    else (b % m * ModExp(b, e - 1, m)) % m
  }

  /** Square-and-multiply agrees with reducing the full power. */
  lemma {:induction false} ModExpIsPow(b: nat, e: nat, m: nat)
    requires m >= 1
    ensures ModExp(b, e, m) == Pow(b, e) % m
    decreases e
  {
    if e == 0 {
      ModUnique(1, m, if m == 1 then 1 else 0, 1 % m);
    } else if e % 2 == 0 {
      ModExpIsPow(b, e / 2, m);
      SquareStep(b, e, m, ModExp(b, e / 2, m));
    } else {
      ModExpIsPow(b, e - 1, m);
      MultiplyStep(b, e, m, ModExp(b, e - 1, m));
    }
  }

  /** The squaring step: squaring the remainder of b^(e/2) gives that of b^e. */
  lemma SquareStep(b: nat, e: nat, m: nat, h: nat)
    requires m >= 1 && e % 2 == 0 && h == Pow(b, e / 2) % m
    ensures (h * h) % m == Pow(b, e) % m
  {
    PowAdd(b, e / 2, e / 2);
    assert e / 2 + e / 2 == e;
    ModMul(Pow(b, e / 2), Pow(b, e / 2), m);
  }

  /** The multiplying step: multiplying the remainder of b^(e-1) by b gives that of b^e. */
  lemma MultiplyStep(b: nat, e: nat, m: nat, h: nat)
    requires m >= 1 && e >= 1 && h == Pow(b, e - 1) % m
    ensures (b % m * h) % m == Pow(b, e) % m
  {
    ModMul(b, Pow(b, e - 1), m);
    ModUnique(h, m, 0, h);
  }

  /** Fermat's little theorem for g and p, taken as a hypothesis rather than proved. */
  predicate FermatHolds(p: nat, g: nat)
    requires p >= 2
  {
    Pow(g, p - 1) % p == 1
  }

  /** Under Fermat's little theorem, exponents of g only matter modulo p - 1. */
  lemma {:induction false} FermatReduce(p: nat, g: nat, e: nat)
    requires p >= 2 && FermatHolds(p, g)
    ensures Pow(g, e) % p == Pow(g, e % (p - 1)) % p
    decreases e
  {
    var m := p - 1;
    if e < m {
      ModUnique(e, m, 0, e);
    } else {
      var rest: nat := e - m;
      var x := Pow(g, rest);
      PowAdd(g, m, rest);
      assert Pow(g, e) == Pow(g, m) * x;
      ModMul(Pow(g, m), x, p);
      OneTimesMod(Pow(g, m) % p, x, p);
      FermatReduce(p, g, rest);
      ModAddMultiple(rest, 1, m);
    }
  }

  lemma OneTimesMod(one: int, x: int, p: int)
    requires p > 0 && one == 1
    ensures (one * (x % p)) % p == x % p
  {
    ModUnique(x % p, p, 0, x % p);
  }

  /** Greatest common divisor by Euclid's algorithm, as `math.gcd` computes it. */
  function Gcd(a: nat, b: nat): nat
    decreases b
  {
    if b == 0 then a else Gcd(b, a % b)
  }

  /** Every common divisor of a and b divides their gcd: the result is the cofactor. */
  lemma GcdGreatest(a: nat, b: nat, d: int, ca: int, cb: int) returns (c: int)
    requires a == d * ca && b == d * cb
    ensures Gcd(a, b) == d * c
  {
    var e := ExtGcd(a, b);
    c := ca * e.0 + cb * e.1;
    Scale(a, d, ca, e.0);
    Scale(b, d, cb, e.1);
    FactorSum(d, ca * e.0, cb * e.1);
  }

  lemma FactorSum(d: int, u: int, v: int)
    ensures d * u + d * v == d * (u + v)
  {
  }

  /** The gcd divides both arguments: the results are the cofactors. */
  lemma {:induction false} GcdDivides(a: nat, b: nat) returns (ca: nat, cb: nat)
    ensures a == Gcd(a, b) * ca && b == Gcd(a, b) * cb
    decreases b
  {
    if b == 0 {
      ca, cb := 1, 0;
    } else {
      var c1, c2 := GcdDivides(b, a % b);
      var g := Gcd(a, b);
      assert b == g * c1 && a % b == g * c2;
      assert a == (a / b) * b + a % b;
      assert a == g * ((a / b) * c1 + c2) by {
        assert (a / b) * (g * c1) == g * ((a / b) * c1);
      }
      ca, cb := (a / b) * c1 + c2, c1;
    }
  }

  /** Extended Euclid: Bezout coefficients (x, y) with a*x + b*y == gcd(a, b). */
  function ExtGcd(a: nat, b: nat): (c: (int, int))
    ensures a * c.0 + b * c.1 == Gcd(a, b)
    decreases b
  {
    if b == 0 then (1, 0)
    else
      var c' := ExtGcd(b, a % b);
      BezoutStep(a, b, a / b, a % b, c'.0, c'.1);
      (c'.1, c'.0 - (a / b) * c'.1)
  }

  /** One step of extended Euclid: coefficients for (b, a mod b) give coefficients for (a, b). */
  lemma BezoutStep(a: int, b: int, q: int, r: int, x: int, y: int)
    requires a == q * b + r
    ensures a * y + b * (x - q * y) == b * x + r * y
  {
    assert a * y == q * b * y + r * y;
    assert b * (x - q * y) == b * x - q * b * y;
  }

  /** `pow(k, -1, m)`: the inverse of k modulo m; `None` is the ValueError Python raises
      when k is not invertible. */
  function ModInverse(k: nat, m: nat): (r: Option<nat>)
    requires m >= 1
    ensures r.Some? <==> Gcd(k, m) == 1
    ensures r.Some? ==> r.value < m && (k * r.value) % m == 1 % m
  {
    if Gcd(k, m) == 1 then
      var c := ExtGcd(k, m);
      var v := c.0 % m;
      assert k * v == k * c.0 - (k * (c.0 / m)) * m by {
        assert c.0 == (c.0 / m) * m + v;
      }
      assert k * v == 1 + (-c.1 - k * (c.0 / m)) * m;
      ModAddMultiple(1, -c.1 - k * (c.0 / m), m);
      Some(v)
    else None
  }

  /** Inverses modulo m are unique in [0, m), so ModInverse returns the same value
      as any other way of finding one. */
  lemma InverseUnique(k: nat, v: nat, w: nat, m: nat)
    requires m >= 1 && v < m && w < m
    requires (k * v) % m == 1 % m && (k * w) % m == 1 % m
    ensures v == w
  {
    ModMul(v, k * w, m);
    ModMul(w, k * v, m);
    assert v * (k * w) == w * (k * v);
    ModUnique(v, m, 0, v);
    ModUnique(w, m, 0, w);
    ModMul(v, 1, m);
    ModMul(w, 1, m);
  }

  /** Conversely, an inverse of k modulo m exists only when gcd(k, m) == 1, so the
      `None` case of ModInverse is exactly the non-invertible one. */
  lemma InverseNeedsCoprime(k: nat, m: nat, v: int)
    requires m >= 1
    requires (k * v) % m == 1 % m
    ensures Gcd(k, m) == 1
  {
    if m == 1 {
      assert Gcd(k, 1) == Gcd(1, 0);
    } else {
      var g := Gcd(k, m);
      var ck, cm := GcdDivides(k, m);
      var q := (k * v) / m;
      ModUnique(1, m, 0, 1);
      assert k * v == q * m + 1;
      Scale(k, g, ck, v);
      Scale(m, g, cm, q);
      assert q * m == m * q;
      CommonFactor(k * v, q * m, g, ck * v, cm * q);
      UnitFactor(g, ck * v - cm * q);
    }
  }

  lemma Scale(n: int, g: int, c: int, v: int)
    requires n == g * c
    ensures n * v == g * (c * v)
  {
  }

  lemma CommonFactor(u: int, w: int, g: int, cu: int, cw: int)
    requires u == g * cu && w == g * cw
    ensures u - w == g * (cu - cw)
  {
  }

  lemma UnitFactor(g: nat, c: int)
    requires g * c == 1
    ensures g == 1
  {
    if g >= 2 {
      if c >= 1 {
        MulAtLeast(c, g);
      }
    }
  }
}
