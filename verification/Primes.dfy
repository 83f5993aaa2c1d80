/** Divisibility, primes and Fermat's little theorem, for the RSA functions of src/crypto_ext.rs. */
module Primes {
  import opened Prelude
  import opened Modular

  predicate Divides(d: nat, n: int) {
    d > 0 && n % d == 0
  }

  ghost predicate Prime(p: nat) {
    p >= 2 && forall d: nat | 2 <= d < p :: !Divides(d, p)
  }

  ghost predicate Coprime(a: nat, b: nat) {
    forall d: nat | Divides(d, a) && Divides(d, b) :: d == 1
  }

  lemma MultipleDivides(d: nat, k: int)
    requires d > 0
    ensures Divides(d, k * d)
  {
    QuotientIs(k * d, d, k, 0);
  }

  lemma DividesSum(d: nat, x: int, y: int, u: int, v: int)
    requires Divides(d, x) && Divides(d, y)
    ensures Divides(d, x * u + y * v)
  {
    var i, j := x / d, y / d;
    assert x == i * d && y == j * d;
    assert x * u + y * v == (i * u + j * v) * d by {
      assert (i * d) * u == (i * u) * d;
      assert (j * d) * v == (j * v) * d;
    }
    MultipleDivides(d, i * u + j * v);
  }

  lemma DividesProduct(d: nat, x: int, y: int)
    requires Divides(d, x)
    ensures Divides(d, x * y)
  {
    DividesSum(d, x, x, y, 0);
  }

  /** A common divisor that is a combination of the two numbers. */
  lemma {:induction false} Bezout(a: nat, b: nat) returns (g: nat, x: int, y: int)
    requires a > 0 || b > 0
    ensures Divides(g, a) && Divides(g, b) && a * x + b * y == g
    decreases b
  {
    if b == 0 {
      g, x, y := a, 1, 0;
      MultipleDivides(a, 1);
      MultipleDivides(a, 0);
    } else {
      var x1, y1;
      g, x1, y1 := Bezout(b, a % b);
      x, y := y1, x1 - a / b * y1;
      DividesSum(g, b, a % b, a / b, 1);
      BezoutStep(a, b, x1, y1);
    }
  }

  lemma BezoutStep(a: nat, b: nat, x: int, y: int)
    requires b > 0
    ensures a == b * (a / b) + a % b
    ensures a * y + b * (x - a / b * y) == b * x + a % b * y
  {
    var q := a / b;
    assert a == b * q + a % b;
    assert a * y == (b * q) * y + a % b * y;
    assert b * (x - q * y) == b * x - b * (q * y);
    assert (b * q) * y == b * (q * y);
  }

  /** A prime that divides a product divides one of the factors. */
  lemma PrimeDividesFactor(p: nat, a: nat, b: nat)
    requires Prime(p) && Divides(p, a * b)
    ensures Divides(p, a) || Divides(p, b)
  {
    if !Divides(p, a) {
      var g, x, y := Bezout(a, p);
      DivisorOfPrime(g, p);
      assert g == 1;
      TimesOne(a, b, p, x, y);
      MultipleDivides(p, 1);
      DividesSum(p, a * b, p, x, y * b);
    }
  }

  lemma TimesOne(a: int, b: int, p: int, x: int, y: int)
    requires a * x + p * y == 1
    ensures b == (a * b) * x + p * (y * b)
  {
    assert b == (a * x + p * y) * b;
    assert (a * x + p * y) * b == (a * x) * b + (p * y) * b;
    assert (a * x) * b == (a * b) * x && (p * y) * b == p * (y * b);
  }

  lemma DivisorOfPrime(d: nat, p: nat)
    requires Prime(p) && Divides(d, p)
    ensures d == 1 || d == p
  {
    if d > p {
      SmallMod(p, d);
    }
  }

  // ----- Binomial coefficients -----

  function Choose(n: nat, k: nat): nat {
    if k == 0 then 1 else if n == 0 then 0 else Choose(n - 1, k - 1) + Choose(n - 1, k)
  }

  lemma {:induction false} ChooseNone(n: nat, k: nat)
    requires k > n
    ensures Choose(n, k) == 0
    decreases n
  {
    if n > 0 {
      ChooseNone(n - 1, k - 1);
      ChooseNone(n - 1, k);
    }
  }

  lemma {:induction false} ChooseAll(n: nat)
    ensures Choose(n, n) == 1
    decreases n
  {
    if n > 0 {
      ChooseAll(n - 1);
      ChooseNone(n - 1, n);
    }
  }

  lemma {:induction false} Absorb(n: nat, k: nat)
    requires n >= 1 && k >= 1
    ensures k * Choose(n, k) == n * Choose(n - 1, k - 1)
    decreases n
  {
    if n == 1 {
      if k > 1 {
        ChooseNone(1, k);
        ChooseNone(0, k - 1);
      } else {
        assert Choose(1, 1) == Choose(0, 0) + Choose(0, 1);
      }
    } else {
      Absorb(n - 1, k);
      if k > 1 {
        Absorb(n - 1, k - 1);
      }
      AbsorbStep(n, k);
    }
  }

  lemma AbsorbStep(n: nat, k: nat)
    requires n >= 2 && k >= 1 && k * Choose(n - 1, k) == (n - 1) * Choose(n - 2, k - 1)
    requires k > 1 ==> (k - 1) * Choose(n - 1, k - 1) == (n - 1) * Choose(n - 2, k - 2)
    ensures k * Choose(n, k) == n * Choose(n - 1, k - 1)
  {
    if k == 1 {
      AbsorbSum(n, 1, 0, Choose(n - 2, 0), Choose(n - 1, 1));
    } else {
      AbsorbSum(n, k, Choose(n - 2, k - 2), Choose(n - 2, k - 1), Choose(n - 1, k));
    }
  }

  lemma AbsorbSum(n: int, k: int, c: int, d: int, v: int)
    requires k * v == (n - 1) * d && (k - 1) * (c + d) == (n - 1) * c
    ensures k * (c + d + v) == n * (c + d)
  {
    assert k * (c + d + v) == (k - 1) * (c + d) + (c + d) + k * v;
    assert n * (c + d) == (n - 1) * c + (n - 1) * d + (c + d);
  }

  /** The first k terms of the binomial expansion of (a + 1)^n. */
  function Expansion(a: nat, n: nat, k: nat): nat {
    if k == 0 then 0 else Expansion(a, n, k - 1) + Choose(n, k - 1) * PowNat(a, k - 1)
  }

  function PowNat(a: nat, k: nat): (r: nat)
    ensures r == Pow(a, k)
  {
    if k == 0 then 1 else a * PowNat(a, k - 1)
  }

  lemma {:induction false} ExpansionStep(a: nat, n: nat, k: nat)
    requires n >= 1
    ensures Expansion(a, n, k + 1) == a * Expansion(a, n - 1, k) + Expansion(a, n - 1, k + 1)
    decreases k
  {
    if k == 0 {
      assert Expansion(a, n, 1) == Expansion(a, n, 0) + Choose(n, 0) * PowNat(a, 0);
      assert Expansion(a, n - 1, 1) == Expansion(a, n - 1, 0) + Choose(n - 1, 0) * PowNat(a, 0);
      assert a * Expansion(a, n - 1, 0) == 0;
    } else {
      ExpansionStep(a, n, k - 1);
      ExpansionTerm(a, n, k);
    }
  }

  lemma ExpansionTerm(a: nat, n: nat, k: nat)
    requires n >= 1 && k >= 1
    requires Expansion(a, n, k) == a * Expansion(a, n - 1, k - 1) + Expansion(a, n - 1, k)
    ensures Expansion(a, n, k + 1) == a * Expansion(a, n - 1, k) + Expansion(a, n - 1, k + 1)
  {
    var u, v, w := Choose(n - 1, k - 1), Choose(n - 1, k), PowNat(a, k - 1);
    assert Expansion(a, n, k + 1) == Expansion(a, n, k) + (u + v) * (a * w);
    TermSum(a, Expansion(a, n - 1, k - 1), u, v, w);
  }

  lemma TermSum(a: int, e: int, u: int, v: int, w: int)
    ensures a * e + (e + u * w) + (u + v) * (a * w) == a * (e + u * w) + (e + u * w + v * (a * w))
  {
    assert (u + v) * (a * w) == u * (a * w) + v * (a * w);
    assert u * (a * w) == a * (u * w);
    assert a * (e + u * w) == a * e + a * (u * w);
  }

  lemma {:induction false} Binomial(a: nat, n: nat)
    ensures Pow(a + 1, n) == Expansion(a, n, n + 1)
    decreases n
  {
    if n == 0 {
      assert Expansion(a, 0, 1) == Expansion(a, 0, 0) + Choose(0, 0) * PowNat(a, 0);
    } else {
      Binomial(a, n - 1);
      ExpansionStep(a, n, n);
      ChooseNone(n - 1, n);
      var e := Expansion(a, n - 1, n);
      assert Expansion(a, n - 1, n + 1) == e + 0 * PowNat(a, n);
      assert (a + 1) * e == a * e + e;
    }
  }

  // ----- Fermat's little theorem -----

  lemma PrimeDividesChoose(p: nat, k: nat)
    requires Prime(p) && 0 < k < p
    ensures Divides(p, Choose(p, k))
  {
    Absorb(p, k);
    assert p * Choose(p - 1, k - 1) == Choose(p - 1, k - 1) * p;
    MultipleDivides(p, Choose(p - 1, k - 1));
    PrimeDividesFactor(p, k, Choose(p, k));
    SmallMod(k, p);
  }

  lemma {:induction false} ExpansionModPrime(a: nat, p: nat, k: nat)
    requires Prime(p) && 1 <= k <= p
    ensures Expansion(a, p, k) % p == 1
    decreases k
  {
    if k == 1 {
      assert Expansion(a, p, 1) == Expansion(a, p, 0) + Choose(p, 0) * PowNat(a, 0);
      SmallMod(1, p);
    } else {
      ExpansionModPrime(a, p, k - 1);
      PrimeDividesChoose(p, k - 1);
      var term := Choose(p, k - 1) * PowNat(a, k - 1);
      DividesProduct(p, Choose(p, k - 1), PowNat(a, k - 1));
      SmallMod(0, p);
      SmallMod(1, p);
      ModSum(Expansion(a, p, k - 1), 1, term, 0, p);
    }
  }

  lemma NextPower(a: nat, p: nat)
    requires Prime(p)
    ensures Pow(a + 1, p) % p == (1 + Pow(a, p)) % p
  {
    Binomial(a, p);
    ExpansionModPrime(a, p, p);
    ChooseAll(p);
    assert Expansion(a, p, p + 1) == Expansion(a, p, p) + 1 * PowNat(a, p);
    SmallMod(1, p);
    ModSum(Expansion(a, p, p), 1, PowNat(a, p), Pow(a, p), p);
  }

  lemma {:induction false} FermatPower(a: nat, p: nat)
    requires Prime(p)
    ensures Pow(a, p) % p == a % p
    decreases a
  {
    if a == 0 {
      assert Pow(0, p) == 0 * Pow(0, p - 1);
    } else {
      FermatPower(a - 1, p);
      NextPower(a - 1, p);
      ModSum(1, 1, Pow(a - 1, p), a - 1, p);
    }
  }

  lemma Congruent(x: int, y: int, p: nat)
    requires p > 0
    ensures x % p == y % p <==> Divides(p, x - y)
  {
    if x % p == y % p {
      ModSum(x, y, -y, -y, p);
      SmallMod(0, p);
    }
    if Divides(p, x - y) {
      SmallMod(0, p);
      ModSum(x - y, 0, y, y, p);
    }
  }

  lemma {:induction false} PowPositive(a: nat, e: nat)
    requires a > 0
    ensures Pow(a, e) > 0
    decreases e
  {
    if e > 0 {
      PowPositive(a, e - 1);
      MulGrows(a, Pow(a, e - 1));
    }
  }

  /** Fermat's little theorem. */
  lemma Fermat(a: nat, p: nat)
    requires Prime(p) && !Divides(p, a)
    ensures Pow(a, p - 1) % p == 1
  {
    FermatPower(a, p);
    var u := Pow(a, p - 1);
    if a == 0 {
      SmallMod(0, p);
    }
    PowPositive(a, p - 1);
    Congruent(Pow(a, p), a, p);
    assert Pow(a, p) - a == a * (u - 1) by {
      assert Pow(a, p) == a * u;
    }
    PrimeDividesFactor(p, a, u - 1);
    Congruent(u, 1, p);
    SmallMod(1, p);
  }

  /** Raising to one more than a multiple of p - 1 changes nothing modulo p. */
  lemma PowerReturns(a: nat, p: nat, k: nat)
    requires Prime(p)
    ensures Pow(a, 1 + (p - 1) * k) % p == a % p
  {
    var u := Pow(a, (p - 1) * k);
    assert Pow(a, 1 + (p - 1) * k) == a * u;
    if Divides(p, a) {
      DividesProduct(p, a, u);
    } else {
      Fermat(a, p);
      PowOfPow(a, p - 1, k);
      PowMod(Pow(a, p - 1), k, p);
      PowOne(k);
      ModProduct(a, a, u, 1, p);
      assert a * 1 == a;
    }
  }

  lemma {:induction false} PowOne(k: nat)
    ensures Pow(1, k) == 1
    decreases k
  {
    if k > 0 {
      PowOne(k - 1);
    }
  }

  lemma DistinctPrimes(p: nat, q: nat)
    requires Prime(p) && Prime(q) && p != q
    ensures !Divides(p, q)
  {
    if Divides(p, q) {
      DivisorOfPrime(p, q);
      assert false;
    }
  }

  /** Two numbers that agree modulo two primes agree modulo their product. */
  lemma AgreeModuloProduct(x: nat, y: nat, p: nat, q: nat)
    requires Prime(p) && Prime(q) && p != q && x % p == y % p && x % q == y % q
    ensures p * q > 0 && x % (p * q) == y % (p * q)
  {
    MulGrows(p, q);
    if x >= y {
      DifferenceDivides(x, y, p, q);
    } else {
      DifferenceDivides(y, x, p, q);
    }
  }

  lemma Reorder(q: int, p: int, j: int)
    ensures q * (p * j) == j * (p * q)
  {
    assert q * (p * j) == (q * p) * j;
  }

  lemma DifferenceDivides(x: nat, y: nat, p: nat, q: nat)
    requires Prime(p) && Prime(q) && p != q && x % p == y % p && x % q == y % q && x >= y && p * q > 0
    ensures x % (p * q) == y % (p * q)
  {
    Congruent(x, y, p);
    Congruent(x, y, q);
    var k := (x - y) / q;
    assert x - y == q * k;
    PrimeDividesFactor(p, q, k);
    DistinctPrimes(p, q);
    var j := k / p;
    assert k == p * j;
    Reorder(q, p, j);
    ModAddMultiple(y, j, p * q);
  }
}
