/** The 64-bit RSA functions of src/crypto_ext.rs. */
module Rsa {
  import opened Inverse
  import opened Modular
  import opened Prelude
  import opened Primes

  // ----- Modular multiplication and exponentiation -----

  function Clip(m: nat): nat -> nat {
    x => if x >= m then x - m else x
  }

  function Product(a: nat, b: nat, m: nat): nat
    requires m > 0
  {
    MulLoop(WORD, Clip(m), 0, a % m, b % m)
  }

  function Multiplier(m: nat): (nat, nat) -> nat {
    (x, y) => if m == 0 then 0 else Product(x, y, m)
  }

  function Power(base: nat, e: nat, m: nat): nat
    requires m > 0
  {
    if m == 1 then 0 else PowLoop(Multiplier(m), 1, base % m, e)
  }

  /** A wrapping addition and one conditional subtraction. */
  method AddClipped(x: nat, y: nat, m: nat) returns (r: nat)
    ensures r == Clip(m)((x + y) % WORD)
  {
    r := (x + y) % WORD;
    if r >= m {
      r := r - m;
    }
  }

  /** `mul_mod`: additions wrap at 64 bits. */
  method MulMod(x: nat, y: nat, m: nat) returns (result: nat)
    requires x < WORD && y < WORD && 0 < m < WORD
    ensures result == Product(x, y, m)
  {
    result := 0;
    var a: nat, b: nat := x % m, y % m;
    while b > 0
      invariant MulLoop(WORD, Clip(m), result, a, b) == Product(x, y, m)
    {
      if b % 2 == 1 {
        result := AddClipped(result, a, m);
      }
      a := AddClipped(a, a, m);
      b := b / 2;
    }
  }

  lemma {:induction false} MulLoopFits(m: nat, result: nat, a: nat, b: nat)
    requires 0 < m < WORD && result < WORD && a < WORD
    ensures MulLoop(WORD, Clip(m), result, a, b) < WORD
    decreases b
  {
    if b > 0 {
      var f := Clip(m);
      MulLoopFits(m, if b % 2 == 1 then f((result + a) % WORD) else result, f((a + a) % WORD), b / 2);
    }
  }

  method ModPow(x: nat, exp: nat, m: nat) returns (result: nat)
    requires x < WORD && exp < WORD && 0 < m < WORD
    ensures result == Power(x, exp, m) && result < WORD
  {
    if m == 1 {
      return 0;
    }
    result := 1;
    var base: nat, e: nat := x % m, exp;
    while e > 0
      invariant result < WORD && base < WORD
      invariant PowLoop(Multiplier(m), result, base, e) == Power(x, exp, m)
    {
      if e % 2 == 1 {
        MulLoopFits(m, 0, result % m, base % m);
        result := MulMod(result, base, m);
      }
      e := e / 2;
      MulLoopFits(m, 0, base % m, base % m);
      base := MulMod(base, base, m);
    }
  }

  lemma ClipReduces(m: nat)
    requires m > 0
    ensures Reduces(Clip(m), m)
  {
    forall x: nat | x < 2 * m ensures Clip(m)(x) == x % m {
      if x >= m {
        QuotientIs(x, m, 1, x - m);
      } else {
        SmallMod(x, m);
      }
    }
  }

  lemma ProductExact(a: nat, b: nat, m: nat)
    requires 0 < m <= HALF
    ensures Product(a, b, m) == (a * b) % m
  {
    ClipReduces(m);
    MulLoopExact(WORD, Clip(m), m, 0, a % m, b % m);
    ModTimesBoth(a, b, m);
  }

  /** Exponentiation is exact for every modulus up to 2^63. */
  lemma PowerExact(base: nat, e: nat, m: nat)
    requires 0 < m <= HALF
    ensures Power(base, e, m) == Pow(base, e) % m
  {
    if m > 1 {
      forall x: nat, y: nat | x < m && y < m ensures Multiplier(m)(x, y) == (x * y) % m {
        ProductExact(x, y, m);
      }
      PowLoopExact(Multiplier(m), m, 1, base % m, e);
      PowMod(base, e, m);
    }
  }

  /** Above 2^63 the square of 2^63 comes out as zero, which it never is. */
  lemma PowerLosesCarry(m: nat)
    requires HALF < m < WORD
    ensures Power(HALF, 2, m) == 0 && Pow(HALF, 2) % m != 0
  {
    var mul := Multiplier(m);
    SmallMod(HALF, m);
    SmallMod(0, m);
    MulLoopLosesCarry(WORD, Clip(m), HALF);
    assert mul(HALF, HALF) == Product(HALF, HALF, m) == 0;
    assert mul(1, 0) == Product(1, 0, m) == 0;
    PowLoopOfLostSquare(mul, HALF);
    HalfIsPow2();
    Pow2Add(63, 63);
    assert Pow(HALF, 2) == HALF * Pow(HALF, 1) && Pow(HALF, 1) == HALF * Pow(HALF, 0);
    BetweenPowersDividesNone(m, 63, 126);
  }

  lemma HalfIsPow2()
    ensures Pow2(63) == HALF && Pow2(64) == WORD
  {
    Pow2Of64();
    assert Pow2(64) == 2 * Pow2(63);
  }

  ghost predicate ExactFor(m: nat)
    requires m > 0
  {
    forall base: nat, e: nat | base < WORD && e < WORD :: Power(base, e, m) == Pow(base, e) % m
  }

  /** Exponentiation is exact on all 64-bit operands exactly when the modulus is at most 2^63. */
  lemma ExactExactly(m: nat)
    requires 0 < m < WORD
    ensures ExactFor(m) <==> m <= HALF
  {
    if m <= HALF {
      forall base: nat, e: nat | base < WORD && e < WORD ensures Power(base, e, m) == Pow(base, e) % m {
        PowerExact(base, e, m);
      }
    } else {
      PowerLosesCarry(m);
    }
  }

  // ----- Primality -----

  /** `is_prime` for every 32-bit number; the square saturates at 32 bits. */
  method IsPrime(n: nat) returns (r: bool)
    requires n < 0x1_0000_0000
    ensures r <==> Prime(n)
  {
    if n < 2 {
      return false;
    }
    if n < 4 {
      SmallPrimes(n);
      return true;
    }
    if n % 2 == 0 || n % 3 == 0 {
      Composite(n, if n % 2 == 0 then 2 else 3);
      return false;
    }
    var i := 5;
    NoSmallDivisor(n);
    while Min(i * i, 0xffff_ffff) <= n
      invariant i % 6 == 5 && forall d: nat | 2 <= d < i :: !Divides(d, n)
      decreases n + 1 - i
    {
      SquareAbove(i);
      SaturatedIsReal(n, i);
      if n % i == 0 || n % (i + 2) == 0 {
        Composite(n, if n % i == 0 then i else i + 2);
        return false;
      }
      NextSix(n, i);
      i := i + 6;
    }
    NoDivisorAbove(n, i);
    r := true;
  }

  lemma SmallPrimes(n: nat)
    requires 2 <= n < 4
    ensures Prime(n)
  {
    assert 3 % 2 == 1;
  }

  lemma NoSmallDivisor(n: nat)
    requires n % 2 != 0 && n % 3 != 0
    ensures forall d: nat | 2 <= d < 5 :: !Divides(d, n)
  {
    NotBetween(n, 4);
    assert !Divides(2, n) && !Divides(3, n) && !Divides(4, n);
  }

  lemma Composite(n: nat, d: nat)
    requires 2 <= d < n && n % d == 0
    ensures !Prime(n)
  {
    assert Divides(d, n);
  }

  lemma SquareAbove(i: nat)
    requires i >= 5
    ensures i + 2 < i * i
  {
    assert i * i == 5 * i + (i - 5) * i;
    MulNonNegative(i - 5, i);
  }

  /** The saturated square only equals the bound for the largest number, which 3 divides. */
  lemma SaturatedIsReal(n: nat, i: nat)
    requires Min(i * i, 0xffff_ffff) <= n < 0x1_0000_0000 && n % 3 != 0
    ensures i * i <= n
  {
    assert 0xffff_ffff % 3 == 0;
  }

  lemma EvenDivisor(n: nat, d: nat, f: nat)
    requires Divides(d, n) && Divides(f, d)
    ensures Divides(f, n)
  {
    var k, j := n / d, d / f;
    assert n == d * k && d == f * j;
    assert n == (j * k) * f by {
      assert (f * j) * k == (j * k) * f;
    }
    MultipleDivides(f, j * k);
  }

  lemma NotBetween(n: nat, d: nat)
    requires n % 2 != 0 && n % 3 != 0 && (d % 2 == 0 || d % 3 == 0) && d > 0
    ensures !Divides(d, n)
  {
    if Divides(d, n) {
      if d % 2 == 0 {
        EvenDivisor(n, d, 2);
      } else {
        EvenDivisor(n, d, 3);
      }
      assert false;
    }
  }

  lemma SixResidues(i: nat)
    requires i % 6 == 5
    ensures (i + 1) % 2 == 0 && (i + 3) % 2 == 0 && (i + 5) % 2 == 0 && (i + 4) % 3 == 0 && (i + 6) % 6 == 5
  {
    var k := i / 6;
    assert i == 6 * k + 5;
    QuotientIs(i + 1, 2, 3 * k + 3, 0);
    QuotientIs(i + 3, 2, 3 * k + 4, 0);
    QuotientIs(i + 5, 2, 3 * k + 5, 0);
    QuotientIs(i + 4, 3, 2 * k + 3, 0);
    QuotientIs(i + 6, 6, k + 1, 5);
  }

  lemma NextSix(n: nat, i: nat)
    requires n % 2 != 0 && n % 3 != 0 && i % 6 == 5 && n % i != 0 && n % (i + 2) != 0
    requires forall d: nat | 2 <= d < i :: !Divides(d, n)
    ensures (i + 6) % 6 == 5 && forall d: nat | 2 <= d < i + 6 :: !Divides(d, n)
  {
    SixResidues(i);
    NotBetween(n, i + 1);
    NotBetween(n, i + 3);
    NotBetween(n, i + 4);
    NotBetween(n, i + 5);
    forall d: nat | 2 <= d < i + 6 ensures !Divides(d, n) {
      assert d < i || d == i || d == i + 1 || d == i + 2 || d == i + 3 || d == i + 4 || d == i + 5;
    }
  }

  /** A composite number has a divisor no larger than its square root. */
  lemma NoDivisorAbove(n: nat, i: nat)
    requires n >= 2 && i * i > n && forall d: nat | 2 <= d < i :: !Divides(d, n)
    ensures Prime(n)
  {
    forall d: nat | 2 <= d < n ensures !Divides(d, n) {
      if Divides(d, n) {
        LargeCofactor(n, i, d);
      }
    }
  }

  lemma LargeCofactor(n: nat, i: nat, d: nat)
    requires 2 <= d < n && i * i > n && Divides(d, n)
    ensures exists k: nat :: 2 <= k < i && Divides(k, n)
  {
    var k := n / d;
    assert n == k * d;
    MultipleDivides(d, k);
    if d < i {
      assert 2 <= d < i && Divides(d, n);
    } else {
      assert k >= 2;
      MultipleDivides(k, d);
      assert d * k == n;
      LargeProduct(k, d, i);
      assert 2 <= k < i && Divides(k, n);
    }
  }

  lemma LargeProduct(k: nat, d: nat, i: nat)
    requires d >= i
    ensures k >= i ==> k * d >= i * i
  {
    if k >= i {
      assert k * d == i * i + (k - i) * d + i * (d - i);
      MulNonNegative(k - i, d);
      MulNonNegative(i, d - i);
    }
  }

  // ----- The round trip -----

  lemma ExponentShape(e: nat, d: nat, phi: nat) returns (k: nat)
    requires phi >= 2 && (e * d) % phi == 1
    ensures e * d == 1 + phi * k
  {
    k := e * d / phi;
  }

  lemma TotientAtLeastTwo(p: nat, q: nat)
    requires p >= 2 && q >= 2 && p != q
    ensures (p - 1) * (q - 1) >= 2
  {
    if p > 2 {
      MulGrows(p - 1, q - 1);
    } else {
      MulGrows(q - 1, p - 1);
    }
  }

  lemma Regroup(x: int, y: int, k: int)
    ensures (x * y) * k == x * (y * k) && (x * y) * k == y * (x * k)
  {
    assert (x * y) * k == (y * x) * k;
  }

  /** Raising to e and then to an inverse of e gives back every message below the modulus. */
  lemma PowersCancel(p: nat, q: nat, e: nat, d: nat, msg: nat)
    requires Prime(p) && Prime(q) && p != q && msg < p * q
    requires (e * d) % ((p - 1) * (q - 1)) == 1 % ((p - 1) * (q - 1))
    ensures Pow(msg, e * d) % (p * q) == msg
  {
    var phi := (p - 1) * (q - 1);
    TotientAtLeastTwo(p, q);
    SmallMod(1, phi);
    var k := ExponentShape(e, d, phi);
    Regroup(p - 1, q - 1, k);
    PowerReturns(msg, p, (q - 1) * k);
    PowerReturns(msg, q, (p - 1) * k);
    PowIsNat(msg, e * d);
    AgreeModuloProduct(Pow(msg, e * d), msg, p, q);
    SmallMod(msg, p * q);
  }

  lemma PowIsNat(a: nat, e: nat)
    ensures Pow(a, e) >= 0
  {
    assert PowNat(a, e) == Pow(a, e);
  }

  /** Decrypting what was encrypted gives back the message. */
  lemma RoundTrip(p: nat, q: nat, e: nat, d: nat, msg: nat)
    requires Prime(p) && Prime(q) && p != q && p * q <= HALF && msg < p * q
    requires (e * d) % ((p - 1) * (q - 1)) == 1 % ((p - 1) * (q - 1))
    ensures Power(Power(msg, e, p * q), d, p * q) == msg
  {
    var n := p * q;
    PowerExact(msg, e, n);
    PowerExact(Power(msg, e, n), d, n);
    PowMod(Pow(msg, e), d, n);
    PowOfPow(msg, e, d);
    PowersCancel(p, q, e, d, msg);
  }

  lemma TotientBelow(p: nat, q: nat)
    requires p >= 2 && q >= 2
    ensures 0 < (p - 1) * (q - 1) < p * q
  {
    MulGrows(p - 1, q - 1);
    assert p * q == (p - 1) * (q - 1) + (p - 1) + q;
  }

  /** The private exponent is right exactly for public exponents below 2^63, and above for those with an inverse in the
      lower half if the totient divides 2^64. */
  lemma PrivateExponent(checked: bool, e: nat, phi: nat, d: Option<nat>)
    requires e < WORD && 0 < phi < HALF && Coprime(e, phi) && InverseOf(checked, e, phi) == Done(d)
    ensures (d.Some? && Inverts(e, phi, d.value)) <==> e < HALF || (WORD % phi == 0 && LowInverse(e, phi))
  {
    if e < HALF {
      InverseExact(checked, e, phi);
    } else {
      RightForLarge(checked, e, phi);
    }
  }

  lemma DecryptsBack(p: nat, q: nat, e: nat, phi: nat, d: nat, msg: nat, cipher: nat)
    requires Prime(p) && Prime(q) && p != q && p * q <= HALF && msg < p * q && phi == (p - 1) * (q - 1) > 0
    requires Inverts(e, phi, d) && cipher == Power(msg, e, p * q)
    ensures Power(cipher, d, p * q) == msg
  {
    RoundTrip(p, q, e, d, msg);
  }

  /** `mod_inverse` for the private exponent, then `rsa_encrypt` and `rsa_decrypt`. Every message comes back if the
      public exponent is below 2^63. */
  method EncryptThenDecrypt(checked: bool, p: nat, q: nat, phi: nat, e: nat, msg: nat)
    returns (cipher: nat, d: Option<nat>, plain: Option<nat>)
    requires Prime(p) && Prime(q) && p != q && p * q <= HALF && msg < p * q && phi == (p - 1) * (q - 1) > 0
    requires e < WORD && Coprime(e, phi)
    ensures cipher == Power(msg, e, p * q)
    ensures (d.Some? && Inverts(e, phi, d.value)) <==> e < HALF || (WORD % phi == 0 && LowInverse(e, phi))
    ensures d.Some? && Inverts(e, phi, d.value) ==> plain == Some(msg)
  {
    TotientBelow(p, q);
    SmallModulus(checked, e, phi);
    var inverse := ModInverse(checked, e, phi);
    d := inverse.inverse;
    PrivateExponent(checked, e, phi, d);
    var n := p * q;
    cipher := ModPow(msg, e, n);
    plain := None;
    if d.Some? {
      var m := ModPow(cipher, d.value, n);
      if Inverts(e, phi, d.value) {
        DecryptsBack(p, q, e, phi, d.value, msg, cipher);
      }
      plain := Some(m);
    }
  }

  // ----- Generated keys -----

  /** The table of small primes, in its eight rows of ten. */
  function Row(r: nat): (row: seq<nat>)
    requires r < 8
    ensures |row| == 10
  {
    match r
    case 0 => [251, 257, 263, 269, 271, 277, 281, 283, 293, 307]
    case 1 => [311, 313, 317, 331, 337, 347, 349, 353, 359, 367]
    case 2 => [373, 379, 383, 389, 397, 401, 409, 419, 421, 431]
    case 3 => [433, 439, 443, 449, 457, 461, 463, 467, 479, 487]
    case 4 => [491, 499, 503, 509, 521, 523, 541, 547, 557, 563]
    case 5 => [569, 571, 577, 587, 593, 599, 601, 607, 613, 617]
    case 6 => [619, 631, 641, 643, 647, 653, 659, 661, 673, 677]
    case _ => [683, 691, 701, 709, 719, 727, 733, 739, 743, 751]
  }

  function SmallPrime(i: nat): nat
    requires i < 80
  {
    Row(i / 10)[i % 10]
  }

  /** Neither neighbour of a multiple of six from i up to hi divides n. */
  predicate SixSteps(n: nat, i: nat, hi: nat)
    decreases hi - i
  {
    i > 0 && (i >= hi || (n % i != 0 && n % (i + 2) != 0 && SixSteps(n, i + 6, hi)))
  }

  lemma {:induction false} SixStepsUp(n: nat, i: nat, hi: nat)
    requires n % 2 != 0 && n % 3 != 0 && i % 6 == hi % 6 == 5 && i <= hi && SixSteps(n, i, hi)
    requires forall d: nat | 2 <= d < i :: !Divides(d, n)
    ensures forall d: nat | 2 <= d < hi :: !Divides(d, n)
    decreases hi - i
  {
    if i < hi {
      NextSix(n, i);
      SixStepsUp(n, i + 6, hi);
    }
  }

  predicate SievedLow(n: nat) {
    n % 2 != 0 && n % 3 != 0 && n % 5 != 0 && n % 7 != 0
  }

  predicate SievedMiddle(n: nat) {
    n % 11 != 0 && n % 13 != 0 && n % 17 != 0
  }

  predicate SievedHigh(n: nat) {
    n % 19 != 0 && n % 23 != 0 && n % 25 != 0
  }

  /** Trial division by 2, 3 and the neighbours of 6, 12, 18 and 24. */
  predicate Sieved(n: nat) {
    SievedLow(n) && SievedMiddle(n) && SievedHigh(n)
  }

  lemma SievedIsPrime(n: nat)
    requires 2 <= n < 841 && Sieved(n)
    ensures Prime(n)
  {
    NoSmallDivisor(n);
    NextSix(n, 5);
    NextSix(n, 11);
    NextSix(n, 17);
    NextSix(n, 23);
    NoDivisorAbove(n, 29);
  }

  lemma RowSievedLow(r: nat, j: nat)
    requires r < 8 && j < 10
    ensures SievedLow(Row(r)[j])
  {
  }

  lemma RowSievedMiddle(r: nat, j: nat)
    requires r < 8 && j < 10
    ensures SievedMiddle(Row(r)[j])
  {
  }

  lemma RowSievedHigh(r: nat, j: nat)
    requires r < 8 && j < 10
    ensures SievedHigh(Row(r)[j])
  {
  }

  lemma TableIsPrime(i: nat)
    requires i < 80
    ensures Prime(SmallPrime(i)) && 250 < SmallPrime(i) < 752
  {
    var r, j := i / 10, i % 10;
    RowBounds(r, j);
    RowSievedLow(r, j);
    RowSievedMiddle(r, j);
    RowSievedHigh(r, j);
    SievedIsPrime(SmallPrime(i));
  }

  /** Where each row of the table begins. */
  function RowStart(r: nat): nat
    requires r <= 8
  {
    match r
    case 0 => 251
    case 1 => 311
    case 2 => 373
    case 3 => 433
    case 4 => 491
    case 5 => 569
    case 6 => 619
    case 7 => 683
    case _ => 752
  }

  lemma RowBounds(r: nat, j: nat)
    requires r < 8 && j < 10
    ensures RowStart(r) <= Row(r)[j] < RowStart(r + 1)
  {
  }

  lemma RowNext(r: nat, j: nat)
    requires r < 8 && j < 9
    ensures Row(r)[j] < Row(r)[j + 1]
  {
  }

  lemma {:induction false} RowIncreases(r: nat, j: nat, k: nat)
    requires r < 8 && j < k < 10
    ensures Row(r)[j] < Row(r)[k]
    decreases k
  {
    RowNext(r, k - 1);
    if j < k - 1 {
      RowIncreases(r, j, k - 1);
    }
  }

  lemma TableIncreases(i: nat, k: nat)
    requires i < k < 80
    ensures SmallPrime(i) < SmallPrime(k)
  {
    RowBounds(i / 10, i % 10);
    RowBounds(k / 10, k % 10);
    if i / 10 == k / 10 {
      RowIncreases(i / 10, i % 10, k % 10);
    } else {
      RowsIncrease(i / 10 + 1, k / 10);
    }
  }

  lemma RowsIncrease(r: nat, t: nat)
    requires r <= t <= 8
    ensures RowStart(r) <= RowStart(t)
  {
  }

  /** The public exponent 65537 is prime. */
  lemma ExponentIsPrime()
    ensures Prime(65537)
  {
    NoSmallDivisor(65537);
    assert SixSteps(65537, 5, 89);
    SixStepsUp(65537, 5, 89);
    assert SixSteps(65537, 89, 173);
    SixStepsUp(65537, 89, 173);
    assert SixSteps(65537, 173, 257);
    SixStepsUp(65537, 173, 257);
    NoDivisorAbove(65537, 257);
  }

  lemma CoprimeToProduct(e: nat, x: nat, y: nat)
    requires Prime(e) && 0 < x < e && 0 < y < e
    ensures Coprime(e, x * y)
  {
    SmallMod(x, e);
    SmallMod(y, e);
    forall d: nat | Divides(d, e) && Divides(d, x * y) ensures d == 1 {
      DivisorOfPrime(d, e);
      if d == e {
        PrimeDividesFactor(e, x, y);
        assert false;
      }
    }
  }

  datatype KeyPair = KeyPair(n: nat, e: nat, d: nat, p: nat, q: nat)

  /** `generate_keypair` for any value of the generator's counter: every message below n survives the round trip. */
  method GenerateKeypair(checked: bool, counter: nat) returns (key: KeyPair)
    ensures key.n == key.p * key.q && Prime(key.p) && Prime(key.q) && key.p != key.q
    ensures key.e == 65537 && (key.e * key.d) % ((key.p - 1) * (key.q - 1)) == 1
    ensures forall msg: nat | msg < key.n :: Power(Power(msg, key.e, key.n), key.d, key.n) == msg
  {
    var i := counter % 80;
    var k := (i + 7) % 80;
    var p, q := SmallPrime(i), SmallPrime(k);
    SeventhOther(i, k);
    ExponentIsPrime();
    CoprimeToProduct(65537, p - 1, q - 1);
    SmallProducts(p, q);
    InverseExact(checked, 65537, (p - 1) * (q - 1));
    var answer := ModInverse(checked, 65537, (p - 1) * (q - 1));
    var inverse := answer.inverse;
    TotientAtLeastTwo(p, q);
    SmallMod(1, (p - 1) * (q - 1));
    var d := if inverse.Some? then inverse.value else 3;
    key := KeyPair(p * q, 65537, d, p, q);
    forall msg: nat | msg < key.n ensures Power(Power(msg, key.e, key.n), key.d, key.n) == msg {
      RoundTrip(p, q, 65537, d, msg);
    }
  }

  lemma SeventhOther(i: nat, k: nat)
    requires i < 80 && k < 80 && i != k
    ensures var p, q := SmallPrime(i), SmallPrime(k);
            Prime(p) && Prime(q) && p != q && 1 < p < 752 && 1 < q < 752
  {
    TableIsPrime(i);
    TableIsPrime(k);
    if i < k {
      TableIncreases(i, k);
    } else {
      TableIncreases(k, i);
    }
  }

  lemma SmallProducts(p: nat, q: nat)
    requires 1 < p < 752 && 1 < q < 752
    ensures 0 < p * q < HALF && 0 < (p - 1) * (q - 1) < HALF
  {
    LargeProduct(752, 752, 1);
    assert p * q <= 752 * 752 by {
      assert 752 * 752 == p * q + (752 - p) * 752 + p * (752 - q);
      MulNonNegative(752 - p, 752);
      MulNonNegative(p, 752 - q);
    }
    assert p * q == (p - 1) * (q - 1) + p + q - 1;
    MulGrows(p - 1, q - 1);
  }
}
