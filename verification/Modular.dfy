/** Remainders, powers, and the shift-and-add and square-and-multiply loops of src/crypto_ext.rs on numbers. */
module Modular {
  import opened Prelude

  const WORD: nat := 0x1_0000_0000_0000_0000
  const HALF: nat := 0x8000_0000_0000_0000

  // ----- Remainders -----

  lemma QuotientIs(x: int, m: nat, q: int, r: nat)
    requires r < m && x == q * m + r
    ensures x % m == r && x / m == q
  {
    var d := x / m - q;
    assert x == x / m * m + x % m;
    assert d * m == r - x % m by {
      assert d * m == x / m * m - q * m;
    }
    if d >= 1 {
      MulGrows(m, d);
    }
  }

  lemma ModAddMultiple(x: int, k: int, m: nat)
    requires m > 0
    ensures (x + k * m) % m == x % m
  {
    assert x + k * m == (x / m + k) * m + x % m by {
      assert (x / m + k) * m == x / m * m + k * m;
    }
    QuotientIs(x + k * m, m, x / m + k, x % m);
  }

  lemma ModPlus(x: int, y: int, m: nat)
    requires m > 0
    ensures (x % m + y) % m == (x + y) % m
  {
    assert x + y == x % m + y + x / m * m;
    ModAddMultiple(x % m + y, x / m, m);
  }

  lemma ModTimes(x: int, y: int, m: nat)
    requires m > 0
    ensures (x % m * y) % m == (x * y) % m
  {
    assert x * y == x % m * y + (x / m * y) * m by {
      assert x == x / m * m + x % m;
      assert x * y == (x / m * m) * y + x % m * y;
      assert (x / m * m) * y == (x / m * y) * m;
    }
    ModAddMultiple(x % m * y, x / m * y, m);
  }

  lemma ModTimesBoth(x: int, y: int, m: nat)
    requires m > 0
    ensures (x % m * (y % m)) % m == (x * y) % m
  {
    ModTimes(x, y % m, m);
    assert x * (y % m) == y % m * x && x * y == y * x;
    ModTimes(y, x, m);
  }

  /** Congruent factors have congruent products. */
  lemma ModProduct(a: int, b: int, x: int, y: int, m: nat)
    requires m > 0 && a % m == b % m && x % m == y % m
    ensures (a * x) % m == (b * y) % m
  {
    ModTimesBoth(a, x, m);
    ModTimesBoth(b, y, m);
  }

  lemma ModSum(a: int, b: int, x: int, y: int, m: nat)
    requires m > 0 && a % m == b % m && x % m == y % m
    ensures (a + x) % m == (b + y) % m
  {
    ModPlus(a, x, m);
    ModPlus(b, y, m);
    ModPlus(x, a % m, m);
    ModPlus(y, a % m, m);
  }

  lemma ModTwice(x: int, m: nat)
    requires m > 0
    ensures x % m % m == x % m
  {
  }

  lemma SmallMod(x: nat, m: nat)
    requires x < m
    ensures x % m == x
  {
  }

  // ----- Powers -----

  lemma {:induction false} PowAdd(b: int, i: nat, j: nat)
    ensures Pow(b, i + j) == Pow(b, i) * Pow(b, j)
    decreases i
  {
    if i == 0 {
      assert Pow(b, 0) * Pow(b, j) == Pow(b, j);
    } else {
      PowAdd(b, i - 1, j);
      assert Pow(b, i + j) == b * (Pow(b, i - 1) * Pow(b, j));
      assert b * (Pow(b, i - 1) * Pow(b, j)) == (b * Pow(b, i - 1)) * Pow(b, j);
    }
  }

  lemma {:induction false} PowOfSquare(b: int, k: nat)
    ensures Pow(b * b, k) == Pow(b, k + k)
    decreases k
  {
    if k > 0 {
      PowOfSquare(b, k - 1);
      assert Pow(b, k + k) == b * (b * Pow(b, k - 1 + (k - 1)));
      assert b * (b * Pow(b, k - 1 + (k - 1))) == (b * b) * Pow(b, k - 1 + (k - 1));
    }
  }

  lemma {:induction false} PowOfPow(b: int, i: nat, j: nat)
    ensures Pow(Pow(b, i), j) == Pow(b, i * j)
    decreases j
  {
    if j == 0 {
      assert i * j == 0;
    } else {
      PowOfPow(b, i, j - 1);
      assert i * j == i + i * (j - 1);
      PowAdd(b, i, i * (j - 1));
    }
  }

  lemma {:induction false} PowMod(b: int, e: nat, m: nat)
    requires m > 0
    ensures Pow(b % m, e) % m == Pow(b, e) % m
    decreases e
  {
    if e > 0 {
      PowMod(b, e - 1, m);
      ModTwice(b, m);
      ModProduct(b % m, b, Pow(b % m, e - 1), Pow(b, e - 1), m);
    }
  }

  // ----- Shift and add -----

  /** Multiplication by doubling: sums wrap at `top`, then `red` brings them back below the modulus. */
  function MulLoop(top: nat, red: nat -> nat, result: nat, a: nat, b: nat): nat
    requires top > 0
    decreases b
  {
    if b == 0 then result
    else MulLoop(top, red, if b % 2 == 1 then red((result + a) % top) else result, red((a + a) % top), b / 2)
  }

  /** The reduction is exact below twice the modulus. */
  ghost predicate Reduces(red: nat -> nat, m: nat)
    requires m > 0
  {
    forall x: nat | x < 2 * m :: red(x) == x % m
  }

  lemma MulStep(result: nat, a: nat, b: nat, m: nat)
    requires m > 0 && b > 0
    ensures var result' := if b % 2 == 1 then (result + a) % m else result;
            (result' + (a + a) % m * (b / 2)) % m == (result + a * b) % m
  {
    var h := b / 2;
    var sum := if b % 2 == 1 then result + a else result;
    ModTwice(result + a, m);
    ModTimes(a + a, h, m);
    ModSum(if b % 2 == 1 then (result + a) % m else result, sum, (a + a) % m * h, (a + a) * h, m);
    HalfTimes(a, b);
  }

  lemma HalfTimes(a: nat, b: nat)
    ensures a * b == (a + a) * (b / 2) + (if b % 2 == 1 then a else 0)
  {
    var h := b / 2;
    assert b == 2 * h + b % 2;
    assert a * b == a * (2 * h) + a * (b % 2);
  }

  /** With room for twice the modulus, shift and add multiplies modulo m. */
  lemma {:induction false} MulLoopExact(top: nat, red: nat -> nat, m: nat, result: nat, a: nat, b: nat)
    requires 0 < 2 * m <= top && Reduces(red, m) && result < m && a < m
    ensures MulLoop(top, red, result, a, b) == (result + a * b) % m
    decreases b
  {
    if b == 0 {
      assert a * b == 0;
      SmallMod(result, m);
    } else {
      SmallMod(a + a, top);
      SmallMod(result + a, top);
      var result' := if b % 2 == 1 then (result + a) % m else result;
      MulLoopExact(top, red, m, result', (a + a) % m, b / 2);
      MulStep(result, a, b, m);
    }
  }

  lemma {:induction false} MulLoopOfZero(top: nat, red: nat -> nat, b: nat)
    requires top > 0 && red(0) == 0
    ensures MulLoop(top, red, 0, 0, b) == 0
    decreases b
  {
    if b > 0 {
      SmallMod(0, top);
      MulLoopOfZero(top, red, b / 2);
    }
  }

  /** Doubling half of the range wraps to zero and loses the product. */
  lemma MulLoopLosesCarry(top: nat, red: nat -> nat, half: nat)
    requires top == 2 * half && half > 0 && half % 2 == 0 && red(0) == 0
    ensures MulLoop(top, red, 0, half, half) == 0
  {
    QuotientIs(half + half, top, 1, 0);
    MulLoopOfZero(top, red, half / 2);
  }

  // ----- Square and multiply -----

  function PowLoop(mul: (nat, nat) -> nat, result: nat, base: nat, e: nat): nat
    decreases e
  {
    if e == 0 then result
    else PowLoop(mul, if e % 2 == 1 then mul(result, base) else result, mul(base, base), e / 2)
  }

  ghost predicate Multiplies(mul: (nat, nat) -> nat, m: nat)
    requires m > 0
  {
    forall x: nat, y: nat | x < m && y < m :: mul(x, y) == (x * y) % m
  }

  lemma PowStep(result: nat, base: nat, e: nat, m: nat)
    requires m > 0 && e > 0
    ensures var result' := if e % 2 == 1 then (result * base) % m else result;
            (result' * Pow((base * base) % m, e / 2)) % m == (result * Pow(base, e)) % m
  {
    var h := e / 2;
    var result' := if e % 2 == 1 then (result * base) % m else result;
    var product := if e % 2 == 1 then result * base else result;
    var power := Pow(base, h + h);
    PowMod(base * base, h, m);
    PowOfSquare(base, h);
    ModTimesBoth(result', Pow((base * base) % m, h), m);
    ModTimesBoth(result', power, m);
    if e % 2 == 1 {
      ModTimes(product, power, m);
      assert Pow(base, e) == base * power;
      assert (result * base) * power == result * (base * power);
    } else {
      assert e == h + h;
    }
  }

  lemma {:induction false} PowLoopExact(mul: (nat, nat) -> nat, m: nat, result: nat, base: nat, e: nat)
    requires m > 0 && Multiplies(mul, m) && result < m && base < m
    ensures PowLoop(mul, result, base, e) == (result * Pow(base, e)) % m
    decreases e
  {
    if e == 0 {
      assert result * Pow(base, e) == result;
      SmallMod(result, m);
    } else {
      var result' := if e % 2 == 1 then (result * base) % m else result;
      PowLoopExact(mul, m, result', (base * base) % m, e / 2);
      PowStep(result, base, e, m);
    }
  }

  /** Squaring to zero makes every even power zero. */
  lemma PowLoopOfLostSquare(mul: (nat, nat) -> nat, base: nat)
    requires mul(base, base) == 0 && mul(1, 0) == 0
    ensures PowLoop(mul, 1, base, 2) == 0
  {
    assert PowLoop(mul, 1, base, 2) == PowLoop(mul, 1, 0, 1);
    assert PowLoop(mul, 1, 0, 1) == PowLoop(mul, 0, mul(0, 0), 0);
  }

  // ----- Powers of two -----

  lemma {:induction false} Pow2Add(i: nat, j: nat)
    ensures Pow2(i + j) == Pow2(i) * Pow2(j)
    decreases i
  {
    if i == 0 {
      assert Pow2(0) * Pow2(j) == Pow2(j);
    } else {
      Pow2Add(i - 1, j);
      assert 2 * (Pow2(i - 1) * Pow2(j)) == (2 * Pow2(i - 1)) * Pow2(j);
    }
  }

  lemma Pow2Of32()
    ensures Pow2(32) == 0x1_0000_0000
  {
    assert Pow2(8) == 256;
    Pow2Add(8, 8);
    Pow2Add(16, 16);
  }

  lemma Pow2Of64()
    ensures Pow2(64) == 0x1_0000_0000_0000_0000
  {
    Pow2Of32();
    Pow2Add(32, 32);
  }

  lemma {:induction false} Pow2Increases(i: nat, j: nat)
    requires i < j
    ensures 2 * Pow2(i) <= Pow2(j)
    decreases j
  {
    if i < j - 1 {
      Pow2Increases(i, j - 1);
    }
  }

  /** A divisor of a power of two is a power of two. */
  lemma {:induction false} DivisorOfPow2(m: nat, q: nat, k: nat) returns (j: nat)
    requires m * q == Pow2(k)
    ensures m == Pow2(j)
    decreases k
  {
    if k == 0 {
      j := 0;
      if q > 0 {
        MulGrows(m, q);
      }
    } else if m % 2 == 0 {
      var h := m / 2;
      assert m * q == 2 * (h * q) by {
        assert m == 2 * h;
      }
      j := DivisorOfPow2(h, q, k - 1);
      j := j + 1;
    } else {
      OddTimes(m, q);
      var h := q / 2;
      assert m * q == 2 * (m * h) by {
        assert q == 2 * h;
      }
      j := DivisorOfPow2(m, h, k - 1);
    }
  }

  lemma OddTimes(m: nat, q: nat)
    requires m % 2 == 1 && (m * q) % 2 == 0
    ensures q % 2 == 0
  {
    var h := m / 2;
    assert m * q == (h * q) * 2 + q by {
      assert m == 2 * h + 1;
    }
    ModAddMultiple(q, h * q, 2);
  }

  /** No number strictly between two neighbouring powers of two divides a power of two. */
  lemma BetweenPowersDividesNone(m: nat, i: nat, k: nat)
    requires Pow2(i) < m < Pow2(i + 1)
    ensures Pow2(k) % m != 0
  {
    if Pow2(k) % m == 0 {
      assert m * (Pow2(k) / m) == Pow2(k);
      var j := DivisorOfPow2(m, Pow2(k) / m, k);
      if j < i {
        Pow2Increases(j, i);
      } else if j > i + 1 {
        Pow2Increases(i + 1, j);
      }
      assert false;
    }
  }
}
