/**
 * The fixed-width integers of src/crypto_ext.rs: little-endian 64-bit limbs. The source has 32 limbs; the model is for
 * every width, so that the limit on the modulus shows as a relation between the modulus and the width.
 */
module BigUint {
  import opened Prelude
  import opened Modular

  const BASE: nat := 0x1_0000_0000_0000_0000

  type Limb = x: int | 0 <= x < 0x1_0000_0000_0000_0000

  type Limbs = seq<Limb>

  function Val(s: Limbs): nat {
    if s == [] then 0 else s[0] + BASE * Val(s[1..])
  }

  /** The weight of limb i, and the first value that i limbs cannot hold. */
  function Weight(i: nat): (r: nat)
    ensures r > 0
  {
    if i == 0 then 1 else BASE * Weight(i - 1)
  }

  lemma {:induction false} ValSnoc(s: Limbs, x: Limb)
    ensures Val(s + [x]) == Val(s) + x * Weight(|s|)
    decreases |s|
  {
    if s == [] {
      assert (s + [x])[1..] == [];
      assert Val([]) == 0;
    } else {
      assert (s + [x])[1..] == s[1..] + [x];
      ValSnoc(s[1..], x);
      assert BASE * (x * Weight(|s| - 1)) == x * (BASE * Weight(|s| - 1));
    }
  }

  lemma ValTake(s: Limbs, i: nat)
    requires i < |s|
    ensures Val(s[..i + 1]) == Val(s[..i]) + s[i] * Weight(i)
  {
    assert s[..i + 1] == s[..i] + [s[i]];
    ValSnoc(s[..i], s[i]);
  }

  lemma {:induction false} ValBound(s: Limbs)
    ensures Val(s) < Weight(|s|)
    decreases |s|
  {
    if s != [] {
      ValBound(s[1..]);
      var w := Weight(|s| - 1);
      assert BASE * (Val(s[1..]) + 1) <= BASE * w;
    }
  }

  lemma TakeAll(s: Limbs)
    ensures s[..|s|] == s
  {
  }

  lemma {:induction false} ValZero(n: nat)
    ensures Val(seq(n, _ => 0 as Limb)) == 0
    decreases n
  {
    if n > 0 {
      assert seq(n, _ => 0 as Limb)[1..] == seq(n - 1, _ => 0 as Limb);
      ValZero(n - 1);
    }
  }

  function Zero(n: nat): (r: Limbs)
    ensures |r| == n && Val(r) == 0
  {
    ValZero(n);
    seq(n, _ => 0)
  }

  // ----- Carry chains -----

  function Flag(b: bool): nat {
    if b then 1 else 0
  }

  /** Two wrapping additions and their overflow flags: a full adder. */
  function AddLimb(x: Limb, y: Limb, carry: nat): (r: (Limb, nat))
    requires carry <= 1
    ensures r.1 <= 1 && x + y + carry == r.0 + r.1 * BASE
  {
    var s1 := (x + y) % BASE;
    var s2 := (s1 + carry) % BASE;
    (s2, Flag(x + y >= BASE) + Flag(s1 + carry >= BASE))
  }

  /** Two wrapping subtractions and their borrow flags: a full subtractor. */
  function SubLimb(x: Limb, y: Limb, borrow: nat): (r: (Limb, nat))
    requires borrow <= 1
    ensures r.1 <= 1 && y + r.0 + borrow == x + r.1 * BASE
  {
    var s1 := (x - y) % BASE;
    var s2 := (s1 - borrow) % BASE;
    (s2, Flag(x < y) + Flag(s1 < borrow))
  }

  lemma CarryStep(x: int, y: int, carry: nat, out: int, carry': nat, w: nat)
    requires x + y + carry == out + carry' * BASE
    ensures x * w + y * w + carry * w == out * w + carry' * (BASE * w)
  {
    assert (x + y + carry) * w == (out + carry' * BASE) * w;
    assert (x + y + carry) * w == x * w + y * w + carry * w;
    assert (out + carry' * BASE) * w == out * w + carry' * BASE * w;
    assert carry' * BASE * w == carry' * (BASE * w);
  }

  function Stored(r: Limbs, i: nat, x: Limb): (r': Limbs)
    requires i < |r|
    ensures |r'| == |r| && Val(r'[..i + 1]) == Val(r[..i]) + x * Weight(i)
  {
    ValTake(r[i := x], i);
    assert r[i := x][..i] == r[..i];
    r[i := x]
  }

  /** Addition; the carry out of the top limb is dropped. */
  method Add(a: Limbs, b: Limbs) returns (r: Limbs)
    requires |a| == |b|
    ensures |r| == |a| && Val(r) == (Val(a) + Val(b)) % Weight(|a|)
  {
    r := Zero(|a|);
    var carry := 0;
    for i := 0 to |a|
      invariant |r| == |a| && 0 <= carry <= 1
      invariant Val(a[..i]) + Val(b[..i]) == Val(r[..i]) + carry * Weight(i)
    {
      var (s2, carry') := AddLimb(a[i], b[i], carry);
      CarryStep(a[i], b[i], carry, s2, carry', Weight(i));
      ValTake(a, i);
      ValTake(b, i);
      r := Stored(r, i, s2);
      carry := carry';
    }
    TakeAll(a);
    TakeAll(b);
    TakeAll(r);
    ValBound(r);
    QuotientIs(Val(a) + Val(b), Weight(|a|), carry, Val(r));
  }

  /** Subtraction; a borrow out of the top limb wraps. */
  method Sub(a: Limbs, b: Limbs) returns (r: Limbs)
    requires |a| == |b|
    ensures |r| == |a| && Val(r) == (Val(a) - Val(b)) % Weight(|a|)
  {
    r := Zero(|a|);
    var borrow := 0;
    for i := 0 to |a|
      invariant |r| == |a| && 0 <= borrow <= 1
      invariant Val(b[..i]) + Val(r[..i]) == Val(a[..i]) + borrow * Weight(i)
    {
      var (s2, borrow') := SubLimb(a[i], b[i], borrow);
      CarryStep(b[i], s2, borrow, a[i], borrow', Weight(i));
      ValTake(a, i);
      ValTake(b, i);
      r := Stored(r, i, s2);
      borrow := borrow';
    }
    TakeAll(a);
    TakeAll(b);
    TakeAll(r);
    ValBound(r);
    QuotientIs(Val(a) - Val(b), Weight(|a|), -borrow, Val(r));
  }

  lemma {:induction false} GreaterAt(a: Limbs, b: Limbs, i: nat)
    requires |a| == |b| && i < |a| && a[i + 1..] == b[i + 1..] && a[i] > b[i]
    ensures Val(a) > Val(b)
    decreases i
  {
    if i > 0 {
      assert a[1..][i..] == a[i + 1..] && b[1..][i..] == b[i + 1..];
      GreaterAt(a[1..], b[1..], i - 1);
    }
  }

  /** Comparison from the top limb down. */
  method Cmp(a: Limbs, b: Limbs) returns (r: int)
    requires |a| == |b|
    ensures r == if Val(a) > Val(b) then 1 else if Val(a) < Val(b) then -1 else 0
  {
    for i := |a| downto 0
      invariant a[i..] == b[i..]
    {
      if a[i] > b[i] {
        GreaterAt(a, b, i);
        return 1;
      }
      if a[i] < b[i] {
        GreaterAt(b, a, i);
        return -1;
      }
    }
    assert a == b;
    r := 0;
  }

  /** Left shift by one; the top bit is dropped. */
  method Shl1(a: Limbs) returns (r: Limbs)
    ensures |r| == |a| && Val(r) == (2 * Val(a)) % Weight(|a|)
    ensures a != [] ==> r[0] % 2 == 0
  {
    r := Zero(|a|);
    var carry := 0;
    for i := 0 to |a|
      invariant |r| == |a| && 0 <= carry <= 1 && (i > 0 ==> r[0] % 2 == 0) && (i == 0 ==> carry == 0)
      invariant 2 * Val(a[..i]) == Val(r[..i]) + carry * Weight(i)
    {
      var low, carry' := (2 * a[i]) % BASE, a[i] / 0x8000_0000_0000_0000;
      DoubleLimb(a[i]);
      CarryStep(a[i], a[i], carry, low + carry, carry', Weight(i));
      ValTake(a, i);
      r := Stored(r, i, low + carry);
      carry := carry';
    }
    TakeAll(a);
    TakeAll(r);
    ValBound(r);
    QuotientIs(2 * Val(a), Weight(|a|), carry, Val(r));
  }

  /** The doubled limb is even, so that the carry bit can be merged into it. */
  lemma DoubleLimb(x: Limb)
    ensures var low, carry := (2 * x) % BASE, x / 0x8000_0000_0000_0000;
            low % 2 == 0 && low + 1 < BASE && carry <= 1 && 2 * x == low + carry * BASE
  {
  }

  // ----- Bits -----

  lemma DivHalves(x: nat, p: nat)
    requires p > 0
    ensures x / p / 2 == x / (2 * p)
  {
    var q, r := x / p, x % p;
    var h, b := q / 2, q % 2;
    assert x == q * p + r;
    assert q * p == h * (2 * p) + b * p by {
      assert q == h * 2 + b;
      assert (h * 2 + b) * p == h * (2 * p) + b * p;
    }
    assert b * p + r < 2 * p by {
      assert b == 0 || b == 1;
    }
    QuotientIs(x, 2 * p, h, b * p + r);
  }

  lemma {:induction false} ShrIsDiv(x: nat, k: nat)
    ensures Shr(x, k) == x / Pow2(k)
    decreases k
  {
    if k > 0 {
      ShrIsDiv(x, k - 1);
      DivHalves(x, Pow2(k - 1));
    }
  }

  lemma {:induction false} ShrAdd(x: nat, i: nat, j: nat)
    ensures Shr(x, i + j) == Shr(Shr(x, i), j)
    decreases j
  {
    if j > 0 {
      ShrAdd(x, i, j - 1);
    }
  }

  lemma {:induction false} WeightIsPow2(n: nat)
    ensures Weight(n) == Pow2(64 * n)
    decreases n
  {
    if n > 0 {
      WeightIsPow2(n - 1);
      Pow2Of64();
      Pow2Add(64, 64 * (n - 1));
    }
  }

  lemma BaseSplits(p: nat)
    requires p < 64
    ensures BASE == Pow2(p) * (2 * Pow2(63 - p))
  {
    Pow2Of64();
    Pow2Add(p, 64 - p);
  }

  lemma AddMultipleOf(x: nat, d: nat, k: nat)
    requires d > 0
    ensures (x + d * k) / d == x / d + k
  {
    var q := x / d;
    assert x + d * k == (q + k) * d + x % d by {
      assert (q + k) * d == q * d + k * d;
    }
    QuotientIs(x + d * k, d, q + k, x % d);
  }

  /** Shifting by less than a limb keeps the parity of the low limb's shift. */
  lemma ParityOfLow(x: Limb, rest: nat, p: nat)
    requires p < 64
    ensures Shr(x + BASE * rest, p) % 2 == Shr(x, p) % 2
  {
    var d, h := Pow2(p), Pow2(63 - p);
    BaseSplits(p);
    ShrIsDiv(x, p);
    ShrIsDiv(x + BASE * rest, p);
    Regroup(d, h, rest);
    AddMultipleOf(x, d, h * rest * 2);
    ModAddMultiple(x / d, h * rest, 2);
  }

  lemma Regroup(d: nat, h: nat, rest: nat)
    ensures (d * (2 * h)) * rest == d * (h * rest * 2)
  {
    assert (2 * h) * rest == h * rest * 2;
  }

  lemma DropLimb(x: Limb, rest: nat)
    ensures Shr(x + BASE * rest, 64) == rest
  {
    Pow2Of64();
    ShrIsDiv(x + BASE * rest, 64);
    QuotientIs(x + BASE * rest, BASE, rest, x);
  }

  lemma {:induction false} BitOfLimb(s: Limbs, l: nat, p: nat)
    requires l < |s| && p < 64
    ensures Shr(Val(s), 64 * l + p) % 2 == Shr(s[l], p) % 2
    decreases l
  {
    var rest := Val(s[1..]);
    if l == 0 {
      ParityOfLow(s[0], rest, p);
    } else {
      DropLimb(s[0], rest);
      ShrAdd(Val(s), 64, 64 * (l - 1) + p);
      BitOfLimb(s[1..], l - 1, p);
    }
  }

  lemma ShrSmall(x: nat, k: nat)
    requires x < Pow2(k)
    ensures Shr(x, k) == 0
  {
    ShrIsDiv(x, k);
    QuotientIs(x, Pow2(k), 0, x);
  }

  method Bit(a: Limbs, k: nat) returns (b: bool)
    ensures b <==> Shr(Val(a), k) % 2 == 1
  {
    var limb, pos := k / 64, k % 64;
    if limb >= |a| {
      ValBound(a);
      WeightIsPow2(|a|);
      if 64 * |a| < k {
        Pow2Increases(64 * |a|, k);
      }
      ShrSmall(Val(a), k);
      return false;
    }
    BitOfLimb(a, limb, pos);
    b := Shr(a[limb], pos) % 2 == 1;
  }

  /** The significant bits of a limb: 64 less its leading zeros. */
  function Significant(x: nat): nat {
    if x == 0 then 0 else 1 + Significant(x / 2)
  }

  lemma {:induction false} SignificantBounds(x: nat)
    ensures x < Pow2(Significant(x)) && (x > 0 ==> Pow2(Significant(x) - 1) <= x)
    decreases x
  {
    if x > 1 {
      SignificantBounds(x / 2);
    }
  }

  lemma {:induction false} ZerosAbove(a: Limbs, i: nat)
    requires i <= |a| && forall k | i <= k < |a| :: a[k] == 0
    ensures Val(a) == Val(a[..i])
    decreases |a| - i
  {
    if i == |a| {
      TakeAll(a);
    } else {
      ZerosAbove(a, i + 1);
      ValTake(a, i);
    }
  }

  lemma TopLimb(low: nat, x: Limb, i: nat)
    requires x > 0 && low < Weight(i)
    ensures var n, v := 64 * i + Significant(x), low + x * Weight(i); n > 0 && Pow2(n - 1) <= v < Pow2(n)
  {
    var c, w := Significant(x), Weight(i);
    SignificantBounds(x);
    WeightIsPow2(i);
    Pow2Add(c, 64 * i);
    Pow2Add(c - 1, 64 * i);
    assert (x + 1) * w == x * w + w;
    MulMonotone(x + 1, Pow2(c), w);
    MulMonotone(Pow2(c - 1), x, w);
  }

  method BitLen(a: Limbs) returns (n: nat)
    ensures Val(a) < Pow2(n) && (n > 0 ==> Pow2(n - 1) <= Val(a))
  {
    for i := |a| downto 0
      invariant forall k | i <= k < |a| :: a[k] == 0
    {
      if a[i] != 0 {
        ZerosAbove(a, i + 1);
        ValTake(a, i);
        ValBound(a[..i]);
        TopLimb(Val(a[..i]), a[i], i);
        return i * 64 + Significant(a[i]);
      }
    }
    ZerosAbove(a, 0);
    n := 0;
  }

  // ----- Reduction, multiplication and powers, as numbers of n limbs -----

  /** Binary long division: the bits of v from the top, in a remainder of n limbs. */
  function Long(v: nat, m: nat, n: nat): nat
    decreases v
  {
    if v == 0 then 0 else LongStep(Long(v / 2, m, n), v % 2, m, n)
  }

  function LongStep(r: nat, bit: nat, m: nat, n: nat): nat {
    var t := (2 * r) % Weight(n) + bit;
    if t >= m then t - m else t
  }

  function Reduce(x: nat, m: nat, n: nat): nat {
    if x < m then x else Long(x, m, n)
  }

  function Reducer(m: nat, n: nat): nat -> nat {
    x => Reduce(x, m, n)
  }

  function Product(x: nat, y: nat, m: nat, n: nat): nat {
    MulLoop(Weight(n), Reducer(m, n), 0, Reduce(x, m, n), y)
  }

  function Multiplier(m: nat, n: nat): (nat, nat) -> nat {
    (x, y) => Product(x, y, m, n)
  }

  function Power(x: nat, e: nat, m: nat, n: nat): nat {
    if m == 0 then 0 else PowLoop(Multiplier(m, n), 1, Reduce(x, m, n), e)
  }

  // ----- The methods compute these -----

  function SetLowBit(r: Limbs): (r': Limbs)
    requires r != [] && r[0] % 2 == 0
    ensures |r'| == |r| && Val(r') == Val(r) + 1
  {
    assert r[0 := r[0] + 1][1..] == r[1..];
    r[0 := r[0] + 1]
  }

  /** One round of the long division. */
  method Round(r: Limbs, bit: bool, m: Limbs) returns (r': Limbs)
    requires |r| == |m| && r != []
    ensures |r'| == |m| && Val(r') == LongStep(Val(r), Flag(bit), Val(m), |m|)
  {
    r' := Shl1(r);
    if bit {
      r' := SetLowBit(r');
    }
    var c := Cmp(r', m);
    if c >= 0 {
      ValBound(r');
      SmallMod(Val(r') - Val(m), Weight(|m|));
      r' := Sub(r', m);
    }
  }

  lemma ShrPositive(x: nat, i: nat, bits: nat)
    requires i < bits && Pow2(bits - 1) <= x
    ensures Shr(x, i) > 0
  {
    if i < bits - 1 {
      Pow2Increases(i, bits - 1);
    }
    ShrIsDiv(x, i);
    if x / Pow2(i) == 0 {
      assert x == x / Pow2(i) * Pow2(i) + x % Pow2(i);
    }
  }

  method ModReduce(a: Limbs, m: Limbs) returns (r: Limbs)
    requires |a| == |m|
    ensures |r| == |m| && Val(r) == Reduce(Val(a), Val(m), |m|)
  {
    var c := Cmp(a, m);
    if c < 0 {
      return a;
    }
    r := Zero(|m|);
    var bits := BitLen(a);
    ShrSmall(Val(a), bits);
    for i := bits downto 0
      invariant |r| == |m| && Val(r) == Long(Shr(Val(a), i), Val(m), |m|)
    {
      ShrPositive(Val(a), i, bits);
      var b := Bit(a, i);
      r := Round(r, b, m);
    }
  }

  /** One round of shift and add. */
  method MulRound(r: Limbs, shifted: Limbs, bit: bool, m: Limbs) returns (r': Limbs, shifted': Limbs)
    requires |r| == |shifted| == |m|
    ensures |r'| == |shifted'| == |m|
    ensures Val(r') == if bit then Reduce((Val(r) + Val(shifted)) % Weight(|m|), Val(m), |m|) else Val(r)
    ensures Val(shifted') == Reduce((Val(shifted) + Val(shifted)) % Weight(|m|), Val(m), |m|)
  {
    r' := r;
    if bit {
      r' := Add(r, shifted);
      r' := ModReduce(r', m);
    }
    shifted' := Shl1(shifted);
    shifted' := ModReduce(shifted', m);
  }

  /** Shift-and-add multiplication. */
  method MulMod(a: Limbs, b: Limbs, m: Limbs) returns (r: Limbs)
    requires |a| == |b| == |m|
    ensures |r| == |m| && Val(r) == Product(Val(a), Val(b), Val(m), |m|)
  {
    r := Zero(|m|);
    var shifted := ModReduce(a, m);
    var bits := BitLen(b);
    ghost var red := Reducer(Val(m), |m|);
    for i := 0 to bits
      invariant |r| == |shifted| == |m|
      invariant MulLoop(Weight(|m|), red, Val(r), Val(shifted), Shr(Val(b), i)) == Product(Val(a), Val(b), Val(m), |m|)
    {
      ShrPositive(Val(b), i, bits);
      var bit := Bit(b, i);
      r, shifted := MulRound(r, shifted, bit, m);
    }
    ShrSmall(Val(b), bits);
  }

  function One(n: nat): (r: Limbs)
    requires n > 0
    ensures |r| == n && Val(r) == 1
  {
    SetLowBit(Zero(n))
  }

  lemma {:induction false} NonZeroLimb(a: Limbs)
    ensures Val(a) == 0 <==> forall i | 0 <= i < |a| :: a[i] == 0
    decreases |a|
  {
    if a != [] {
      NonZeroLimb(a[1..]);
      assert forall i | 0 < i < |a| :: a[i] == a[1..][i - 1];
    }
  }

  /** Square and multiply. */
  method ModPow(base: Limbs, exp: Limbs, m: Limbs) returns (r: Limbs)
    requires |base| == |exp| == |m|
    ensures |r| == |m| && Val(r) == Power(Val(base), Val(exp), Val(m), |m|)
  {
    NonZeroLimb(m);
    if forall i | 0 <= i < |m| :: m[i] == 0 {
      return Zero(|m|);
    }
    r := One(|m|);
    var b := ModReduce(base, m);
    var bits := BitLen(exp);
    ghost var mul := Multiplier(Val(m), |m|);
    for i := 0 to bits
      invariant |r| == |b| == |m|
      invariant PowLoop(mul, Val(r), Val(b), Shr(Val(exp), i)) == Power(Val(base), Val(exp), Val(m), |m|)
    {
      ShrPositive(Val(exp), i, bits);
      var bit := Bit(exp, i);
      if bit {
        r := MulMod(r, b, m);
      }
      b := MulMod(b, b, m);
    }
    ShrSmall(Val(exp), bits);
  }

  // ----- When they are exact -----

  lemma RemainderStep(v: nat, m: nat)
    requires m > 0
    ensures var t := 2 * (v / 2 % m) + v % 2; v % m == if t >= m then t - m else t
  {
    var q, r, b := v / 2 / m, v / 2 % m, v % 2;
    assert v / 2 == q * m + r;
    assert v == (2 * q) * m + (2 * r + b) by {
      assert (2 * q) * m == 2 * (q * m);
    }
    if 2 * r + b >= m {
      assert (2 * q + 1) * m == (2 * q) * m + m;
      QuotientIs(v, m, 2 * q + 1, 2 * r + b - m);
    } else {
      QuotientIs(v, m, 2 * q, 2 * r + b);
    }
  }

  lemma {:induction false} LongExact(v: nat, m: nat, n: nat)
    requires 0 < 2 * m <= Weight(n)
    ensures Long(v, m, n) == v % m
    decreases v
  {
    if v == 0 {
      SmallMod(0, m);
    } else {
      LongExact(v / 2, m, n);
      SmallMod(2 * (v / 2 % m), Weight(n));
      RemainderStep(v, m);
    }
  }

  lemma ReduceExact(x: nat, m: nat, n: nat)
    requires 0 < 2 * m <= Weight(n)
    ensures Reduce(x, m, n) == x % m
  {
    if x < m {
      SmallMod(x, m);
    } else {
      LongExact(x, m, n);
    }
  }

  lemma ProductExact(x: nat, y: nat, m: nat, n: nat)
    requires 0 < 2 * m <= Weight(n)
    ensures Product(x, y, m, n) == (x * y) % m
  {
    ReduceExact(x, m, n);
    forall z: nat | z < 2 * m ensures Reducer(m, n)(z) == z % m {
      ReduceExact(z, m, n);
    }
    MulLoopExact(Weight(n), Reducer(m, n), m, 0, x % m, y);
    ModTimes(x, y, m);
  }

  /** Modular exponentiation is exact for every modulus from 2 to half of the range. */
  lemma PowerExact(x: nat, e: nat, m: nat, n: nat)
    requires 2 <= m && 2 * m <= Weight(n)
    ensures Power(x, e, m, n) == Pow(x, e) % m
  {
    ReduceExact(x, m, n);
    forall y: nat, z: nat | y < m && z < m ensures Multiplier(m, n)(y, z) == (y * z) % m {
      ProductExact(y, z, m, n);
    }
    PowLoopExact(Multiplier(m, n), m, 1, x % m, e);
    PowMod(x, e, m);
  }

  lemma HalfWeight(n: nat)
    requires n > 0
    ensures Weight(n) == 2 * Pow2(64 * n - 1) && Pow2(64 * n - 1) % 2 == 0
  {
    WeightIsPow2(n);
    Pow2Even(64 * n);
    Pow2Even(64 * n - 1);
  }

  lemma Pow2Even(k: nat)
    requires k > 0
    ensures Pow2(k) == 2 * Pow2(k - 1) && Pow2(k) % 2 == 0
  {
    QuotientIs(Pow2(k), 2, Pow2(k - 1), 0);
  }

  lemma PowerVanishes(half: nat, m: nat, n: nat)
    requires 0 < half < m && half % 2 == 0 && Weight(n) == 2 * half
    ensures Power(half, 2, m, n) == 0
  {
    var red, mul := Reducer(m, n), Multiplier(m, n);
    assert red(0) == 0;
    MulLoopLosesCarry(Weight(n), red, half);
    assert mul(half, half) == Product(half, half, m, n) == 0;
    assert mul(1, 0) == Product(1, 0, m, n) == 0;
    PowLoopOfLostSquare(mul, half);
  }

  lemma SquareOfPow2(k: nat)
    ensures Pow(Pow2(k), 2) == Pow2(k + k)
  {
    var h := Pow2(k);
    assert Pow(h, 2) == h * Pow(h, 1) && Pow(h, 1) == h * Pow(h, 0);
    Pow2Add(k, k);
  }

  /** Above half of the range the square of half the range comes out as zero, which it never is. */
  lemma PowerLosesCarry(m: nat, n: nat)
    requires n > 0 && Weight(n) < 2 * m < 2 * Weight(n)
    ensures var half := Weight(n) / 2; Power(half, 2, m, n) == 0 && Pow(half, 2) % m != 0
  {
    var k := 64 * n - 1;
    HalfWeight(n);
    PowerVanishes(Pow2(k), m, n);
    SquareOfPow2(k);
    Pow2Even(k + 1);
    BetweenPowersDividesNone(m, k, k + k);
  }

  ghost predicate ExactFor(m: nat, n: nat)
    requires m > 0
  {
    forall x: nat, e: nat | x < Weight(n) && e < Weight(n) :: Power(x, e, m, n) == Pow(x, e) % m
  }

  /** Exponentiation is exact on all operands exactly when the modulus is from 2 to half of the range. */
  lemma ExactExactly(m: nat, n: nat)
    requires n > 0 && 0 < m < Weight(n)
    ensures ExactFor(m, n) <==> 2 <= m && 2 * m <= Weight(n)
  {
    if 2 <= m && 2 * m <= Weight(n) {
      forall x: nat, e: nat | x < Weight(n) && e < Weight(n) ensures Power(x, e, m, n) == Pow(x, e) % m {
        PowerExact(x, e, m, n);
      }
    } else if m == 1 {
      assert Power(0, 0, 1, n) == 1 && Pow(0, 0) % 1 == 0;
    } else {
      PowerLosesCarry(m, n);
      assert 2 < Weight(n);
      assert Weight(n) / 2 < Weight(n);
    }
  }
}
