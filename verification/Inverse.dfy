/** The modular inverse of src/crypto_ext.rs: the extended Euclidean loop on signed 64-bit numbers. */
module Inverse {
  import opened Modular
  import opened Prelude
  import opened Primes

  const LEAST: int := -0x8000_0000_0000_0000

  predicate InI64(x: int) {
    LEAST <= x < HALF
  }

  /** An unsigned word read as a signed one. */
  function Signed(a: nat): int {
    if a < HALF then a else a - WORD
  }

  function Wrap(x: int): int {
    Signed(x % WORD)
  }

  // ----- The loop with overflow -----

  /** A panic, or an inverse or none. */
  datatype Outcome = Panic | Done(inverse: Option<nat>)

  /** The loop of `mod_inverse`: the last remainder and its coefficient, or none after a panic. The one quotient that
      does not fit panics in every build; products and differences that do not fit panic in a build that checks for
      overflow and wrap otherwise. */
  function Loop(checked: bool, oldR: int, r: int, oldS: int, s: int): Option<(int, int)>
    decreases Abs(r)
  {
    if r == 0 then Some((oldR, oldS))
    else if oldR == LEAST && r == -1 then None
    else
      DivisionLaw(oldR, r);
      var q := TruncDiv(oldR, r);
      if checked && !(InI64(q * s) && InI64(oldS - q * s)) then None
      else Loop(checked, r, oldR - q * r, s, Wrap(oldS - q * s))
  }

  function InverseOf(checked: bool, a: nat, m: nat): Outcome {
    var end := Loop(checked, Signed(a), Signed(m), 1, 0);
    if end.None? then Panic
    else
      var (g, x) := end.value;
      if g != 1 then Done(None)
      else if x >= 0 then Done(Some(x))
      else if checked && !InI64(x + Signed(m)) then Panic
      else Done(Some((x + Signed(m)) % WORD))
  }

  lemma HalvesFit(x: int, q: int, size: nat, rest: nat)
    requires InI64(x) && size >= 2 && Abs(x) == Abs(q) * size + rest
    ensures InI64(q)
  {
    MulMonotone(2, size, Abs(q));
    assert size * Abs(q) == Abs(q) * size;
  }

  lemma BetweenFits(x: int, p: int)
    requires InI64(x) && Abs(x - p) <= Abs(x) && (x >= 0 ==> x - p >= 0) && (x <= 0 ==> x - p <= 0)
    ensures InI64(p) && InI64(x - p)
  {
  }

  /** The quotient and the remainders of every step fit, except for the least number divided by -1. */
  lemma QuotientFits(oldR: int, r: int, q: int)
    requires InI64(oldR) && InI64(r) && r != 0 && !(oldR == LEAST && r == -1) && q == TruncDiv(oldR, r)
    ensures InI64(q) && InI64(q * r) && InI64(oldR - q * r) && Abs(oldR - q * r) < Abs(r)
  {
    DivisionLaw(oldR, r);
    QuotientSign(oldR, r, q);
    MulNonNegative(Abs(q), Abs(r));
    BetweenFits(oldR, q * r);
    if Abs(r) >= 2 {
      HalvesFit(oldR, q, Abs(r), Abs(oldR - q * r));
    }
  }

  lemma WrapMod(x: int)
    ensures Wrap(x) % WORD == x % WORD
  {
    if x % WORD >= HALF {
      ModAddMultiple(x % WORD, -1, WORD);
    }
  }

  lemma WrapFits(x: int)
    requires InI64(x)
    ensures Wrap(x) == x
  {
    if x >= 0 {
      SmallMod(x, WORD);
    } else {
      ModAddMultiple(x, 1, WORD);
      SmallMod(x + WORD, WORD);
    }
  }

  /** Wrapping the product and then the difference is wrapping once. */
  lemma WrapTwice(x: int, y: int)
    ensures Wrap(x - Wrap(y)) == Wrap(x - y)
  {
    WrapMod(y);
    ModProduct(Wrap(y), y, -1, -1, WORD);
    ModSum(x, x, -Wrap(y), -y, WORD);
  }

  lemma LoopStep(checked: bool, oldR: int, r: int, oldS: int, s: int, q: int)
    requires r != 0 && !(oldR == LEAST && r == -1) && q == TruncDiv(oldR, r)
    ensures Loop(checked, oldR, r, oldS, s) ==
            if checked && !(InI64(q * s) && InI64(oldS - q * s)) then None
            else Loop(checked, r, oldR - q * r, s, Wrap(oldS - q * s))
  {
  }

  /** A product and a difference, one after the other. */
  method Combine(checked: bool, oldS: int, q: int, s: int) returns (r: Option<int>)
    ensures r == if checked && !(InI64(q * s) && InI64(oldS - q * s)) then None else Some(Wrap(oldS - q * s))
  {
    var product := q * s;
    if checked && !InI64(product) {
      return None;
    }
    WrapTwice(oldS, product);
    if InI64(product) {
      WrapFits(product);
    }
    product := Wrap(product);
    if checked && !InI64(oldS - product) {
      return None;
    }
    r := Some(Wrap(oldS - product));
  }

  method EuclidLoop(checked: bool, x: int, y: int) returns (end: Option<(int, int)>)
    requires InI64(x) && InI64(y)
    ensures end == Loop(checked, x, y, 1, 0) && (end.Some? ==> InI64(end.value.1))
  {
    var oldR, r := x, y;
    var oldS, s := 1, 0;
    while r != 0
      invariant InI64(oldR) && InI64(r) && InI64(oldS) && InI64(s)
      invariant Loop(checked, oldR, r, oldS, s) == Loop(checked, x, y, 1, 0)
      decreases Abs(r)
    {
      if oldR == LEAST && r == -1 {
        return None;
      }
      var q := TruncDiv(oldR, r);
      QuotientFits(oldR, r, q);
      LoopStep(checked, oldR, r, oldS, s, q);
      var next := Combine(checked, oldS, q, s);
      if next.None? {
        return None;
      }
      oldR, r := r, oldR - q * r;
      oldS, s := s, next.value;
    }
    end := Some((oldR, oldS));
  }

  /** `mod_inverse` for all words, in a build that checks for overflow and in one that wraps. */
  method ModInverse(checked: bool, a: nat, m: nat) returns (result: Outcome)
    requires a < WORD && m < WORD
    ensures result == InverseOf(checked, a, m)
  {
    var end := EuclidLoop(checked, Signed(a), Signed(m));
    if end.None? {
      return Panic;
    }
    var (g, x) := end.value;
    if g != 1 {
      return Done(None);
    }
    if x < 0 {
      if checked && !InI64(x + Signed(m)) {
        return Panic;
      }
      WrapMod(x + Signed(m));
      x := Wrap(x + Signed(m));
    } else {
      SmallMod(x, WORD);
    }
    result := Done(Some(x % WORD));
  }

  // ----- The loop without overflow -----

  /** Euclid's algorithm on integers, with the coefficient of the first number. */
  function Run(oldR: int, r: int, oldS: int, s: int): (int, int)
    decreases Abs(r)
  {
    if r == 0 then (oldR, oldS)
    else
      DivisionLaw(oldR, r);
      var q := TruncDiv(oldR, r);
      Run(r, oldR - q * r, s, oldS - q * s)
  }

  predicate Opposite(x: int, y: int) {
    (x <= 0 <= y) || (y <= 0 <= x)
  }

  /** For a dividend of sign `neg`, the magnitudes of the coefficients grow while those of the remainders shrink. */
  ghost predicate Grows(neg: bool, m: nat, oldR: int, r: int, oldS: int, s: int) {
    && (if neg then Opposite(oldR, r) && oldS >= 0 && s >= 0 else oldR >= 0 && r >= 0 && Opposite(oldS, s))
    && Abs(s) * Abs(oldR) + Abs(oldS) * Abs(r) == m
  }

  lemma SignedProduct(q: nat, s: int)
    ensures Abs(q * s) == q * Abs(s) && (s <= 0 ==> q * s <= 0) && (s >= 0 ==> q * s >= 0)
  {
  }

  lemma QuotientOfNat(n: nat, y: int)
    requires y != 0
    ensures 0 <= n / y * y <= n && (y > 0 ==> n / y >= 0) && (y < 0 ==> n / y <= 0)
    ensures Abs(n / y) * Abs(y) == n / y * y
  {
    var q := n / y;
    assert n == q * y + n % y;
    if y < 0 {
      NotBothSigned(q, y);
      assert -q * -y == q * y;
    }
  }

  lemma NotBothSigned(q: int, y: int)
    requires y < 0
    ensures q > 0 ==> q * y < 0
  {
    if q > 0 {
      MulGrows(q, -y);
      assert q * -y == -(q * y);
    }
  }

  lemma QuotientSign(x: int, y: int, q: int)
    requires y != 0 && q == TruncDiv(x, y)
    ensures Abs(x) == Abs(q) * Abs(y) + Abs(x - q * y)
    ensures Opposite(x, y) ==> q <= 0 && Opposite(y, x - q * y)
    ensures (x >= 0 && y >= 0 ==> q >= 0 && x - q * y >= 0) && (x < 0 ==> q * y <= 0)
  {
    QuotientOfNat(Abs(x), y);
    if x < 0 {
      NegateProduct(-x / y, y);
    }
  }

  lemma GrowthSum(a: nat, q: nat, s: nat, r: nat, o: nat, rest: nat)
    requires o == q * r + rest
    ensures (a + q * s) * r + s * rest == s * o + a * r
  {
    assert (a + q * s) * r == a * r + (q * s) * r;
    assert s * (q * r + rest) == s * (q * r) + s * rest;
    assert (q * s) * r == s * (q * r);
  }

  lemma CoefficientGrows(neg: bool, oldS: int, s: int, q: int)
    requires if neg then oldS >= 0 && s >= 0 && q <= 0 else Opposite(oldS, s) && q >= 0
    ensures Abs(oldS - q * s) == Abs(oldS) + Abs(q) * Abs(s) && Abs(q * s) == Abs(q) * Abs(s)
    ensures if neg then oldS - q * s >= 0 else Opposite(s, oldS - q * s)
  {
    assert Abs(q * s) == Abs(q) * Abs(s);
    if neg {
      MulNonNegative(-q, s);
      assert q * s == -(-q * s);
    } else {
      SignedProduct(q, s);
    }
  }

  lemma GrowsNext(neg: bool, m: nat, oldR: int, r: int, oldS: int, s: int, q: int)
    requires r != 0 && q == TruncDiv(oldR, r) && Grows(neg, m, oldR, r, oldS, s)
    ensures Grows(neg, m, r, oldR - q * r, s, oldS - q * s)
    ensures Abs(q * r) <= Abs(oldR) && Abs(q * s) <= Abs(oldS - q * s) <= m
  {
    var s' := oldS - q * s;
    var rest := Abs(oldR - q * r);
    QuotientSign(oldR, r, q);
    CoefficientGrows(neg, oldS, s, q);
    GrowthSum(Abs(oldS), Abs(q), Abs(s), Abs(r), Abs(oldR), rest);
    MulGrows(Abs(s'), Abs(r));
    MulNonNegative(Abs(s), rest);
    assert Abs(q * r) == Abs(q) * Abs(r);
  }

  /** For a positive modulus no step of the loop overflows. */
  lemma {:induction false} LoopIsRun(checked: bool, neg: bool, m: nat, oldR: int, r: int, oldS: int, s: int)
    requires m < HALF && InI64(oldR) && InI64(r) && Grows(neg, m, oldR, r, oldS, s)
    ensures Loop(checked, oldR, r, oldS, s) == Some(Run(oldR, r, oldS, s))
    decreases Abs(r)
  {
    if r != 0 {
      var q := TruncDiv(oldR, r);
      QuotientFits(oldR, r, q);
      GrowsNext(neg, m, oldR, r, oldS, s, q);
      WrapFits(oldS - q * s);
      LoopIsRun(checked, neg, m, r, oldR - q * r, s, oldS - q * s);
    }
  }

  lemma {:induction false} RunBound(neg: bool, m: nat, oldR: int, r: int, oldS: int, s: int)
    requires Grows(neg, m, oldR, r, oldS, s) && Abs(s) <= m && (r == 0 ==> Abs(oldS) <= m)
    ensures Abs(Run(oldR, r, oldS, s).1) <= m
    decreases Abs(r)
  {
    if r != 0 {
      var q := TruncDiv(oldR, r);
      DivisionLaw(oldR, r);
      GrowsNext(neg, m, oldR, r, oldS, s, q);
      RunBound(neg, m, r, oldR - q * r, s, oldS - q * s);
    }
  }

  function Adjusted(x: int, m: nat): int {
    if x < 0 then x + m else x
  }

  /** Below 2^63 the modulus stays itself, and the answer is that of Euclid's algorithm on integers. */
  lemma SmallModulus(checked: bool, a: nat, m: nat)
    requires a < WORD && 0 < m < HALF
    ensures var (g, x) := Run(Signed(a), m, 1, 0);
            && 0 <= Adjusted(x, m) <= m
            && InverseOf(checked, a, m) == Done(if g == 1 then Some(Adjusted(x, m)) else None)
  {
    LoopIsRun(checked, Signed(a) < 0, m, Signed(a), m, 1, 0);
    RunBound(Signed(a) < 0, m, Signed(a), m, 1, 0);
    var x := Run(Signed(a), m, 1, 0).1;
    SmallMod(Adjusted(x, m), WORD);
  }

  // ----- Operands below 2^63 -----

  /** A remainder as a combination of the two numbers. */
  ghost predicate Combines(a: int, m: int, s: int, t: int, r: int) {
    s * a + t * m == r
  }

  lemma CombinesStep(a: int, m: int, oldS: int, s: int, oldT: int, t: int, oldR: int, r: int, q: int)
    requires Combines(a, m, oldS, oldT, oldR) && Combines(a, m, s, t, r)
    ensures Combines(a, m, oldS - q * s, oldT - q * t, oldR - q * r)
  {
    assert (oldS - q * s) * a == oldS * a - q * (s * a);
    assert (oldT - q * t) * m == oldT * m - q * (t * m);
    assert q * (s * a + t * m) == q * (s * a) + q * (t * m);
  }

  lemma InverseFound(a: int, m: nat, s: int, t: int)
    requires m > 0 && s * a + t * m == 1
    ensures (a * s) % m == 1 % m && (a * (s + m)) % m == 1 % m
  {
    assert a * s == 1 + -t * m;
    ModAddMultiple(1, -t, m);
    assert a * (s + m) == 1 + (a - t) * m by {
      assert a * (s + m) == a * s + a * m;
      assert (a - t) * m == a * m - t * m;
    }
    ModAddMultiple(1, a - t, m);
  }

  lemma CombinationCoprime(a: nat, m: nat, s: int, t: int)
    requires s * a + t * m == 1
    ensures Coprime(a, m)
  {
    forall d: nat | Divides(d, a) && Divides(d, m) ensures d == 1 {
      DividesSum(d, a, m, s, t);
      assert a * s + m * t == 1;
      if d > 1 {
        SmallMod(1, d);
      }
    }
  }

  /** The state of the extended Euclidean loop. */
  ghost predicate Euclid(a: nat, m: nat, oldR: nat, r: nat, oldS: int, s: int, oldT: int, t: int) {
    && Grows(false, m, oldR, r, oldS, s) && Grows(false, a, oldR, r, oldT, t)
    && Combines(a, m, oldS, oldT, oldR) && Combines(a, m, s, t, r)
  }

  lemma EuclidStep(a: nat, m: nat, oldR: nat, r: nat, oldS: int, s: int, oldT: int, t: int, q: nat)
    requires r > 0 && q == oldR / r && Euclid(a, m, oldR, r, oldS, s, oldT, t)
    ensures 0 <= oldR - q * r < r && Euclid(a, m, r, oldR - q * r, s, oldS - q * s, t, oldT - q * t)
  {
    EuclidLaw(oldR, r);
    GrowsNext(false, m, oldR, r, oldS, s, q);
    GrowsNext(false, a, oldR, r, oldT, t, q);
    CombinesStep(a, m, oldS, s, oldT, t, oldR, r, q);
  }

  lemma CommonDivisor(a: nat, m: nat, d: nat, s: int, t: int)
    requires d != 1 && Abs(s) * d == m && Abs(t) * d == a
    ensures !Coprime(a, m)
  {
    if d > 0 {
      MultipleDivides(d, Abs(s));
      MultipleDivides(d, Abs(t));
      assert Divides(d, a) && Divides(d, m);
    } else {
      assert Divides(2, a) && Divides(2, m);
    }
  }

  lemma {:induction false} RunExact(a: nat, m: nat, oldR: nat, r: nat, oldS: int, s: int, oldT: int, t: int)
    requires m > 0 && Euclid(a, m, oldR, r, oldS, s, oldT, t)
    ensures var (g, x) := Run(oldR, r, oldS, s);
            && g >= 0 && (g == 1 <==> Coprime(a, m))
            && (g == 1 ==> (a * x) % m == 1 % m && (a * (x + m)) % m == 1 % m)
    decreases r
  {
    if r == 0 {
      if oldR == 1 {
        CombinationCoprime(a, m, oldS, oldT);
        InverseFound(a, m, oldS, oldT);
      } else {
        CommonDivisor(a, m, oldR, s, t);
      }
    } else {
      var q := oldR / r;
      DivBound(oldR, r);
      EuclidStep(a, m, oldR, r, oldS, s, oldT, t, q);
      RunExact(a, m, r, oldR - q * r, s, oldS - q * s, t, oldT - q * t);
    }
  }

  ghost predicate Inverts(a: nat, m: nat, v: nat)
    requires m > 0
  {
    v <= m && (a * v) % m == 1 % m
  }

  /** An inverse is returned exactly when there is one, and nothing panics. */
  ghost predicate Right(checked: bool, a: nat, m: nat)
    requires m > 0
  {
    var r := InverseOf(checked, a, m);
    && r.Done? && (r.inverse.Some? <==> Coprime(a, m))
    && (r.inverse.Some? ==> Inverts(a, m, r.inverse.value))
  }

  /** Below 2^63 the answer is right. */
  lemma InverseExact(checked: bool, a: nat, m: nat)
    requires a < HALF && 0 < m < HALF
    ensures Right(checked, a, m)
  {
    SmallModulus(checked, a, m);
    RunExact(a, m, a, m, 1, 0, 0, 1);
  }

  // ----- Operands from 2^63 on -----

  /** The inverse of b modulo m exists and lies in the lower half of the residues. */
  ghost predicate LowInverse(b: int, m: nat)
    requires m > 0
  {
    exists v: nat :: 2 * v < m && (b * v) % m == 1 % m
  }

  function Flip(up: bool, x: int): int {
    if up then x else -x
  }

  /** Remainders of opposite signs, with coefficients that do not vanish before they must. */
  ghost predicate Mirrors(up: bool, oldR: int, r: int, oldS: nat, s: nat) {
    && (if up then oldR <= 0 <= r else r <= 0 <= oldR)
    && (oldS == 0 ==> oldR > 0 && s > 0) && (s == 0 ==> r > 0 && oldS > 0)
  }

  lemma FlipStep(up: bool, oldS: int, s: int, q: int)
    ensures Flip(up, oldS) - -q * Flip(!up, s) == Flip(up, oldS - q * s)
  {
    NegateProduct(q, s);
    assert -q * -s == q * s;
  }

  lemma MirrorStep(up: bool, oldR: int, r: int, oldS: nat, s: nat, q: int)
    requires Mirrors(up, oldR, r, oldS, s) && r != 0 && q == TruncDiv(oldR, r)
    ensures oldS - q * s >= 0 && Mirrors(!up, r, oldR - q * r, s, oldS - q * s)
    ensures TruncDiv(Abs(oldR), Abs(r)) == -q && Abs(oldR) - -q * Abs(r) == Abs(oldR - q * r)
  {
    DivisionLaw(oldR, r);
    QuotientSign(oldR, r, q);
    MulNonNegative(-q, s);
    NegateProduct(q, s);
    QuotientIs(Abs(oldR), Abs(r), -q, Abs(oldR - q * r));
    if q < 0 && s > 0 {
      MulGrows(s, -q);
    }
  }

  /** The run on numbers of opposite signs has the magnitudes of the run on their magnitudes. */
  lemma {:induction false} MirrorRun(up: bool, oldR: int, r: int, oldS: nat, s: nat)
    requires Mirrors(up, oldR, r, oldS, s)
    ensures var (g, x) := Run(Abs(oldR), Abs(r), Flip(up, oldS), Flip(!up, s));
            Run(oldR, r, oldS, s) == (if x > 0 then -g else g, Abs(x))
    decreases Abs(r)
  {
    if r != 0 {
      var q := TruncDiv(oldR, r);
      DivisionLaw(oldR, r);
      MirrorStep(up, oldR, r, oldS, s, q);
      FlipStep(up, oldS, s, q);
      MirrorRun(!up, r, oldR - q * r, s, oldS - q * s);
    }
  }

  lemma {:induction false} RunHalf(m: nat, oldR: nat, r: nat, oldS: int, s: int)
    requires Grows(false, m, oldR, r, oldS, s) && oldR > r > 0
    ensures var (g, x) := Run(oldR, r, oldS, s); g == 1 ==> 2 * Abs(x) <= m
    decreases r
  {
    var q := oldR / r;
    var rest := oldR - q * r;
    EuclidLaw(oldR, r);
    GrowsNext(false, m, oldR, r, oldS, s, q);
    if rest > 0 {
      RunHalf(m, r, rest, s, oldS - q * s);
    } else {
      MulMonotone(2, oldR, Abs(s));
      assert Abs(s) * oldR == oldR * Abs(s);
      MulNonNegative(Abs(oldS), r);
    }
  }

  /** The coefficient of an inverse is at most half of the modulus. */
  lemma CoefficientIsHalf(n: nat, m: nat)
    requires n > 0 && m > 0
    ensures var (g, x) := Run(n, m, 1, 0); g == 1 ==> 2 * Abs(x) <= m
  {
    if n > m {
      RunHalf(m, n, m, 1, 0);
    } else if n < m {
      QuotientIs(n, m, 0, n);
      assert Run(n, m, 1, 0) == Run(m, n, 0, 1);
      RunHalf(m, m, n, 0, 1);
    } else {
      QuotientIs(n, m, 1, 0);
      assert Run(n, m, 1, 0) == Run(m, 0, 0, 1);
    }
  }

  lemma {:induction false} RunCombines(a: int, m: int, oldR: int, r: int, oldS: int, s: int, oldT: int, t: int)
    returns (u: int)
    requires Combines(a, m, oldS, oldT, oldR) && Combines(a, m, s, t, r)
    ensures var (g, x) := Run(oldR, r, oldS, s); Combines(a, m, x, u, g)
    decreases Abs(r)
  {
    if r == 0 {
      u := oldT;
    } else {
      var q := TruncDiv(oldR, r);
      DivisionLaw(oldR, r);
      CombinesStep(a, m, oldS, s, oldT, t, oldR, r, q);
      u := RunCombines(a, m, r, oldR - q * r, s, oldS - q * s, t, oldT - q * t);
    }
  }

  lemma ShiftedInverse(a: int, w: int, m: nat, v: int)
    requires m > 0 && (a * v) % m == 1 % m && ((a + w) * v) % m == 1 % m
    ensures w % m == 0
  {
    assert (a + w) * v == a * v + w * v;
    ModSum((a + w) * v, 1, -(a * v), -1, m) by {
      NegateMod(a * v, 1, m);
    }
    assert (w * v) % m == 0 % m;
    ModProduct(w * v, 0, a, a, m);
    assert (w * v) * a == w * (a * v);
    ModProduct(w, w, a * v, 1, m);
  }

  lemma NegateMod(x: int, y: int, m: nat)
    requires m > 0 && x % m == y % m
    ensures -x % m == -y % m
  {
    ModProduct(x, y, -1, -1, m);
  }

  lemma RunOfTwo(n: nat)
    requires n % 2 == 1
    ensures Run(n, 2, 1, 0) == (1, 1)
  {
    assert Run(n, 2, 1, 0) == Run(2, 1, 0, 1);
    assert TruncDiv(2, 1) == 2;
    assert Run(2, 1, 0, 1) == Run(1, 0, 1, -2);
  }

  lemma HalfIsOne(n: nat, m: nat, k: nat, x: int, u: int)
    requires m == 2 * k && Abs(x) == k && x * n + u * m == 1
    ensures k == 1 && n % 2 == 1
  {
    MultipleDivides(k, if x < 0 then -1 else 1);
    MultipleDivides(k, 2);
    DividesSum(k, x, m, n, u);
    assert x * n + m * u == 1 && Divides(k, 1);
    if k > 1 {
      SmallMod(1, k);
    }
    assert x * n == 1 - 2 * u;
  }

  /** The coefficient is exactly half of the modulus only when the modulus is two. */
  lemma TieIsTwo(n: nat, m: nat)
    requires n > 0 && m > 0
    ensures var (g, x) := Run(n, m, 1, 0); g == 1 && 2 * Abs(x) == m ==> x > 0
  {
    var (g, x) := Run(n, m, 1, 0);
    if g == 1 && 2 * Abs(x) == m {
      var u := RunCombines(n, m, n, m, 1, 0, 0, 1);
      HalfIsOne(n, m, Abs(x), x, u);
      RunOfTwo(n);
    }
  }

  /** An inverse of n and one of -n add up to a multiple of the modulus. */
  lemma InversesCancel(n: int, m: nat, x: int, v: int)
    requires m > 0 && (n * x) % m == 1 % m && (-n * v) % m == 1 % m
    ensures (x + v) % m == 0
  {
    NegateMod(-n * v, 1, m);
    ModSum(n * x, 1, -(-n * v), -1, m);
    assert n * x + -(-n * v) == n * (x + v);
    ModProduct(x, x, n * (x + v), 0, m);
    assert x * (n * (x + v)) == (n * x) * (x + v);
    ModProduct(n * x, 1, x + v, x + v, m);
  }

  lemma InvertibleIsCoprime(n: nat, m: nat, w: int)
    requires m > 0 && (n * w) % m == 1 % m
    ensures Coprime(n, m)
  {
    var k := 1 / m - n * w / m;
    assert n * w == n * w / m * m + n * w % m && 1 == 1 / m * m + 1 % m;
    assert k * m == 1 / m * m - n * w / m * m;
    CombinationCoprime(n, m, w, k);
  }

  lemma LowInverseCoprime(n: int, b: int, m: nat)
    requires n >= 0 && m > 0 && LowInverse(b, m) && (b == n || b == -n)
    ensures Coprime(n, m)
  {
    var v: nat :| 2 * v < m && (b * v) % m == 1 % m;
    var w: int := v;
    assert -n * w == n * -w;
    InvertibleIsCoprime(n, m, if b == n then w else -w);
  }

  /** The run on a negative number, from that on its magnitude. */
  lemma MirroredInverse(n: int, m: nat, g: int, x: int)
    requires n > 0 && m > 0 && g >= 0 && (g == 1 <==> Coprime(n, m)) && (g == 1 ==> (n * x) % m == 1 % m)
    requires g == 1 ==> 2 * Abs(x) <= m && (2 * Abs(x) == m ==> x > 0)
    ensures (g == 1 && x <= 0) <==> LowInverse(-n, m)
    ensures g == 1 && x <= 0 ==> 2 * Abs(x) < m && (-n * Abs(x)) % m == 1 % m
  {
    assert -n * -x == n * x;
    if LowInverse(-n, m) {
      LowInverseCoprime(n, -n, m);
      var v: nat :| 2 * v < m && (-n * v) % m == 1 % m;
      InversesCancel(n, m, x, v);
      if x > 0 {
        SmallMod(x + v, m);
      }
    }
  }

  /** What Euclid's loop finds for a negative number: its inverse, if that lies in the lower half. */
  lemma NegativeOperand(n: int, m: nat)
    requires n > 0 && m > 0
    ensures var (g, x) := Run(-n, m, 1, 0);
            && (g == 1 <==> LowInverse(-n, m))
            && (g == 1 ==> 0 <= x && 2 * x < m && (-n * x) % m == 1 % m)
  {
    var (g, x) := Run(n, m, 1, 0);
    RunExact(n, m, n, m, 1, 0, 0, 1);
    CoefficientIsHalf(n, m);
    TieIsTwo(n, m);
    MirroredInverse(n, m, g, x);
    MirrorRun(true, -n, m, 1, 0);
    assert Run(-n, m, 1, 0) == (if x > 0 then -g else g, Abs(x));
  }

  /** What is returned is an inverse only for divisors of 2^64. */
  lemma LargeOperandFails(checked: bool, a: nat, m: nat)
    requires HALF <= a < WORD && 0 < m < HALF && WORD % m != 0
    ensures var r := InverseOf(checked, a, m); r.Done? && (r.inverse.Some? ==> !Inverts(a, m, r.inverse.value))
  {
    SmallModulus(checked, a, m);
    NegativeOperand(WORD - a, m);
    var (g, x) := Run(Signed(a), m, 1, 0);
    if g == 1 && (a * x) % m == 1 % m {
      ShiftedInverse(Signed(a), WORD, m, x);
    }
  }

  lemma ShiftedLow(a: nat, m: nat)
    requires 0 < m && WORD % m == 0
    ensures LowInverse(a - WORD, m) <==> LowInverse(a, m)
    ensures forall v: nat :: ((a - WORD) * v) % m == (a * v) % m
  {
    forall v: nat ensures ((a - WORD) * v) % m == (a * v) % m {
      assert (a - WORD) * v == a * v + -(WORD / m * v) * m;
      ModAddMultiple(a * v, -(WORD / m * v), m);
    }
  }

  /** When the answer for an operand from 2^63 on is right. For a divisor of 2^64 the inverse is found exactly if it
      lies in the lower half; for other moduli only the absence of an inverse can be right. */
  lemma RightForLarge(checked: bool, a: nat, m: nat)
    requires HALF <= a < WORD && 0 < m < HALF
    ensures Right(checked, a, m) <==>
            if WORD % m == 0 then Coprime(a, m) ==> LowInverse(a, m)
            else !Coprime(a, m) && !LowInverse(a - WORD, m)
  {
    SmallModulus(checked, a, m);
    NegativeOperand(WORD - a, m);
    if WORD % m == 0 {
      ShiftedLow(a, m);
      if LowInverse(a, m) {
        LowInverseCoprime(a, a, m);
      }
    } else {
      LargeOperandFails(checked, a, m);
    }
  }

  lemma SevenIsPrime()
    ensures Prime(7)
  {
    assert 7 % 2 == 1 && 7 % 3 == 1 && 7 % 4 == 3 && 7 % 5 == 2 && 7 % 6 == 1;
    forall d: nat | 2 <= d < 7 ensures !Divides(d, 7) {
      assert d == 2 || d == 3 || d == 4 || d == 5 || d == 6;
    }
  }

  lemma SevenFound(a: nat)
    requires a % 7 == 0
    ensures LowInverse(a - WORD, 7)
  {
    var c := (3 * WORD + 1) / 7;
    assert 3 * WORD + 1 == 7 * c;
    QuotientIs((a - WORD) * 3, 7, 3 * (a / 7) - c, 1);
  }

  /** From 2^63 on, the answer for the modulus 7 is always wrong. */
  lemma SevenFails(checked: bool, a: nat)
    requires HALF <= a < WORD
    ensures !Right(checked, a, 7)
  {
    assert WORD % 7 == 2;
    RightForLarge(checked, a, 7);
    if a % 7 == 0 {
      SevenFound(a);
    } else {
      SevenIsPrime();
      forall d: nat | Divides(d, a) && Divides(d, 7) ensures d == 1 {
        DivisorOfPrime(d, 7);
      }
      assert Coprime(a, 7);
    }
  }

  /** The answers for an operand are right for every modulus below 2^63 exactly when the operand is below 2^63. */
  lemma RightExactly(checked: bool, a: nat)
    requires a < WORD
    ensures (forall m: nat | 0 < m < HALF :: Right(checked, a, m)) <==> a < HALF
  {
    if a < HALF {
      forall m: nat | 0 < m < HALF ensures Right(checked, a, m) {
        InverseExact(checked, a, m);
      }
    } else {
      SevenFails(checked, a);
    }
  }

  // ----- Moduli from 2^63 on -----

  /** One less than the modulus, which is its own inverse, is not found. */
  lemma LastResidueFails(checked: bool, m: nat)
    requires HALF <= m < WORD
    ensures var r := InverseOf(checked, m - 1, m); r.Done? ==> r.inverse.None?
  {
    var n := WORD - m;
    if m == HALF {
      LoopStep(checked, HALF - 1, LEAST, 1, 0, 0);
      LoopStep(checked, LEAST, HALF - 1, 0, 1, -1);
      LoopStep(checked, HALF - 1, -1, 1, 1, 1 - HALF);
    } else if n == 1 {
      LoopStep(checked, -2, -1, 1, 0, 2);
    } else {
      LoopStep(checked, -n - 1, -n, 1, 0, 1);
      LoopStep(checked, -n, -1, 0, 1, n);
    }
  }

  /** The answers for a modulus are right for all its residues exactly when it is below 2^63. */
  lemma ModulusExactly(checked: bool, m: nat)
    requires 0 < m < WORD
    ensures (forall a: nat | a < m :: Right(checked, a, m)) <==> m < HALF
  {
    if m < HALF {
      forall a: nat | a < m ensures Right(checked, a, m) {
        InverseExact(checked, a, m);
      }
    } else {
      LastResidueFails(checked, m);
      CombinationCoprime(m - 1, m, -1, 1);
      assert !Right(checked, m - 1, m);
    }
  }
}
