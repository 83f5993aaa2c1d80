/**
 * Multiplication one bit at a time, as in `gmul` of src/crypto_ext.rs, over any addition and doubling. With plain
 * shifts it multiplies polynomials over GF(2); with a reduction after each shift it multiplies remainders.
 */
module Polynomials {

  datatype Space<!T> = Space(zero: T, add: (T, T) -> T, dbl: T -> T)

  function LowTerm<T>(v: Space<T>, a: T, b: bv8): T {
    if b & 1 != 0 then a else v.zero
  }

  /** The sum of the doublings of `a` at the places of the bits of `b`. */
  function ShiftAdd<T>(v: Space<T>, a: T, b: bv8): T
    decreases b
  {
    if b == 0 then v.zero else v.add(LowTerm(v, a, b), ShiftAdd(v, v.dbl(a), b >> 1))
  }

  ghost predicate ZeroAt<T>(v: Space<T>, p: T) {
    v.add(v.zero, p) == p && v.add(p, v.zero) == p
  }

  ghost predicate AssocAt<T>(v: Space<T>, p: T, q: T, r: T) {
    v.add(v.add(p, q), r) == v.add(p, v.add(q, r))
  }

  ghost predicate CommAt<T>(v: Space<T>, p: T, q: T) {
    v.add(p, q) == v.add(q, p)
  }

  ghost predicate LinearAt<T>(v: Space<T>, p: T, q: T) {
    v.dbl(v.add(p, q)) == v.add(v.dbl(p), v.dbl(q))
  }

  ghost predicate CancelAt<T>(v: Space<T>, p: T, q: T) {
    v.add(p, v.add(p, q)) == q
  }

  ghost predicate Laws<T(!new)>(v: Space<T>) {
    && (forall p: T :: ZeroAt(v, p))
    && (forall p: T, q: T, r: T :: AssocAt(v, p, q, r))
    && (forall p: T, q: T :: CommAt(v, p, q))
    && (forall p: T, q: T :: LinearAt(v, p, q))
    && v.dbl(v.zero) == v.zero
  }

  lemma Exchange<T(!new)>(v: Space<T>, p: T, q: T, r: T, t: T)
    requires Laws(v)
    ensures v.add(v.add(p, q), v.add(r, t)) == v.add(v.add(p, r), v.add(q, t))
  {
    assert AssocAt(v, p, q, v.add(r, t)) && AssocAt(v, p, r, v.add(q, t));
    assert AssocAt(v, q, r, t) && AssocAt(v, r, q, t) && CommAt(v, q, r);
  }

  lemma ShiftAddStep<T(!new)>(v: Space<T>, a: T, b: bv8)
    requires Laws(v)
    ensures ShiftAdd(v, a, b) == v.add(LowTerm(v, a, b), ShiftAdd(v, v.dbl(a), b >> 1))
  {
    if b == 0 {
      assert ZeroAt(v, v.zero);
    }
  }

  /** The eight steps written out. */
  function Unrolled<T>(v: Space<T>, a: T, b: bv8): T {
    var a1 := v.dbl(a);
    var a2 := v.dbl(a1);
    var a3 := v.dbl(a2);
    var a4 := v.dbl(a3);
    var a5 := v.dbl(a4);
    var a6 := v.dbl(a5);
    var a7 := v.dbl(a6);
    v.add(LowTerm(v, a, b), v.add(LowTerm(v, a1, b >> 1), v.add(LowTerm(v, a2, b >> 2), v.add(LowTerm(v, a3, b >> 3),
    v.add(LowTerm(v, a4, b >> 4), v.add(LowTerm(v, a5, b >> 5), v.add(LowTerm(v, a6, b >> 6),
    v.add(LowTerm(v, a7, b >> 7), v.zero))))))))
  }

  lemma EightShifts(b: bv8)
    ensures b >> 1 >> 1 == b >> 2 && b >> 2 >> 1 == b >> 3 && b >> 3 >> 1 == b >> 4 && b >> 4 >> 1 == b >> 5
    ensures b >> 5 >> 1 == b >> 6 && b >> 6 >> 1 == b >> 7 && b >> 7 >> 1 == 0
  {
  }

  lemma UnrolledIs<T(!new)>(v: Space<T>, a: T, b: bv8)
    requires Laws(v)
    ensures ShiftAdd(v, a, b) == Unrolled(v, a, b)
  {
    var a1 := v.dbl(a);
    var a2 := v.dbl(a1);
    var a3 := v.dbl(a2);
    var a4 := v.dbl(a3);
    var a5 := v.dbl(a4);
    var a6 := v.dbl(a5);
    var a7 := v.dbl(a6);
    EightShifts(b);
    ShiftAddStep(v, a, b);
    ShiftAddStep(v, a1, b >> 1);
    ShiftAddStep(v, a2, b >> 2);
    ShiftAddStep(v, a3, b >> 3);
    ShiftAddStep(v, a4, b >> 4);
    ShiftAddStep(v, a5, b >> 5);
    ShiftAddStep(v, a6, b >> 6);
    ShiftAddStep(v, a7, b >> 7);
  }

  /** Products distribute over addition on the left. */
  lemma {:induction false} ShiftAddSum<T(!new)>(v: Space<T>, a: T, a': T, b: bv8)
    requires Laws(v)
    ensures ShiftAdd(v, v.add(a, a'), b) == v.add(ShiftAdd(v, a, b), ShiftAdd(v, a', b))
    decreases b
  {
    assert ZeroAt(v, v.zero);
    if b != 0 {
      var m, m' := ShiftAdd(v, v.dbl(a), b >> 1), ShiftAdd(v, v.dbl(a'), b >> 1);
      assert LinearAt(v, a, a');
      ShiftAddSum(v, v.dbl(a), v.dbl(a'), b >> 1);
      Exchange(v, LowTerm(v, a, b), LowTerm(v, a', b), m, m');
    }
  }

  /** Doubling a factor doubles the product. */
  lemma {:induction false} ShiftAddDouble<T(!new)>(v: Space<T>, a: T, b: bv8)
    requires Laws(v)
    ensures ShiftAdd(v, v.dbl(a), b) == v.dbl(ShiftAdd(v, a, b))
    decreases b
  {
    if b != 0 {
      ShiftAddDouble(v, v.dbl(a), b >> 1);
      assert LinearAt(v, LowTerm(v, a, b), ShiftAdd(v, v.dbl(a), b >> 1));
    }
  }

  /** Products by small sums of powers of x are sums of doublings. */
  lemma SmallProducts<T(!new)>(v: Space<T>, one: T, b: bv8, s: T)
    requires Laws(v) && ShiftAdd(v, one, b) == s
    ensures var x2 := v.dbl(one);
            var x4 := v.dbl(x2);
            var x8 := v.dbl(x4);
            var x, y, z := v.dbl(s), v.dbl(v.dbl(s)), v.dbl(v.dbl(v.dbl(s)));
            && ShiftAdd(v, x2, b) == x
            && ShiftAdd(v, v.add(x2, one), b) == v.add(x, s)
            && ShiftAdd(v, v.add(x8, one), b) == v.add(z, s)
            && ShiftAdd(v, v.add(x8, v.add(x2, one)), b) == v.add(z, v.add(x, s))
            && ShiftAdd(v, v.add(x8, v.add(x4, one)), b) == v.add(z, v.add(y, s))
            && ShiftAdd(v, v.add(x8, v.add(x4, x2)), b) == v.add(z, v.add(y, x))
  {
    var x2 := v.dbl(one);
    var x4 := v.dbl(x2);
    var x8 := v.dbl(x4);
    ShiftAddDouble(v, one, b);
    ShiftAddDouble(v, x2, b);
    ShiftAddDouble(v, x4, b);
    ShiftAddSum(v, x2, one, b);
    ShiftAddSum(v, x4, one, b);
    ShiftAddSum(v, x4, x2, b);
    ShiftAddSum(v, x8, one, b);
    ShiftAddSum(v, x8, v.add(x2, one), b);
    ShiftAddSum(v, x8, v.add(x4, one), b);
    ShiftAddSum(v, x8, v.add(x4, x2), b);
  }

  function Doubled<T>(v: Space<T>, q: T, n: nat): T {
    if n == 0 then q else v.dbl(Doubled(v, q, n - 1))
  }

  lemma {:induction false} DoubledLinear<T(!new)>(v: Space<T>, q: T, q': T, n: nat)
    requires Laws(v)
    ensures Doubled(v, v.add(q, q'), n) == v.add(Doubled(v, q, n), Doubled(v, q', n))
    ensures Doubled(v, v.dbl(q), n) == v.dbl(Doubled(v, q, n))
  {
    if n > 0 {
      DoubledLinear(v, q, q', n - 1);
      assert LinearAt(v, Doubled(v, q, n - 1), Doubled(v, q', n - 1));
    }
  }

  lemma DoubledIs<T>(v: Space<T>, q: T)
    ensures Doubled(v, q, 3) == v.dbl(v.dbl(v.dbl(q))) && Doubled(v, q, 4) == v.dbl(Doubled(v, q, 3))
    ensures Doubled(v, q, 8) == v.dbl(v.dbl(v.dbl(v.dbl(Doubled(v, q, 4)))))
  {
    assert Doubled(v, q, 1) == v.dbl(q);
    assert Doubled(v, q, 2) == v.dbl(v.dbl(q));
    assert Doubled(v, q, 6) == v.dbl(v.dbl(Doubled(v, q, 4)));
  }

  /** The product by x^8 + x^4 + x^3 + x + 1. */
  function MultipleOf<T>(v: Space<T>, q: T): T {
    v.add(Doubled(v, q, 8), v.add(Doubled(v, q, 4), v.add(Doubled(v, q, 3), v.add(v.dbl(q), q))))
  }

  lemma MultipleSum<T(!new)>(v: Space<T>, p: T, q: T)
    requires Laws(v)
    ensures MultipleOf(v, v.add(p, q)) == v.add(MultipleOf(v, p), MultipleOf(v, q))
  {
    var p1, q1 := v.add(v.dbl(p), p), v.add(v.dbl(q), q);
    var p3, q3 := v.add(Doubled(v, p, 3), p1), v.add(Doubled(v, q, 3), q1);
    var p4, q4 := v.add(Doubled(v, p, 4), p3), v.add(Doubled(v, q, 4), q3);
    DoubledLinear(v, p, q, 8);
    DoubledLinear(v, p, q, 4);
    DoubledLinear(v, p, q, 3);
    assert LinearAt(v, p, q);
    Exchange(v, v.dbl(p), v.dbl(q), p, q);
    Exchange(v, Doubled(v, p, 3), Doubled(v, q, 3), p1, q1);
    Exchange(v, Doubled(v, p, 4), Doubled(v, q, 4), p3, q3);
    Exchange(v, Doubled(v, p, 8), Doubled(v, q, 8), p4, q4);
  }

  lemma MultipleDouble<T(!new)>(v: Space<T>, q: T)
    requires Laws(v)
    ensures MultipleOf(v, v.dbl(q)) == v.dbl(MultipleOf(v, q))
  {
    var q1 := v.add(v.dbl(q), q);
    var q3 := v.add(Doubled(v, q, 3), q1);
    var q4 := v.add(Doubled(v, q, 4), q3);
    DoubledLinear(v, q, q, 8);
    DoubledLinear(v, q, q, 4);
    DoubledLinear(v, q, q, 3);
    assert LinearAt(v, v.dbl(q), q) && LinearAt(v, Doubled(v, q, 3), q1);
    assert LinearAt(v, Doubled(v, q, 4), q3) && LinearAt(v, Doubled(v, q, 8), q4);
  }

  /** The bits of b all lie below place n. */
  predicate Below(b: bv8, n: nat)
    decreases n
  {
    if n == 0 then b == 0 else Below(b >> 1, n - 1)
  }

  lemma AllBelowEight(b: bv8)
    ensures Below(b, 8)
  {
  }

  lemma LoopStep<T(!new)>(v: Space<T>, p: T, a: T, b: bv8)
    requires Laws(v)
    ensures v.add(p, ShiftAdd(v, a, b))
         == v.add(if b & 1 != 0 then v.add(p, a) else p, ShiftAdd(v, v.dbl(a), b >> 1))
  {
    ShiftAddStep(v, a, b);
    assert AssocAt(v, p, LowTerm(v, a, b), ShiftAdd(v, v.dbl(a), b >> 1)) && ZeroAt(v, p);
  }

  /** The eight steps of `gmul`. */
  method ShiftAddLoop<T(!new)>(v: Space<T>, x: T, y: bv8) returns (p: T)
    requires Laws(v)
    ensures p == ShiftAdd(v, x, y)
  {
    p := v.zero;
    var a, b := x, y;
    AllBelowEight(y);
    assert ZeroAt(v, ShiftAdd(v, x, y));
    for i := 0 to 8
      invariant v.add(p, ShiftAdd(v, a, b)) == ShiftAdd(v, x, y) && Below(b, 8 - i)
    {
      LoopStep(v, p, a, b);
      if b & 1 != 0 {
        p := v.add(p, a);
      }
      a, b := v.dbl(a), b >> 1;
    }
    assert ZeroAt(v, p);
  }

  // ----- Reducing at every step or at the end -----

  /** Division with remainder: `carry` is the quotient that doubling a remainder gives, `small` bounds the degree. */
  datatype Division<!P, !Q, !R> =
    Division(whole: Space<P>, quot: Space<Q>, rem: Space<R>, multiple: Q -> P, embed: R -> P, carry: R -> Q,
             small: (nat, Q) -> bool)

  /** The polynomial p is r and a multiple of the modulus by a factor of degree below i. */
  ghost predicate Leaves<P, Q(!new), R>(d: Division<P, Q, R>, i: nat, p: P, r: R) {
    exists q: Q :: d.small(i, q) && p == d.whole.add(d.multiple(q), d.embed(r))
  }

  ghost predicate MultipleAt<P, Q, R>(d: Division<P, Q, R>, q: Q, q': Q) {
    && d.multiple(d.quot.add(q, q')) == d.whole.add(d.multiple(q), d.multiple(q'))
    && d.multiple(d.quot.dbl(q)) == d.whole.dbl(d.multiple(q))
  }

  ghost predicate EmbedAt<P, Q, R>(d: Division<P, Q, R>, r: R, r': R) {
    && d.embed(d.rem.add(r, r')) == d.whole.add(d.embed(r), d.embed(r'))
    && d.whole.dbl(d.embed(r)) == d.whole.add(d.multiple(d.carry(r)), d.embed(d.rem.dbl(r)))
  }

  ghost predicate GrowsAt<P, Q, R>(d: Division<P, Q, R>, i: nat, q: Q, r: R) {
    d.small(i, q) ==> d.small(i + 1, d.quot.add(d.quot.dbl(q), d.carry(r)))
  }

  ghost predicate JoinsAt<P, Q, R>(d: Division<P, Q, R>, i: nat, q: Q, q': Q) {
    d.small(i, q) && d.small(7, q') ==> d.small(7, d.quot.add(q, q'))
  }

  ghost predicate ZeroIsMultiple<P, Q, R>(d: Division<P, Q, R>) {
    && d.multiple(d.quot.zero) == d.embed(d.rem.zero) == d.whole.zero
    && forall i: nat :: d.small(i, d.quot.zero)
  }

  ghost predicate Divides<P(!new), Q(!new), R(!new)>(d: Division<P, Q, R>) {
    && Laws(d.whole) && ZeroIsMultiple(d)
    && (forall q: Q, q': Q :: MultipleAt(d, q, q'))
    && (forall r: R, r': R :: EmbedAt(d, r, r'))
    && (forall i: nat, q: Q, r: R | i < 7 :: GrowsAt(d, i, q, r))
    && (forall i: nat, q: Q, q': Q | i <= 7 :: JoinsAt(d, i, q, q'))
  }

  lemma LeavesZero<P(!new), Q(!new), R(!new)>(d: Division<P, Q, R>, i: nat)
    requires Divides(d)
    ensures Leaves(d, i, d.whole.zero, d.rem.zero)
  {
    assert ZeroAt(d.whole, d.whole.zero);
  }

  lemma LeavesItself<P(!new), Q(!new), R(!new)>(d: Division<P, Q, R>, r: R)
    requires Divides(d)
    ensures Leaves(d, 0, d.embed(r), r)
  {
    assert ZeroAt(d.whole, d.embed(r));
  }

  lemma LeavesDouble<P(!new), Q(!new), R(!new)>(d: Division<P, Q, R>, i: nat, p: P, r: R)
    requires Divides(d) && i < 7 && Leaves(d, i, p, r)
    ensures Leaves(d, i + 1, d.whole.dbl(p), d.rem.dbl(r))
  {
    var q :| d.small(i, q) && p == d.whole.add(d.multiple(q), d.embed(r));
    assert LinearAt(d.whole, d.multiple(q), d.embed(r)) && EmbedAt(d, r, r) && GrowsAt(d, i, q, r);
    assert MultipleAt(d, q, q) && MultipleAt(d, d.quot.dbl(q), d.carry(r));
    assert AssocAt(d.whole, d.multiple(d.quot.dbl(q)), d.multiple(d.carry(r)), d.embed(d.rem.dbl(r)));
  }

  lemma LeavesSum<P(!new), Q(!new), R(!new)>(d: Division<P, Q, R>, i: nat, p: P, r: R, p': P, r': R)
    requires Divides(d) && i <= 7 && Leaves(d, i, p, r) && Leaves(d, 7, p', r')
    ensures Leaves(d, 7, d.whole.add(p, p'), d.rem.add(r, r'))
  {
    var q :| d.small(i, q) && p == d.whole.add(d.multiple(q), d.embed(r));
    var q' :| d.small(7, q') && p' == d.whole.add(d.multiple(q'), d.embed(r'));
    assert MultipleAt(d, q, q') && EmbedAt(d, r, r') && JoinsAt(d, i, q, q');
    Exchange(d.whole, d.multiple(q), d.embed(r), d.multiple(q'), d.embed(r'));
  }

  /** Only the zero multiple has degree below 8, and different remainders are different polynomials. */
  ghost predicate SeparateAt<P, Q, R>(d: Division<P, Q, R>, q: Q, r: R, r': R) {
    && (d.small(7, q) && d.multiple(q) == d.embed(r) ==> q == d.quot.zero)
    && (d.embed(r) == d.embed(r') ==> r == r')
  }

  /** Equal sums have equal differences. */
  lemma MoveAcross<T(!new)>(v: Space<T>, m: T, e: T, m': T, e': T)
    requires Laws(v) && (forall p: T, q: T :: CancelAt(v, p, q)) && v.add(m, e) == v.add(m', e')
    ensures v.add(m, m') == v.add(e, e')
  {
    assert CancelAt(v, m', e') && AssocAt(v, m', m, e) && CommAt(v, m', m);
    assert CommAt(v, v.add(m, m'), e) && CancelAt(v, e, v.add(m, m'));
  }

  /** A polynomial leaves one remainder. */
  lemma LeavesOne<P(!new), Q(!new), R(!new)>(d: Division<P, Q, R>, p: P, r: R, r': R)
    requires Divides(d) && Leaves(d, 7, p, r) && Leaves(d, 7, p, r')
    requires forall s: P, t: P :: CancelAt(d.whole, s, t)
    requires forall q: Q, t: R, t': R :: SeparateAt(d, q, t, t')
    ensures r == r'
  {
    var q :| d.small(7, q) && p == d.whole.add(d.multiple(q), d.embed(r));
    var q' :| d.small(7, q') && p == d.whole.add(d.multiple(q'), d.embed(r'));
    MoveAcross(d.whole, d.multiple(q), d.embed(r), d.multiple(q'), d.embed(r'));
    assert MultipleAt(d, q, q') && EmbedAt(d, r, r') && JoinsAt(d, 7, q, q');
    assert SeparateAt(d, d.quot.add(q, q'), d.rem.add(r, r'), r') && SeparateAt(d, q, r, r');
    assert CancelAt(d.whole, d.embed(r), d.embed(r')) && ZeroAt(d.whole, d.embed(r));
  }

  /** The product of remainders, reduced at every step, is the remainder of the product. */
  lemma {:induction false} ProductLeaves<P(!new), Q(!new), R(!new)>(d: Division<P, Q, R>, i: nat, n: nat,
                                                                  p: P, r: R, b: bv8)
    requires Divides(d) && i + n == 8 && Below(b, n) && (i <= 7 ==> Leaves(d, i, p, r))
    ensures Leaves(d, 7, ShiftAdd(d.whole, p, b), ShiftAdd(d.rem, r, b))
    decreases n
  {
    LeavesZero(d, 7);
    if b != 0 {
      if i < 7 {
        LeavesDouble(d, i, p, r);
      }
      ProductLeaves(d, i + 1, n - 1, d.whole.dbl(p), d.rem.dbl(r), b >> 1);
      LeavesZero(d, i);
      LeavesSum(d, i, LowTerm(d.whole, p, b), LowTerm(d.rem, r, b),
                ShiftAdd(d.whole, d.whole.dbl(p), b >> 1), ShiftAdd(d.rem, d.rem.dbl(r), b >> 1));
    }
  }
}
