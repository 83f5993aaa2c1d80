/**
 * The column mixes of AES over any structure whose addition is its own inverse: bytes under exclusive or are one. The
 * six constant products are sums of repeated doublings.
 */
module Columns {
  import opened Polynomials

  datatype Field<!T> = Field(v: Space<T>, times: (nat, T) -> T)

  ghost predicate ProductsAt<T>(f: Field<T>, s: T) {
    var x := f.v.dbl(s);
    var y := f.v.dbl(x);
    var z := f.v.dbl(y);
    && f.times(2, s) == x && f.times(3, s) == f.v.add(x, s) && f.times(9, s) == f.v.add(z, s)
    && f.times(11, s) == f.v.add(z, f.v.add(x, s)) && f.times(13, s) == f.v.add(z, f.v.add(y, s))
    && f.times(14, s) == f.v.add(z, f.v.add(y, x))
  }

  ghost predicate Mixes<T(!new)>(f: Field<T>) {
    Laws(f.v) && (forall p: T, q: T :: CancelAt(f.v, p, q)) && forall s: T :: ProductsAt(f, s)
  }

  /** A term that occurs twice drops out. */
  lemma Drop<T(!new)>(f: Field<T>, p: T, q: T, t: T)
    requires Mixes(f)
    ensures f.v.add(f.v.add(p, t), f.v.add(q, t)) == f.v.add(p, q)
    ensures f.v.add(f.v.add(t, p), f.v.add(t, q)) == f.v.add(p, q)
    ensures f.v.add(f.v.add(p, t), f.v.add(t, q)) == f.v.add(p, q)
    ensures f.v.add(f.v.add(p, t), t) == p
  {
    assert CommAt(f.v, p, t) && CommAt(f.v, q, t) && AssocAt(f.v, p, t, f.v.add(t, q)) && CancelAt(f.v, t, q);
    assert CommAt(f.v, f.v.add(p, t), t) && CancelAt(f.v, t, p);
  }

  /** The mixed byte: twice the first, three times the second, and the other two. */
  function Mix<T>(f: Field<T>, p: T, q: T, r: T, s: T): T {
    f.v.add(f.v.add(f.times(2, p), f.times(3, q)), f.v.add(r, s))
  }

  function Unmix<T>(f: Field<T>, p: T, q: T, r: T, s: T): T {
    f.v.add(f.v.add(f.times(14, p), f.times(11, q)), f.v.add(f.times(13, r), f.times(9, s)))
  }

  /** The sum of a column. */
  function Total<T>(f: Field<T>, p: T, q: T, r: T, s: T): T {
    f.v.add(f.v.add(p, q), f.v.add(r, s))
  }

  lemma TotalRotates<T(!new)>(f: Field<T>, p: T, q: T, r: T, s: T)
    requires Mixes(f)
    ensures Total(f, q, r, s, p) == Total(f, p, q, r, s)
  {
    assert CommAt(f.v, f.v.add(q, r), f.v.add(s, p)) && CommAt(f.v, s, p);
    Exchange(f.v, p, s, q, r);
    assert CommAt(f.v, s, r);
  }

  /** A mixed byte is the double of two neighbours plus the byte plus the sum of the column. */
  lemma MixIs<T(!new)>(f: Field<T>, p: T, q: T, r: T, s: T)
    requires Mixes(f)
    ensures Mix(f, p, q, r, s) == f.v.add(f.v.dbl(f.v.add(p, q)), f.v.add(p, Total(f, p, q, r, s)))
  {
    var x, y, rs := f.v.dbl(p), f.v.dbl(q), f.v.add(r, s);
    assert ProductsAt(f, p) && ProductsAt(f, q) && LinearAt(f.v, p, q);
    assert AssocAt(f.v, x, y, q);
    assert AssocAt(f.v, f.v.add(x, y), q, rs);
    assert AssocAt(f.v, p, q, rs) && CancelAt(f.v, p, f.v.add(q, rs));
  }

  /** Two mixed bytes of one column: the sum of the column drops out. */
  lemma MixPair<T(!new)>(f: Field<T>, u: T, v: T, p: T, q: T, t: T)
    requires Mixes(f)
    ensures f.v.add(f.v.add(f.v.dbl(u), f.v.add(p, t)), f.v.add(f.v.dbl(v), f.v.add(q, t)))
         == f.v.add(f.v.dbl(f.v.add(u, v)), f.v.add(p, q))
  {
    Exchange(f.v, f.v.dbl(u), f.v.add(p, t), f.v.dbl(v), f.v.add(q, t));
    assert LinearAt(f.v, u, v);
    Drop(f, p, q, t);
  }

  /** The four mixed bytes of a column. */
  ghost predicate IsMixed<T>(f: Field<T>, a0: T, a1: T, a2: T, a3: T, m0: T, m1: T, m2: T, m3: T) {
    && m0 == Mix(f, a0, a1, a2, a3) && m1 == Mix(f, a1, a2, a3, a0)
    && m2 == Mix(f, a2, a3, a0, a1) && m3 == Mix(f, a3, a0, a1, a2)
  }

  lemma MixedForms<T(!new)>(f: Field<T>, a0: T, a1: T, a2: T, a3: T, m0: T, m1: T, m2: T, m3: T, t: T)
    requires Mixes(f) && IsMixed(f, a0, a1, a2, a3, m0, m1, m2, m3) && t == Total(f, a0, a1, a2, a3)
    ensures m0 == f.v.add(f.v.dbl(f.v.add(a0, a1)), f.v.add(a0, t))
    ensures m1 == f.v.add(f.v.dbl(f.v.add(a1, a2)), f.v.add(a1, t))
    ensures m2 == f.v.add(f.v.dbl(f.v.add(a2, a3)), f.v.add(a2, t))
    ensures m3 == f.v.add(f.v.dbl(f.v.add(a3, a0)), f.v.add(a3, t))
  {
    MixIs(f, a0, a1, a2, a3);
    MixIs(f, a1, a2, a3, a0);
    MixIs(f, a2, a3, a0, a1);
    MixIs(f, a3, a0, a1, a2);
    TotalRotates(f, a0, a1, a2, a3);
    TotalRotates(f, a1, a2, a3, a0);
    TotalRotates(f, a2, a3, a0, a1);
  }

  /** The sums of mixed bytes that the inverse mix doubles. */
  lemma MixedSums<T(!new)>(f: Field<T>, a0: T, a1: T, a2: T, a3: T, m0: T, m1: T, m2: T, m3: T, t: T)
    requires Mixes(f) && IsMixed(f, a0, a1, a2, a3, m0, m1, m2, m3) && t == Total(f, a0, a1, a2, a3)
    ensures f.v.add(m0, m1) == f.v.add(f.v.dbl(f.v.add(a0, a2)), f.v.add(a0, a1))
    ensures f.v.add(m0, m2) == f.v.add(f.v.dbl(t), f.v.add(a0, a2))
    ensures f.v.add(m2, m3) == f.v.add(f.v.dbl(f.v.add(a0, a2)), f.v.add(a2, a3))
    ensures f.v.add(f.v.add(m0, m1), f.v.add(m2, m3)) == t
  {
    MixedForms(f, a0, a1, a2, a3, m0, m1, m2, m3, t);
    MixPair(f, f.v.add(a0, a1), f.v.add(a1, a2), a0, a1, t);
    Drop(f, a0, a2, a1);
    MixPair(f, f.v.add(a0, a1), f.v.add(a2, a3), a0, a2, t);
    MixPair(f, f.v.add(a2, a3), f.v.add(a3, a0), a2, a3, t);
    Drop(f, a2, a0, a3);
    assert CommAt(f.v, a2, a0);
    Drop(f, f.v.add(a0, a1), f.v.add(a2, a3), f.v.dbl(f.v.add(a0, a2)));
  }

  /** What the inverse mix adds up, gathered by the number of doublings. */
  lemma Gather<T(!new)>(f: Field<T>, m0: T, m1: T, m2: T, m3: T)
    requires Mixes(f)
    ensures var d := x => f.v.dbl(x);
            var e := x => f.v.dbl(f.v.dbl(x));
            var g := x => f.v.dbl(f.v.dbl(f.v.dbl(x)));
            Unmix(f, m0, m1, m2, m3) ==
            f.v.add(f.v.add(f.v.add(g(m0), g(m1)), f.v.add(g(m2), g(m3))),
                  f.v.add(f.v.add(e(m0), e(m2)), f.v.add(f.v.add(d(m0), d(m1)), f.v.add(m1, f.v.add(m2, m3)))))
  {
    var x0, x1 := f.v.dbl(m0), f.v.dbl(m1);
    var y0, y2 := f.v.dbl(x0), f.v.dbl(f.v.dbl(m2));
    var z0, z1, z2, z3 := f.v.dbl(y0), f.v.dbl(f.v.dbl(x1)), f.v.dbl(y2), f.v.dbl(f.v.dbl(f.v.dbl(m3)));
    assert ProductsAt(f, m0) && ProductsAt(f, m1) && ProductsAt(f, m2) && ProductsAt(f, m3);
    var left, right := f.v.add(f.v.add(y0, x0), f.v.add(x1, m1)), f.v.add(f.v.add(y2, m2), m3);
    Exchange(f.v, z0, f.v.add(y0, x0), z1, f.v.add(x1, m1));
    Exchange(f.v, z2, f.v.add(y2, m2), z3, m3);
    Exchange(f.v, f.v.add(z0, z1), left, f.v.add(z2, z3), right);
    GatherLower(f, x0, x1, y0, y2, m1, m2, m3);
  }

  lemma GatherLower<T(!new)>(f: Field<T>, x0: T, x1: T, y0: T, y2: T, m1: T, m2: T, m3: T)
    requires Mixes(f)
    ensures f.v.add(f.v.add(f.v.add(y0, x0), f.v.add(x1, m1)), f.v.add(f.v.add(y2, m2), m3))
         == f.v.add(f.v.add(y0, y2), f.v.add(f.v.add(x0, x1), f.v.add(m1, f.v.add(m2, m3))))
  {
    assert AssocAt(f.v, y0, x0, f.v.add(x1, m1)) && AssocAt(f.v, x0, x1, m1) && AssocAt(f.v, y2, m2, m3);
    Exchange(f.v, y0, f.v.add(f.v.add(x0, x1), m1), y2, f.v.add(m2, m3));
    assert AssocAt(f.v, f.v.add(x0, x1), m1, f.v.add(m2, m3));
  }

  lemma LinearTwice<T(!new)>(f: Field<T>, p: T, q: T)
    requires Mixes(f)
    ensures f.v.add(f.v.dbl(f.v.dbl(p)), f.v.dbl(f.v.dbl(q))) == f.v.dbl(f.v.dbl(f.v.add(p, q)))
  {
    assert LinearAt(f.v, p, q) && LinearAt(f.v, f.v.dbl(p), f.v.dbl(q));
  }

  lemma LinearThrice<T(!new)>(f: Field<T>, p: T, q: T)
    requires Mixes(f)
    ensures f.v.add(f.v.dbl(f.v.dbl(f.v.dbl(p))), f.v.dbl(f.v.dbl(f.v.dbl(q))))
         == f.v.dbl(f.v.dbl(f.v.dbl(f.v.add(p, q))))
  {
    LinearTwice(f, p, q);
    assert LinearAt(f.v, f.v.dbl(f.v.dbl(p)), f.v.dbl(f.v.dbl(q)));
  }

  /** The inverse mix of a mixed column gives back its first byte, and by rotation every byte. */
  lemma UnmixOfMix<T(!new)>(f: Field<T>, a0: T, a1: T, a2: T, a3: T, m0: T, m1: T, m2: T, m3: T)
    requires Mixes(f) && IsMixed(f, a0, a1, a2, a3, m0, m1, m2, m3)
    ensures Unmix(f, m0, m1, m2, m3) == a0
  {
    var t, u, v := Total(f, a0, a1, a2, a3), f.v.add(a0, a2), f.v.add(a0, a1);
    MixedSums(f, a0, a1, a2, a3, m0, m1, m2, m3, t);
    Gather(f, m0, m1, m2, m3);
    var t3, u2, v1 := f.v.dbl(f.v.dbl(f.v.dbl(t))), f.v.dbl(f.v.dbl(u)), f.v.dbl(v);
    ThirdDoublings(f, m0, m1, m2, m3, t);
    SecondDoublings(f, m0, m2, t, u);
    assert LinearAt(f.v, m0, m1) && LinearAt(f.v, f.v.dbl(u), v);
    MixedForms(f, a0, a1, a2, a3, m0, m1, m2, m3, t);
    RestOfColumn(f, m0, m1, m2, m3, a0, v, t);
    Telescope(f, t3, u2, v1, a0);
  }

  lemma ThirdDoublings<T(!new)>(f: Field<T>, m0: T, m1: T, m2: T, m3: T, t: T)
    requires Mixes(f) && f.v.add(f.v.add(m0, m1), f.v.add(m2, m3)) == t
    ensures f.v.add(f.v.add(f.v.dbl(f.v.dbl(f.v.dbl(m0))), f.v.dbl(f.v.dbl(f.v.dbl(m1)))),
                  f.v.add(f.v.dbl(f.v.dbl(f.v.dbl(m2))), f.v.dbl(f.v.dbl(f.v.dbl(m3))))) == f.v.dbl(f.v.dbl(f.v.dbl(t)))
  {
    LinearThrice(f, m0, m1);
    LinearThrice(f, m2, m3);
    LinearThrice(f, f.v.add(m0, m1), f.v.add(m2, m3));
  }

  lemma SecondDoublings<T(!new)>(f: Field<T>, m0: T, m2: T, t: T, u: T)
    requires Mixes(f) && f.v.add(m0, m2) == f.v.add(f.v.dbl(t), u)
    ensures f.v.add(f.v.dbl(f.v.dbl(m0)), f.v.dbl(f.v.dbl(m2)))
         == f.v.add(f.v.dbl(f.v.dbl(f.v.dbl(t))), f.v.dbl(f.v.dbl(u)))
  {
    LinearTwice(f, m0, m2);
    LinearTwice(f, f.v.dbl(t), u);
  }

  lemma RestOfColumn<T(!new)>(f: Field<T>, m0: T, m1: T, m2: T, m3: T, a0: T, v: T, t: T)
    requires Mixes(f) && f.v.add(f.v.add(m0, m1), f.v.add(m2, m3)) == t && m0 == f.v.add(f.v.dbl(v), f.v.add(a0, t))
    ensures f.v.add(m1, f.v.add(m2, m3)) == f.v.add(f.v.dbl(v), a0)
  {
    assert AssocAt(f.v, m0, m1, f.v.add(m2, m3)) && CancelAt(f.v, m0, f.v.add(m1, f.v.add(m2, m3)));
    assert AssocAt(f.v, f.v.dbl(v), f.v.add(a0, t), t);
    Drop(f, a0, a0, t);
  }

  lemma Telescope<T(!new)>(f: Field<T>, p: T, q: T, r: T, a: T)
    requires Mixes(f)
    ensures f.v.add(p, f.v.add(f.v.add(p, q), f.v.add(f.v.add(q, r), f.v.add(r, a)))) == a
  {
    Drop(f, q, a, r);
    Drop(f, p, a, q);
    assert CancelAt(f.v, p, a);
  }
}
