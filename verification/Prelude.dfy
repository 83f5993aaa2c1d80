/** Datatypes and integer facts shared by the models of the kernel modules. */
module Prelude {

  /** A value that may be missing. */
  datatype Option<+T> = None | Some(value: T)

  /** The outcome of an operation that the source reports with `Result`. */
  datatype Result<+T, +E> = Ok(value: T) | Err(error: E)

  /** An unsigned 8-bit value. */
  type Byte = b: int | 0 <= b < 256

  function Min(a: int, b: int): int {
    if a <= b then a else b
  }

  function Abs(x: int): nat {
    if x < 0 then -x else x
  }

  predicate Distinct<T(==)>(s: seq<T>) {
    forall i, j | 0 <= i < j < |s| :: s[i] != s[j]
  }

  function Pow(b: int, e: nat): int {
    if e == 0 then 1 else b * Pow(b, e - 1)
  }

  function Pow2(e: nat): (r: nat)
    ensures r > 0
  {
    if e == 0 then 1 else 2 * Pow2(e - 1)
  }

  /** Logical right shift of a natural number. */
  function Shr(x: nat, n: nat): nat {
    if n == 0 then x else Shr(x, n - 1) / 2
  }

  lemma {:induction false} MulGrows(a: nat, b: nat)
    requires b > 0
    ensures a <= a * b
  {
    assert a * b == a + a * (b - 1);
  }

  lemma MulNonNegative(a: nat, b: nat)
    ensures a * b >= 0
  {
  }

  lemma MulMonotone(a: nat, b: nat, k: nat)
    requires a <= b
    ensures a * k <= b * k
  {
    assert b * k == a * k + (b - a) * k;
  }

  lemma DivBound(x: nat, y: nat)
    requires y > 0
    ensures 0 <= x / y <= x
  {
    MulGrows(x / y, y);
  }

  lemma MulCancel(a: int, b: int, u: int)
    requires u > 0 && a * u == b * u
    ensures a == b
  {
    if a < b {
      MulGrows(u, b - a);
    } else if b < a {
      MulGrows(u, a - b);
    }
  }

  /** Division that rounds toward zero. */
  function TruncDiv(a: int, b: int): int
    requires b != 0
  {
    if a >= 0 then a / b else -((-a) / b)
  }

  /** The remainder that goes with `TruncDiv`; it has the sign of the dividend. */
  function TruncRem(a: int, b: int): int
    requires b != 0
  {
    a - TruncDiv(a, b) * b
  }

  /** Quotient and remainder: the quotient rounds toward zero and the remainder has the dividend's sign. */
  lemma DivisionLaw(a: int, b: int)
    requires b != 0
    ensures a == TruncDiv(a, b) * b + TruncRem(a, b) && Abs(TruncRem(a, b)) < Abs(b)
    ensures (a >= 0 ==> TruncRem(a, b) >= 0) && (a <= 0 ==> TruncRem(a, b) <= 0)
  {
    var q := Abs(a) / b;
    EuclidLaw(Abs(a), b);
    NegateProduct(q, b);
    assert a == 0 ==> q == 0;
    SignedRemainder(a, Abs(b), q * b, TruncDiv(a, b) * b);
  }

  lemma SignedRemainder(a: int, size: nat, p: int, t: int)
    requires 0 <= Abs(a) - p < size && (a == 0 ==> p == 0) && t == if a >= 0 then p else -p
    ensures Abs(a - t) < size && (a >= 0 ==> a - t >= 0) && (a <= 0 ==> a - t <= 0)
  {
  }

  lemma EuclidLaw(n: nat, b: int)
    requires b != 0
    ensures 0 <= n - n / b * b < Abs(b)
  {
    assert n == n / b * b + n % b;
  }

  lemma NegateProduct(q: int, b: int)
    ensures -q * b == -(q * b)
  {
  }
}
