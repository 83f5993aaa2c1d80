/** The state transformations and the ten rounds of AES, over any bytes that satisfy the laws of the column mixes. */
module Cipher {
  import opened Columns
  import opened Polynomials

  /** The byte arithmetic, the substitution and its inverse. */
  datatype Suite<!T> = Suite(field: Field<T>, sub: T -> T, inv: T -> T)

  ghost predicate InverseAt<T>(c: Suite<T>, x: T) {
    c.inv(c.sub(x)) == x
  }

  ghost predicate Sound<T(!new)>(c: Suite<T>) {
    Mixes(c.field) && forall x: T :: InverseAt(c, x)
  }

  predicate IsState<T>(s: seq<T>) {
    |s| == 16
  }

  // ----- Transformations -----

  function Substituted<T>(f: T -> T, s: seq<T>): (r: seq<T>)
    requires IsState(s)
    ensures IsState(r)
  {
    seq(16, i requires 0 <= i < 16 => f(s[i]))
  }

  /** A row or column number taken cyclically. */
  function Wrap(x: nat): (r: nat)
    requires x < 8
    ensures r < 4
  {
    if x < 4 then x else x - 4
  }

  /** Byte i is in row i % 4 and column i / 4; row r moves left by r places. */
  function Source(i: nat): (j: nat)
    requires i < 16
    ensures j < 16
  {
    i % 4 + 4 * Wrap(i / 4 + i % 4)
  }

  function SourceBack(i: nat): (j: nat)
    requires i < 16
    ensures j < 16
  {
    i % 4 + 4 * Wrap(i / 4 + 4 - i % 4)
  }

  function Shifted<T>(s: seq<T>): (r: seq<T>)
    requires IsState(s)
    ensures IsState(r)
  {
    seq(16, i requires 0 <= i < 16 => s[Source(i)])
  }

  function Unshifted<T>(s: seq<T>): (r: seq<T>)
    requires IsState(s)
    ensures IsState(r)
  {
    seq(16, i requires 0 <= i < 16 => s[SourceBack(i)])
  }

  /** The place k rows below byte i in its column, cyclically. */
  function Down(i: nat, k: nat): (j: nat)
    requires i < 16 && k < 4
    ensures j < 16
  {
    4 * (i / 4) + Wrap(i % 4 + k)
  }

  function MixedAt<T>(f: Field<T>, s: seq<T>, i: nat): T
    requires IsState(s) && i < 16
  {
    Mix(f, s[i], s[Down(i, 1)], s[Down(i, 2)], s[Down(i, 3)])
  }

  function UnmixedAt<T>(f: Field<T>, s: seq<T>, i: nat): T
    requires IsState(s) && i < 16
  {
    Unmix(f, s[i], s[Down(i, 1)], s[Down(i, 2)], s[Down(i, 3)])
  }

  function Mixed<T>(f: Field<T>, s: seq<T>): (r: seq<T>)
    requires IsState(s)
    ensures IsState(r) && forall i: nat | i < 16 :: r[i] == MixedAt(f, s, i)
  {
    seq(16, i requires 0 <= i < 16 => MixedAt(f, s, i))
  }

  function Unmixed<T>(f: Field<T>, s: seq<T>): (r: seq<T>)
    requires IsState(s)
    ensures IsState(r) && forall i: nat | i < 16 :: r[i] == UnmixedAt(f, s, i)
  {
    seq(16, i requires 0 <= i < 16 => UnmixedAt(f, s, i))
  }

  function Keyed<T>(f: Field<T>, s: seq<T>, k: seq<T>): (r: seq<T>)
    requires IsState(s) && IsState(k)
    ensures IsState(r)
  {
    seq(16, i requires 0 <= i < 16 => f.v.add(s[i], k[i]))
  }

  // ----- Each transformation is undone -----

  lemma SubstitutedBack<T(!new)>(c: Suite<T>, s: seq<T>)
    requires Sound(c) && IsState(s)
    ensures Substituted(c.inv, Substituted(c.sub, s)) == s
  {
    forall i: nat | i < 16 ensures Substituted(c.inv, Substituted(c.sub, s))[i] == s[i] {
      assert InverseAt(c, s[i]);
    }
  }

  lemma SourceOfBack(i: nat)
    requires i < 16
    ensures Source(SourceBack(i)) == i
  {
    var r, c := i % 4, i / 4;
    var d := Wrap(c + 4 - r);
    assert SourceBack(i) % 4 == r && SourceBack(i) / 4 == d;
  }

  lemma ShiftedBack<T>(s: seq<T>)
    requires IsState(s)
    ensures Unshifted(Shifted(s)) == s
  {
    forall i: nat | i < 16 ensures Unshifted(Shifted(s))[i] == s[i] {
      SourceOfBack(i);
    }
  }

  lemma DownIs(col: nat, r: nat, k: nat)
    requires col < 4 && r < 4 && k < 4
    ensures Down(4 * col + r, k) == 4 * col + Wrap(r + k)
  {
    assert (4 * col + r) / 4 == col && (4 * col + r) % 4 == r;
  }

  lemma DownAgain(i: nat, k: nat, l: nat)
    requires i < 16 && k < 4 && l < 4
    ensures Down(Down(i, k), l) == Down(i, Wrap(k + l))
  {
    DownIs(i / 4, Wrap(i % 4 + k), l);
  }

  lemma DownNone(i: nat)
    requires i < 16
    ensures Down(i, 0) == i
  {
  }

  lemma MixedBelow<T>(f: Field<T>, s: seq<T>, i: nat, k: nat)
    requires IsState(s) && i < 16 && k < 4
    ensures MixedAt(f, s, Down(i, k))
         == Mix(f, s[Down(i, k)], s[Down(i, Wrap(k + 1))], s[Down(i, Wrap(k + 2))], s[Down(i, Wrap(k + 3))])
  {
    DownAgain(i, k, 1);
    DownAgain(i, k, 2);
    DownAgain(i, k, 3);
  }

  lemma MixedBackAt<T(!new)>(f: Field<T>, s: seq<T>, m: seq<T>, i: nat)
    requires Mixes(f) && IsState(s) && IsState(m) && i < 16
    requires forall j: nat | j < 16 :: m[j] == MixedAt(f, s, j)
    ensures UnmixedAt(f, m, i) == s[i]
  {
    DownNone(i);
    MixedBelow(f, s, i, 0);
    MixedBelow(f, s, i, 1);
    MixedBelow(f, s, i, 2);
    MixedBelow(f, s, i, 3);
    UnmixOfMix(f, s[i], s[Down(i, 1)], s[Down(i, 2)], s[Down(i, 3)],
               m[i], m[Down(i, 1)], m[Down(i, 2)], m[Down(i, 3)]);
  }

  lemma MixedBack<T(!new)>(f: Field<T>, s: seq<T>)
    requires Mixes(f) && IsState(s)
    ensures Unmixed(f, Mixed(f, s)) == s
  {
    forall i: nat | i < 16 ensures UnmixedAt(f, Mixed(f, s), i) == s[i] {
      MixedBackAt(f, s, Mixed(f, s), i);
    }
  }

  lemma KeyedBack<T(!new)>(f: Field<T>, s: seq<T>, k: seq<T>)
    requires Mixes(f) && IsState(s) && IsState(k)
    ensures Keyed(f, Keyed(f, s, k), k) == s
  {
    forall i: nat | i < 16 ensures Keyed(f, Keyed(f, s, k), k)[i] == s[i] {
      Drop(f, s[i], s[i], k[i]);
    }
  }

  // ----- Rounds -----

  ghost predicate AreKeys<T>(keys: seq<seq<T>>) {
    |keys| == 11 && forall i: nat | i < 11 :: IsState(keys[i])
  }

  /** Substitution and row shifts, which begin every round. */
  function Scrambled<T>(c: Suite<T>, s: seq<T>): (r: seq<T>)
    requires IsState(s)
    ensures IsState(r)
  {
    Shifted(Substituted(c.sub, s))
  }

  function Unscrambled<T>(c: Suite<T>, s: seq<T>): (r: seq<T>)
    requires IsState(s)
    ensures IsState(r)
  {
    Substituted(c.inv, Unshifted(s))
  }

  /** The state after the first r full rounds. */
  ghost function Rounds<T>(c: Suite<T>, s: seq<T>, keys: seq<seq<T>>, r: nat): (t: seq<T>)
    requires IsState(s) && AreKeys(keys) && r < 10
    ensures IsState(t)
  {
    if r == 0 then Keyed(c.field, s, keys[0])
    else Keyed(c.field, Mixed(c.field, Scrambled(c, Rounds(c, s, keys, r - 1))), keys[r])
  }

  ghost function Encrypted<T>(c: Suite<T>, s: seq<T>, keys: seq<seq<T>>): (t: seq<T>)
    requires IsState(s) && AreKeys(keys)
    ensures IsState(t)
  {
    Keyed(c.field, Scrambled(c, Rounds(c, s, keys, 9)), keys[10])
  }

  /** Decryption of the full rounds from r down to 1. */
  ghost function Unrounds<T>(c: Suite<T>, s: seq<T>, keys: seq<seq<T>>, r: nat): (t: seq<T>)
    requires IsState(s) && AreKeys(keys) && r < 10
    ensures IsState(t)
    decreases r
  {
    if r == 0 then s
    else Unrounds(c, Unmixed(c.field, Keyed(c.field, Unscrambled(c, s), keys[r])), keys, r - 1)
  }

  ghost function Decrypted<T>(c: Suite<T>, s: seq<T>, keys: seq<seq<T>>): (t: seq<T>)
    requires IsState(s) && AreKeys(keys)
    ensures IsState(t)
  {
    Keyed(c.field, Unscrambled(c, Unrounds(c, Keyed(c.field, s, keys[10]), keys, 9)), keys[0])
  }

  lemma ScrambledBack<T(!new)>(c: Suite<T>, s: seq<T>)
    requires Sound(c) && IsState(s)
    ensures Unscrambled(c, Scrambled(c, s)) == s
  {
    ShiftedBack(Substituted(c.sub, s));
    SubstitutedBack(c, s);
  }

  lemma {:induction false} RoundsBack<T(!new)>(c: Suite<T>, s: seq<T>, keys: seq<seq<T>>, r: nat)
    requires Sound(c) && IsState(s) && AreKeys(keys) && r < 10
    ensures Unrounds(c, Scrambled(c, Rounds(c, s, keys, r)), keys, r) == Scrambled(c, Keyed(c.field, s, keys[0]))
    decreases r
  {
    if r > 0 {
      var before := Scrambled(c, Rounds(c, s, keys, r - 1));
      ScrambledBack(c, Rounds(c, s, keys, r));
      KeyedBack(c.field, Mixed(c.field, before), keys[r]);
      MixedBack(c.field, before);
      RoundsBack(c, s, keys, r - 1);
    }
  }

  /** With any round keys, decryption inverts encryption. */
  lemma DecryptedBack<T(!new)>(c: Suite<T>, s: seq<T>, keys: seq<seq<T>>)
    requires Sound(c) && IsState(s) && AreKeys(keys)
    ensures Decrypted(c, Encrypted(c, s, keys), keys) == s
  {
    KeyedBack(c.field, Scrambled(c, Rounds(c, s, keys, 9)), keys[10]);
    RoundsBack(c, s, keys, 9);
    ScrambledBack(c, Keyed(c.field, s, keys[0]));
    KeyedBack(c.field, s, keys[0]);
  }

  // ----- The key schedule -----

  /** What the first word of a round key adds: the last word rotated and substituted, with the round constant. */
  function Temp<T>(c: Suite<T>, prev: seq<T>, rcon: T, j: nat): T
    requires IsState(prev) && j < 4
  {
    var t := c.sub(prev[12 + Wrap(j + 1)]);
    if j == 0 then c.field.v.add(t, rcon) else t
  }

  function KeyByte<T>(c: Suite<T>, prev: seq<T>, rcon: T, j: nat): T
    requires IsState(prev) && j < 16
    decreases j
  {
    c.field.v.add(prev[j], if j < 4 then Temp(c, prev, rcon, j) else KeyByte(c, prev, rcon, j - 4))
  }

  function NextKey<T>(c: Suite<T>, prev: seq<T>, rcon: T): (r: seq<T>)
    requires IsState(prev)
    ensures IsState(r) && forall j: nat | j < 16 :: r[j] == KeyByte(c, prev, rcon, j)
  {
    seq(16, j requires 0 <= j < 16 => KeyByte(c, prev, rcon, j))
  }

  function RoundKey<T>(c: Suite<T>, key: seq<T>, rcon: seq<T>, i: nat): (r: seq<T>)
    requires IsState(key) && |rcon| == 11 && i < 11
    ensures IsState(r)
    decreases i
  {
    if i == 0 then key else NextKey(c, RoundKey(c, key, rcon, i - 1), rcon[i])
  }

  function Keys<T>(c: Suite<T>, key: seq<T>, rcon: seq<T>): (keys: seq<seq<T>>)
    requires IsState(key) && |rcon| == 11
    ensures AreKeys(keys)
  {
    seq(11, i requires 0 <= i < 11 => RoundKey(c, key, rcon, i))
  }

  /** The bytes after the first word of a round key reveal those of the key before it. */
  lemma LaterBytes<T(!new)>(c: Suite<T>, k: seq<T>, rcon: T, j: nat)
    requires Mixes(c.field) && IsState(k) && 4 <= j < 16
    ensures k[j] == c.field.v.add(NextKey(c, k, rcon)[j], NextKey(c, k, rcon)[j - 4])
  {
    Drop(c.field, k[j], k[j], KeyByte(c, k, rcon, j - 4));
  }

  lemma FirstBytes<T(!new)>(c: Suite<T>, k: seq<T>, rcon: T, j: nat)
    requires Mixes(c.field) && IsState(k) && j < 4
    ensures k[j] == c.field.v.add(NextKey(c, k, rcon)[j], Temp(c, k, rcon, j))
  {
    Drop(c.field, k[j], k[j], Temp(c, k, rcon, j));
  }

  lemma NextKeyInjective<T(!new)>(c: Suite<T>, k: seq<T>, l: seq<T>, rcon: T)
    requires Mixes(c.field) && IsState(k) && IsState(l) && NextKey(c, k, rcon) == NextKey(c, l, rcon)
    ensures k == l
  {
    forall j: nat | 4 <= j < 16 ensures k[j] == l[j] {
      LaterBytes(c, k, rcon, j);
      LaterBytes(c, l, rcon, j);
    }
    forall j: nat | j < 4 ensures k[j] == l[j] {
      FirstBytes(c, k, rcon, j);
      FirstBytes(c, l, rcon, j);
    }
  }

  /** Every round key determines the key. */
  lemma {:induction false} RoundKeyInjective<T(!new)>(c: Suite<T>, k: seq<T>, l: seq<T>, rcon: seq<T>, i: nat)
    requires Mixes(c.field) && IsState(k) && IsState(l) && |rcon| == 11 && i < 11
    requires RoundKey(c, k, rcon, i) == RoundKey(c, l, rcon, i)
    ensures k == l
    decreases i
  {
    if i > 0 {
      NextKeyInjective(c, RoundKey(c, k, rcon, i - 1), RoundKey(c, l, rcon, i - 1), rcon[i]);
      RoundKeyInjective(c, k, l, rcon, i - 1);
    }
  }

  // ----- In place -----

  method SubBytes<T>(f: T -> T, a: array<T>)
    requires a.Length == 16
    modifies a
    ensures a[..] == Substituted(f, old(a[..]))
  {
    for i := 0 to 16
      invariant forall j | 0 <= j < i :: a[j] == f(old(a[j]))
      invariant forall j | i <= j < 16 :: a[j] == old(a[j])
    {
      a[i] := f(a[i]);
    }
  }

  /** The element at q moves to p, r to q, s to r, and p to s. */
  method RotateFour<T>(a: array<T>, p: nat, q: nat, r: nat, s: nat)
    requires a.Length == 16 && p < 16 && q < 16 && r < 16 && s < 16
    requires p != q && p != r && p != s && q != r && q != s && r != s
    modifies a
    ensures a[p] == old(a[q]) && a[q] == old(a[r]) && a[r] == old(a[s]) && a[s] == old(a[p])
    ensures forall i | 0 <= i < 16 && i != p && i != q && i != r && i != s :: a[i] == old(a[i])
  {
    var t := a[p];
    a[p] := a[q];
    a[q] := a[r];
    a[r] := a[s];
    a[s] := t;
  }

  /** The elements at p and r change places, and those at q and s. */
  method SwapTwice<T>(a: array<T>, p: nat, q: nat, r: nat, s: nat)
    requires a.Length == 16 && p < 16 && q < 16 && r < 16 && s < 16
    requires p != q && p != r && p != s && q != r && q != s && r != s
    modifies a
    ensures a[p] == old(a[r]) && a[r] == old(a[p]) && a[q] == old(a[s]) && a[s] == old(a[q])
    ensures forall i | 0 <= i < 16 && i != p && i != q && i != r && i != s :: a[i] == old(a[i])
  {
    var t0, t1 := a[p], a[q];
    a[p] := a[r];
    a[q] := a[s];
    a[r] := t0;
    a[s] := t1;
  }

  lemma SourceTable()
    ensures Source(0) == 0 && Source(4) == 4 && Source(8) == 8 && Source(12) == 12
    ensures Source(1) == 5 && Source(5) == 9 && Source(9) == 13 && Source(13) == 1
    ensures Source(2) == 10 && Source(6) == 14 && Source(10) == 2 && Source(14) == 6
    ensures Source(3) == 15 && Source(7) == 3 && Source(11) == 7 && Source(15) == 11
  {
  }

  lemma SourceBackTable()
    ensures SourceBack(0) == 0 && SourceBack(4) == 4 && SourceBack(8) == 8 && SourceBack(12) == 12
    ensures SourceBack(1) == 13 && SourceBack(5) == 1 && SourceBack(9) == 5 && SourceBack(13) == 9
    ensures SourceBack(2) == 10 && SourceBack(6) == 14 && SourceBack(10) == 2 && SourceBack(14) == 6
    ensures SourceBack(3) == 7 && SourceBack(7) == 11 && SourceBack(11) == 15 && SourceBack(15) == 3
  {
  }

  lemma ShiftedIs<T>(s: seq<T>, t: seq<T>)
    requires IsState(s) && IsState(t)
    requires t[0] == s[0] && t[1] == s[5] && t[2] == s[10] && t[3] == s[15]
    requires t[4] == s[4] && t[5] == s[9] && t[6] == s[14] && t[7] == s[3]
    requires t[8] == s[8] && t[9] == s[13] && t[10] == s[2] && t[11] == s[7]
    requires t[12] == s[12] && t[13] == s[1] && t[14] == s[6] && t[15] == s[11]
    ensures t == Shifted(s)
  {
    SourceTable();
    forall i: nat | i < 16 ensures t[i] == Shifted(s)[i] {
      assert i == 0 || i == 1 || i == 2 || i == 3 || i == 4 || i == 5 || i == 6 || i == 7
          || i == 8 || i == 9 || i == 10 || i == 11 || i == 12 || i == 13 || i == 14 || i == 15;
    }
  }

  lemma UnshiftedIs<T>(s: seq<T>, t: seq<T>)
    requires IsState(s) && IsState(t)
    requires t[0] == s[0] && t[1] == s[13] && t[2] == s[10] && t[3] == s[7]
    requires t[4] == s[4] && t[5] == s[1] && t[6] == s[14] && t[7] == s[11]
    requires t[8] == s[8] && t[9] == s[5] && t[10] == s[2] && t[11] == s[15]
    requires t[12] == s[12] && t[13] == s[9] && t[14] == s[6] && t[15] == s[3]
    ensures t == Unshifted(s)
  {
    SourceBackTable();
    forall i: nat | i < 16 ensures t[i] == Unshifted(s)[i] {
      assert i == 0 || i == 1 || i == 2 || i == 3 || i == 4 || i == 5 || i == 6 || i == 7
          || i == 8 || i == 9 || i == 10 || i == 11 || i == 12 || i == 13 || i == 14 || i == 15;
    }
  }

  /** Rows 1, 2 and 3 rotate left by 1, 2 and 3. */
  method ShiftRows<T>(a: array<T>)
    requires a.Length == 16
    modifies a
    ensures a[..] == Shifted(old(a[..]))
  {
    RotateFour(a, 1, 5, 9, 13);
    SwapTwice(a, 2, 6, 10, 14);
    RotateFour(a, 15, 11, 7, 3);
    ShiftedIs(old(a[..]), a[..]);
  }

  method InvShiftRows<T>(a: array<T>)
    requires a.Length == 16
    modifies a
    ensures a[..] == Unshifted(old(a[..]))
  {
    RotateFour(a, 13, 9, 5, 1);
    SwapTwice(a, 2, 6, 10, 14);
    RotateFour(a, 3, 7, 11, 15);
    UnshiftedIs(old(a[..]), a[..]);
  }

  lemma ColumnDown(col: nat)
    requires col < 4
    ensures var i := 4 * col;
            && Down(i, 1) == i + 1 && Down(i, 2) == i + 2 && Down(i, 3) == i + 3
            && Down(i + 1, 1) == i + 2 && Down(i + 1, 2) == i + 3 && Down(i + 1, 3) == i
            && Down(i + 2, 1) == i + 3 && Down(i + 2, 2) == i && Down(i + 2, 3) == i + 1
            && Down(i + 3, 1) == i && Down(i + 3, 2) == i + 1 && Down(i + 3, 3) == i + 2
  {
    DownRow(col, 0);
    DownRow(col, 1);
    DownRow(col, 2);
    DownRow(col, 3);
  }

  lemma DownRow(col: nat, r: nat)
    requires col < 4 && r < 4
    ensures Down(4 * col + r, 1) == 4 * col + (if r < 3 then r + 1 else 0)
    ensures Down(4 * col + r, 2) == 4 * col + (if r < 2 then r + 2 else r - 2)
    ensures Down(4 * col + r, 3) == 4 * col + (if r < 1 then 3 else r - 1)
  {
    DownIs(col, r, 1);
    DownIs(col, r, 2);
    DownIs(col, r, 3);
  }

  /** The columns before `col` have reached the goal, the others are untouched. */
  ghost predicate UpTo<T>(goal: seq<T>, s: seq<T>, t: seq<T>, col: nat) {
    && IsState(goal) && IsState(s) && IsState(t) && col <= 4
    && (forall j: nat | j < 4 * col :: t[j] == goal[j]) && (forall j: nat | 4 * col <= j < 16 :: t[j] == s[j])
  }

  lemma UpToNext<T>(goal: seq<T>, s: seq<T>, t: seq<T>, u: seq<T>, col: nat)
    requires col < 4 && UpTo(goal, s, t, col) && IsState(u)
    requires var i := 4 * col;
             u[i] == goal[i] && u[i + 1] == goal[i + 1] && u[i + 2] == goal[i + 2] && u[i + 3] == goal[i + 3]
    requires forall j: nat | j < 16 && !(4 * col <= j < 4 * col + 4) :: u[j] == t[j]
    ensures UpTo(goal, s, u, col + 1)
  {
  }

  lemma UpToAll<T>(goal: seq<T>, s: seq<T>, t: seq<T>)
    requires UpTo(goal, s, t, 4)
    ensures t == goal
  {
  }

  lemma MixedColumn<T>(f: Field<T>, s: seq<T>, col: nat)
    requires IsState(s) && col < 4
    ensures var i, r := 4 * col, Mixed(f, s);
            && r[i] == Mix(f, s[i], s[i + 1], s[i + 2], s[i + 3])
            && r[i + 1] == Mix(f, s[i + 1], s[i + 2], s[i + 3], s[i])
            && r[i + 2] == Mix(f, s[i + 2], s[i + 3], s[i], s[i + 1])
            && r[i + 3] == Mix(f, s[i + 3], s[i], s[i + 1], s[i + 2])
  {
    ColumnDown(col);
    var i := 4 * col;
    assert Mixed(f, s)[i] == MixedAt(f, s, i) && Mixed(f, s)[i + 1] == MixedAt(f, s, i + 1);
    assert Mixed(f, s)[i + 2] == MixedAt(f, s, i + 2) && Mixed(f, s)[i + 3] == MixedAt(f, s, i + 3);
  }

  method MixColumn<T>(f: Field<T>, a: array<T>, i: nat)
    requires a.Length == 16 && i <= 12
    modifies a
    ensures a[i] == old(Mix(f, a[i], a[i + 1], a[i + 2], a[i + 3]))
    ensures a[i + 1] == old(Mix(f, a[i + 1], a[i + 2], a[i + 3], a[i]))
    ensures a[i + 2] == old(Mix(f, a[i + 2], a[i + 3], a[i], a[i + 1]))
    ensures a[i + 3] == old(Mix(f, a[i + 3], a[i], a[i + 1], a[i + 2]))
    ensures forall j | 0 <= j < 16 && !(i <= j < i + 4) :: a[j] == old(a[j])
  {
    var s0, s1, s2, s3 := a[i], a[i + 1], a[i + 2], a[i + 3];
    a[i] := Mix(f, s0, s1, s2, s3);
    a[i + 1] := Mix(f, s1, s2, s3, s0);
    a[i + 2] := Mix(f, s2, s3, s0, s1);
    a[i + 3] := Mix(f, s3, s0, s1, s2);
  }

  method MixColumns<T>(f: Field<T>, a: array<T>)
    requires a.Length == 16
    modifies a
    ensures a[..] == Mixed(f, old(a[..]))
  {
    ghost var s := a[..];
    ghost var goal := Mixed(f, s);
    for col := 0 to 4
      invariant UpTo(goal, s, a[..], col)
    {
      ghost var t := a[..];
      MixColumn(f, a, 4 * col);
      MixedColumn(f, s, col);
      UpToNext(goal, s, t, a[..], col);
    }
    UpToAll(goal, s, a[..]);
  }

  lemma UnmixedColumn<T>(f: Field<T>, s: seq<T>, col: nat)
    requires IsState(s) && col < 4
    ensures var i, r := 4 * col, Unmixed(f, s);
            && r[i] == Unmix(f, s[i], s[i + 1], s[i + 2], s[i + 3])
            && r[i + 1] == Unmix(f, s[i + 1], s[i + 2], s[i + 3], s[i])
            && r[i + 2] == Unmix(f, s[i + 2], s[i + 3], s[i], s[i + 1])
            && r[i + 3] == Unmix(f, s[i + 3], s[i], s[i + 1], s[i + 2])
  {
    ColumnDown(col);
    var i := 4 * col;
    assert Unmixed(f, s)[i] == UnmixedAt(f, s, i) && Unmixed(f, s)[i + 1] == UnmixedAt(f, s, i + 1);
    assert Unmixed(f, s)[i + 2] == UnmixedAt(f, s, i + 2) && Unmixed(f, s)[i + 3] == UnmixedAt(f, s, i + 3);
  }

  method InvMixColumn<T>(f: Field<T>, a: array<T>, i: nat)
    requires a.Length == 16 && i <= 12
    modifies a
    ensures a[i] == old(Unmix(f, a[i], a[i + 1], a[i + 2], a[i + 3]))
    ensures a[i + 1] == old(Unmix(f, a[i + 1], a[i + 2], a[i + 3], a[i]))
    ensures a[i + 2] == old(Unmix(f, a[i + 2], a[i + 3], a[i], a[i + 1]))
    ensures a[i + 3] == old(Unmix(f, a[i + 3], a[i], a[i + 1], a[i + 2]))
    ensures forall j | 0 <= j < 16 && !(i <= j < i + 4) :: a[j] == old(a[j])
  {
    var s0, s1, s2, s3 := a[i], a[i + 1], a[i + 2], a[i + 3];
    a[i] := Unmix(f, s0, s1, s2, s3);
    a[i + 1] := Unmix(f, s1, s2, s3, s0);
    a[i + 2] := Unmix(f, s2, s3, s0, s1);
    a[i + 3] := Unmix(f, s3, s0, s1, s2);
  }

  method InvMixColumns<T>(f: Field<T>, a: array<T>)
    requires a.Length == 16
    modifies a
    ensures a[..] == Unmixed(f, old(a[..]))
  {
    ghost var s := a[..];
    ghost var goal := Unmixed(f, s);
    for col := 0 to 4
      invariant UpTo(goal, s, a[..], col)
    {
      ghost var t := a[..];
      InvMixColumn(f, a, 4 * col);
      UnmixedColumn(f, s, col);
      UpToNext(goal, s, t, a[..], col);
    }
    UpToAll(goal, s, a[..]);
  }

  method AddRoundKey<T>(f: Field<T>, a: array<T>, k: seq<T>)
    requires a.Length == 16 && IsState(k)
    modifies a
    ensures a[..] == Keyed(f, old(a[..]), k)
  {
    for i := 0 to 16
      invariant forall j | 0 <= j < i :: a[j] == f.v.add(old(a[j]), k[j])
      invariant forall j | i <= j < 16 :: a[j] == old(a[j])
    {
      a[i] := f.v.add(a[i], k[i]);
    }
  }

  /** One round key from the one before. */
  method ExpandOnce<T>(c: Suite<T>, prev: seq<T>, rcon: T) returns (next: seq<T>)
    requires IsState(prev)
    ensures next == NextKey(c, prev, rcon)
  {
    var temp := [c.sub(prev[13]), c.sub(prev[14]), c.sub(prev[15]), c.sub(prev[12])];
    temp := temp[0 := c.field.v.add(temp[0], rcon)];
    TempIs(c, prev, rcon, temp);
    var rk := prev;
    for j := 0 to 4
      invariant |rk| == 16 && forall i: nat | i < j :: rk[i] == KeyByte(c, prev, rcon, i)
    {
      rk := rk[j := c.field.v.add(prev[j], temp[j])];
    }
    for j := 4 to 16
      invariant |rk| == 16 && forall i: nat | i < j :: rk[i] == KeyByte(c, prev, rcon, i)
    {
      rk := rk[j := c.field.v.add(prev[j], rk[j - 4])];
    }
    next := rk;
  }

  lemma TempIs<T>(c: Suite<T>, prev: seq<T>, rcon: T, temp: seq<T>)
    requires IsState(prev) && |temp| == 4 && temp[0] == c.field.v.add(c.sub(prev[13]), rcon)
    requires temp[1] == c.sub(prev[14]) && temp[2] == c.sub(prev[15]) && temp[3] == c.sub(prev[12])
    ensures forall j: nat | j < 4 :: temp[j] == Temp(c, prev, rcon, j)
  {
    forall j: nat | j < 4 ensures temp[j] == Temp(c, prev, rcon, j) {
      assert j == 0 || j == 1 || j == 2 || j == 3;
    }
  }

  method KeyExpansion<T>(c: Suite<T>, key: seq<T>, rcon: seq<T>) returns (keys: seq<seq<T>>)
    requires IsState(key) && |rcon| == 11
    ensures keys == Keys(c, key, rcon)
  {
    keys := [key];
    for i := 1 to 11
      invariant |keys| == i && forall j: nat | j < i :: keys[j] == RoundKey(c, key, rcon, j)
    {
      var next := ExpandOnce(c, keys[i - 1], rcon[i]);
      keys := keys + [next];
    }
  }

  method EncryptBlock<T>(c: Suite<T>, input: seq<T>, key: seq<T>, rcon: seq<T>) returns (out: seq<T>)
    requires IsState(input) && IsState(key) && |rcon| == 11
    ensures out == Encrypted(c, input, Keys(c, key, rcon))
  {
    var keys := KeyExpansion(c, key, rcon);
    var state := new T[16](i requires 0 <= i < 16 => input[i]);
    assert state[..] == input;
    AddRoundKey(c.field, state, keys[0]);
    for round := 1 to 10
      invariant state[..] == Rounds(c, input, keys, round - 1)
    {
      SubBytes(c.sub, state);
      ShiftRows(state);
      MixColumns(c.field, state);
      AddRoundKey(c.field, state, keys[round]);
    }
    SubBytes(c.sub, state);
    ShiftRows(state);
    AddRoundKey(c.field, state, keys[10]);
    out := state[..];
  }

  method DecryptBlock<T>(c: Suite<T>, input: seq<T>, key: seq<T>, rcon: seq<T>) returns (out: seq<T>)
    requires IsState(input) && IsState(key) && |rcon| == 11
    ensures out == Decrypted(c, input, Keys(c, key, rcon))
  {
    var keys := KeyExpansion(c, key, rcon);
    var state := new T[16](i requires 0 <= i < 16 => input[i]);
    assert state[..] == input;
    AddRoundKey(c.field, state, keys[10]);
    ghost var start := state[..];
    for round := 10 downto 1
      invariant Unrounds(c, state[..], keys, round - 1) == Unrounds(c, start, keys, 9)
    {
      InvShiftRows(state);
      SubBytes(c.inv, state);
      AddRoundKey(c.field, state, keys[round]);
      InvMixColumns(c.field, state);
    }
    InvShiftRows(state);
    SubBytes(c.inv, state);
    AddRoundKey(c.field, state, keys[0]);
    out := state[..];
  }
}
