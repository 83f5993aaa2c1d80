/** Model of the fuzzy matcher in src/autocomplete.rs: the single-row edit distance
    and the stable selection of near candidates. */
module EditDistance {
  import opened Prelude

  const MAX_FUZZY_DISTANCE: nat := 3

  type Text = seq<Byte>

  function Min3(a: nat, b: nat, c: nat): (r: nat)
    ensures r <= a && r <= b && r <= c && (r == a || r == b || r == c)
  {
    var m := if a < b then a else b;
    if m < c then m else c
  }

  function Cost(x: Byte, y: Byte): nat {
    if x == y then 0 else 1
  }

  function Front(s: Text): Text
    requires s != []
  {
    s[..|s| - 1]
  }

  function Last(s: Text): Byte
    requires s != []
  {
    s[|s| - 1]
  }

  /** The distance, from the three neighbours. */
  function Nearest(up: nat, left: nat, diagonal: nat, x: Byte, y: Byte): nat {
    Min3(up + 1, left + 1, diagonal + Cost(x, y))
  }

  /** The recursive edit distance, on the last bytes of the two texts. */
  function Dist(a: Text, b: Text): nat
    decreases |a| + |b|
  {
    if a == [] then |b|
    else if b == [] then |a|
    else Min3(Dist(Front(a), b) + 1, Dist(a, Front(b)) + 1, Dist(Front(a), Front(b)) + Cost(Last(a), Last(b)))
  }

  // ----- The single-row program -----

  /** The recurrence at one cell. */
  ghost predicate Cell(a: Text, b: Text, table: (nat, nat) -> nat, i: nat, j: nat) {
    0 < i <= |a| && 0 < j <= |b| ==>
      table(i, j) == Nearest(table(i - 1, j), table(i, j - 1), table(i - 1, j - 1), a[i - 1], b[j - 1])
  }

  /** `table(i, j)` is the distance between the first i bytes of `a` and the first j bytes of `b`. */
  ghost predicate IsTable(a: Text, b: Text, table: (nat, nat) -> nat) {
    && (forall i: nat | i <= |a| :: table(i, 0) == i)
    && (forall j: nat | j <= |b| :: table(0, j) == j)
    && (forall i: nat, j: nat :: Cell(a, b, table, i, j))
  }

  lemma DistStep(x: Text, y: Text)
    requires x != [] && y != []
    ensures Dist(x, y) == Nearest(Dist(Front(x), y), Dist(x, Front(y)), Dist(Front(x), Front(y)), Last(x), Last(y))
  {
  }

  lemma PrefixTable(a: Text, b: Text, table: (nat, nat) -> nat)
    requires forall i: nat, j: nat | i <= |a| && j <= |b| :: table(i, j) == Dist(a[..i], b[..j])
    ensures IsTable(a, b, table)
  {
    forall i: nat, j: nat | 0 < i <= |a| && 0 < j <= |b| ensures Cell(a, b, table, i, j) {
      assert Front(a[..i]) == a[..i - 1] && Front(b[..j]) == b[..j - 1];
      DistStep(a[..i], b[..j]);
    }
  }

  /** The cells before place j are those of row i of the table, the others those of the row before. */
  ghost predicate RowAt(table: (nat, nat) -> nat, row: seq<nat>, i: nat, j: nat) {
    && i > 0 && (forall k: nat | k < j && k < |row| :: row[k] == table(i, k))
    && forall k: nat | j <= k < |row| :: row[k] == table(i - 1, k)
  }

  lemma RowNext(table: (nat, nat) -> nat, row: seq<nat>, i: nat, j: nat)
    requires RowAt(table, row, i, j) && j < |row|
    ensures RowAt(table, row[j := table(i, j)], i, j + 1)
  {
  }

  lemma RowDone(table: (nat, nat) -> nat, row: seq<nat>, i: nat, j: nat)
    requires RowAt(table, row, i, j) && j == |row|
    ensures RowAt(table, row, i + 1, 0)
  {
  }

  /** The inner loop of `levenshtein`: the row is overwritten for one byte of `a`. */
  method FillCells(a: Text, b: Text, row: array<nat>, i: nat, ghost table: (nat, nat) -> nat)
    requires IsTable(a, b, table) && row.Length == |b| + 1 && 0 < i <= |a| && RowAt(table, row[..], i, 0)
    modifies row
    ensures RowAt(table, row[..], i, |b| + 1)
  {
    var prev := row[0];
    RowNext(table, row[..], i, 0);
    row[0] := i;
    for j := 1 to |b| + 1
      invariant prev == table(i - 1, j - 1) && RowAt(table, row[..], i, j)
    {
      assert Cell(a, b, table, i, j);
      var cost := if a[i - 1] == b[j - 1] then 0 else 1;
      var val := Min3(row[j] + 1, row[j - 1] + 1, prev + cost);
      prev := row[j];
      RowNext(table, row[..], i, j);
      row[j] := val;
    }
  }

  /** The two loops of `levenshtein`: one row, overwritten once for each byte of `a`. */
  method FillRow(a: Text, b: Text, ghost table: (nat, nat) -> nat) returns (d: nat)
    requires IsTable(a, b, table)
    ensures d == table(|a|, |b|)
  {
    var row := new nat[|b| + 1](j => j);
    for i := 1 to |a| + 1
      invariant RowAt(table, row[..], i, 0)
    {
      FillCells(a, b, row, i, table);
      RowDone(table, row[..], i, |b| + 1);
    }
    d := row[|b|];
  }

  method Levenshtein(a: Text, b: Text) returns (d: nat)
    ensures d == Dist(a, b)
  {
    if |a| == 0 {
      return |b|;
    }
    if |b| == 0 {
      return |a|;
    }
    ghost var table: (nat, nat) -> nat := (i: nat, j: nat) => if i <= |a| && j <= |b| then Dist(a[..i], b[..j]) else 0;
    PrefixTable(a, b, table);
    d := FillRow(a, b, table);
    assert a[..|a|] == a && b[..|b|] == b;
  }

  // ----- The distance is a metric -----

  lemma {:induction false} DistBounds(a: Text, b: Text)
    ensures |a| - |b| <= Dist(a, b) && |b| - |a| <= Dist(a, b) && Dist(a, b) <= |a| + |b|
    decreases |a| + |b|
  {
    if a != [] && b != [] {
      DistBounds(Front(a), b);
      DistBounds(a, Front(b));
      DistBounds(Front(a), Front(b));
    }
  }

  lemma {:induction false} Symmetric(a: Text, b: Text)
    ensures Dist(a, b) == Dist(b, a)
    decreases |a| + |b|
  {
    if a != [] && b != [] {
      Symmetric(Front(a), b);
      Symmetric(a, Front(b));
      Symmetric(Front(a), Front(b));
    }
  }

  lemma {:induction false} ZeroExactlyOnEquals(a: Text, b: Text)
    ensures Dist(a, b) == 0 <==> a == b
    decreases |a| + |b|
  {
    if a != [] && b != [] {
      ZeroExactlyOnEquals(Front(a), Front(b));
      assert a == Front(a) + [Last(a)] && b == Front(b) + [Last(b)];
    }
  }

  lemma {:induction false} Triangle(a: Text, b: Text, c: Text)
    ensures Dist(a, c) <= Dist(a, b) + Dist(b, c)
    decreases |a| + |b| + |c|
  {
    if a == [] || b == [] || c == [] {
      DistBounds(a, b);
      DistBounds(b, c);
      DistBounds(a, c);
    } else {
      var a', b', c' := Front(a), Front(b), Front(c);
      if Dist(a, b) == Dist(a', b) + 1 {
        Triangle(a', b, c);
      } else if Dist(b, c) == Dist(b, c') + 1 {
        Triangle(a, b, c');
      } else if Dist(a, b) == Dist(a, b') + 1 {
        if Dist(b, c) == Dist(b', c) + 1 {
          Triangle(a, b', c);
        } else {
          Triangle(a, b', c');
        }
      } else if Dist(b, c) == Dist(b', c) + 1 {
        Triangle(a', b', c);
      } else {
        Triangle(a', b', c');
      }
    }
  }

  // ----- The distance is the length of a shortest edit script -----

  datatype Edit = Insert(at: nat, x: Byte) | Delete(at: nat) | Substitute(at: nat, x: Byte)

  predicate Applies(e: Edit, s: Text) {
    if e.Insert? then e.at <= |s| else e.at < |s|
  }

  function Apply(e: Edit, s: Text): Text
    requires Applies(e, s)
  {
    match e
    case Insert(i, x) => s[..i] + [x] + s[i..]
    case Delete(i) => s[..i] + s[i + 1..]
    case Substitute(i, x) => s[..i] + [x] + s[i + 1..]
  }

  /** The script `es` turns `a` into `b`, one single-byte edit after another. */
  predicate Turns(es: seq<Edit>, a: Text, b: Text)
    decreases |es|
  {
    if es == [] then a == b else Applies(es[0], a) && Turns(es[1..], Apply(es[0], a), b)
  }

  lemma {:induction false} CommonTail(a: Text, b: Text, t: Text)
    ensures Dist(a + t, b + t) <= Dist(a, b)
    decreases |t|
  {
    if t == [] {
      assert a + t == a && b + t == b;
    } else {
      CommonTail(a, b, Front(t));
      assert Front(a + t) == a + Front(t) && Front(b + t) == b + Front(t);
    }
  }

  lemma AppendIsNear(p: Text, x: Byte)
    ensures Dist(p, p + [x]) <= 1 && Dist(p + [x], p) <= 1
  {
    assert Front(p + [x]) == p;
    ZeroExactlyOnEquals(p, p);
  }

  lemma ReplaceIsNear(p: Text, x: Byte, y: Byte)
    ensures Dist(p + [x], p + [y]) <= 1
  {
    assert Front(p + [x]) == p && Front(p + [y]) == p;
    ZeroExactlyOnEquals(p, p);
  }

  lemma OneEditIsNear(e: Edit, s: Text)
    requires Applies(e, s)
    ensures Dist(s, Apply(e, s)) <= 1
  {
    var p := s[..e.at];
    match e
    case Insert(i, x) =>
      AppendIsNear(p, x);
      assert s == p + s[i..];
      CommonTail(p, p + [x], s[i..]);
    case Delete(i) =>
      AppendIsNear(p, s[i]);
      SplitAt(s, i);
      CommonTail(p + [s[i]], p, s[i + 1..]);
    case Substitute(i, x) =>
      ReplaceIsNear(p, s[i], x);
      SplitAt(s, i);
      CommonTail(p + [s[i]], p + [x], s[i + 1..]);
  }

  lemma SplitAt(s: Text, i: nat)
    requires i < |s|
    ensures s == s[..i] + [s[i]] + s[i + 1..]
  {
  }

  /** No script is shorter than the distance. */
  lemma {:induction false} ScriptIsAtLeastDistance(es: seq<Edit>, a: Text, b: Text)
    requires Turns(es, a, b)
    ensures Dist(a, b) <= |es|
    decreases |es|
  {
    if es == [] {
      ZeroExactlyOnEquals(a, b);
    } else {
      var mid := Apply(es[0], a);
      OneEditIsNear(es[0], a);
      ScriptIsAtLeastDistance(es[1..], mid, b);
      Triangle(a, mid, b);
    }
  }

  lemma {:induction false} TurnsThen(es: seq<Edit>, a: Text, b: Text, e: Edit)
    requires Turns(es, a, b) && Applies(e, b)
    ensures Turns(es + [e], a, Apply(e, b))
    decreases |es|
  {
    if es == [] {
      assert es + [e] == [e];
      assert [e][1..] == [];
    } else {
      assert (es + [e])[1..] == es[1..] + [e];
      TurnsThen(es[1..], Apply(es[0], a), b, e);
    }
  }

  lemma {:induction false} TurnsBeforeTail(es: seq<Edit>, a: Text, b: Text, x: Byte)
    requires Turns(es, a, b)
    ensures Turns(es, a + [x], b + [x])
    decreases |es|
  {
    if es != [] {
      ApplyBeforeTail(es[0], a, x);
      TurnsBeforeTail(es[1..], Apply(es[0], a), b, x);
    }
  }

  lemma ApplyBeforeTail(e: Edit, a: Text, x: Byte)
    requires Applies(e, a)
    ensures Applies(e, a + [x]) && Apply(e, a + [x]) == Apply(e, a) + [x]
  {
  }

  /** Some script is exactly as long as the distance. */
  lemma {:induction false} ScriptOfDistance(a: Text, b: Text) returns (es: seq<Edit>)
    ensures Turns(es, a, b) && |es| == Dist(a, b)
    decreases |a| + |b|
  {
    if a == [] && b == [] {
      es := [];
    } else if b == [] || (a != [] && Dist(a, b) == Dist(Front(a), b) + 1) {
      var e := Delete(|a| - 1);
      assert Apply(e, a) == Front(a);
      var rest := ScriptOfDistance(Front(a), b);
      es := [e] + rest;
      assert es[1..] == rest;
    } else if a == [] || Dist(a, b) == Dist(a, Front(b)) + 1 {
      var e := Insert(|b| - 1, Last(b));
      assert Apply(e, Front(b)) == b;
      es := ScriptOfDistance(a, Front(b));
      TurnsThen(es, a, Front(b), e);
      es := es + [e];
    } else {
      assert a == Front(a) + [Last(a)] && b == Front(b) + [Last(b)];
      es := ScriptOfDistance(Front(a), Front(b));
      TurnsBeforeTail(es, Front(a), Front(b), Last(a));
      if Last(a) != Last(b) {
        var e := Substitute(|b| - 1, Last(b));
        assert Apply(e, Front(b) + [Last(a)]) == b;
        TurnsThen(es, a, Front(b) + [Last(a)], e);
        es := es + [e];
      }
    }
  }

  // ----- Fuzzy matching -----

  datatype Hit = Hit(text: Text, dist: nat)

  /** The hits at distance `k`, in order. */
  function Keep(hits: seq<Hit>, k: nat): seq<Hit> {
    if hits == [] then []
    else if hits[0].dist == k then [hits[0]] + Keep(hits[1..], k)
    else Keep(hits[1..], k)
  }

  /** The candidates at distance `k` from `input`, in the order given. */
  function AtDistance(input: Text, candidates: seq<Text>, k: nat): seq<Hit> {
    if candidates == [] then []
    else if Dist(input, candidates[0]) == k then [Hit(candidates[0], k)] + AtDistance(input, candidates[1..], k)
    else AtDistance(input, candidates[1..], k)
  }

  predicate Sorted(hits: seq<Hit>) {
    forall p, q | 0 <= p < q < |hits| :: hits[p].dist <= hits[q].dist
  }

  predicate InRange(hits: seq<Hit>) {
    forall h | h in hits :: 0 < h.dist <= MAX_FUZZY_DISTANCE
  }

  lemma {:induction false} KeepConcat(a: seq<Hit>, b: seq<Hit>, k: nat)
    ensures Keep(a + b, k) == Keep(a, k) + Keep(b, k)
  {
    if a == [] {
      assert a + b == b;
    } else {
      assert (a + b)[1..] == a[1..] + b;
      KeepConcat(a[1..], b, k);
    }
  }

  lemma {:induction false} AtDistanceAppend(input: Text, candidates: seq<Text>, c: Text, k: nat)
    ensures AtDistance(input, candidates + [c], k)
         == AtDistance(input, candidates, k) + (if Dist(input, c) == k then [Hit(c, k)] else [])
  {
    if candidates == [] {
      assert candidates + [c] == [c];
      assert [c][1..] == [];
    } else {
      assert (candidates + [c])[1..] == candidates[1..] + [c];
      AtDistanceAppend(input, candidates[1..], c, k);
    }
  }

  function Swapped(hits: seq<Hit>, j: nat): seq<Hit>
    requires 0 < j < |hits|
  {
    hits[j := hits[j - 1]][j - 1 := hits[j]]
  }

  /** Swapping neighbours at different distances keeps the order within every distance. */
  lemma KeepSwapped(hits: seq<Hit>, j: nat, k: nat)
    requires 0 < j < |hits| && hits[j].dist != hits[j - 1].dist
    ensures Keep(Swapped(hits, j), k) == Keep(hits, k)
  {
    var p, x, y, s := hits[..j - 1], hits[j - 1], hits[j], hits[j + 1..];
    assert hits == p + ([x, y] + s) && Swapped(hits, j) == p + ([y, x] + s);
    KeepConcat(p, [x, y] + s, k);
    KeepConcat(p, [y, x] + s, k);
    KeepConcat([x, y], s, k);
    KeepConcat([y, x], s, k);
    assert [x, y][1..] == [y] && [y, x][1..] == [x];
  }

  lemma {:induction false} KeepNone(hits: seq<Hit>, k: nat)
    requires forall h | h in hits :: h.dist != k
    ensures Keep(hits, k) == []
  {
    if hits != [] {
      KeepNone(hits[1..], k);
    }
  }

  /** A sorted list of hits is the concatenation of its distance classes. */
  lemma {:induction false} SortedIsConcat(hits: seq<Hit>)
    requires Sorted(hits) && InRange(hits)
    ensures hits == Keep(hits, 1) + Keep(hits, 2) + Keep(hits, 3)
  {
    if hits != [] {
      var h, rest := hits[0], hits[1..];
      SortedIsConcat(rest);
      if h.dist >= 2 {
        KeepNone(rest, 1);
      }
      if h.dist >= 3 {
        KeepNone(rest, 2);
      }
      ConcatCons(h, rest);
      assert hits == [h] + rest;
    }
  }

  lemma ConcatCons(h: Hit, rest: seq<Hit>)
    requires 0 < h.dist <= MAX_FUZZY_DISTANCE
    requires rest == Keep(rest, 1) + Keep(rest, 2) + Keep(rest, 3)
    requires (h.dist >= 2 ==> Keep(rest, 1) == []) && (h.dist >= 3 ==> Keep(rest, 2) == [])
    ensures var hits := [h] + rest;
            hits == Keep(hits, 1) + Keep(hits, 2) + Keep(hits, 3)
  {
    var hits := [h] + rest;
    assert hits[1..] == rest;
    PutFirst(h, Keep(rest, 1), Keep(rest, 2), Keep(rest, 3));
  }

  lemma PutFirst(h: Hit, a: seq<Hit>, b: seq<Hit>, c: seq<Hit>)
    ensures [h] + (a + b + c) == [h] + a + b + c
    ensures a == [] ==> [h] + (a + b + c) == a + ([h] + b) + c
    ensures a == [] && b == [] ==> [h] + (a + b + c) == a + b + ([h] + c)
  {
  }

  /** The insertion sort of `fuzzy_match`. */
  method SortHits(hits: seq<Hit>) returns (r: seq<Hit>)
    ensures |r| == |hits| && Sorted(r)
    ensures forall k: nat :: Keep(r, k) == Keep(hits, k)
    ensures InRange(hits) ==> InRange(r)
  {
    r := hits;
    var i := 1;
    while i < |hits|
      invariant 1 <= i && (i <= |hits| || |hits| == 0)
      invariant |r| == |hits|
      invariant i <= |hits| ==> Sorted(r[..i])
      invariant forall k: nat :: Keep(r, k) == Keep(hits, k)
      invariant InRange(hits) ==> InRange(r)
    {
      var j := i;
      while j > 0 && r[j].dist < r[j - 1].dist
        invariant 0 <= j <= i && |r| == |hits|
        invariant forall p, q | 0 <= p < q <= i && q != j :: r[p].dist <= r[q].dist
        invariant forall k: nat :: Keep(r, k) == Keep(hits, k)
        invariant InRange(hits) ==> InRange(r)
      {
        forall k: nat ensures Keep(Swapped(r, j), k) == Keep(r, k) {
          KeepSwapped(r, j, k);
        }
        r := Swapped(r, j);
        j := j - 1;
      }
      i := i + 1;
    }
    assert r[..|hits|] == r;
  }

  /** Exactly the candidates at distance 1 to 3, nearest first, each class in the given order. */
  method FuzzyMatch(input: Text, candidates: seq<Text>) returns (hits: seq<Hit>)
    ensures hits
         == AtDistance(input, candidates, 1) + AtDistance(input, candidates, 2) + AtDistance(input, candidates, 3)
  {
    hits := [];
    for n := 0 to |candidates|
      invariant InRange(hits)
      invariant forall k: nat | 0 < k <= MAX_FUZZY_DISTANCE :: Keep(hits, k) == AtDistance(input, candidates[..n], k)
    {
      var c := candidates[n];
      var d := Levenshtein(input, c);
      assert candidates[..n + 1] == candidates[..n] + [c];
      ghost var before := hits;
      if 0 < d <= MAX_FUZZY_DISTANCE {
        hits := hits + [Hit(c, d)];
      }
      forall k: nat | 0 < k <= MAX_FUZZY_DISTANCE ensures Keep(hits, k) == AtDistance(input, candidates[..n + 1], k) {
        AtDistanceAppend(input, candidates[..n], c, k);
        KeepConcat(before, [Hit(c, d)], k);
        assert [Hit(c, d)][1..] == [];
      }
    }
    assert candidates[..|candidates|] == candidates;
    hits := SortHits(hits);
    SortedIsConcat(hits);
  }
}
