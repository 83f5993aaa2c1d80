/** Model of the glob matcher and the four trimming expansions in src/bash.rs,
    on byte strings written as ASCII text. */
module Glob {
  import opened Text

  /** What a pattern means: `*` stands for any sequence, `?` for one byte, all else for itself. */
  ghost predicate Matches(p: string, s: string)
    decreases |p|
  {
    if p == "" then s == ""
    else if p[0] == '*' then exists k: nat :: k <= |s| && Matches(p[1..], s[k..])
    else s != "" && (p[0] == '?' || p[0] == s[0]) && Matches(p[1..], s[1..])
  }

  // ----- Splitting and reversing patterns -----

  /** A pattern in two parts matches exactly the texts that split into matching parts. */
  ghost predicate Splits(p: string, q: string, s: string, k: nat) {
    k <= |s| && Matches(p, s[..k]) && Matches(q, s[k..])
  }

  lemma {:induction false} MatchesConcat(p: string, q: string, s: string)
    ensures Matches(p + q, s) <==> exists k: nat :: Splits(p, q, s, k)
    decreases |p|
  {
    if Matches(p + q, s) {
      var k := ConcatToSplit(p, q, s);
    }
    if k: nat :| Splits(p, q, s, k) {
      SplitToConcat(p, q, s, k);
    }
  }

  lemma {:induction false} ConcatToSplit(p: string, q: string, s: string) returns (k: nat)
    requires Matches(p + q, s)
    ensures Splits(p, q, s, k)
    decreases |p|
  {
    if p == "" {
      k := 0;
      assert p + q == q && s[0..] == s;
    } else {
      assert (p + q)[1..] == p[1..] + q;
      if p[0] == '*' {
        var j: nat :| j <= |s| && Matches(p[1..] + q, s[j..]);
        var m := ConcatToSplit(p[1..], q, s[j..]);
        k := j + m;
        assert s[..k][j..] == s[j..][..m] && s[k..] == s[j..][m..];
      } else {
        var m := ConcatToSplit(p[1..], q, s[1..]);
        k := 1 + m;
        assert s[..k][1..] == s[1..][..m] && s[k..] == s[1..][m..];
      }
    }
  }

  lemma {:induction false} SplitToConcat(p: string, q: string, s: string, k: nat)
    requires Splits(p, q, s, k)
    ensures Matches(p + q, s)
    decreases |p|
  {
    if p == "" {
      assert p + q == q && s[0..] == s;
    } else {
      assert (p + q)[1..] == p[1..] + q;
      if p[0] == '*' {
        var j: nat :| j <= k && Matches(p[1..], s[..k][j..]);
        SplitTail(p[1..], q, s, j, k);
        SplitToConcat(p[1..], q, s[j..], k - j);
      } else {
        SplitTail(p[1..], q, s, 1, k);
        SplitToConcat(p[1..], q, s[1..], k - 1);
      }
    }
  }

  lemma {:induction false} SplitTail(p: string, q: string, s: string, j: nat, k: nat)
    requires j <= k <= |s| && Matches(p, s[..k][j..]) && Matches(q, s[k..])
    ensures Splits(p, q, s[j..], k - j)
  {
    assert s[..k][j..] == s[j..][..k - j] && s[k..] == s[j..][k - j..];
  }

  lemma {:induction false} MatchesOne(c: char, s: string)
    ensures Matches([c], s) <==> c == '*' || (|s| == 1 && (c == '?' || c == s[0]))
  {
    assert [c][1..] == "";
    if c == '*' {
      assert Matches("", s[|s|..]);
    }
  }

  /** The first k bytes match. */
  ghost predicate MatchesTo(p: string, s: string, k: nat) {
    k <= |s| && Matches(p, s[..k])
  }

  lemma {:induction false} SplitsOne(p: string, c: char, s: string, k: nat)
    ensures Splits(p, [c], s, k)
       <==> MatchesTo(p, s, k) && (c == '*' || (k + 1 == |s| && (c == '?' || c == s[k])))
  {
    if k <= |s| {
      MatchesOne(c, s[k..]);
    }
  }

  /** The meaning of a pattern read from its last byte. */
  lemma {:induction false} MatchesLast(p: string, c: char, s: string)
    ensures c == '*' ==> (Matches(p + [c], s) <==> exists k: nat :: MatchesTo(p, s, k))
    ensures c != '*' ==>
              (Matches(p + [c], s) <==>
                s != "" && (c == '?' || c == s[|s| - 1]) && MatchesTo(p, s, |s| - 1))
  {
    MatchesConcat(p, [c], s);
    if k: nat :| Splits(p, [c], s, k) {
      SplitsOne(p, c, s, k);
    }
    if k: nat :| MatchesTo(p, s, k) {
      SplitsOne(p, c, s, k);
    }
    if s != "" {
      SplitsOne(p, c, s, |s| - 1);
    }
  }

  /** The two parts of a text, reversed, are the two parts of the reversed text. */
  ghost predicate ReversedParts(s: string, k: nat)
    requires k <= |s|
  {
    Reverse(s[..k]) == Reverse(s)[|s| - k..] && Reverse(s[k..]) == Reverse(s)[..|s| - k]
  }

  lemma {:induction false} ReverseSplit(s: string, k: nat)
    requires k <= |s|
    ensures ReversedParts(s, k)
  {
    assert s == s[..k] + s[k..];
    ReverseConcat(s[..k], s[k..]);
  }

  lemma {:induction false} ReverseInjective(s: string, t: string)
    requires Reverse(s) == Reverse(t)
    ensures s == t
  {
    assert |s| == |t|;
    if s != "" {
      assert Reverse(s)[|s| - 1] == s[0] && Reverse(t)[|s| - 1] == t[0];
      assert Reverse(s)[..|s| - 1] == Reverse(s[1..]) && Reverse(t)[..|s| - 1] == Reverse(t[1..]);
      ReverseInjective(s[1..], t[1..]);
      assert s == [s[0]] + s[1..] && t == [t[0]] + t[1..];
    }
  }

  /** Matching does not depend on the direction in which pattern and text are read. */
  lemma {:induction false} MatchesReversed(p: string, s: string)
    ensures Matches(Reverse(p), Reverse(s)) <==> Matches(p, s)
    decreases |p|
  {
    if p == "" {
    } else {
      MatchesLast(Reverse(p[1..]), p[0], Reverse(s));
      forall k: nat | k <= |s| ensures MatchesTo(Reverse(p[1..]), Reverse(s), |s| - k) <==> Matches(p[1..], s[k..]) {
        ReverseSplit(s, k);
        MatchesReversed(p[1..], s[k..]);
      }
      if p[0] == '*' {
        if k: nat :| k <= |s| && Matches(p[1..], s[k..]) {
          assert MatchesTo(Reverse(p[1..]), Reverse(s), |s| - k);
        }
        if k: nat :| MatchesTo(Reverse(p[1..]), Reverse(s), k) {
          assert |s| - (|s| - k) == k;
          assert Matches(p[1..], s[|s| - k..]);
        }
      } else if s != "" {
        assert Reverse(s)[|s| - 1] == s[0];
        assert MatchesTo(Reverse(p[1..]), Reverse(s), |s| - 1) <==> Matches(p[1..], s[1..]);
      }
    }
  }

  // ----- The two-row program -----

  /** The recurrence at one cell. */
  ghost predicate Cell(p: string, s: string, table: (nat, nat) -> bool, i: nat, j: nat) {
    i < |p| && j < |s| ==>
      table(i + 1, j + 1) ==
        (if p[i] == '*' then table(i + 1, j) || table(i, j + 1)
         else table(i, j) && (p[i] == '?' || s[j] == p[i]))
  }

  ghost predicate FirstCell(p: string, table: (nat, nat) -> bool, i: nat) {
    i < |p| ==> table(i + 1, 0) == (table(i, 0) && p[i] == '*')
  }

  ghost predicate IsTable(p: string, s: string, table: (nat, nat) -> bool) {
    && table(0, 0)
    && (forall j: nat | 0 < j <= |s| :: !table(0, j))
    && (forall i: nat :: FirstCell(p, table, i))
    && (forall i: nat, j: nat :: Cell(p, s, table, i, j))
  }

  lemma {:induction false} PrefixStep(p: string, s: string, i: nat, j: nat)
    requires i < |p| && j <= |s|
    ensures p[i] == '*' ==>
              (Matches(p[..i + 1], s[..j]) <==> (j > 0 && Matches(p[..i + 1], s[..j - 1])) || Matches(p[..i], s[..j]))
    ensures p[i] != '*' ==>
              (Matches(p[..i + 1], s[..j]) <==>
                j > 0 && (p[i] == '?' || p[i] == s[j - 1]) && Matches(p[..i], s[..j - 1]))
  {
    assert p[..i + 1] == p[..i] + [p[i]];
    MatchesLast(p[..i], p[i], s[..j]);
    if j > 0 {
      MatchesLast(p[..i], p[i], s[..j - 1]);
      assert s[..j][..j - 1] == s[..j - 1];
    }
    if p[i] == '*' {
      assert s[..j][..j] == s[..j];
      assert MatchesTo(p[..i], s[..j], j) <==> Matches(p[..i], s[..j]);
      if k: nat :| MatchesTo(p[..i], s[..j], k) {
        if k < j {
          assert s[..j - 1][..k] == s[..j][..k];
          assert MatchesTo(p[..i], s[..j - 1], k);
        }
      }
      if j > 0 {
        var t := s[..j - 1];
        if k: nat :| MatchesTo(p[..i], t, k) {
          assert s[..j][..k] == t[..k];
          assert MatchesTo(p[..i], s[..j], k);
        }
      }
    }
  }

  lemma {:induction false} PrefixTable(p: string, s: string, table: (nat, nat) -> bool)
    requires forall i: nat, j: nat | i <= |p| && j <= |s| :: table(i, j) == Matches(p[..i], s[..j])
    ensures IsTable(p, s, table)
  {
    forall i: nat | i < |p| ensures FirstCell(p, table, i) {
      PrefixStep(p, s, i, 0);
    }
    forall i: nat, j: nat | i < |p| && j < |s| ensures Cell(p, s, table, i, j) {
      PrefixStep(p, s, i, j + 1);
    }
  }

  /** The loops of `simple_glob_match` over two boolean rows that swap roles. */
  method FillRows(p: string, s: string, ghost table: (nat, nat) -> bool) returns (r: bool)
    requires IsTable(p, s, table)
    ensures r == table(|p|, |s|)
  {
    var prev := new bool[|s| + 1](_ => false);
    var curr := new bool[|s| + 1](_ => false);
    prev[0] := true;
    for i := 0 to |p|
      invariant prev.Length == curr.Length == |s| + 1 && prev != curr
      invariant fresh(prev) && fresh(curr)
      invariant forall j: nat | j <= |s| :: prev[j] == table(i, j)
    {
      assert FirstCell(p, table, i);
      curr[0] := prev[0] && p[i] == '*';
      for j := 0 to |s|
        invariant forall k: nat | k <= |s| :: prev[k] == table(i, k)
        invariant forall k: nat | k <= j :: curr[k] == table(i + 1, k)
      {
        assert Cell(p, s, table, i, j);
        curr[j + 1] := match p[i]
          case '*' => curr[j] || prev[j + 1]
          case '?' => prev[j]
          case c => prev[j] && s[j] == c;
      }
      prev, curr := curr, prev;
      for v := 0 to curr.Length
        invariant forall k: nat | k <= |s| :: prev[k] == table(i + 1, k)
      {
        curr[v] := false;
      }
    }
    r := prev[|s|];
  }

  method SimpleGlobMatch(pat: string, s: string) returns (r: bool)
    ensures r <==> Matches(pat, s)
  {
    ghost var table: (nat, nat) -> bool :=
      (i: nat, j: nat) => i <= |pat| && j <= |s| && Matches(pat[..i], s[..j]);
    PrefixTable(pat, s, table);
    r := FillRows(pat, s, table);
    assert pat[..|pat|] == pat && s[..|s|] == s;
  }

  // ----- Trimming -----

  /** The first `k` bytes are the shortest (or longest) prefix of `s` that matches. */
  ghost predicate CutsPrefix(s: string, pat: string, longest: bool, k: nat) {
    k <= |s| && Matches(pat, s[..k]) &&
    forall j: nat | j <= |s| && Matches(pat, s[..j]) :: if longest then j <= k else k <= j
  }

  /** `r` is `s` without its shortest (or longest) prefix that matches; `s` itself when none does. */
  ghost predicate PrefixTrim(s: string, pat: string, longest: bool, r: string) {
    || (r == s && forall k: nat | k <= |s| :: !Matches(pat, s[..k]))
    || exists k: nat :: CutsPrefix(s, pat, longest, k) && r == s[k..]
  }

  /** The bytes from `k` on are the shortest (or longest) suffix of `s` that matches. */
  ghost predicate CutsSuffix(s: string, pat: string, longest: bool, k: nat) {
    k <= |s| && Matches(pat, s[k..]) &&
    forall j: nat | j <= |s| && Matches(pat, s[j..]) :: if longest then k <= j else j <= k
  }

  /** `r` is `s` without its shortest (or longest) suffix that matches; `s` itself when none does. */
  ghost predicate SuffixTrim(s: string, pat: string, longest: bool, r: string) {
    || (r == s && forall k: nat | k <= |s| :: !Matches(pat, s[k..]))
    || exists k: nat :: CutsSuffix(s, pat, longest, k) && r == s[..k]
  }

  method RemoveShortestPrefix(s: string, pat: string) returns (r: string)
    ensures PrefixTrim(s, pat, false, r)
  {
    for i := 0 to |s| + 1
      invariant forall j: nat | j < i :: !Matches(pat, s[..j])
    {
      var m := SimpleGlobMatch(pat, s[..i]);
      if m {
        assert CutsPrefix(s, pat, false, i);
        return s[i..];
      }
    }
    r := s;
  }

  method RemoveLongestPrefix(s: string, pat: string) returns (r: string)
    ensures PrefixTrim(s, pat, true, r)
  {
    for i := |s| + 1 downto 0
      invariant forall j: nat | i <= j <= |s| :: !Matches(pat, s[..j])
    {
      var m := SimpleGlobMatch(pat, s[..i]);
      if m {
        assert CutsPrefix(s, pat, true, i);
        return s[i..];
      }
    }
    r := s;
  }

  method RemoveShortestSuffix(s: string, pat: string) returns (r: string)
    ensures SuffixTrim(s, pat, false, r)
  {
    for i := |s| + 1 downto 0
      invariant forall j: nat | i <= j <= |s| :: !Matches(pat, s[j..])
    {
      var m := SimpleGlobMatch(pat, s[i..]);
      if m {
        assert CutsSuffix(s, pat, false, i);
        return s[..i];
      }
    }
    r := s;
  }

  method RemoveLongestSuffix(s: string, pat: string) returns (r: string)
    ensures SuffixTrim(s, pat, true, r)
  {
    for i := 0 to |s| + 1
      invariant forall j: nat | j < i :: !Matches(pat, s[j..])
    {
      var m := SimpleGlobMatch(pat, s[i..]);
      if m {
        assert CutsSuffix(s, pat, true, i);
        return s[..i];
      }
    }
    r := s;
  }

  ghost predicate SuffixAgrees(s: string, pat: string, k: nat)
    requires k <= |s|
  {
    Matches(pat, s[k..]) <==> Matches(Reverse(pat), Reverse(s)[..|s| - k])
  }

  lemma {:induction false} SuffixMatchReversed(s: string, pat: string, k: nat)
    requires k <= |s|
    ensures SuffixAgrees(s, pat, k)
  {
    ReverseSplit(s, k);
    MatchesReversed(pat, s[k..]);
  }

  lemma {:induction false} CutReversed(s: string, pat: string, longest: bool, k: nat)
    requires k <= |s|
    ensures CutsSuffix(s, pat, longest, k) <==> CutsPrefix(Reverse(s), Reverse(pat), longest, |s| - k)
  {
    var t, q := Reverse(s), Reverse(pat);
    SuffixMatchReversed(s, pat, k);
    if CutsSuffix(s, pat, longest, k) {
      forall j: nat | j <= |t| && Matches(q, t[..j]) ensures if longest then j <= |s| - k else |s| - k <= j {
        SuffixMatchReversed(s, pat, |s| - j);
      }
    }
    if CutsPrefix(t, q, longest, |s| - k) {
      forall j: nat | j <= |s| && Matches(pat, s[j..]) ensures if longest then k <= j else j <= k {
        SuffixMatchReversed(s, pat, j);
      }
    }
  }

  /** Trimming a suffix is trimming a prefix of the reversed text with the reversed pattern. */
  lemma {:induction false} SuffixIsReversedPrefix(s: string, pat: string, longest: bool, r: string)
    ensures SuffixTrim(s, pat, longest, r) <==> PrefixTrim(Reverse(s), Reverse(pat), longest, Reverse(r))
  {
    if SuffixTrim(s, pat, longest, r) {
      SuffixToPrefix(s, pat, longest, r);
    }
    if PrefixTrim(Reverse(s), Reverse(pat), longest, Reverse(r)) {
      PrefixToSuffix(s, pat, longest, r);
    }
  }

  lemma {:induction false} SuffixToPrefix(s: string, pat: string, longest: bool, r: string)
    requires SuffixTrim(s, pat, longest, r)
    ensures PrefixTrim(Reverse(s), Reverse(pat), longest, Reverse(r))
  {
    var t, q := Reverse(s), Reverse(pat);
    if k: nat :| CutsSuffix(s, pat, longest, k) && r == s[..k] {
      CutReversed(s, pat, longest, k);
      ReverseSplit(s, k);
      assert CutsPrefix(t, q, longest, |s| - k);
    } else {
      forall k: nat | k <= |t| ensures !Matches(q, t[..k]) {
        SuffixMatchReversed(s, pat, |s| - k);
      }
    }
  }

  lemma {:induction false} PrefixToSuffix(s: string, pat: string, longest: bool, r: string)
    requires PrefixTrim(Reverse(s), Reverse(pat), longest, Reverse(r))
    ensures SuffixTrim(s, pat, longest, r)
  {
    var t, q := Reverse(s), Reverse(pat);
    if k: nat :| CutsPrefix(t, q, longest, k) && Reverse(r) == t[k..] {
      CutReversed(s, pat, longest, |s| - k);
      ReverseSplit(s, |s| - k);
      ReverseInjective(r, s[..|s| - k]);
      assert CutsSuffix(s, pat, longest, |s| - k);
    } else {
      ReverseInjective(r, s);
      forall k: nat | k <= |s| ensures !Matches(pat, s[k..]) {
        SuffixMatchReversed(s, pat, k);
      }
    }
  }
}
