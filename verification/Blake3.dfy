/** Model of src/blake3.rs: chunks, parents and the level-by-level merge of chaining
    values. The compression function is a parameter, so every statement holds for
    any such function. */
module Blake3 {
  import opened Prelude

  const BLOCK_LEN: nat := 64
  const CHUNK_LEN: nat := 1024

  const CHUNK_START: bv32 := 1
  const CHUNK_END: bv32 := 2
  const PARENT: bv32 := 4
  const ROOT: bv32 := 8

  /** A 32-bit message or state word. */
  type Word = w: int | 0 <= w < 0x1_0000_0000
  type Cv = s: seq<Word> | |s| == 8 witness seq(8, _ => 0)
  type Block = s: seq<Word> | |s| == 16 witness seq(16, _ => 0)

  /** The arguments of one compression. */
  datatype Call = Call(cv: Cv, block: Block, counter: nat, blockLen: nat, flags: bv32) {
    predicate IsRoot() {
      flags & ROOT != 0
    }
  }

  /** Section 2.1 of the BLAKE3 specification: a binary tree over 1024-byte chunks. */
  datatype Node = Leaf(chunk: seq<Byte>, counter: nat) | Parent(left: Node, right: Node)

  // ----- Words -----

  function WordAt(block: seq<Byte>, at: nat): Word {
    var b0 := if at < |block| then block[at] as int else 0;
    var b1 := if at + 1 < |block| then block[at + 1] as int else 0;
    var b2 := if at + 2 < |block| then block[at + 2] as int else 0;
    var b3 := if at + 3 < |block| then block[at + 3] as int else 0;
    b0 + 0x100 * b1 + 0x1_0000 * b2 + 0x100_0000 * b3
  }

  /** A block of up to 64 bytes, read as if it were padded with zeros to 64. */
  function BlockToWords(block: seq<Byte>): Block {
    seq(16, i requires 0 <= i < 16 => WordAt(block, 4 * i))
  }

  function WordBytes(w: Word): seq<Byte> {
    [w as int % 0x100, w as int / 0x100 % 0x100, w as int / 0x1_0000 % 0x100, w as int / 0x100_0000]
  }

  function CvToBytes(cv: seq<Word>): (r: seq<Byte>)
    ensures |r| == 4 * |cv|
  {
    if cv == [] then [] else WordBytes(cv[0]) + CvToBytes(cv[1..])
  }

  function Join(l: Cv, r: Cv): Block {
    var words: seq<Word> := l;
    words + r
  }

  // ----- The shape of the tree -----

  predicate IsPow2(n: nat) {
    n == 1 || (n > 1 && n % 2 == 0 && IsPow2(n / 2))
  }

  lemma {:induction false} Pow2BelowUnique(n: nat, a: nat, b: nat)
    requires IsPow2(a) && IsPow2(b) && a < n <= 2 * a && b < n <= 2 * b
    ensures a == b
    decreases a
  {
    if a != 1 && b != 1 {
      Pow2BelowUnique((n + 1) / 2, a / 2, b / 2);
    }
  }

  /** The largest power of two below n, found by doubling from `p`. */
  function LargestPow2From(n: nat, p: nat): (r: nat)
    requires IsPow2(p) && p < n
    ensures IsPow2(r) && r < n <= 2 * r
    decreases n - p
  {
    var q := p + p;
    if q < n then LargestPow2From(n, q) else p
  }

  function LeftCount(n: nat): (r: nat)
    requires n >= 2
    ensures IsPow2(r) && r < n <= 2 * r
  {
    LargestPow2From(n, 1)
  }

  function ChunkCount(len: nat): nat {
    if len == 0 then 1 else (len + CHUNK_LEN - 1) / CHUNK_LEN
  }

  /** The tree of the specification: the left subtree takes the largest power-of-two
      number of whole chunks that leaves at least one byte for the right subtree. */
  function TreeOf(data: seq<Byte>, counter: nat): Node
    decreases |data|
  {
    if |data| <= CHUNK_LEN then Leaf(data, counter)
    else
      var l := LeftCount(ChunkCount(|data|));
      assert l * CHUNK_LEN < |data|;
      Parent(TreeOf(data[..l * CHUNK_LEN], counter), TreeOf(data[l * CHUNK_LEN..], counter + l))
  }

  /** The same shape over a list of subtrees. */
  function Merge(ns: seq<Node>): Node
    requires ns != []
    decreases |ns|
  {
    if |ns| == 1 then ns[0]
    else
      var l := LeftCount(|ns|);
      Parent(Merge(ns[..l]), Merge(ns[l..]))
  }

  /** One level of pairwise merging; an odd last node moves up unchanged. */
  function PairUp(ns: seq<Node>): (r: seq<Node>)
    ensures |r| == (|ns| + 1) / 2
    decreases |ns|
  {
    if |ns| < 2 then ns else [Parent(ns[0], ns[1])] + PairUp(ns[2..])
  }

  lemma {:induction false} PairUpAt(ns: seq<Node>, j: nat)
    requires 2 * j < |ns|
    ensures PairUp(ns)[j] == if 2 * j + 1 < |ns| then Parent(ns[2 * j], ns[2 * j + 1]) else ns[2 * j]
    decreases j
  {
    if j > 0 {
      PairUpAt(ns[2..], j - 1);
    }
  }

  lemma {:induction false} PairUpConcat(a: seq<Node>, b: seq<Node>)
    requires |a| % 2 == 0
    ensures PairUp(a + b) == PairUp(a) + PairUp(b)
    decreases |a|
  {
    if a == [] {
      assert a + b == b;
    } else {
      assert (a + b)[2..] == a[2..] + b;
      PairUpConcat(a[2..], b);
    }
  }

  /** Merging neighbours does not change the tree that the list stands for. */
  lemma {:induction false} MergePairUp(ns: seq<Node>)
    requires ns != []
    ensures Merge(PairUp(ns)) == Merge(ns)
    decreases |ns|
  {
    if |ns| == 2 {
      assert PairUp(ns) == [Parent(ns[0], ns[1])];
      assert ns[..1] == [ns[0]] && ns[1..] == [ns[1]];
    } else if |ns| > 2 {
      var l := LeftCount(|ns|);
      var left, right := ns[..l], ns[l..];
      assert ns == left + right;
      PairUpConcat(left, right);
      MergePairUp(left);
      MergePairUp(right);
      var up := PairUp(ns);
      Pow2BelowUnique(|up|, LeftCount(|up|), l / 2);
      assert up[..l / 2] == PairUp(left) && up[l / 2..] == PairUp(right);
    }
  }

  function ChunkEnd(len: nat, i: nat): nat {
    if (i + 1) * CHUNK_LEN <= len then (i + 1) * CHUNK_LEN else len
  }

  /** Chunk i of `data` as a leaf, numbered from `counter`. */
  function LeafAt(data: seq<Byte>, counter: nat, i: nat): Node
    requires i < ChunkCount(|data|)
  {
    Leaf(data[i * CHUNK_LEN..ChunkEnd(|data|, i)], counter + i)
  }

  function Leaves(data: seq<Byte>, counter: nat): (r: seq<Node>)
    ensures |r| == ChunkCount(|data|)
  {
    seq(ChunkCount(|data|), i requires 0 <= i < ChunkCount(|data|) => LeafAt(data, counter, i))
  }

  lemma LeavesSplit(data: seq<Byte>, counter: nat, l: nat)
    requires 0 < l && l * CHUNK_LEN < |data|
    ensures l < ChunkCount(|data|)
    ensures Leaves(data, counter)[..l] == Leaves(data[..l * CHUNK_LEN], counter)
    ensures Leaves(data, counter)[l..] == Leaves(data[l * CHUNK_LEN..], counter + l)
  {
    var left, right := data[..l * CHUNK_LEN], data[l * CHUNK_LEN..];
    assert ChunkCount(|left|) == l && ChunkCount(|right|) == ChunkCount(|data|) - l;
    forall i: nat | i < l ensures LeafAt(data, counter, i) == LeafAt(left, counter, i) {
      assert ChunkEnd(|data|, i) == ChunkEnd(|left|, i);
    }
    var next := counter + l;
    forall i: nat | i < ChunkCount(|right|) ensures LeafAt(data, counter, l + i) == LeafAt(right, next, i) {
      assert ChunkEnd(|data|, l + i) == l * CHUNK_LEN + ChunkEnd(|right|, i);
      assert (l + i) * CHUNK_LEN == l * CHUNK_LEN + i * CHUNK_LEN;
    }
  }

  /** The tree of the specification is the merge of the list of chunks. */
  lemma {:induction false} TreeIsMerge(data: seq<Byte>, counter: nat)
    ensures TreeOf(data, counter) == Merge(Leaves(data, counter))
    decreases |data|
  {
    var ns := Leaves(data, counter);
    if |data| <= CHUNK_LEN {
      assert data[0..ChunkEnd(|data|, 0)] == data;
    } else {
      var l := LeftCount(ChunkCount(|data|));
      assert l * CHUNK_LEN < |data|;
      LeavesSplit(data, counter, l);
      TreeIsMerge(data[..l * CHUNK_LEN], counter);
      TreeIsMerge(data[l * CHUNK_LEN..], counter + l);
    }
  }

  // ----- What a walk over the tree performs -----

  /** The results at the nodes of a forest. */
  function MapNodes<T>(f: Node -> T, ns: seq<Node>): (r: seq<T>)
    ensures |r| == |ns|
  {
    seq(|ns|, i requires 0 <= i < |ns| => f(ns[i]))
  }

  /** Everything performed at a subtree: at its parts, then the last thing at its top. */
  function TreeCalls<T>(leaf: Node -> seq<T>, last: Node -> T, n: Node): seq<T>
    decreases n
  {
    match n
    case Leaf(_, _) => leaf(n)
    case Parent(l, r) => TreeCalls(leaf, last, l) + TreeCalls(leaf, last, r) + [last(n)]
  }

  function ForestCalls<T>(leaf: Node -> seq<T>, last: Node -> T, ns: seq<Node>): seq<T>
    decreases |ns|
  {
    if ns == [] then [] else ForestCalls(leaf, last, ns[..|ns| - 1]) + TreeCalls(leaf, last, ns[|ns| - 1])
  }

  /** What one level of pairwise merging performs. */
  function PairCalls<T>(last: Node -> T, ns: seq<Node>): seq<T>
    decreases |ns|
  {
    if |ns| < 2 then [] else [last(Parent(ns[0], ns[1]))] + PairCalls(last, ns[2..])
  }

  lemma {:induction false} ForestConcat<T>(leaf: Node -> seq<T>, last: Node -> T, a: seq<Node>, b: seq<Node>)
    ensures ForestCalls(leaf, last, a + b) == ForestCalls(leaf, last, a) + ForestCalls(leaf, last, b)
    decreases |b|
  {
    if b == [] {
      assert a + b == a;
    } else {
      assert (a + b)[..|a + b| - 1] == a + b[..|b| - 1];
      ForestConcat(leaf, last, a, b[..|b| - 1]);
    }
  }

  lemma ForestOne<T>(leaf: Node -> seq<T>, last: Node -> T, n: Node)
    ensures ForestCalls(leaf, last, [n]) == TreeCalls(leaf, last, n)
  {
    assert [n][..0] == [];
  }

  lemma ForestTwo<T>(leaf: Node -> seq<T>, last: Node -> T, l: Node, r: Node)
    ensures ForestCalls(leaf, last, [l, r]) == TreeCalls(leaf, last, l) + TreeCalls(leaf, last, r)
  {
    assert [l, r] == [l] + [r];
    ForestConcat(leaf, last, [l], [r]);
    ForestOne(leaf, last, l);
    ForestOne(leaf, last, r);
  }

  lemma MultisetRegroup<T>(l: seq<T>, r: seq<T>, p: T, up: seq<T>, rest: seq<T>, pairs: seq<T>)
    requires multiset(up) == multiset(rest) + multiset(pairs)
    ensures multiset((l + r + [p]) + up) == multiset((l + r) + rest) + multiset([p] + pairs)
  {
  }

  lemma PairUpHead<T>(leaf: Node -> seq<T>, last: Node -> T, l: Node, r: Node, rest: seq<Node>, up: seq<Node>)
    ensures ForestCalls(leaf, last, [Parent(l, r)] + up)
         == (TreeCalls(leaf, last, l) + TreeCalls(leaf, last, r) + [last(Parent(l, r))]) + ForestCalls(leaf, last, up)
    ensures ForestCalls(leaf, last, [l, r] + rest)
         == (TreeCalls(leaf, last, l) + TreeCalls(leaf, last, r)) + ForestCalls(leaf, last, rest)
  {
    ForestConcat(leaf, last, [Parent(l, r)], up);
    ForestOne(leaf, last, Parent(l, r));
    ForestTwo(leaf, last, l, r);
    ForestConcat(leaf, last, [l, r], rest);
  }

  /** What the next level performs is what this one performs and the new parents. */
  ghost predicate LevelAdds<T>(leaf: Node -> seq<T>, last: Node -> T, ns: seq<Node>) {
    multiset(ForestCalls(leaf, last, PairUp(ns)))
    == multiset(ForestCalls(leaf, last, ns)) + multiset(PairCalls(last, ns))
  }

  lemma LevelAddsShort<T>(leaf: Node -> seq<T>, last: Node -> T, ns: seq<Node>)
    requires |ns| < 2
    ensures LevelAdds(leaf, last, ns)
  {
    assert PairUp(ns) == ns && PairCalls(last, ns) == [];
  }

  lemma PairUpCons<T>(last: Node -> T, l: Node, r: Node, rest: seq<Node>)
    ensures PairUp([l, r] + rest) == [Parent(l, r)] + PairUp(rest)
    ensures PairCalls(last, [l, r] + rest) == [last(Parent(l, r))] + PairCalls(last, rest)
  {
    assert ([l, r] + rest)[2..] == rest;
  }

  lemma LevelAddsStep<T>(leaf: Node -> seq<T>, last: Node -> T, l: Node, r: Node, rest: seq<Node>)
    requires LevelAdds(leaf, last, rest)
    ensures LevelAdds(leaf, last, [l, r] + rest)
  {
    PairUpCons(last, l, r, rest);
    PairUpHead(leaf, last, l, r, rest, PairUp(rest));
    MultisetRegroup(TreeCalls(leaf, last, l), TreeCalls(leaf, last, r), last(Parent(l, r)),
                    ForestCalls(leaf, last, PairUp(rest)), ForestCalls(leaf, last, rest), PairCalls(last, rest));
  }

  /** One level adds to what the forest performs exactly what its new parents perform. */
  lemma {:induction false} PairUpCalls<T>(leaf: Node -> seq<T>, last: Node -> T, ns: seq<Node>)
    ensures LevelAdds(leaf, last, ns)
    decreases |ns|
  {
    if |ns| < 2 {
      LevelAddsShort(leaf, last, ns);
    } else {
      PairUpCalls(leaf, last, ns[2..]);
      LevelAddsStep(leaf, last, ns[0], ns[1], ns[2..]);
      assert ns == [ns[0], ns[1]] + ns[2..];
    }
  }

  /** The first i nodes have been merged. */
  ghost predicate Merged<T, U>(cv: Node -> T, last: Node -> U, ns: seq<Node>, i: nat, next: seq<T>, calls: seq<U>) {
    i <= |ns| && i % 2 == 0 && next == MapNodes(cv, PairUp(ns[..i])) && calls == PairCalls(last, ns[..i])
  }

  lemma {:induction false} PairCallsConcat<T>(last: Node -> T, a: seq<Node>, b: seq<Node>)
    requires |a| % 2 == 0
    ensures PairCalls(last, a + b) == PairCalls(last, a) + PairCalls(last, b)
    decreases |a|
  {
    if a == [] {
      assert a + b == b;
    } else {
      assert (a + b)[2..] == a[2..] + b;
      PairCallsConcat(last, a[2..], b);
    }
  }

  lemma MapConcat<T>(f: Node -> T, a: seq<Node>, b: seq<Node>)
    ensures MapNodes(f, a + b) == MapNodes(f, a) + MapNodes(f, b)
  {
  }

  lemma MergedNext<T, U>(cv: Node -> T, last: Node -> U, ns: seq<Node>, i: nat, next: seq<T>, calls: seq<U>)
    requires Merged(cv, last, ns, i, next, calls) && i + 1 < |ns|
    ensures var p := Parent(ns[i], ns[i + 1]); Merged(cv, last, ns, i + 2, next + [cv(p)], calls + [last(p)])
  {
    var done, pair := ns[..i], [ns[i], ns[i + 1]];
    assert ns[..i + 2] == done + pair;
    assert pair[2..] == [];
    PairUpConcat(done, pair);
    MapConcat(cv, PairUp(done), PairUp(pair));
    PairCallsConcat(last, done, pair);
  }

  lemma MergedSplit<T, U>(cv: Node -> T, last: Node -> U, done: seq<Node>, tail: seq<Node>)
    requires |done| % 2 == 0 && |tail| <= 1
    ensures MapNodes(cv, PairUp(done + tail)) == MapNodes(cv, PairUp(done)) + MapNodes(cv, tail)
    ensures PairCalls(last, done + tail) == PairCalls(last, done)
  {
    PairUpConcat(done, tail);
    MapConcat(cv, PairUp(done), tail);
    PairCallsConcat(last, done, tail);
  }

  /** At the end at most one node is left over; it moves up unchanged. */
  lemma MergedDone<T, U>(cv: Node -> T, last: Node -> U, ns: seq<Node>, i: nat, next: seq<T>, calls: seq<U>)
    requires Merged(cv, last, ns, i, next, calls) && i + 1 >= |ns|
    ensures MapNodes(cv, PairUp(ns)) == next + MapNodes(cv, ns[i..]) && PairCalls(last, ns) == calls
  {
    MergedSplit(cv, last, ns[..i], ns[i..]);
    assert ns[..i] + ns[i..] == ns;
  }

  /** Adding one more leaf to a forest. */
  lemma ForestNext<T, U>(cv: Node -> T, leaf: Node -> seq<U>, last: Node -> U, ns: seq<Node>, i: nat)
    requires i < |ns|
    ensures MapNodes(cv, ns[..i + 1]) == MapNodes(cv, ns[..i]) + [cv(ns[i])]
    ensures ForestCalls(leaf, last, ns[..i + 1]) == ForestCalls(leaf, last, ns[..i]) + TreeCalls(leaf, last, ns[i])
  {
    assert ns[..i + 1] == ns[..i] + [ns[i]];
    ForestConcat(leaf, last, ns[..i], [ns[i]]);
    ForestOne(leaf, last, ns[i]);
  }

  function BlockCount(len: nat): nat {
    if len == 0 then 1 else (len + BLOCK_LEN - 1) / BLOCK_LEN
  }

  /** Blocks and chunks of data cut after l whole chunks. */
  lemma CountsSplit(len: nat, l: nat)
    requires 0 < l && l * CHUNK_LEN < len
    ensures ChunkCount(len) == ChunkCount(l * CHUNK_LEN) + ChunkCount(len - l * CHUNK_LEN)
    ensures BlockCount(len) == BlockCount(l * CHUNK_LEN) + BlockCount(len - l * CHUNK_LEN)
  {
    var rest := len - l * CHUNK_LEN;
    assert l * CHUNK_LEN == 1024 * l;
    assert BlockCount(l * CHUNK_LEN) == 16 * l && BlockCount(len) == 16 * l + BlockCount(rest);
  }

  lemma ParentCount<T>(leaf: Node -> seq<T>, last: Node -> T, l: Node, r: Node)
    ensures |TreeCalls(leaf, last, Parent(l, r))| == |TreeCalls(leaf, last, l)| + |TreeCalls(leaf, last, r)| + 1
  {
  }

  ghost predicate BlocksAt<T>(leaf: Node -> seq<T>, n: Node) {
    n.Leaf? ==> |leaf(n)| == BlockCount(|n.chunk|)
  }

  /** The number of things performed at the tree of some data. */
  lemma {:induction false} CallsCount<T>(leaf: Node -> seq<T>, last: Node -> T, data: seq<Byte>, counter: nat)
    requires forall n: Node :: BlocksAt(leaf, n)
    ensures |TreeCalls(leaf, last, TreeOf(data, counter))| == BlockCount(|data|) + ChunkCount(|data|) - 1
    decreases |data|
  {
    if |data| > CHUNK_LEN {
      var l := LeftCount(ChunkCount(|data|));
      var cut := l * CHUNK_LEN;
      assert 0 < l && cut < |data|;
      CallsCount(leaf, last, data[..cut], counter);
      CallsCount(leaf, last, data[cut..], counter + l);
      CountsSplit(|data|, l);
      ParentCount(leaf, last, TreeOf(data[..cut], counter), TreeOf(data[cut..], counter + l));
    } else {
      assert BlocksAt(leaf, Leaf(data, counter));
    }
  }

  // ----- Hashing -----

  ghost predicate OnlyLastIsRoot(trace: seq<Call>) {
    trace != [] && trace[|trace| - 1].IsRoot() && forall i | 0 <= i < |trace| - 1 :: !trace[i].IsRoot()
  }

  function BlockEnd(len: nat, i: nat): nat {
    if (i + 1) * BLOCK_LEN <= len then (i + 1) * BLOCK_LEN else len
  }

  /** A hash mode: the compression function, the key words and the mode flags. */
  datatype Hasher = Hasher(compress: Call -> Block, key: Cv, flags: bv32) {

    function First8(c: Call): Cv {
      compress(c)[..8]
    }

    /** The compression of block i of a chunk, given the chaining value before it. */
    function BlockCall(cv: Cv, chunk: seq<Byte>, counter: nat, i: nat): Call
      requires i < BlockCount(|chunk|)
    {
      var from, to := i * BLOCK_LEN, BlockEnd(|chunk|, i);
      Call(cv, BlockToWords(chunk[from..to]), counter, to - from,
           (flags | (if i == 0 then CHUNK_START else 0)) | (if i == BlockCount(|chunk|) - 1 then CHUNK_END else 0))
    }

    /** The chaining value after the first i blocks of a chunk. */
    function CvAfter(chunk: seq<Byte>, counter: nat, i: nat): Cv
      requires i <= BlockCount(|chunk|)
    {
      if i == 0 then key else First8(BlockCall(CvAfter(chunk, counter, i - 1), chunk, counter, i - 1))
    }

    /** The arguments of `parent_cv`. */
    function ParentCall(l: Cv, r: Cv): Call {
      Call(key, Join(l, r), 0, BLOCK_LEN, flags | PARENT)
    }

    function Rooted(c: Call): Call {
      c.(flags := c.flags | ROOT)
    }

    /** The last compression of a subtree, before the root flag is considered. */
    function LastCall(n: Node): Call
      decreases n, 0
    {
      match n
      case Leaf(chunk, counter) =>
        var last := BlockCount(|chunk|) - 1;
        BlockCall(CvAfter(chunk, counter, last), chunk, counter, last)
      case Parent(l, r) => ParentCall(CvOf(l), CvOf(r))
    }

    function CvOf(n: Node): Cv
      decreases n, 1
    {
      First8(LastCall(n))
    }

    /** The hash of the specification: the last compression of the root, with the root flag. */
    function Digest(data: seq<Byte>): seq<Byte> {
      RootDigest(LastCall(TreeOf(data, 0)))
    }

    function RootDigest(last: Call): seq<Byte> {
      CvToBytes(First8(Rooted(last)))
    }

    // ----- The compressions of a tree -----

    /** The first n compressions of a chunk, block by block. */
    function ChunkCalls(chunk: seq<Byte>, counter: nat, n: nat): (r: seq<Call>)
      requires n <= BlockCount(|chunk|)
      ensures |r| == n
    {
      if n == 0 then []
      else ChunkCalls(chunk, counter, n - 1) + [BlockCall(CvAfter(chunk, counter, n - 1), chunk, counter, n - 1)]
    }

    function LeafCalls(n: Node): seq<Call> {
      if n.Leaf? then ChunkCalls(n.chunk, n.counter, BlockCount(|n.chunk|)) else []
    }

    /** The trace holds the compressions of the tree, each once, with the root flag added to the last. */
    ghost predicate Performs(trace: seq<Call>, n: Node) {
      && trace != [] && trace[|trace| - 1] == Rooted(LastCall(n))
      && multiset(trace[..|trace| - 1]) + multiset{LastCall(n)} == multiset(TreeCalls(LeafCalls, LastCall, n))
    }

    lemma {:induction false} ChunkCallsPlain(chunk: seq<Byte>, counter: nat, n: nat)
      requires flags & ROOT == 0 && n <= BlockCount(|chunk|)
      ensures forall c | c in ChunkCalls(chunk, counter, n) :: !c.IsRoot()
      decreases n
    {
      if n > 0 {
        ChunkCallsPlain(chunk, counter, n - 1);
      }
    }

    lemma {:induction false} CallsPlain(n: Node)
      requires flags & ROOT == 0
      ensures forall c | c in TreeCalls(LeafCalls, LastCall, n) :: !c.IsRoot()
    {
      match n
      case Leaf(chunk, counter) => ChunkCallsPlain(chunk, counter, BlockCount(|chunk|));
      case Parent(l, r) =>
        CallsPlain(l);
        CallsPlain(r);
    }

    lemma RootedIsRoot(c: Call)
      ensures Rooted(c).IsRoot()
    {
    }

    /** The root flag is in the last compression of a tree and in no other. */
    lemma PerformsOneRoot(trace: seq<Call>, n: Node)
      requires flags & ROOT == 0 && Performs(trace, n)
      ensures OnlyLastIsRoot(trace)
    {
      CallsPlain(n);
      RootedIsRoot(LastCall(n));
      var front := trace[..|trace| - 1];
      forall i | 0 <= i < |trace| - 1 ensures !trace[i].IsRoot() {
        assert trace[i] == front[i] && front[i] in multiset(front);
        assert front[i] in multiset(TreeCalls(LeafCalls, LastCall, n));
      }
    }

    /** A hash makes one compression per block and one per pair of subtrees. */
    lemma PerformsCount(trace: seq<Call>, data: seq<Byte>)
      requires Performs(trace, TreeOf(data, 0))
      ensures |trace| == BlockCount(|data|) + ChunkCount(|data|) - 1
    {
      var n := TreeOf(data, 0);
      var front, calls := trace[..|trace| - 1], TreeCalls(LeafCalls, LastCall, n);
      CallsCount(LeafCalls, LastCall, data, 0);
      assert |multiset(front) + multiset{LastCall(n)}| == |front| + 1;
      assert |multiset(calls)| == |calls|;
    }

    lemma PerformsLast(trace: seq<Call>, n: Node, last: Call, trace': seq<Call>)
      requires multiset(trace) + multiset{last} == multiset(TreeCalls(LeafCalls, LastCall, n)) && last == LastCall(n)
      requires trace' == trace + [Rooted(last)]
      ensures Performs(trace', n)
    {
      assert trace'[..|trace'| - 1] == trace;
    }

    lemma DigestOfChunk(data: seq<Byte>)
      requires |data| <= CHUNK_LEN
      ensures var last := BlockCount(|data|) - 1;
              && LastCall(TreeOf(data, 0)) == BlockCall(CvAfter(data, 0, last), data, 0, last)
              && TreeCalls(LeafCalls, LastCall, TreeOf(data, 0))
                 == ChunkCalls(data, 0, last) + [LastCall(TreeOf(data, 0))]
    {
    }

    lemma DigestOfPair(data: seq<Byte>, ns: seq<Node>)
      requires |ns| == 2 && Merge(ns) == TreeOf(data, 0)
      ensures LastCall(TreeOf(data, 0)) == ParentCall(CvOf(ns[0]), CvOf(ns[1]))
      ensures TreeCalls(LeafCalls, LastCall, TreeOf(data, 0))
           == ForestCalls(LeafCalls, LastCall, ns) + [LastCall(TreeOf(data, 0))]
    {
      assert ns[..1] == [ns[0]] && ns[1..] == [ns[1]] && ns == [ns[0], ns[1]];
      ForestTwo(LeafCalls, LastCall, ns[0], ns[1]);
    }

    /** The first i leaves have been hashed. */
    ghost predicate Hashed(ns: seq<Node>, i: nat, cvs: seq<Cv>, calls: seq<Call>) {
      && i <= |ns| && cvs == MapNodes(CvOf, ns[..i])
      && calls == ForestCalls(LeafCalls, LastCall, ns[..i])
    }

    lemma HashedStart(ns: seq<Node>)
      ensures Hashed(ns, 0, [], [])
    {
    }

    lemma HashedNext(ns: seq<Node>, i: nat, cvs: seq<Cv>, calls: seq<Call>)
      requires Hashed(ns, i, cvs, calls) && i < |ns| && ns[i].Leaf?
      ensures Hashed(ns, i + 1, cvs + [CvOf(ns[i])], calls + LeafCalls(ns[i]))
    {
      ForestNext(CvOf, LeafCalls, LastCall, ns, i);
    }

    /** The loop over levels: the values of a forest that merges to the tree, and the compressions made so far. */
    ghost predicate Level(data: seq<Byte>, ns: seq<Node>, cvs: seq<Cv>, calls: seq<Call>) {
      && |ns| >= 2 && cvs == MapNodes(CvOf, ns) && Merge(ns) == TreeOf(data, 0)
      && multiset(calls) == multiset(ForestCalls(LeafCalls, LastCall, ns))
    }

    lemma LevelStart(data: seq<Byte>, cvs: seq<Cv>, calls: seq<Call>)
      requires |data| > CHUNK_LEN && Hashed(Leaves(data, 0), |Leaves(data, 0)|, cvs, calls)
      ensures Level(data, Leaves(data, 0), cvs, calls)
    {
      var ns := Leaves(data, 0);
      TreeIsMerge(data, 0);
      assert ns[..|ns|] == ns;
    }

    lemma LevelNext(data: seq<Byte>, ns: seq<Node>, cvs: seq<Cv>, calls: seq<Call>)
      requires Level(data, ns, cvs, calls) && |cvs| > 2
      ensures Level(data, PairUp(ns), MapNodes(CvOf, PairUp(ns)), calls + PairCalls(LastCall, ns))
    {
      MergePairUp(ns);
      PairUpCalls(LeafCalls, LastCall, ns);
    }

    lemma LevelDone(data: seq<Byte>, ns: seq<Node>, cvs: seq<Cv>, calls: seq<Call>)
      requires Level(data, ns, cvs, calls) && |cvs| <= 2
      ensures |cvs| == 2
      ensures var last := ParentCall(cvs[0], cvs[1]);
              last == LastCall(TreeOf(data, 0)) && Performs(calls + [Rooted(last)], TreeOf(data, 0))
    {
      DigestOfPair(data, ns);
      var last := ParentCall(cvs[0], cvs[1]);
      PerformsLast(calls, TreeOf(data, 0), last, calls + [Rooted(last)]);
    }

    lemma EmptyLastCall(last: Call)
      requires last == Call(key, seq(16, _ => 0), 0, 0, flags | CHUNK_START | CHUNK_END)
      ensures last == LastCall(TreeOf([], 0)) && Performs([Rooted(last)], TreeOf([], 0))
    {
      assert BlockToWords([]) == seq(16, _ => 0);
      DigestOfChunk([]);
      PerformsLast([], TreeOf([], 0), last, [Rooted(last)]);
    }
  }

  lemma Regroup<T>(a: seq<T>, b: seq<T>, c: seq<T>)
    ensures a + b + c == a + (b + c)
  {
  }

  /** One use of a hash mode. Every compression goes through `Compress`, which records it. */
  class Compressor {
    const mode: Hasher
    ghost var trace: seq<Call>

    constructor (mode: Hasher)
      ensures this.mode == mode && trace == []
    {
      this.mode, trace := mode, [];
    }

    method Compress(c: Call) returns (cv: Cv)
      modifies this
      ensures cv == mode.First8(c) && trace == old(trace) + [c]
    {
      cv, trace := mode.compress(c)[..8], trace + [c];
    }

    method ProcessBlocks(chunk: seq<Byte>, counter: nat, n: nat) returns (cv: Cv)
      requires n <= BlockCount(|chunk|)
      modifies this
      ensures cv == mode.CvAfter(chunk, counter, n) && trace == old(trace) + mode.ChunkCalls(chunk, counter, n)
    {
      cv := mode.key;
      for i := 0 to n
        invariant cv == mode.CvAfter(chunk, counter, i)
        invariant trace == old(trace) + mode.ChunkCalls(chunk, counter, i)
      {
        cv := Compress(mode.BlockCall(cv, chunk, counter, i));
      }
    }

    /** `process_chunk`: the blocks of the chunk are compressed in order. */
    method ProcessChunk(chunk: seq<Byte>, counter: nat) returns (cv: Cv)
      modifies this
      ensures cv == mode.CvOf(Leaf(chunk, counter))
      ensures trace == old(trace) + mode.LeafCalls(Leaf(chunk, counter))
    {
      cv := ProcessBlocks(chunk, counter, BlockCount(|chunk|));
    }

    /** One pass of the merge loop: the values of the pairs, and one compression for each. */
    method MergeLevel(cvs: seq<Cv>, ghost ns: seq<Node>) returns (next: seq<Cv>)
      requires cvs == MapNodes(mode.CvOf, ns)
      modifies this
      ensures next == MapNodes(mode.CvOf, PairUp(ns))
      ensures trace == old(trace) + PairCalls(mode.LastCall, ns)
    {
      next := [];
      ghost var calls: seq<Call> := [];
      assert ns[..0] == [];
      var i := 0;
      while i + 1 < |cvs|
        invariant Merged(mode.CvOf, mode.LastCall, ns, i, next, calls) && trace == old(trace) + calls
      {
        var c := mode.ParentCall(cvs[i], cvs[i + 1]);
        MergedNext(mode.CvOf, mode.LastCall, ns, i, next, calls);
        var cv := Compress(c);
        next, calls, i := next + [cv], calls + [c], i + 2;
      }
      MergedDone(mode.CvOf, mode.LastCall, ns, i, next, calls);
      if i < |cvs| {
        next := next + [cvs[i]];
      }
    }

    /** `root_output`. */
    method RootOutput(last: Call) returns (digest: seq<Byte>)
      modifies this
      ensures digest == mode.RootDigest(last) && trace == old(trace) + [mode.Rooted(last)]
    {
      var cv := Compress(mode.Rooted(last));
      digest := CvToBytes(cv);
    }

    /** The branch of `blake3_internal` for no data. */
    method HashNothing() returns (digest: seq<Byte>, ghost calls: seq<Call>)
      modifies this
      ensures digest == mode.Digest([]) && trace == old(trace) + calls && mode.Performs(calls, TreeOf([], 0))
    {
      var last := Call(mode.key, seq(16, _ => 0), 0, 0, mode.flags | CHUNK_START | CHUNK_END);
      mode.EmptyLastCall(last);
      digest := RootOutput(last);
      calls := [mode.Rooted(last)];
    }

    /** The branch of `blake3_internal` for one chunk. */
    method HashChunk(data: seq<Byte>) returns (digest: seq<Byte>, ghost calls: seq<Call>)
      requires 0 < |data| <= CHUNK_LEN
      modifies this
      ensures digest == mode.Digest(data) && trace == old(trace) + calls && mode.Performs(calls, TreeOf(data, 0))
    {
      mode.DigestOfChunk(data);
      var last := BlockCount(|data|) - 1;
      var cv := ProcessBlocks(data, 0, last);
      digest := RootOutput(mode.BlockCall(cv, data, 0, last));
      ghost var front := mode.ChunkCalls(data, 0, last);
      calls := front + [mode.Rooted(mode.LastCall(TreeOf(data, 0)))];
      mode.PerformsLast(front, TreeOf(data, 0), mode.LastCall(TreeOf(data, 0)), calls);
    }

    method HashLeaves(data: seq<Byte>) returns (cvs: seq<Cv>, ghost calls: seq<Call>)
      requires |data| > 0
      modifies this
      ensures trace == old(trace) + calls && mode.Hashed(Leaves(data, 0), |Leaves(data, 0)|, cvs, calls)
    {
      cvs, calls := [], [];
      ghost var ns := Leaves(data, 0);
      mode.HashedStart(ns);
      for i := 0 to ChunkCount(|data|)
        invariant trace == old(trace) + calls && mode.Hashed(ns, i, cvs, calls)
      {
        mode.HashedNext(ns, i, cvs, calls);
        Regroup(old(trace), calls, mode.LeafCalls(ns[i]));
        var cv := ProcessChunk(data[i * CHUNK_LEN..ChunkEnd(|data|, i)], i);
        cvs, calls := cvs + [cv], calls + mode.LeafCalls(ns[i]);
      }
    }

    /** The branch of `blake3_internal` for several chunks. */
    method HashChunks(data: seq<Byte>) returns (digest: seq<Byte>, ghost calls: seq<Call>)
      requires |data| > CHUNK_LEN
      modifies this
      ensures digest == mode.Digest(data) && trace == old(trace) + calls && mode.Performs(calls, TreeOf(data, 0))
    {
      var cvs;
      cvs, calls := HashLeaves(data);
      ghost var ns := Leaves(data, 0);
      mode.LevelStart(data, cvs, calls);
      while |cvs| > 2
        invariant trace == old(trace) + calls && mode.Level(data, ns, cvs, calls)
      {
        mode.LevelNext(data, ns, cvs, calls);
        Regroup(old(trace), calls, PairCalls(mode.LastCall, ns));
        cvs := MergeLevel(cvs, ns);
        calls, ns := calls + PairCalls(mode.LastCall, ns), PairUp(ns);
      }
      mode.LevelDone(data, ns, cvs, calls);  // two values: the one-value branch of the source is never taken
      Regroup(old(trace), calls, [mode.Rooted(mode.ParentCall(cvs[0], cvs[1]))]);
      digest := RootOutput(mode.ParentCall(cvs[0], cvs[1]));
      calls := calls + [mode.Rooted(mode.ParentCall(cvs[0], cvs[1]))];
    }

    /** `blake3_internal`: the digest of the specification, by the compressions of its tree, each made once. */
    method Blake3Internal(data: seq<Byte>) returns (digest: seq<Byte>, ghost calls: seq<Call>)
      modifies this
      ensures digest == mode.Digest(data) && trace == old(trace) + calls && mode.Performs(calls, TreeOf(data, 0))
      ensures |calls| == BlockCount(|data|) + ChunkCount(|data|) - 1
      ensures mode.flags & ROOT == 0 ==> OnlyLastIsRoot(calls)
    {
      if |data| == 0 {
        digest, calls := HashNothing();
      } else if ChunkCount(|data|) == 1 {
        digest, calls := HashChunk(data);
      } else {
        digest, calls := HashChunks(data);
      }
      mode.PerformsCount(calls, data);
      if mode.flags & ROOT == 0 {
        mode.PerformsOneRoot(calls, TreeOf(data, 0));
      }
    }
  }
}
