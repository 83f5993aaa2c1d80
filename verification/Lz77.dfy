/** Model of src/compress.rs: LZ77 tokens, the flag-block byte format and the
    compressor and decompressor built on them. */
module Lz77 {
  import opened Prelude

  const WINDOW_SIZE: nat := 4096
  const MIN_MATCH_LEN: nat := 3
  const MAX_MATCH_LEN: nat := 258

  datatype Token = Literal(b: Byte) | Match(offset: nat, length: nat) {
    /** The fields fit the byte format. */
    predicate Valid() {
      Match? ==> offset < 0x1_0000 && MIN_MATCH_LEN <= length <= MAX_MATCH_LEN
    }

    /** The number of bytes the token takes in the byte format, its flag bit aside. */
    function Width(): nat {
      if Match? then 3 else 1
    }

    /** The number of bytes the token stands for. */
    function Span(): nat {
      if Match? then length else 1
    }
  }

  // ----- Finding matches -----

  function WindowStart(pos: nat): nat {
    if pos >= WINDOW_SIZE then pos - WINDOW_SIZE else 0
  }

  /** The `len` bytes at `c` equal the `len` bytes at `pos`; the two ranges may overlap. */
  predicate Agrees(data: seq<Byte>, c: nat, pos: nat, len: nat) {
    c < pos && pos + len <= |data| && forall j | pos <= j < pos + len :: data[j] == data[j - (pos - c)]
  }

  /** `len` is a match length that the format can carry. */
  predicate IsCandidate(data: seq<Byte>, c: nat, pos: nat, len: nat) {
    WindowStart(pos) <= c && MIN_MATCH_LEN <= len <= MAX_MATCH_LEN && Agrees(data, c, pos, len)
  }

  /** `(offset, length)` is the longest match at `pos`, the farthest one on ties; (0, 0) when there is none. */
  ghost predicate Longest(data: seq<Byte>, pos: nat, offset: nat, length: nat) {
    if length == 0 then
      offset == 0 && forall c: nat, len: nat :: !IsCandidate(data, c, pos, len)
    else
      && 0 < offset <= pos
      && IsCandidate(data, pos - offset, pos, length)
      && (forall c: nat, len: nat :: IsCandidate(data, c, pos, len) ==> len <= length)
      && (forall c: nat, len: nat :: c < pos - offset && IsCandidate(data, c, pos, len) ==> len < length)
  }

  method FindLongestMatch(data: seq<Byte>, pos: nat) returns (offset: nat, length: nat)
    requires pos <= |data|
    ensures Longest(data, pos, offset, length)
  {
    var windowStart := WindowStart(pos);
    var remaining := |data| - pos;
    var maxLen := if remaining < MAX_MATCH_LEN then remaining else MAX_MATCH_LEN;
    offset, length := 0, 0;
    var candidate := windowStart;
    while candidate < pos
      invariant windowStart <= candidate <= pos
      invariant length == 0 ==> offset == 0
      invariant length != 0 ==> 0 < offset <= pos && pos - offset < candidate
      invariant length != 0 ==> IsCandidate(data, pos - offset, pos, length) && length < maxLen
      invariant forall c: nat, len: nat :: c < candidate && IsCandidate(data, c, pos, len) ==> len <= length
      invariant forall c: nat, len: nat ::
                  c < pos - offset && length != 0 && IsCandidate(data, c, pos, len) ==> len < length
    {
      var len := 0;
      while len < maxLen && data[candidate + len] == data[pos + len]
        invariant 0 <= len <= maxLen
        invariant Agrees(data, candidate, pos, len)
      {
        len := len + 1;
      }
      assert forall l: nat :: IsCandidate(data, candidate, pos, l) ==> l <= len;
      if len >= MIN_MATCH_LEN && len > length {
        offset := pos - candidate;
        length := len;
        if len == maxLen {
          break;
        }
      }
      candidate := candidate + 1;
    }
  }

  // ----- Token streams -----

  /** `ts` is the greedy parse of `data[pos..end]`: a longest match where there is one, else a literal. */
  ghost predicate GreedyTo(data: seq<Byte>, pos: nat, ts: seq<Token>, end: nat)
    decreases |ts|
  {
    if ts == [] then pos == end
    else
      && pos < |data|
      && (match ts[0]
          case Literal(b) => b == data[pos] && Longest(data, pos, 0, 0)
          case Match(o, l) => l != 0 && Longest(data, pos, o, l))
      && GreedyTo(data, pos + ts[0].Span(), ts[1..], end)
  }

  /** `ts` is the greedy parse of all of `data[pos..]`. */
  ghost predicate Greedy(data: seq<Byte>, pos: nat, ts: seq<Token>) {
    GreedyTo(data, pos, ts, |data|)
  }

  lemma {:induction false} GreedyToAppend(data: seq<Byte>, pos: nat, ts: seq<Token>, end: nat, t: Token)
    requires GreedyTo(data, pos, ts, end)
    requires GreedyTo(data, end, [t], end + t.Span())
    ensures GreedyTo(data, pos, ts + [t], end + t.Span())
    decreases |ts|
  {
    if ts == [] {
      assert ts + [t] == [t];
    } else {
      assert (ts + [t])[1..] == ts[1..] + [t];
      GreedyToAppend(data, pos + ts[0].Span(), ts[1..], end, t);
    }
  }

  method Tokenise(data: seq<Byte>) returns (tokens: seq<Token>)
    ensures Greedy(data, 0, tokens)
  {
    tokens := [];
    var pos := 0;
    while pos < |data|
      invariant 0 <= pos <= |data|
      invariant GreedyTo(data, 0, tokens, pos)
    {
      var offset, length := FindLongestMatch(data, pos);
      ghost var t := if length >= MIN_MATCH_LEN then Match(offset, length) else Literal(data[pos]);
      assert GreedyTo(data, pos, [t], pos + t.Span()) by { assert [t][1..] == []; }
      GreedyToAppend(data, 0, tokens, pos, t);
      if length >= MIN_MATCH_LEN {
        tokens := tokens + [Match(offset, length)];
        pos := pos + length;
      } else {
        tokens := tokens + [Literal(data[pos])];
        pos := pos + 1;
      }
    }
  }

  /** Two greedy parses of the same bytes are the same: the compressor's choice is determined. */
  lemma {:induction false} GreedyUnique(data: seq<Byte>, pos: nat, ts: seq<Token>, us: seq<Token>)
    requires Greedy(data, pos, ts) && Greedy(data, pos, us)
    ensures ts == us
    decreases |ts|
  {
    if ts == [] || us == [] {
    } else {
      match (ts[0], us[0]) {
        case (Literal(_), Literal(_)) =>
        case (Match(o, l), Match(p, m)) =>
          assert IsCandidate(data, pos - o, pos, l) && IsCandidate(data, pos - p, pos, m);
        case _ =>
      }
      GreedyUnique(data, pos + ts[0].Span(), ts[1..], us[1..]);
    }
  }

  // ----- Replaying tokens -----

  /** Append `n` bytes, each read `offset` bytes before the end reached so far. */
  function CopyBack(out: seq<Byte>, offset: nat, n: nat): (r: seq<Byte>)
    requires 0 < offset <= |out|
    ensures |r| == |out| + n && out <= r
    decreases n
  {
    if n == 0 then out else CopyBack(out + [out[|out| - offset]], offset, n - 1)
  }

  /** The bytes that `ts` appends to `out`; None where a reference leaves the output and indexing panics. */
  function Replay(out: seq<Byte>, ts: seq<Token>): Option<seq<Byte>>
    decreases |ts|
  {
    if ts == [] then Some(out)
    else match ts[0]
      case Literal(b) => Replay(out + [b], ts[1..])
      case Match(o, l) =>
        if 0 < o <= |out| then Replay(CopyBack(out, o, l), ts[1..]) else None
  }

  lemma {:induction false} CopyBackRebuilds(data: seq<Byte>, pos: nat, offset: nat, n: nat)
    requires 0 < offset <= pos && Agrees(data, pos - offset, pos, n)
    ensures CopyBack(data[..pos], offset, n) == data[..pos + n]
    decreases n
  {
    if n != 0 {
      assert data[..pos] + [data[pos - offset]] == data[..pos + 1];
      CopyBackRebuilds(data, pos + 1, offset, n - 1);
    }
  }

  /** Replaying a greedy parse restores the data, overlapping references included. */
  lemma {:induction false} ReplayGreedy(data: seq<Byte>, pos: nat, ts: seq<Token>)
    requires pos <= |data| && Greedy(data, pos, ts)
    ensures Replay(data[..pos], ts) == Some(data)
    decreases |ts|
  {
    if ts == [] {
      assert data[..pos] == data;
    } else {
      match ts[0] {
        case Literal(b) => assert data[..pos] + [b] == data[..pos + 1];
        case Match(o, l) => CopyBackRebuilds(data, pos, o, l);
      }
      ReplayGreedy(data, pos + ts[0].Span(), ts[1..]);
    }
  }

  // ----- The byte format -----

  /** Bit i of the flags byte says whether token i of the block is a match. */
  function FlagsOf(block: seq<Token>): (r: nat)
    ensures r < Pow2(|block|)
  {
    if block == [] then 0
    else (if block[0].Match? then 1 else 0) + 2 * FlagsOf(block[1..])
  }

  function TokenBytes(t: Token): seq<Byte>
    requires t.Valid()
  {
    match t
    case Literal(b) => [b]
    case Match(o, l) => [o % 256, o / 256, l - MIN_MATCH_LEN]
  }

  function Payload(block: seq<Token>): seq<Byte>
    requires forall t | t in block :: t.Valid()
  {
    if block == [] then [] else TokenBytes(block[0]) + Payload(block[1..])
  }

  function BlockLen(n: nat): nat {
    if n < 8 then n else 8
  }

  lemma Pow2Of8()
    ensures Pow2(8) == 256
  {
    assert Pow2(4) == 16;
  }

  lemma {:induction false} Pow2Mono(a: nat, b: nat)
    requires a <= b
    ensures Pow2(a) <= Pow2(b)
  {
    if a < b {
      Pow2Mono(a, b - 1);
    }
  }

  function FlagsByte(block: seq<Token>): Byte
    requires |block| <= 8
  {
    Pow2Of8();
    Pow2Mono(|block|, 8);
    FlagsOf(block)
  }

  /** The byte format: blocks of up to eight tokens, each a flags byte and its payload. */
  function Encode(ts: seq<Token>): seq<Byte>
    requires forall t | t in ts :: t.Valid()
    decreases |ts|
  {
    if ts == [] then []
    else
      var n := BlockLen(|ts|);
      [FlagsByte(ts[..n])] + Payload(ts[..n]) + Encode(ts[n..])
  }

  lemma {:induction false} FlagsAppend(block: seq<Token>, t: Token)
    ensures FlagsOf(block + [t]) == FlagsOf(block) + (if t.Match? then Pow2(|block|) else 0)
  {
    if block == [] {
      assert block + [t] == [t];
      assert [t][1..] == [];
    } else {
      assert (block + [t])[1..] == block[1..] + [t];
      FlagsAppend(block[1..], t);
    }
  }

  lemma {:induction false} PayloadAppend(block: seq<Token>, t: Token)
    requires t.Valid() && forall u | u in block :: u.Valid()
    ensures Payload(block + [t]) == Payload(block) + TokenBytes(t)
  {
    if block == [] {
      assert block + [t] == [t];
      assert [t][1..] == [];
    } else {
      assert (block + [t])[1..] == block[1..] + [t];
      PayloadAppend(block[1..], t);
    }
  }

  /** The first inner loop of `encode_tokens`. */
  method BuildFlags(block: seq<Token>) returns (flags: Byte)
    requires |block| <= 8
    ensures flags == FlagsByte(block)
  {
    Pow2Of8();
    var f: nat := 0;
    for bit := 0 to |block|
      invariant f == FlagsOf(block[..bit])
    {
      assert block[..bit + 1] == block[..bit] + [block[bit]];
      FlagsAppend(block[..bit], block[bit]);
      if block[bit].Match? {
        f := f + Pow2(bit);  // bit `bit` is still clear, so adding is or-ing
      }
    }
    assert block[..|block|] == block;
    Pow2Mono(|block|, 8);
    flags := f;
  }

  /** The second inner loop of `encode_tokens`. */
  method EmitPayload(block: seq<Token>) returns (out: seq<Byte>)
    requires forall t | t in block :: t.Valid()
    ensures out == Payload(block)
  {
    out := [];
    for bit := 0 to |block|
      invariant out == Payload(block[..bit])
    {
      assert block[..bit + 1] == block[..bit] + [block[bit]];
      PayloadAppend(block[..bit], block[bit]);
      match block[bit]
      case Literal(b) => out := out + [b];
      case Match(offset, length) => out := out + [offset % 256, offset / 256, length - MIN_MATCH_LEN];
    }
    assert block[..|block|] == block;
  }

  lemma EncodeOnto(out: seq<Byte>, tokens: seq<Token>, i: nat)
    requires i < |tokens| && forall t | t in tokens :: t.Valid()
    ensures var n := BlockLen(|tokens| - i);
            var block := tokens[i..][..n];
            out + Encode(tokens[i..]) == out + [FlagsByte(block)] + Payload(block) + Encode(tokens[i + n..])
  {
    var ts, n := tokens[i..], BlockLen(|tokens| - i);
    assert ts[n..] == tokens[i + n..];
    var f, p, rest := [FlagsByte(ts[..n])], Payload(ts[..n]), Encode(ts[n..]);
    assert out + (f + p + rest) == out + f + p + rest;
  }

  method EncodeTokens(tokens: seq<Token>) returns (out: seq<Byte>)
    requires forall t | t in tokens :: t.Valid()
    ensures out == Encode(tokens)
  {
    out := [];
    var i := 0;
    while i < |tokens|
      invariant 0 <= i <= |tokens|
      invariant Encode(tokens) == out + Encode(tokens[i..])
    {
      var blockLen := if |tokens| - i < 8 then |tokens| - i else 8;
      var block := tokens[i..][..blockLen];
      var flags := BuildFlags(block);
      var payload := EmitPayload(block);
      EncodeOnto(out, tokens, i);
      out := out + [flags] + payload;
      i := i + blockLen;
    }
  }

  function MatchFromBytes(lo: int, hi: int, len: int): Token
    requires 0 <= lo && 0 <= hi && 0 <= len
  {
    Match(lo + 256 * hi, len + MIN_MATCH_LEN)
  }

  /** The token at the start of `s`; None when `s` holds too few bytes. */
  function NextToken(s: seq<Byte>, isMatch: bool): (r: Option<Token>)
    ensures r.Some? ==> r.value.Width() <= |s|
  {
    if s == [] then None
    else if !isMatch then Some(Literal(s[0]))
    else if |s| < 3 then None
    else Some(MatchFromBytes(s[0], s[1], s[2]))
  }

  /** Decode up to `n` tokens of one block onto `acc`; the low bit of `flags` tells the kind of the next token. */
  function DecodeBlock(acc: seq<Token>, s: seq<Byte>, flags: nat, n: nat): (r: (seq<Token>, seq<Byte>))
    ensures |r.1| <= |s|
    decreases |s|  // not n: a literal measure would be unfolded completely
  {
    if n == 0 then (acc, s)
    else match NextToken(s, flags % 2 == 1)
      case None => (acc, s)
      case Some(t) => DecodeBlock(acc + [t], s[t.Width()..], flags / 2, n - 1)
  }

  function Decode(s: seq<Byte>): seq<Token>
    decreases |s|
  {
    if s == [] then []
    else
      var (ts, rest) := DecodeBlock([], s[1..], s[0], 8);
      ts + Decode(rest)
  }

  lemma DecodeBlockUnfold(acc: seq<Token>, s: seq<Byte>, flags: nat, n: nat)
    requires n > 0
    ensures var t := NextToken(s, flags % 2 == 1);
            DecodeBlock(acc, s, flags, n) ==
              if t.None? then (acc, s) else DecodeBlock(acc + [t.value], s[t.value.Width()..], flags / 2, n - 1)
  {
  }

  /** One turn of the inner loop of `decode_tokens`. */
  method ReadToken(data: seq<Byte>, pos: nat, isMatch: bool) returns (t: Option<Token>, next: nat)
    requires pos <= |data|
    ensures t == NextToken(data[pos..], isMatch)
    ensures pos <= next <= |data|
    ensures t.Some? ==> data[pos..][t.value.Width()..] == data[next..]
  {
    t, next := None, pos;
    if pos >= |data| {
      return;
    }
    if isMatch {
      if pos + 2 >= |data| {
        return;
      }
      t := Some(MatchFromBytes(data[pos], data[pos + 1], data[pos + 2]));
      next := pos + 3;
    } else {
      t := Some(Literal(data[pos]));
      next := pos + 1;
    }
  }

  /** The inner loop of `decode_tokens`; `at` is the position after the flags byte. */
  method DecodeBlockTokens(data: seq<Byte>, at: nat, flags: Byte) returns (tokens: seq<Token>, pos: nat)
    requires at <= |data|
    ensures at <= pos <= |data|
    ensures (tokens, data[pos..]) == DecodeBlock([], data[at..], flags, 8)
  {
    tokens, pos := [], at;
    ghost var whole := DecodeBlock([], data[at..], flags, 8);
    for bit := 0 to 8
      invariant at <= pos <= |data|
      invariant DecodeBlock(tokens, data[pos..], Shr(flags, bit), 8 - bit) == whole
    {
      DecodeBlockUnfold(tokens, data[pos..], Shr(flags, bit), 8 - bit);
      var t, next := ReadToken(data, pos, Shr(flags, bit) % 2 == 1);
      if t.None? {
        break;
      }
      tokens := tokens + [t.value];
      pos := next;
    }
  }

  method DecodeTokens(data: seq<Byte>) returns (tokens: seq<Token>)
    ensures tokens == Decode(data)
  {
    tokens := [];
    var pos := 0;
    while pos < |data|
      invariant 0 <= pos <= |data|
      invariant Decode(data) == tokens + Decode(data[pos..])
    {
      assert data[pos..][1..] == data[pos + 1..];
      var block, next := DecodeBlockTokens(data, pos + 1, data[pos]);
      assert tokens + (block + Decode(data[next..])) == (tokens + block) + Decode(data[next..]);
      tokens := tokens + block;
      pos := next;
    }
  }

  lemma DecodeBlockStep(acc: seq<Token>, t: Token, tail: seq<Byte>, flags: nat, n: nat)
    requires t.Valid() && n > 0
    ensures DecodeBlock(acc, TokenBytes(t) + tail, (if t.Match? then 1 else 0) + 2 * flags, n)
         == DecodeBlock(acc + [t], tail, flags, n - 1)
  {
    var s, bits := TokenBytes(t) + tail, (if t.Match? then 1 else 0) + 2 * flags;
    NextTokenOfBytes(t, tail);
    DecodeBlockUnfold(acc, s, bits, n);
    assert bits / 2 == flags;
  }

  lemma NextTokenOfBytes(t: Token, tail: seq<Byte>)
    requires t.Valid()
    ensures NextToken(TokenBytes(t) + tail, t.Match?) == Some(t)
    ensures (TokenBytes(t) + tail)[t.Width()..] == tail
  {
  }

  lemma DecodeBlockHead(acc: seq<Token>, block: seq<Token>, n: nat, rest: seq<Byte>)
    requires block != [] && n > 0 && forall t | t in block :: t.Valid()
    ensures DecodeBlock(acc, Payload(block) + rest, FlagsOf(block), n)
         == DecodeBlock(acc + [block[0]], Payload(block[1..]) + rest, FlagsOf(block[1..]), n - 1)
  {
    var tail := Payload(block[1..]) + rest;
    assert Payload(block) + rest == TokenBytes(block[0]) + tail;
    DecodeBlockStep(acc, block[0], tail, FlagsOf(block[1..]), n);
  }

  lemma {:induction false} DecodeBlockOfPayload(acc: seq<Token>, block: seq<Token>, n: nat, rest: seq<Byte>)
    requires |block| <= n && forall t | t in block :: t.Valid()
    requires |block| == n || rest == []
    ensures DecodeBlock(acc, Payload(block) + rest, FlagsOf(block), n) == (acc + block, rest)
    decreases n
  {
    if block == [] {
      assert Payload(block) + rest == rest && acc + block == acc;
    } else {
      DecodeBlockHead(acc, block, n, rest);
      DecodeBlockOfPayload(acc + [block[0]], block[1..], n - 1, rest);
      assert acc + block == acc + [block[0]] + block[1..];
    }
  }

  lemma DecodeFramed(flags: Byte, payload: seq<Byte>, rest: seq<Byte>, ts: seq<Token>)
    requires DecodeBlock([], payload + rest, flags, 8) == (ts, rest)
    ensures Decode([flags] + payload + rest) == ts + Decode(rest)
  {
    assert ([flags] + payload + rest)[1..] == payload + rest;
  }

  /** The token format round trip, for every stream of valid tokens and every length of the last block. */
  lemma {:induction false} DecodeEncode(ts: seq<Token>)
    requires forall t | t in ts :: t.Valid()
    ensures Decode(Encode(ts)) == ts
    decreases |ts|
  {
    if ts != [] {
      var n := BlockLen(|ts|);
      var block, rest := ts[..n], Encode(ts[n..]);
      DecodeBlockOfPayload([], block, 8, rest);
      assert [] + block == block;
      DecodeFramed(FlagsByte(block), Payload(block), rest, block);
      DecodeEncode(ts[n..]);
      assert ts == ts[..n] + ts[n..];
    }
  }

  // ----- Compression and decompression -----

  lemma {:induction false} GreedyValid(data: seq<Byte>, pos: nat, ts: seq<Token>)
    requires Greedy(data, pos, ts)
    ensures forall t | t in ts :: t.Valid()
    decreases |ts|
  {
    if ts != [] {
      GreedyValid(data, pos + ts[0].Span(), ts[1..]);
      assert ts == [ts[0]] + ts[1..];
    }
  }

  lemma {:induction false} GreedyPayloadSize(data: seq<Byte>, pos: nat, ts: seq<Token>)
    requires pos <= |data| && Greedy(data, pos, ts) && forall t | t in ts :: t.Valid()
    ensures |ts| <= |data| - pos && |Payload(ts)| <= |data| - pos
    decreases |ts|
  {
    if ts != [] {
      GreedyPayloadSize(data, pos + ts[0].Span(), ts[1..]);
    }
  }

  lemma {:induction false} PayloadConcat(a: seq<Token>, b: seq<Token>)
    requires (forall t | t in a :: t.Valid()) && forall t | t in b :: t.Valid()
    ensures Payload(a + b) == Payload(a) + Payload(b)
  {
    if a == [] {
      assert a + b == b;
    } else {
      assert (a + b)[1..] == a[1..] + b;
      PayloadConcat(a[1..], b);
    }
  }

  lemma {:induction false} EncodedSize(ts: seq<Token>)
    requires forall t | t in ts :: t.Valid()
    ensures |Encode(ts)| == |Payload(ts)| + (|ts| + 7) / 8
    decreases |ts|
  {
    if ts != [] {
      var n := BlockLen(|ts|);
      EncodedSize(ts[n..]);
      PayloadConcat(ts[..n], ts[n..]);
      assert ts == ts[..n] + ts[n..];
    }
  }

  /** What `decompress` returns; None where it panics. */
  function Decompressed(data: seq<Byte>): Option<seq<Byte>> {
    Replay([], Decode(data))
  }

  /** The compressed form of any data decompresses to that data and is at most one eighth larger. */
  lemma RoundTrip(data: seq<Byte>, ts: seq<Token>)
    requires Greedy(data, 0, ts) && forall t | t in ts :: t.Valid()
    ensures Decompressed(Encode(ts)) == Some(data)
    ensures |Encode(ts)| <= |data| + (|data| + 7) / 8
  {
    DecodeEncode(ts);
    assert data[..0] == [];
    ReplayGreedy(data, 0, ts);
    GreedyPayloadSize(data, 0, ts);
    EncodedSize(ts);
  }

  method Compress(data: seq<Byte>) returns (out: seq<Byte>)
    ensures Decompressed(out) == Some(data)
    ensures |out| <= |data| + (|data| + 7) / 8
    ensures exists ts: seq<Token> ::
              && Greedy(data, 0, ts)
              && (forall t | t in ts :: t.Valid())
              && out == Encode(ts)
  {
    var tokens := Tokenise(data);
    GreedyValid(data, 0, tokens);
    RoundTrip(data, tokens);
    out := EncodeTokens(tokens);
  }

  /** The copy loop of `decompress`. */
  method CopyLoop(out: seq<Byte>, offset: nat, length: nat) returns (r: seq<Byte>)
    requires 0 < offset <= |out|
    ensures r == CopyBack(out, offset, length)
  {
    r := out;
    var start := |out| - offset;
    for i := 0 to length
      invariant |r| == |out| + i
      invariant CopyBack(out, offset, length) == CopyBack(r, offset, length - i)
    {
      r := r + [r[start + i]];
    }
  }

  method Decompress(data: seq<Byte>) returns (r: Option<seq<Byte>>)
    ensures r == Decompressed(data)
  {
    var tokens := DecodeTokens(data);
    var out: seq<Byte> := [];
    for n := 0 to |tokens|
      invariant Replay([], tokens) == Replay(out, tokens[n..])
    {
      assert tokens[n..][1..] == tokens[n + 1..];
      match tokens[n]
      case Literal(b) => out := out + [b];
      case Match(offset, length) =>
        if !(0 < offset <= |out|) {
          return None;
        }
        out := CopyLoop(out, offset, length);
    }
    r := Some(out);
  }
}
