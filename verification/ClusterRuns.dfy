/** Runs of a cluster: nodes join, beat, probe, crash, and datagrams arrive late, twice or not at all. */
module ClusterRuns {
  import opened Prelude
  import opened Cluster

  datatype Msg =
    | HeartbeatMsg(src: nat)
    | JoinMsg(src: nat, port: nat, name: string)
    | DiscoverMsg(src: nat)
    | ReplyMsg(src: nat, port: nat, name: string)

  /** `net` holds every datagram ever sent: any of them may still arrive, any number of times. Every node has a timer of
      its own; the timers need not agree, nor run at the same rate. */
  datatype World =
    World(tables: map<nat, Table>, ips: map<nat, nat>, live: set<nat>, net: set<Msg>, timers: map<nat, nat>)

  datatype Step =
    | Join(i: nat, port: nat, name: string)
    | Beat(i: nat)
    | Probe(i: nat)
    | Deliver(i: nat, m: Msg)
    | Crash(i: nat)
    | Tick(i: nat)

  function Received(t: Table, m: Msg, ip: nat, now: nat): Table {
    match m
    case HeartbeatMsg(src) => OnHeartbeat(t, src, ip, now)
    case JoinMsg(src, port, name) => Upserted(t, src, ip, port, name, Joining, now)
    case DiscoverMsg(_) => t
    case ReplyMsg(src, port, name) => Upserted(t, src, ip, port, name, Online, now)
  }

  /** The reply of node `i` to a probe, with the name it registered for itself. */
  function Reply(t: Table, i: nat): Msg {
    var own := Get(t, i);
    ReplyMsg(i, CLUSTER_PORT, if own.Some? then own.value.name else "merlion")
  }

  predicate Enabled(w: World, s: Step) {
    match s
    case Deliver(i, m) => i in w.live && m in w.net
    case _ => s.i in w.live
  }

  /** One entry per id, no entry from the future, and only ids of nodes that exist. */
  ghost predicate Inv(w: World) {
    && w.live <= w.tables.Keys && w.ips.Keys == w.timers.Keys == w.tables.Keys
    && (forall m | m in w.net :: m.src in w.tables)
    && (forall i | i in w.tables :: UniqueIds(w.tables[i]))
    && (forall i, n | i in w.tables && n in w.tables[i] :: n.lastSeen <= Now(w, i) && n.id in w.tables)
  }

  function TableOf(w: World, i: nat): Table {
    if i in w.tables then w.tables[i] else []
  }

  function Now(w: World, i: nat): nat {
    if i in w.timers then w.timers[i] else 0
  }

  function IpOf(w: World, i: nat): nat {
    if i in w.ips then w.ips[i] else 0
  }

  function Next(w: World, s: Step): World {
    match s
    case Tick(i) => w.(timers := w.timers[i := Now(w, i) + 1])
    case Crash(i) => w.(live := w.live - {i})
    case Probe(i) => w.(net := w.net + {DiscoverMsg(i)})
    case Join(i, port, name) =>
      w.(tables := w.tables[i := Joined(TableOf(w, i), i, IpOf(w, i), port, name, Now(w, i))],
         net := w.net + {JoinMsg(i, port, name)})
    case Beat(i) =>
      w.(tables := w.tables[i := BeatTable(TableOf(w, i), i, Now(w, i))], net := w.net + {HeartbeatMsg(i)})
    case Deliver(i, m) =>
      w.(tables := w.tables[i := Received(TableOf(w, i), m, IpOf(w, m.src), Now(w, i))],
         net := w.net + (if m.DiscoverMsg? then {Reply(TableOf(w, i), i)} else {}))
  }

  ghost predicate Init(w: World) {
    && w.live == w.tables.Keys == w.ips.Keys == w.timers.Keys && w.net == {}
    && forall i | i in w.tables :: w.tables[i] == []
  }

  ghost predicate Follows(w: World, s: Step, w': World) {
    Enabled(w, s) && w' == Next(w, s)
  }

  ghost predicate IsRun(ws: seq<World>, steps: seq<Step>) {
    && |ws| == |steps| + 1 && Init(ws[0])
    && forall k: nat | k < |steps| :: Follows(ws[k], steps[k], ws[k + 1])
  }

  // ----- Safety over every run -----

  /** The entries of a touched table are old ones, the updated one or the added one. */
  lemma {:induction false} TouchElements(t: Table, id: nat, f: NodeInfo -> NodeInfo, added: NodeInfo, n: NodeInfo)
    requires n in Touch(t, id, f, added)
    ensures n in t || n == added || exists o :: o in t && o.id == id && n == f(o)
  {
    if t != [] {
      if t[0].id == id {
        assert t[0] in t;
      } else if n != t[0] {
        TouchElements(t[1..], id, f, added, n);
      }
    }
  }

  lemma ReceivedElements(t: Table, m: Msg, ip: nat, now: nat, n: NodeInfo)
    requires n in Received(t, m, ip, now)
    ensures n in t || (n.id == m.src && n.lastSeen == now)
  {
    match m
    case HeartbeatMsg(src) =>
      TouchElements(t, src, Seen(now), NodeInfo(src, ip, CLUSTER_PORT, Alias(src), Joining, now), n);
    case JoinMsg(src, port, name) =>
      TouchElements(t, src, Updated(ip, port, name, Joining, now), NodeInfo(src, ip, port, name, Joining, now), n);
    case DiscoverMsg(_) =>
    case ReplyMsg(src, port, name) =>
      TouchElements(t, src, Updated(ip, port, name, Online, now), NodeInfo(src, ip, port, name, Online, now), n);
  }

  lemma ReceivedUnique(t: Table, m: Msg, ip: nat, now: nat)
    requires UniqueIds(t)
    ensures UniqueIds(Received(t, m, ip, now))
  {
    match m
    case HeartbeatMsg(src) =>
      TouchUnique(t, src, Seen(now), NodeInfo(src, ip, CLUSTER_PORT, Alias(src), Joining, now));
    case JoinMsg(src, port, name) =>
      TouchUnique(t, src, Updated(ip, port, name, Joining, now), NodeInfo(src, ip, port, name, Joining, now));
    case DiscoverMsg(_) =>
    case ReplyMsg(src, port, name) =>
      TouchUnique(t, src, Updated(ip, port, name, Online, now), NodeInfo(src, ip, port, name, Online, now));
  }

  /** A node may replace its table by one with the same properties and send something. */
  lemma UpdateKeepsInv(w: World, i: nat, t: Table, sent: set<Msg>)
    requires Inv(w) && i in w.tables && UniqueIds(t) && (forall m | m in sent :: m.src in w.tables)
    requires forall n | n in t :: n.lastSeen <= Now(w, i) && n.id in w.tables
    ensures Inv(w.(tables := w.tables[i := t], net := w.net + sent))
  {
  }

  lemma JoinKeepsInv(w: World, i: nat, port: nat, name: string)
    requires Inv(w) && i in w.live
    ensures Inv(Next(w, Join(i, port, name)))
  {
    var added := NodeInfo(i, w.ips[i], port, name, Online, Now(w, i));
    var t := Joined(w.tables[i], i, w.ips[i], port, name, Now(w, i));
    TouchUnique(w.tables[i], i, (n: NodeInfo) => n, added);
    forall n | n in t ensures n.lastSeen <= Now(w, i) && n.id in w.tables {
      TouchElements(w.tables[i], i, (n: NodeInfo) => n, added, n);
    }
    UpdateKeepsInv(w, i, t, {JoinMsg(i, port, name)});
  }

  lemma BeatKeepsInv(w: World, i: nat)
    requires Inv(w) && i in w.live
    ensures Inv(Next(w, Beat(i)))
  {
    var t := BeatTable(w.tables[i], i, Now(w, i));
    BeatUnique(w.tables[i], i, Now(w, i));
    forall n | n in t ensures n.lastSeen <= Now(w, i) && n.id in w.tables {
      var k :| 0 <= k < |w.tables[i]| && n == Beaten(w.tables[i][k], i, Now(w, i));
      assert w.tables[i][k] in w.tables[i];
    }
    UpdateKeepsInv(w, i, t, {HeartbeatMsg(i)});
  }

  lemma DeliverKeepsInv(w: World, i: nat, m: Msg)
    requires Inv(w) && i in w.live && m in w.net
    ensures Inv(Next(w, Deliver(i, m)))
  {
    var t := Received(w.tables[i], m, w.ips[m.src], Now(w, i));
    ReceivedUnique(w.tables[i], m, w.ips[m.src], Now(w, i));
    forall n | n in t ensures n.lastSeen <= Now(w, i) && n.id in w.tables {
      ReceivedElements(w.tables[i], m, w.ips[m.src], Now(w, i), n);
    }
    UpdateKeepsInv(w, i, t, if m.DiscoverMsg? then {Reply(w.tables[i], i)} else {});
  }

  lemma StepKeepsInv(w: World, s: Step)
    requires Inv(w) && Enabled(w, s)
    ensures Inv(Next(w, s))
  {
    match s
    case Tick(_) =>
    case Crash(_) =>
    case Probe(_) =>
    case Join(i, port, name) => JoinKeepsInv(w, i, port, name);
    case Beat(i) => BeatKeepsInv(w, i);
    case Deliver(i, m) => DeliverKeepsInv(w, i, m);
  }

  /** Every state of every run keeps the invariant. */
  lemma {:induction false} RunKeepsInv(ws: seq<World>, steps: seq<Step>, k: nat)
    requires IsRun(ws, steps) && k <= |steps|
    ensures Inv(ws[k])
  {
    if k > 0 {
      RunKeepsInv(ws, steps, k - 1);
      assert Follows(ws[k - 1], steps[k - 1], ws[k]);
      StepKeepsInv(ws[k - 1], steps[k - 1]);
    }
  }

  // ----- What one step does to one entry -----

  function Entry(w: World, i: nat, x: nat): Option<NodeInfo>
    requires i in w.tables
  {
    Get(w.tables[i], x)
  }

  lemma ReceivedEntry(t: Table, m: Msg, ip: nat, now: nat, x: nat)
    ensures var r := Get(Received(t, m, ip, now), x);
            && (x != m.src || m.DiscoverMsg? ==> r == Get(t, x))
            && (x == m.src && m.HeartbeatMsg? && Get(t, x).Some? ==> r == Some(Seen(now)(Get(t, x).value)))
            && (Get(t, x).Some? && Get(t, x).value.status == Online ==>
                  r.Some? && r.value.status == Online && (r == Get(t, x) || r.value.lastSeen == now))
  {
    match m
    case HeartbeatMsg(src) =>
      GetTouch(t, src, Seen(now), NodeInfo(src, ip, CLUSTER_PORT, Alias(src), Joining, now), x);
    case JoinMsg(src, port, name) =>
      GetTouch(t, src, Updated(ip, port, name, Joining, now), NodeInfo(src, ip, port, name, Joining, now), x);
    case DiscoverMsg(_) =>
    case ReplyMsg(src, port, name) =>
      GetTouch(t, src, Updated(ip, port, name, Online, now), NodeInfo(src, ip, port, name, Online, now), x);
  }

  /** Node `i` has `x` online, heard at `since` or later. */
  ghost predicate Up(w: World, i: nat, x: nat, since: nat) {
    && i in w.tables && Entry(w, i, x).Some?
    && Entry(w, i, x).value.status == Online && Entry(w, i, x).value.lastSeen >= since
  }

  /** An entry heard at most 500 ticks ago stays online; one's own entry always does. */
  lemma UpStays(w: World, s: Step, w': World, i: nat, x: nat, since: nat)
    requires Inv(w) && Follows(w, s, w') && Up(w, i, x, since) && since <= Now(w, i)
    requires x == i || Now(w', i) - since <= HEARTBEAT_TIMEOUT_TICKS
    ensures Up(w', i, x, since)
  {
    match s
    case Join(j, port, name) =>
      GetTouch(w.tables[j], j, (n: NodeInfo) => n, NodeInfo(j, w.ips[j], port, name, Online, Now(w, j)), x);
    case Beat(j) =>
      GetBeat(w.tables[j], j, Now(w, j), x);
      GetIn(w.tables[j], x);
    case Deliver(j, m) => ReceivedEntry(w.tables[j], m, w.ips[m.src], Now(w, j), x);
    case _ =>
  }

  /** Node `i` does not hold `x` online. */
  ghost predicate Down(w: World, i: nat, x: nat) {
    i in w.tables && (Entry(w, i, x).Some? ==> Entry(w, i, x).value.status != Online)
  }

  /** Node `i` does not know `x`, or heard it for the last time more than 500 ticks ago. */
  ghost predicate Silent(w: World, i: nat, x: nat) {
    i in w.tables && (Entry(w, i, x).Some? ==> Entry(w, i, x).value.IsExpired(Now(w, i)))
  }

  predicate Hears(s: Step, i: nat, x: nat) {
    s.Deliver? && s.i == i && s.m.src == x
  }

  lemma SilentStays(w: World, s: Step, w': World, i: nat, x: nat)
    requires Inv(w) && Follows(w, s, w') && Silent(w, i, x) && x != i && !Hears(s, i, x)
    ensures Silent(w', i, x)
    ensures s == Beat(i) ==> Down(w', i, x)
    ensures Down(w, i, x) ==> Down(w', i, x)
  {
    match s
    case Join(j, port, name) =>
      GetTouch(w.tables[j], j, (n: NodeInfo) => n, NodeInfo(j, w.ips[j], port, name, Online, Now(w, j)), x);
    case Beat(j) =>
      GetBeat(w.tables[j], j, Now(w, j), x);
      GetIn(w.tables[j], x);
    case Deliver(j, m) => ReceivedEntry(w.tables[j], m, w.ips[m.src], Now(w, j), x);
    case _ =>
  }

  // ----- Whole runs -----

  lemma {:induction false} UpThrough(ws: seq<World>, steps: seq<Step>, i: nat, x: nat, q: nat, k: nat)
    requires IsRun(ws, steps) && q <= k <= |steps| && Up(ws[q], i, x, Now(ws[q], i))
    requires x == i || Now(ws[k], i) - Now(ws[q], i) <= HEARTBEAT_TIMEOUT_TICKS
    ensures Up(ws[k], i, x, Now(ws[q], i)) && Now(ws[q], i) <= Now(ws[k], i)
    decreases k
  {
    if q < k {
      RunKeepsInv(ws, steps, k - 1);
      assert Follows(ws[k - 1], steps[k - 1], ws[k]);
      assert Now(ws[k - 1], i) <= Now(ws[k], i);
      UpThrough(ws, steps, i, x, q, k - 1);
      UpStays(ws[k - 1], steps[k - 1], ws[k], i, x, Now(ws[q], i));
    }
  }

  lemma {:induction false} SilentThrough(ws: seq<World>, steps: seq<Step>, i: nat, x: nat, s: nat, k: nat)
    requires IsRun(ws, steps) && s <= k <= |steps| && Silent(ws[s], i, x) && x != i
    requires forall j: nat | s <= j < k :: !Hears(steps[j], i, x)
    ensures Silent(ws[k], i, x)
    ensures (exists j: nat :: s <= j < k && steps[j] == Beat(i)) ==> Down(ws[k], i, x)
    decreases k
  {
    if s < k {
      RunKeepsInv(ws, steps, k - 1);
      assert Follows(ws[k - 1], steps[k - 1], ws[k]);
      SilentThrough(ws, steps, i, x, s, k - 1);
      SilentStays(ws[k - 1], steps[k - 1], ws[k], i, x);
    }
  }

  lemma KnownStays(w: World, s: Step, w': World, i: nat, x: nat)
    requires Inv(w) && Follows(w, s, w') && i in w.tables && Entry(w, i, x).Some?
    ensures i in w'.tables && Entry(w', i, x).Some?
  {
    match s
    case Join(j, port, name) =>
      GetTouch(w.tables[j], j, (n: NodeInfo) => n, NodeInfo(j, w.ips[j], port, name, Online, Now(w, j)), x);
    case Beat(j) => GetBeat(w.tables[j], j, Now(w, j), x);
    case Deliver(j, m) => ReceivedKnown(w.tables[j], m, w.ips[m.src], Now(w, j), x);
    case _ =>
  }

  lemma ReceivedKnown(t: Table, m: Msg, ip: nat, now: nat, x: nat)
    ensures Get(t, x).Some? ==> Get(Received(t, m, ip, now), x).Some?
  {
    match m
    case HeartbeatMsg(src) =>
      GetTouch(t, src, Seen(now), NodeInfo(src, ip, CLUSTER_PORT, Alias(src), Joining, now), x);
    case JoinMsg(src, port, name) =>
      GetTouch(t, src, Updated(ip, port, name, Joining, now), NodeInfo(src, ip, port, name, Joining, now), x);
    case DiscoverMsg(_) =>
    case ReplyMsg(src, port, name) =>
      GetTouch(t, src, Updated(ip, port, name, Online, now), NodeInfo(src, ip, port, name, Online, now), x);
  }

  lemma {:induction false} KnownThrough(ws: seq<World>, steps: seq<Step>, i: nat, x: nat, s: nat, k: nat)
    requires IsRun(ws, steps) && s <= k <= |steps| && i in ws[s].tables && Entry(ws[s], i, x).Some?
    ensures i in ws[k].tables && Entry(ws[k], i, x).Some?
    decreases k
  {
    if s < k {
      RunKeepsInv(ws, steps, k - 1);
      assert Follows(ws[k - 1], steps[k - 1], ws[k]);
      KnownThrough(ws, steps, i, x, s, k - 1);
      KnownStays(ws[k - 1], steps[k - 1], ws[k], i, x);
    }
  }

  // ----- Silence -----

  /** Whatever node `i` holds about `x` was heard at `t` or before. */
  ghost predicate HeardBy(w: World, i: nat, x: nat, t: int) {
    i in w.tables && (Entry(w, i, x).Some? ==> Entry(w, i, x).value.lastSeen <= t)
  }

  lemma HeardByStays(w: World, s: Step, w': World, i: nat, x: nat, t: int)
    requires Inv(w) && Follows(w, s, w') && HeardBy(w, i, x, t) && x != i && !Hears(s, i, x)
    ensures HeardBy(w', i, x, t)
  {
    match s
    case Join(j, port, name) =>
      GetTouch(w.tables[j], j, (n: NodeInfo) => n, NodeInfo(j, w.ips[j], port, name, Online, Now(w, j)), x);
    case Beat(j) =>
      GetBeat(w.tables[j], j, Now(w, j), x);
      GetIn(w.tables[j], x);
    case Deliver(j, m) => ReceivedEntry(w.tables[j], m, w.ips[m.src], Now(w, j), x);
    case _ =>
  }

  /** No datagram of `x` reached `i` between states r and s. */
  ghost predicate Unheard(steps: seq<Step>, i: nat, x: nat, r: nat, s: nat) {
    r <= s <= |steps| && forall j: nat | r <= j < s :: !Hears(steps[j], i, x)
  }

  lemma {:induction false} HeardByThrough(ws: seq<World>, steps: seq<Step>, i: nat, x: nat, t: int, r: nat, s: nat)
    requires IsRun(ws, steps) && Unheard(steps, i, x, r, s) && HeardBy(ws[r], i, x, t) && x != i
    ensures HeardBy(ws[s], i, x, t)
    decreases s
  {
    if r < s {
      RunKeepsInv(ws, steps, s - 1);
      assert Follows(ws[s - 1], steps[s - 1], ws[s]);
      assert Unheard(steps, i, x, r, s - 1);
      HeardByThrough(ws, steps, i, x, t, r, s - 1);
      HeardByStays(ws[s - 1], steps[s - 1], ws[s], i, x, t);
    }
  }

  /** Up to state s, `i` heard nothing of `x` for more than 500 ticks, or nothing since the start. */
  ghost predicate LongUnheard(ws: seq<World>, steps: seq<Step>, i: nat, x: nat, s: nat)
    requires |ws| == |steps| + 1 && s <= |steps|
  {
    exists r: nat :: Unheard(steps, i, x, r, s) && (r == 0 || Now(ws[s], i) - Now(ws[r], i) > HEARTBEAT_TIMEOUT_TICKS)
  }

  lemma {:induction false} ExistsThrough(ws: seq<World>, steps: seq<Step>, i: nat, k: nat, l: nat)
    requires IsRun(ws, steps) && k <= l <= |steps|
    ensures i in ws[l].tables <==> i in ws[k].tables
    decreases l
  {
    if k < l {
      RunKeepsInv(ws, steps, l - 1);
      assert Follows(ws[l - 1], steps[l - 1], ws[l]);
      ExistsThrough(ws, steps, i, k, l - 1);
    }
  }

  /** Silence in the messages is silence in the table. */
  lemma LongUnheardIsSilent(ws: seq<World>, steps: seq<Step>, i: nat, x: nat, s: nat)
    requires IsRun(ws, steps) && s <= |steps| && LongUnheard(ws, steps, i, x, s) && i in ws[s].tables && x != i
    ensures Silent(ws[s], i, x)
  {
    var r: nat :| Unheard(steps, i, x, r, s) && (r == 0 || Now(ws[s], i) - Now(ws[r], i) > HEARTBEAT_TIMEOUT_TICKS);
    ExistsThrough(ws, steps, i, r, s);
    RunKeepsInv(ws, steps, r);
    GetIn(ws[r].tables[i], x);
    var t: int := if r == 0 then -1 else Now(ws[r], i);
    HeardByThrough(ws, steps, i, x, t, r, s);
  }

  /** Node `i` registered itself before state s. */
  ghost predicate JoinedBefore(steps: seq<Step>, i: nat, s: nat) {
    exists k: nat :: k < s <= |steps| && steps[k].Join? && steps[k].i == i
  }

  lemma JoinedIsKnown(ws: seq<World>, steps: seq<Step>, i: nat, s: nat)
    requires IsRun(ws, steps) && s <= |steps| && JoinedBefore(steps, i, s)
    ensures i in ws[s].tables && Entry(ws[s], i, i).Some?
  {
    var k: nat :| k < s <= |steps| && steps[k].Join? && steps[k].i == i;
    RunKeepsInv(ws, steps, k);
    assert Follows(ws[k], steps[k], ws[k + 1]);
    var (w, port, name) := (ws[k], steps[k].port, steps[k].name);
    GetTouch(w.tables[i], i, (n: NodeInfo) => n, NodeInfo(i, w.ips[i], port, name, Online, Now(w, i)), i);
    KnownThrough(ws, steps, i, i, k + 1, s);
  }

  /** Some datagram of `j` that names its sender reached `i` before step q. */
  ghost predicate HeardBefore(steps: seq<Step>, i: nat, j: nat, q: nat) {
    exists p: nat :: p < q <= |steps| && Hears(steps[p], i, j) && !steps[p].m.DiscoverMsg?
  }

  lemma HeardIsKnown(ws: seq<World>, steps: seq<Step>, i: nat, j: nat, q: nat)
    requires IsRun(ws, steps) && q <= |steps| && HeardBefore(steps, i, j, q)
    ensures i in ws[q].tables && Entry(ws[q], i, j).Some?
  {
    var p: nat :| p < q <= |steps| && Hears(steps[p], i, j) && !steps[p].m.DiscoverMsg?;
    RunKeepsInv(ws, steps, p);
    assert Follows(ws[p], steps[p], ws[p + 1]);
    ReceivedAdds(ws[p].tables[i], steps[p].m, ws[p].ips[j], Now(ws[p], i));
    KnownThrough(ws, steps, i, j, p + 1, q);
  }

  lemma ReceivedAdds(t: Table, m: Msg, ip: nat, now: nat)
    requires !m.DiscoverMsg?
    ensures Get(Received(t, m, ip, now), m.src).Some?
  {
    match m
    case HeartbeatMsg(src) =>
      GetTouch(t, src, Seen(now), NodeInfo(src, ip, CLUSTER_PORT, Alias(src), Joining, now), src);
    case JoinMsg(src, port, name) =>
      GetTouch(t, src, Updated(ip, port, name, Joining, now), NodeInfo(src, ip, port, name, Joining, now), src);
    case ReplyMsg(src, port, name) =>
      GetTouch(t, src, Updated(ip, port, name, Online, now), NodeInfo(src, ip, port, name, Online, now), src);
  }

  // ----- Agreement -----

  /** Each live node has joined before s; by s it had heard nothing of a dead node for more than 500 ticks; since s
      nobody crashed, no datagram of a dead node arrived, and each live node took a heartbeat step. */
  ghost predicate Settled(ws: seq<World>, steps: seq<Step>, s: nat)
    requires |ws| == |steps| + 1 && s <= |steps|
  {
    var live := ws[s].live;
    && (forall k: nat | s <= k < |steps| :: !steps[k].Crash? && (steps[k].Deliver? ==> steps[k].m.src in live))
    && (forall i, x: nat | i in live && x !in live :: LongUnheard(ws, steps, i, x, s))
    && (forall i | i in live :: JoinedBefore(steps, i, s))
    && (forall i | i in live :: exists k: nat :: s <= k < |steps| && steps[k] == Beat(i))
  }

  /** A heartbeat of `j` reached `i` at step q, not for the first time, at most 500 ticks before the end of the run. */
  ghost predicate BeatArrived(ws: seq<World>, steps: seq<Step>, i: nat, j: nat, q: nat)
    requires |ws| == |steps| + 1
  {
    && q < |steps| && steps[q] == Deliver(i, HeartbeatMsg(j)) && HeardBefore(steps, i, j, q)
    && Now(ws[|steps|], i) - Now(ws[q], i) <= HEARTBEAT_TIMEOUT_TICKS
  }

  /** Every live node hears a heartbeat of every other in time. */
  ghost predicate Timely(ws: seq<World>, steps: seq<Step>, live: set<nat>)
    requires |ws| == |steps| + 1
  {
    forall i, j | i in live && j in live && i != j :: exists q: nat :: BeatArrived(ws, steps, i, j, q)
  }

  lemma {:induction false} LiveStable(ws: seq<World>, steps: seq<Step>, s: nat, k: nat)
    requires IsRun(ws, steps) && s <= k <= |steps|
    requires forall j: nat | s <= j < |steps| :: !steps[j].Crash?
    ensures ws[k].live == ws[s].live
    decreases k
  {
    if s < k {
      assert Follows(ws[k - 1], steps[k - 1], ws[k]);
      LiveStable(ws, steps, s, k - 1);
    }
  }

  lemma OwnIsUp(ws: seq<World>, steps: seq<Step>, s: nat, i: nat)
    requires IsRun(ws, steps) && s <= |steps| && Settled(ws, steps, s) && i in ws[s].live
    ensures !Down(ws[|steps|], i, i)
  {
    var k: nat :| s <= k < |steps| && steps[k] == Beat(i);
    JoinedIsKnown(ws, steps, i, s);
    KnownThrough(ws, steps, i, i, s, k);
    RunKeepsInv(ws, steps, k);
    assert Follows(ws[k], steps[k], ws[k + 1]);
    GetBeat(ws[k].tables[i], i, Now(ws[k], i), i);
    GetIn(ws[k].tables[i], i);
    UpThrough(ws, steps, i, i, k + 1, |steps|);
  }

  lemma PeerIsUp(ws: seq<World>, steps: seq<Step>, i: nat, j: nat, q: nat)
    requires IsRun(ws, steps) && BeatArrived(ws, steps, i, j, q) && i != j
    ensures !Down(ws[|steps|], i, j)
  {
    HeardIsKnown(ws, steps, i, j, q);
    RunKeepsInv(ws, steps, q);
    assert Follows(ws[q], steps[q], ws[q + 1]);
    ReceivedEntry(ws[q].tables[i], HeartbeatMsg(j), ws[q].ips[j], Now(ws[q], i), j);
    UpThrough(ws, steps, i, j, q + 1, |steps|);
  }

  lemma DeadIsDown(ws: seq<World>, steps: seq<Step>, s: nat, i: nat, x: nat)
    requires IsRun(ws, steps) && s <= |steps| && Settled(ws, steps, s) && i in ws[s].live && x !in ws[s].live
    ensures Down(ws[|steps|], i, x)
  {
    JoinedIsKnown(ws, steps, i, s);
    LongUnheardIsSilent(ws, steps, i, x, s);
    SilentThrough(ws, steps, i, x, s, |steps|);
  }

  /** In such a run every live node elects the live node with the highest id. */
  lemma LeaderAgreement(ws: seq<World>, steps: seq<Step>, s: nat, i: nat, leader: Option<NodeInfo>)
    requires IsRun(ws, steps) && s <= |steps| && Settled(ws, steps, s) && Timely(ws, steps, ws[s].live)
    requires i in ws[|steps|].live && i in ws[|steps|].tables && IsLeader(ws[|steps|].tables[i], leader)
    ensures leader.Some? && leader.value.id in ws[|steps|].live
    ensures forall j | j in ws[|steps|].live :: j <= leader.value.id
  {
    var w := ws[|steps|];
    var t := w.tables[i];
    RunKeepsInv(ws, steps, |steps|);
    LiveStable(ws, steps, s, |steps|);
    forall j | j in w.live
      ensures Get(t, j).Some? && Get(t, j).value in t && Get(t, j).value.id == j && Get(t, j).value.status == Online
    {
      if j == i {
        OwnIsUp(ws, steps, s, i);
      } else {
        var q: nat :| BeatArrived(ws, steps, i, j, q);
        PeerIsUp(ws, steps, i, j, q);
      }
      GetIn(t, j);
    }
    assert Get(t, i).value in t;
    var l := leader.value;
    if l.id !in w.live {
      DeadIsDown(ws, steps, s, i, l.id);
      GetUnique(t, l);
    }
  }

  /** Any two live nodes elect the same leader. */
  lemma LeadersAreEqual(ws: seq<World>, steps: seq<Step>, s: nat, i: nat, j: nat,
                        a: Option<NodeInfo>, b: Option<NodeInfo>)
    requires IsRun(ws, steps) && s <= |steps| && Settled(ws, steps, s) && Timely(ws, steps, ws[s].live)
    requires i in ws[|steps|].live && i in ws[|steps|].tables && IsLeader(ws[|steps|].tables[i], a)
    requires j in ws[|steps|].live && j in ws[|steps|].tables && IsLeader(ws[|steps|].tables[j], b)
    ensures a.Some? && b.Some? && a.value.id == b.value.id
  {
    LeaderAgreement(ws, steps, s, i, a);
    LeaderAgreement(ws, steps, s, j, b);
  }
}
