/** Model of src/cluster.rs: the membership table of one node, and the operations on it. */
module Cluster {
  import opened Prelude

  const CLUSTER_PORT: nat := 9200
  const HEARTBEAT_TIMEOUT_TICKS: nat := 500

  datatype Status = Online | Offline | Joining

  datatype NodeInfo = NodeInfo(id: nat, ip: nat, port: nat, name: string, status: Status, lastSeen: nat) {
    predicate IsExpired(now: nat) {
      (if now >= lastSeen then now - lastSeen else 0) > HEARTBEAT_TIMEOUT_TICKS
    }
  }

  type Table = seq<NodeInfo>

  // ----- One membership table -----

  ghost predicate UniqueIds(t: Table) {
    forall i, j | 0 <= i < j < |t| :: t[i].id != t[j].id
  }

  /** The entry for `id`. */
  function Get(t: Table, id: nat): Option<NodeInfo> {
    if t == [] then None else if t[0].id == id then Some(t[0]) else Get(t[1..], id)
  }

  /** Replace the entry for `id` by `f` of it, or append `added` when there is none. */
  function Touch(t: Table, id: nat, f: NodeInfo -> NodeInfo, added: NodeInfo): Table {
    if t == [] then [added]
    else if t[0].id == id then [f(t[0])] + t[1..]
    else [t[0]] + Touch(t[1..], id, f, added)
  }

  function Seen(now: nat): NodeInfo -> NodeInfo {
    (n: NodeInfo) => n.(lastSeen := now, status := Online)
  }

  function Updated(ip: nat, port: nat, name: string, status: Status, now: nat): NodeInfo -> NodeInfo {
    (n: NodeInfo) => n.(ip := ip, port := port, name := name, lastSeen := now,
                        status := if n.status == Online then Online else status)
  }

  function Hex(n: nat): string {
    if n < 16 then ["0123456789abcdef"[n]] else Hex(n / 16) + ["0123456789abcdef"[n % 16]]
  }

  /** The name given to a node that is only known by its heartbeat. */
  function Alias(id: nat): string {
    "node-0x" + Hex(id)
  }

  function OnHeartbeat(t: Table, id: nat, ip: nat, now: nat): Table {
    Touch(t, id, Seen(now), NodeInfo(id, ip, CLUSTER_PORT, Alias(id), Joining, now))
  }

  function Upserted(t: Table, id: nat, ip: nat, port: nat, name: string, status: Status, now: nat): Table {
    Touch(t, id, Updated(ip, port, name, status, now), NodeInfo(id, ip, port, name, status, now))
  }

  function Joined(t: Table, id: nat, ip: nat, port: nat, name: string, now: nat): Table {
    Touch(t, id, (n: NodeInfo) => n, NodeInfo(id, ip, port, name, Online, now))
  }

  /** What a heartbeat of node `me` does to one entry of its own table. */
  function Beaten(n: NodeInfo, me: nat, now: nat): NodeInfo {
    if n.id == me then n.(lastSeen := now, status := Online)
    else if n.IsExpired(now) then n.(status := Offline)
    else n
  }

  function BeatTable(t: Table, me: nat, now: nat): (r: Table)
    ensures |r| == |t|
  {
    seq(|t|, i requires 0 <= i < |t| => Beaten(t[i], me, now))
  }

  /** `leader` is the online entry with the highest id; None when no entry is online. */
  ghost predicate IsLeader(t: Table, leader: Option<NodeInfo>) {
    match leader
    case None => forall n | n in t :: n.status != Online
    case Some(l) => l in t && l.status == Online && forall n | n in t && n.status == Online :: n.id <= l.id
  }

  lemma {:induction false} TouchAt(t: Table, id: nat, f: NodeInfo -> NodeInfo, added: NodeInfo, i: nat)
    requires i < |t| && t[i].id == id && forall k | 0 <= k < i :: t[k].id != id
    ensures Touch(t, id, f, added) == t[i := f(t[i])]
    decreases i
  {
    if i > 0 {
      TouchAt(t[1..], id, f, added, i - 1);
      assert t[i := f(t[i])] == [t[0]] + t[1..][i - 1 := f(t[i])];
    } else {
      assert t[0 := f(t[0])] == [f(t[0])] + t[1..];
    }
  }

  lemma {:induction false} TouchNone(t: Table, id: nat, f: NodeInfo -> NodeInfo, added: NodeInfo)
    requires forall n | n in t :: n.id != id
    ensures Touch(t, id, f, added) == t + [added]
  {
    if t != [] {
      TouchNone(t[1..], id, f, added);
      assert t == [t[0]] + t[1..];
    }
  }

  lemma {:induction false} GetTouch(t: Table, id: nat, f: NodeInfo -> NodeInfo, added: NodeInfo, x: nat)
    requires added.id == id && forall n: NodeInfo :: f(n).id == n.id
    ensures Get(Touch(t, id, f, added), x)
         == if x != id then Get(t, x) else if Get(t, id).Some? then Some(f(Get(t, id).value)) else Some(added)
  {
    if t == [] {
      assert [added][1..] == [];
    } else {
      var r := Touch(t, id, f, added);
      if t[0].id == id {
        assert r[1..] == t[1..];
      } else {
        assert r[1..] == Touch(t[1..], id, f, added);
        GetTouch(t[1..], id, f, added, x);
      }
    }
  }

  lemma {:induction false} GetBeat(t: Table, me: nat, now: nat, x: nat)
    ensures Get(BeatTable(t, me, now), x) == if Get(t, x).Some? then Some(Beaten(Get(t, x).value, me, now)) else None
  {
    if t != [] {
      assert BeatTable(t, me, now)[1..] == BeatTable(t[1..], me, now);
      GetBeat(t[1..], me, now, x);
    }
  }

  lemma {:induction false} GetIn(t: Table, x: nat)
    ensures Get(t, x).Some? ==> Get(t, x).value in t && Get(t, x).value.id == x
    ensures Get(t, x).None? ==> forall n | n in t :: n.id != x
  {
    if t != [] {
      GetIn(t[1..], x);
      assert t == [t[0]] + t[1..];
    }
  }

  lemma {:induction false} GetUnique(t: Table, n: NodeInfo)
    requires UniqueIds(t) && n in t
    ensures Get(t, n.id) == Some(n)
  {
    if t[0] != n {
      var i :| 0 <= i < |t| && t[i] == n;
      assert t[0].id != t[i].id;
      assert n == t[1..][i - 1];
      GetUnique(t[1..], n);
    }
  }

  /** The table operations keep one entry per id. */
  lemma TouchUnique(t: Table, id: nat, f: NodeInfo -> NodeInfo, added: NodeInfo)
    requires UniqueIds(t) && added.id == id && forall n: NodeInfo :: f(n).id == n.id
    ensures UniqueIds(Touch(t, id, f, added))
  {
    GetIn(t, id);
    if Get(t, id).Some? {
      var i :| 0 <= i < |t| && t[i] == Get(t, id).value;
      forall k | 0 <= k < i ensures t[k].id != id {
        assert t[k].id != t[i].id;
      }
      TouchAt(t, id, f, added, i);
    } else {
      TouchNone(t, id, f, added);
      var r := t + [added];
      forall k | 0 <= k < |t| ensures t[k].id != id {
        assert t[k] in t;
      }
    }
  }

  lemma BeatUnique(t: Table, me: nat, now: nat)
    requires UniqueIds(t)
    ensures UniqueIds(BeatTable(t, me, now))
  {
  }

  /** The membership state of one node. */
  class Member {
    const id: nat
    var nodes: Table

    constructor (id: nat)
      ensures this.id == id && nodes == []
    {
      this.id := id;
      nodes := [];
    }

    method Join(ip: nat, port: nat, name: string, now: nat)
      modifies this
      ensures nodes == Joined(old(nodes), id, ip, port, name, now)
    {
      var added := NodeInfo(id, ip, port, name, Online, now);
      for i := 0 to |nodes|
        invariant nodes == old(nodes) && forall k | 0 <= k < i :: nodes[k].id != id
      {
        if nodes[i].id == id {
          TouchAt(nodes, id, (n: NodeInfo) => n, added, i);
          return;
        }
      }
      TouchNone(nodes, id, (n: NodeInfo) => n, added);
      nodes := nodes + [added];
    }

    method Heartbeat(now: nat)
      modifies this
      ensures nodes == BeatTable(old(nodes), id, now)
    {
      for i := 0 to |nodes|
        invariant |nodes| == |old(nodes)|
        invariant forall k | 0 <= k < i :: nodes[k] == Beaten(old(nodes)[k], id, now)
        invariant forall k | i <= k < |nodes| :: nodes[k] == old(nodes)[k]
      {
        var node := nodes[i];
        if node.id == id {
          nodes := nodes[i := node.(lastSeen := now, status := Online)];
        } else if node.IsExpired(now) && node.status != Offline {
          nodes := nodes[i := node.(status := Offline)];
        }
      }
    }

    method HandleHeartbeat(from: nat, ip: nat, now: nat)
      modifies this
      ensures nodes == OnHeartbeat(old(nodes), from, ip, now)
    {
      var added := NodeInfo(from, ip, CLUSTER_PORT, Alias(from), Joining, now);
      for i := 0 to |nodes|
        invariant nodes == old(nodes) && forall k | 0 <= k < i :: nodes[k].id != from
      {
        if nodes[i].id == from {
          TouchAt(nodes, from, Seen(now), added, i);
          nodes := nodes[i := nodes[i].(lastSeen := now, status := Online)];
          return;
        }
      }
      TouchNone(nodes, from, Seen(now), added);
      nodes := nodes + [added];
    }

    method UpsertNode(from: nat, ip: nat, port: nat, name: string, status: Status, now: nat)
      modifies this
      ensures nodes == Upserted(old(nodes), from, ip, port, name, status, now)
    {
      var added := NodeInfo(from, ip, port, name, status, now);
      for i := 0 to |nodes|
        invariant nodes == old(nodes) && forall k | 0 <= k < i :: nodes[k].id != from
      {
        if nodes[i].id == from {
          TouchAt(nodes, from, Updated(ip, port, name, status, now), added, i);
          var node := nodes[i].(ip := ip, port := port, name := name, lastSeen := now);
          if node.status != Online {
            node := node.(status := status);
          }
          nodes := nodes[i := node];
          return;
        }
      }
      TouchNone(nodes, from, Updated(ip, port, name, status, now), added);
      nodes := nodes + [added];
    }

    method ElectLeader() returns (leader: Option<NodeInfo>)
      ensures IsLeader(nodes, leader)
    {
      leader := None;
      for i := 0 to |nodes|
        invariant IsLeader(nodes[..i], leader)
      {
        assert nodes[..i + 1] == nodes[..i] + [nodes[i]];
        if nodes[i].status == Online && (leader.None? || leader.value.id <= nodes[i].id) {
          leader := Some(nodes[i]);
        }
      }
      assert nodes[..|nodes|] == nodes;
    }
  }
}
