/** Model of the route table in src/bgp.rs: prefix filters, route preference and best-path selection. */
module Bgp {
  import opened Prelude

  const MAX_ROUTES: nat := 1024

  datatype Origin = Igp | Egp | Incomplete {
    function Rank(): nat {
      match this
      case Igp => 0
      case Egp => 1
      case Incomplete => 2
    }
  }

  /** A prefix, written as a 32-bit number, and its length in bits. */
  datatype Nlri = Nlri(prefix: nat, length: Byte) {
    /** The weight of the last bit that the mask keeps; the mask clears everything below it. */
    function Unit(): nat {
      if length >= 32 then 1 else Pow2(32 - length)
    }

    predicate Matches(ip: nat) {
      length == 0 || prefix - prefix % Unit() == ip - ip % Unit()
    }
  }

  datatype Attrs = Attrs(origin: Origin, asPath: seq<nat>, nextHop: nat, localPref: nat, med: nat)

  datatype Route = Route(nlri: Nlri, attrs: Attrs, peer: nat, best: bool, valid: bool)

  datatype Peer = Peer(ip: nat, ebgp: bool, prefixesReceived: nat, messagesReceived: nat)

  datatype Filter = Filter(prefix: Nlri, deny: bool, ge: nat, le: nat) {
    predicate Denies(n: Nlri) {
      prefix.Matches(n.prefix) && ge <= n.length <= le && deny
    }
  }

  /** A prefix matches an address exactly when their first `length` bits agree. */
  lemma MatchesComparesLeadingBits(n: Nlri, ip: nat)
    requires n.prefix < 0x1_0000_0000 && ip < 0x1_0000_0000
    ensures n.Matches(ip) <==> n.length == 0 || n.prefix / n.Unit() == ip / n.Unit()
    ensures n.length >= 32 ==> (n.Matches(ip) <==> n.prefix == ip)
  {
    var u := n.Unit();
    ClearedIsQuotient(n.prefix, ip, u);
  }

  lemma ClearedIsQuotient(x: nat, y: nat, u: nat)
    requires u > 0
    ensures x - x % u == y - y % u <==> x / u == y / u
  {
    var a, b := x / u, y / u;
    assert x - x % u == a * u && y - y % u == b * u;
    if a * u == b * u {
      MulCancel(a, b, u);
    }
  }

  // ----- Preference -----

  /** The address is that of a configured peer in another autonomous system. */
  predicate IsEbgp(peers: seq<Peer>, ip: nat) {
    if peers == [] then false else if peers[0].ip == ip then peers[0].ebgp else IsEbgp(peers[1..], ip)
  }

  /** `is_preferred`: route `a` is preferred over route `b`. MED is compared whatever the neighbour. */
  predicate Preferred(peers: seq<Peer>, a: Route, b: Route) {
    if a.attrs.localPref != b.attrs.localPref then a.attrs.localPref > b.attrs.localPref
    else if |a.attrs.asPath| != |b.attrs.asPath| then |a.attrs.asPath| < |b.attrs.asPath|
    else if a.attrs.origin != b.attrs.origin then a.attrs.origin.Rank() < b.attrs.origin.Rank()
    else if a.attrs.med != b.attrs.med then a.attrs.med < b.attrs.med
    else if IsEbgp(peers, a.peer) != IsEbgp(peers, b.peer) then IsEbgp(peers, a.peer)
    else a.peer < b.peer
  }

  /** What preference looks at, most significant first; smaller is better. */
  datatype Key = Key(pref: int, hops: int, origin: int, med: int, internal: int, peer: int)

  function KeyOf(peers: seq<Peer>, r: Route): Key {
    Key(0 - r.attrs.localPref as int, |r.attrs.asPath|, r.attrs.origin.Rank(), r.attrs.med,
        if IsEbgp(peers, r.peer) then 0 else 1, r.peer)
  }

  /** Lexicographic order. */
  predicate Less(a: Key, b: Key) {
    a.pref < b.pref || (a.pref == b.pref &&
    (a.hops < b.hops || (a.hops == b.hops &&
    (a.origin < b.origin || (a.origin == b.origin &&
    (a.med < b.med || (a.med == b.med &&
    (a.internal < b.internal || (a.internal == b.internal && a.peer < b.peer)))))))))
  }

  lemma PreferredIsLexicographic(peers: seq<Peer>, a: Route, b: Route)
    ensures Preferred(peers, a, b) <==> Less(KeyOf(peers, a), KeyOf(peers, b))
  {
  }

  lemma LessIsTotalOrder(a: Key, b: Key, c: Key)
    ensures !Less(a, a)
    ensures Less(a, b) && Less(b, c) ==> Less(a, c)
    ensures Less(a, b) || Less(b, a) || a == b
  {
  }

  /** Preference is a strict weak order: irreflexive, transitive, and "neither is preferred" means equal keys. */
  lemma PreferredIsStrictWeakOrder(peers: seq<Peer>, a: Route, b: Route, c: Route)
    ensures !Preferred(peers, a, a)
    ensures Preferred(peers, a, b) && Preferred(peers, b, c) ==> Preferred(peers, a, c)
    ensures !Preferred(peers, a, b) && !Preferred(peers, b, c) ==> !Preferred(peers, a, c)
    ensures !Preferred(peers, a, b) && !Preferred(peers, b, a) <==> KeyOf(peers, a) == KeyOf(peers, b)
  {
    PreferredIsLexicographic(peers, a, b);
    PreferredIsLexicographic(peers, b, a);
    PreferredIsLexicographic(peers, b, c);
    PreferredIsLexicographic(peers, a, c);
    var ka, kb, kc := KeyOf(peers, a), KeyOf(peers, b), KeyOf(peers, c);
    LessIsTotalOrder(ka, kb, kc);
    LessIsTotalOrder(kb, kc, ka);
    LessIsTotalOrder(kb, ka, kc);
    LessIsTotalOrder(kc, kb, ka);
  }

  // ----- Best-path selection -----

  predicate Competes(routes: seq<Route>, j: nat, nlri: Nlri) {
    j < |routes| && routes[j].valid && routes[j].nlri == nlri
  }

  /** Route i is valid, no competitor is preferred to it, and it is preferred to every earlier competitor. */
  ghost predicate IsBest(peers: seq<Peer>, routes: seq<Route>, i: nat) {
    && i < |routes| && routes[i].valid
    && (forall j: nat | Competes(routes, j, routes[i].nlri) :: !Preferred(peers, routes[j], routes[i]))
    && (forall j: nat | j < i && Competes(routes, j, routes[i].nlri) :: Preferred(peers, routes[i], routes[j]))
  }

  /** No earlier valid route has the prefix of route i. */
  ghost predicate IsFirst(routes: seq<Route>, i: nat) {
    i < |routes| && routes[i].valid && forall j: nat | j < i :: !Competes(routes, j, routes[i].nlri)
  }

  /** Route `b` is the best of the first n for its prefix. */
  ghost predicate BestSoFar(peers: seq<Peer>, routes: seq<Route>, b: nat, n: nat) {
    && b < n <= |routes| && routes[b].valid
    && (forall j: nat | j < n && Competes(routes, j, routes[b].nlri) :: !Preferred(peers, routes[j], routes[b]))
    && (forall j: nat | j < b && Competes(routes, j, routes[b].nlri) :: Preferred(peers, routes[b], routes[j]))
  }

  lemma BestSoFarNext(peers: seq<Peer>, routes: seq<Route>, b: nat, j: nat)
    requires BestSoFar(peers, routes, b, j) && j < |routes|
    ensures var next := if Competes(routes, j, routes[b].nlri) && Preferred(peers, routes[j], routes[b]) then j else b;
            BestSoFar(peers, routes, next, j + 1)
  {
    if Competes(routes, j, routes[b].nlri) && Preferred(peers, routes[j], routes[b]) {
      forall k: nat | k <= j && Competes(routes, k, routes[b].nlri)
        ensures k < j ==> Preferred(peers, routes[j], routes[k])
        ensures !Preferred(peers, routes[k], routes[j])
      {
        PreferredIsStrictWeakOrder(peers, routes[j], routes[b], routes[k]);
        PreferredIsStrictWeakOrder(peers, routes[b], routes[k], routes[j]);
        PreferredIsStrictWeakOrder(peers, routes[k], routes[j], routes[b]);
      }
    }
  }

  lemma FirstIsBestSoFar(peers: seq<Peer>, routes: seq<Route>, i: nat)
    requires IsFirst(routes, i)
    ensures BestSoFar(peers, routes, i, i + 1)
  {
    forall j: nat | j < i + 1 && Competes(routes, j, routes[i].nlri) ensures !Preferred(peers, routes[j], routes[i]) {
      PreferredIsStrictWeakOrder(peers, routes[i], routes[i], routes[i]);
    }
  }

  /** The inner loop of `best_path_selection`. */
  method FindBest(peers: seq<Peer>, routes: seq<Route>, i: nat) returns (best: nat)
    requires IsFirst(routes, i)
    ensures IsBest(peers, routes, best) && routes[best].nlri == routes[i].nlri
  {
    best := i;
    FirstIsBestSoFar(peers, routes, i);
    for j := i + 1 to |routes|
      invariant BestSoFar(peers, routes, best, j) && routes[best].nlri == routes[i].nlri
    {
      BestSoFarNext(peers, routes, best, j);
      if !routes[j].valid || routes[j].nlri != routes[i].nlri {
        continue;
      }
      if Preferred(peers, routes[j], routes[best]) {
        best := j;
      }
    }
  }

  /** At most one route of a prefix is best. */
  lemma BestIsUnique(peers: seq<Peer>, routes: seq<Route>, i: nat, j: nat)
    requires IsBest(peers, routes, i) && IsBest(peers, routes, j) && routes[i].nlri == routes[j].nlri
    ensures i == j
  {
    assert Competes(routes, i, routes[j].nlri) && Competes(routes, j, routes[i].nlri);
  }

  lemma {:induction false} FirstExists(routes: seq<Route>, i: nat) returns (f: nat)
    requires i < |routes| && routes[i].valid
    ensures f <= i && IsFirst(routes, f) && routes[f].nlri == routes[i].nlri
    decreases i
  {
    if j: nat :| j < i && Competes(routes, j, routes[i].nlri) {
      f := FirstExists(routes, j);
    } else {
      f := i;
    }
  }

  lemma {:induction false} BestFrom(peers: seq<Peer>, routes: seq<Route>, b: nat, n: nat) returns (best: nat)
    requires BestSoFar(peers, routes, b, n)
    ensures IsBest(peers, routes, best) && routes[best].nlri == routes[b].nlri
    decreases |routes| - n
  {
    best := b;
    if n < |routes| {
      BestSoFarNext(peers, routes, b, n);
      var next := if Competes(routes, n, routes[b].nlri) && Preferred(peers, routes[n], routes[b]) then n else b;
      best := BestFrom(peers, routes, next, n + 1);
    }
  }

  /** Every prefix with a valid route has exactly one best route. */
  lemma ExactlyOneBest(peers: seq<Peer>, routes: seq<Route>, i: nat)
    requires i < |routes| && routes[i].valid
    ensures exists b: nat :: IsBest(peers, routes, b) && routes[b].nlri == routes[i].nlri &&
              forall c: nat | IsBest(peers, routes, c) && routes[c].nlri == routes[i].nlri :: c == b
  {
    var f := FirstExists(routes, i);
    FirstIsBestSoFar(peers, routes, f);
    var b := BestFrom(peers, routes, f, f + 1);
    forall c: nat | IsBest(peers, routes, c) && routes[c].nlri == routes[i].nlri ensures c == b {
      BestIsUnique(peers, routes, c, b);
    }
  }

  // ----- Order of the table -----

  function Unmarked(r: Route): Route {
    r.(best := false)
  }

  function UnmarkedAll(rs: seq<Route>): seq<Route> {
    seq(|rs|, i requires 0 <= i < |rs| => Unmarked(rs[i]))
  }

  lemma NoneBetterElsewhere(peers: seq<Peer>, rs: seq<Route>, qs: seq<Route>, i: nat, j: nat)
    requires multiset(UnmarkedAll(rs)) == multiset(UnmarkedAll(qs))
    requires IsBest(peers, rs, i) && IsBest(peers, qs, j) && rs[i].nlri == qs[j].nlri
    ensures !Preferred(peers, rs[i], qs[j])
  {
    assert UnmarkedAll(rs)[i] in multiset(UnmarkedAll(rs));
    assert UnmarkedAll(rs)[i] in UnmarkedAll(qs);
    var k :| 0 <= k < |qs| && UnmarkedAll(qs)[k] == UnmarkedAll(rs)[i];
    assert Unmarked(qs[k]) == Unmarked(rs[i]);
    assert Competes(qs, k, qs[j].nlri);
  }

  /** However the table is ordered, the best route of a prefix has the same key. */
  lemma BestKeyIgnoresOrder(peers: seq<Peer>, rs: seq<Route>, qs: seq<Route>, i: nat, j: nat)
    requires multiset(UnmarkedAll(rs)) == multiset(UnmarkedAll(qs))
    requires IsBest(peers, rs, i) && IsBest(peers, qs, j) && rs[i].nlri == qs[j].nlri
    ensures KeyOf(peers, rs[i]) == KeyOf(peers, qs[j])
  {
    NoneBetterElsewhere(peers, rs, qs, i, j);
    NoneBetterElsewhere(peers, qs, rs, j, i);
    PreferredIsStrictWeakOrder(peers, rs[i], qs[j], rs[i]);
  }

  // ----- The instance -----

  class BgpInstance {
    var peers: seq<Peer>
    var routes: seq<Route>
    var filters: seq<Filter>

    constructor ()
      ensures peers == [] && routes == [] && filters == []
    {
      peers, routes, filters := [], [], [];
    }

    /** The best flags mark exactly the best route of every prefix; nothing else changes. */
    method BestPathSelection()
      modifies this
      ensures peers == old(peers) && filters == old(filters) && |routes| == |old(routes)|
      ensures forall i: nat | i < |routes| :: routes[i] == old(routes)[i].(best := IsBest(peers, old(routes), i))
    {
      routes := SelectBest(peers, routes);
    }

    method InstallRoute(nlri: Nlri, attrs: Attrs, peer: nat) returns (ok: bool)
      modifies this
      ensures ok <==> |old(routes)| < MAX_ROUTES && forall f | f in old(filters) :: !f.Denies(nlri)
      ensures routes == if ok then old(routes) + [Route(nlri, attrs, peer, false, true)] else old(routes)
      ensures peers == if ok then Credited(old(peers), peer) else old(peers)
      ensures filters == old(filters)
    {
      for i := 0 to |filters|
        invariant forall j | 0 <= j < i :: !filters[j].Denies(nlri)
      {
        if filters[i].prefix.Matches(nlri.prefix) {
          if nlri.length >= filters[i].ge && nlri.length <= filters[i].le {
            if filters[i].deny {
              assert filters[i] in filters && filters[i].Denies(nlri);
              return false;
            }
          }
        }
      }
      if |routes| >= MAX_ROUTES {
        return false;
      }
      routes := routes + [Route(nlri, attrs, peer, false, true)];
      peers := Credited(peers, peer);
      ok := true;
    }
  }

  /** The flags of `out` are those of the best routes among the prefixes in `processed`. */
  ghost predicate Marks(peers: seq<Peer>, routes: seq<Route>, out: seq<Route>, processed: seq<Nlri>) {
    && |out| == |routes|
    && forall k: nat | k < |routes| ::
         out[k] == routes[k].(best := IsBest(peers, routes, k) && routes[k].nlri in processed)
  }

  lemma MarksNext(peers: seq<Peer>, routes: seq<Route>, out: seq<Route>, processed: seq<Nlri>, b: nat)
    requires Marks(peers, routes, out, processed) && IsBest(peers, routes, b) && routes[b].nlri !in processed
    ensures Marks(peers, routes, out[b := out[b].(best := true)], processed + [routes[b].nlri])
  {
    forall k: nat | k < |routes| && IsBest(peers, routes, k) && routes[k].nlri == routes[b].nlri ensures k == b {
      BestIsUnique(peers, routes, k, b);
    }
  }

  /** `processed` holds the prefixes of the valid routes among the first i. */
  ghost predicate Covers(routes: seq<Route>, i: nat, processed: seq<Nlri>) {
    && i <= |routes|
    && (forall j: nat | j < i && routes[j].valid :: routes[j].nlri in processed)
    && (forall p | p in processed :: exists j: nat :: j < i && Competes(routes, j, p))
  }

  lemma CoversNext(routes: seq<Route>, i: nat, processed: seq<Nlri>)
    requires Covers(routes, i, processed) && i < |routes|
    ensures !routes[i].valid || routes[i].nlri in processed ==> Covers(routes, i + 1, processed)
    ensures routes[i].valid ==> Covers(routes, i + 1, processed + [routes[i].nlri])
    ensures routes[i].valid && routes[i].nlri !in processed ==> IsFirst(routes, i)
  {
    if routes[i].valid {
      assert Competes(routes, i, routes[i].nlri);
    }
  }

  /** The first loop of `best_path_selection`. */
  method ClearFlags(peers: seq<Peer>, routes: seq<Route>) returns (out: seq<Route>)
    ensures Marks(peers, routes, out, [])
  {
    out := routes;
    for i := 0 to |routes|
      invariant |out| == |routes|
      invariant forall k: nat | k < |routes| :: out[k] == if k < i then Unmarked(routes[k]) else routes[k]
    {
      out := out[i := out[i].(best := false)];
    }
  }

  /** The body of `best_path_selection`. */
  method SelectBest(peers: seq<Peer>, routes: seq<Route>) returns (out: seq<Route>)
    ensures |out| == |routes|
    ensures forall i: nat | i < |routes| :: out[i] == routes[i].(best := IsBest(peers, routes, i))
  {
    out := ClearFlags(peers, routes);
    var processed: seq<Nlri> := [];
    for i := 0 to |routes|
      invariant Marks(peers, routes, out, processed)
      invariant Covers(routes, i, processed)
    {
      CoversNext(routes, i, processed);
      if !routes[i].valid {
        continue;
      }
      var nlri := routes[i].nlri;
      if nlri in processed {
        continue;
      }
      var best := FindBest(peers, routes, i);
      MarksNext(peers, routes, out, processed, best);
      processed := processed + [nlri];
      out := out[best := out[best].(best := true)];
    }
    MarksAll(peers, routes, out, processed);
  }

  lemma MarksAll(peers: seq<Peer>, routes: seq<Route>, out: seq<Route>, processed: seq<Nlri>)
    requires Marks(peers, routes, out, processed) && Covers(routes, |routes|, processed)
    ensures forall i: nat | i < |routes| :: out[i] == routes[i].(best := IsBest(peers, routes, i))
  {
  }

  /** The first peer with the address has one more prefix and one more message. */
  function Credited(peers: seq<Peer>, ip: nat): seq<Peer> {
    if peers == [] then []
    else if peers[0].ip == ip then
      [peers[0].(prefixesReceived := peers[0].prefixesReceived + 1,
                 messagesReceived := peers[0].messagesReceived + 1)] + peers[1..]
    else [peers[0]] + Credited(peers[1..], ip)
  }
}
