/** Model of the dependency graph and the build step in src/build_system.rs. */
module BuildSystem {
  import opened Prelude

  const MAX_TARGETS: nat := 128

  // ----- The dependency graph -----

  /** The dependency lists of the registered targets. Lists may name unregistered targets. */
  type Graph = map<string, seq<string>>

  predicate Dep(g: Graph, u: string, v: string) {
    u in g && v in g[u]
  }

  ghost predicate IsPath(g: Graph, p: seq<string>) {
    p != [] && forall i | 0 <= i < |p| - 1 :: Dep(g, p[i], p[i + 1])
  }

  ghost predicate PathBetween(g: Graph, p: seq<string>, u: string, v: string) {
    IsPath(g, p) && p[0] == u && p[|p| - 1] == v
  }

  ghost predicate Reaches(g: Graph, u: string, v: string) {
    exists p :: PathBetween(g, p, u, v)
  }

  /** The path comes back to a node it has visited. */
  ghost predicate RepeatsLast(p: seq<string>) {
    p != [] && p[|p| - 1] in p[..|p| - 1]
  }

  ghost predicate IsCycle(g: Graph, p: seq<string>) {
    IsPath(g, p) && |p| >= 2 && p[0] == p[|p| - 1]
  }

  ghost predicate HasCycle(g: Graph) {
    exists p :: IsCycle(g, p)
  }

  /** A path from `u` runs into a cycle. */
  ghost predicate CycleFrom(g: Graph, u: string) {
    exists p :: IsPath(g, p) && p[0] == u && RepeatsLast(p)
  }

  lemma PathExtends(g: Graph, p: seq<string>, v: string)
    requires IsPath(g, p) && Dep(g, p[|p| - 1], v)
    ensures IsPath(g, p + [v])
  {
  }

  /** A path that repeats its last node ends in a cycle. */
  lemma RepeatIsCycle(g: Graph, p: seq<string>)
    requires IsPath(g, p) && RepeatsLast(p)
    ensures HasCycle(g)
  {
    var i :| 0 <= i < |p| - 1 && p[i] == p[|p| - 1];
    assert IsCycle(g, p[i..]);
  }

  lemma CycleFromIsCycle(g: Graph, u: string)
    requires CycleFrom(g, u)
    ensures HasCycle(g)
  {
    var p :| IsPath(g, p) && p[0] == u && RepeatsLast(p);
    RepeatIsCycle(g, p);
  }

  lemma CycleFromTail(g: Graph, p: seq<string>, i: nat)
    requires IsPath(g, p) && 0 < i < |p| - 1 && p[i] == p[|p| - 1]
    ensures CycleFrom(g, p[1])
  {
    var q := p[1..];
    assert IsPath(g, q);
    assert q[..|q| - 1][i - 1] == q[|q| - 1];
    assert RepeatsLast(q);
  }

  lemma CycleFromTurn(g: Graph, p: seq<string>)
    requires IsCycle(g, p)
    ensures CycleFrom(g, p[1])
  {
    var q := p[1..] + [p[1]];
    forall k | 0 <= k < |q| - 1 ensures Dep(g, q[k], q[k + 1]) {
      assert Dep(g, p[if k + 2 < |p| then k + 1 else 0], q[k + 1]);
    }
    assert q[..|q| - 1][0] == q[|q| - 1];
    assert IsPath(g, q) && RepeatsLast(q);
  }

  /** A cycle that can be reached from `u` can be reached from one of its dependencies. */
  lemma CycleFromStep(g: Graph, u: string) returns (d: string)
    requires CycleFrom(g, u)
    ensures Dep(g, u, d) && CycleFrom(g, d)
  {
    var p :| IsPath(g, p) && p[0] == u && RepeatsLast(p);
    d := p[1];
    assert Dep(g, p[0], p[1]);
    var i :| 0 <= i < |p| - 1 && p[i] == p[|p| - 1];
    if i > 0 {
      CycleFromTail(g, p, i);
    } else {
      CycleFromTurn(g, p);
    }
  }

  // ----- Orders -----

  /** The registered dependencies of `order[i]` stand before position i. */
  ghost predicate DepsBefore(g: Graph, order: seq<string>, i: nat)
    requires i < |order|
  {
    forall v | v in g && Dep(g, order[i], v) :: v in order[..i]
  }

  ghost predicate Topological(g: Graph, order: seq<string>) {
    forall i: nat | i < |order| :: DepsBefore(g, order, i)
  }

  /** Topological at every node from which no cycle can be reached. */
  ghost predicate TopologicalOffCycles(g: Graph, order: seq<string>) {
    forall i: nat | i < |order| && !CycleFrom(g, order[i]) :: DepsBefore(g, order, i)
  }

  lemma DepsBeforeAppend(g: Graph, order: seq<string>, u: string)
    ensures forall i: nat | i < |order| :: DepsBefore(g, order + [u], i) <==> DepsBefore(g, order, i)
    ensures DepsBefore(g, order + [u], |order|) <==> forall v | v in g && Dep(g, u, v) :: v in order
  {
    forall i: nat | i <= |order| ensures (order + [u])[..i] == order[..i] {}
    assert order[..|order|] == order;
  }

  lemma {:induction false} PathDescends(g: Graph, order: seq<string>, p: seq<string>, i: nat)
    requires Topological(g, order) && IsPath(g, p) && p[|p| - 1] in g
    requires i < |order| && order[i] == p[0]
    ensures exists j: nat :: j < |order| && order[j] == p[|p| - 1] && (|p| > 1 ==> j < i)
    decreases |p|
  {
    if |p| > 1 {
      assert Dep(g, p[0], p[1]);
      if |p| > 2 {
        assert Dep(g, p[1], p[2]);
      }
      assert DepsBefore(g, order, i);
      var j :| 0 <= j < i && order[j] == p[1];
      PathDescends(g, order, p[1..], j);
    }
  }

  /** A topological order of all targets leaves no room for a cycle. */
  lemma TopologicalHasNoCycle(g: Graph, order: seq<string>)
    requires Topological(g, order) && Distinct(order) && forall u | u in g :: u in order
    ensures !HasCycle(g)
  {
    if p :| IsCycle(g, p) {
      assert Dep(g, p[0], p[1]);
      var i :| 0 <= i < |order| && order[i] == p[0];
      PathDescends(g, order, p, i);
    }
  }

  // ----- Depth-first search -----

  datatype Color = White | Gray | Black

  type Colors = map<string, Color>

  function Whites(c: Colors): set<string> {
    set n | n in c && c[n] == White
  }

  /** The gray nodes are the current path, the black nodes are the finished ones. */
  ghost predicate Coloring(g: Graph, c: Colors, path: seq<string>, done: seq<string>) {
    && c.Keys == g.Keys
    && (path != [] ==> IsPath(g, path))
    && Distinct(path) && Distinct(done)
    && (forall n | n in g :: c[n] == Gray <==> n in path)
    && (forall n | n in g :: c[n] == Black <==> n in done)
    && (forall n | n in path :: n in g) && (forall n | n in done :: n in g)
  }

  ghost predicate MayVisit(g: Graph, path: seq<string>, node: string) {
    path == [] || Dep(g, path[|path| - 1], node)
  }

  lemma ColoringEnter(g: Graph, c: Colors, path: seq<string>, done: seq<string>, node: string)
    requires Coloring(g, c, path, done) && MayVisit(g, path, node) && node in g && c[node] == White
    ensures Coloring(g, c[node := Gray], path + [node], done)
    ensures Whites(c[node := Gray]) < Whites(c)
  {
    assert node in Whites(c) && node !in Whites(c[node := Gray]);
    assert path != [] ==> IsPath(g, path + [node]);
  }

  lemma ColoringLeave(g: Graph, c: Colors, path: seq<string>, done: seq<string>, node: string)
    requires Coloring(g, c, path + [node], done)
    ensures Coloring(g, c[node := Black], path, done + [node])
    ensures Whites(c[node := Black]) == Whites(c)
  {
    var full := path + [node];
    assert full[|path|] == node && node in full;
    assert c[node] == Gray && node !in done;
    forall n | n in path ensures n != node {
      var i :| 0 <= i < |path| && path[i] == n;
      assert full[i] == n;
    }
    forall n | n in full && n != node ensures n in path {}
    forall n | n in path ensures n in full {}
    forall i, j | 0 <= i < j < |path| ensures path[i] != path[j] {
      assert full[i] == path[i] && full[j] == path[j];
    }
    forall i | 0 <= i < |path| - 1 ensures Dep(g, path[i], path[i + 1]) {
      assert Dep(g, full[i], full[i + 1]);
    }
  }

  /** Meeting a gray node closes a cycle. */
  lemma GrayClosesCycle(g: Graph, path: seq<string>, node: string)
    requires path != [] && IsPath(g, path) && MayVisit(g, path, node) && node in path
    ensures IsPath(g, path + [node]) && RepeatsLast(path + [node])
    ensures CycleFrom(g, path[|path| - 1])
  {
    var full := path + [node];
    assert full[..|full| - 1] == path;
    var i: nat :| i < |path| && path[i] == node;
    BackToLast(g, path, i);
  }

  /** From the last node of a path back to one of its nodes and on to the last again. */
  lemma BackToLast(g: Graph, path: seq<string>, i: nat)
    requires IsPath(g, path) && i < |path| && Dep(g, path[|path| - 1], path[i])
    ensures CycleFrom(g, path[|path| - 1])
  {
    var q := [path[|path| - 1]] + path[i..];
    forall k | 0 <= k < |q| - 1 ensures Dep(g, q[k], q[k + 1]) {
      if k > 0 {
        assert q[k] == path[i + k - 1] && q[k + 1] == path[i + k];
      }
    }
    assert q[0] in q[..|q| - 1];
    assert IsPath(g, q) && RepeatsLast(q);
  }

  /** The registered ones among the first k dependencies are in the order or on the path. */
  ghost predicate DepsMet(g: Graph, deps: seq<string>, k: nat, order: seq<string>, path: seq<string>) {
    k <= |deps| && forall j | 0 <= j < k && deps[j] in g :: deps[j] in order || deps[j] in path
  }

  lemma DepsMetNext(g: Graph, deps: seq<string>, k: nat, order: seq<string>, order': seq<string>, path: seq<string>)
    requires DepsMet(g, deps, k, order, path) && k < |deps| && order <= order'
    requires deps[k] in g ==> deps[k] in order' || deps[k] in path
    ensures DepsMet(g, deps, k + 1, order', path)
  {
    forall j | 0 <= j < k + 1 && deps[j] in g ensures deps[j] in order' || deps[j] in path {
      if j < k {
        assert deps[j] in order || deps[j] in path;
      }
    }
  }

  /** A node whose dependencies were met can be listed. */
  lemma ListNode(g: Graph, c: Colors, path: seq<string>, order: seq<string>, node: string)
    requires Coloring(g, c, path + [node], order) && TopologicalOffCycles(g, order)
    requires node in g && DepsMet(g, g[node], |g[node]|, order, path + [node])
    ensures Coloring(g, c[node := Black], path, order + [node]) && TopologicalOffCycles(g, order + [node])
    ensures Whites(c[node := Black]) == Whites(c)
  {
    if !CycleFrom(g, node) {
      forall v | v in g && Dep(g, node, v) ensures v in order {
        if v in path + [node] {
          GrayClosesCycle(g, path + [node], v);
        }
      }
    }
    DepsBeforeAppend(g, order, node);
    ColoringLeave(g, c, path, order, node);
  }

  /** The inner `dfs` of `build_order`: cycles are skipped silently. */
  method OrderDfs(g: Graph, node: string, c: Colors, order: seq<string>, ghost path: seq<string>)
    returns (c': Colors, order': seq<string>)
    requires Coloring(g, c, path, order) && TopologicalOffCycles(g, order) && MayVisit(g, path, node)
    ensures Coloring(g, c', path, order') && TopologicalOffCycles(g, order')
    ensures order <= order' && Whites(c') <= Whites(c)
    ensures node in g ==> node in order' || (path != [] && node in path)
    decreases Whites(c)
  {
    c', order' := c, order;
    if node !in g {
      return;
    }
    if c[node] != White {
      return;
    }
    ColoringEnter(g, c, path, order, node);
    c' := c[node := Gray];
    ghost var path' := path + [node];
    var deps := g[node];
    for k := 0 to |deps|
      invariant Coloring(g, c', path', order') && TopologicalOffCycles(g, order')
      invariant order <= order' && Whites(c') <= Whites(c[node := Gray])
      invariant DepsMet(g, deps, k, order', path')
    {
      ghost var before := order';
      c', order' := OrderDfs(g, deps[k], c', order', path');
      DepsMetNext(g, deps, k, before, order', path');
    }
    ListNode(g, c', path, order', node);
    c' := c'[node := Black];
    order' := order' + [node];
  }

  /** The registered ones among the first k dependencies are finished. */
  ghost predicate DepsIn(g: Graph, deps: seq<string>, k: nat, done: seq<string>) {
    k <= |deps| && forall j | 0 <= j < k && deps[j] in g :: deps[j] in done
  }

  lemma DepsInNext(g: Graph, deps: seq<string>, k: nat, done: seq<string>, done': seq<string>)
    requires DepsIn(g, deps, k, done) && k < |deps| && done <= done' && (deps[k] in g ==> deps[k] in done')
    ensures DepsIn(g, deps, k + 1, done')
  {
    forall j | 0 <= j < k + 1 && deps[j] in g ensures deps[j] in done' {
      if j < k {
        assert deps[j] in done;
      }
    }
  }

  /** Every target exactly once, and after its registered dependencies unless a cycle can be reached from it. */
  method BuildOrder(names: seq<string>, g: Graph) returns (order: seq<string>)
    requires forall n :: n in names <==> n in g
    ensures Distinct(order) && forall n :: n in order <==> n in g
    ensures TopologicalOffCycles(g, order)
    ensures !HasCycle(g) ==> Topological(g, order)
  {
    var c: Colors := map n | n in g :: White;
    order := [];
    for i := 0 to |names|
      invariant Coloring(g, c, [], order) && TopologicalOffCycles(g, order) && DepsIn(g, names, i, order)
    {
      ghost var before := order;
      c, order := OrderDfs(g, names[i], c, order, []);
      DepsInNext(g, names, i, before, order);
    }
    AllOrdered(names, g, c, order);
  }

  lemma AllOrdered(names: seq<string>, g: Graph, c: Colors, order: seq<string>)
    requires Coloring(g, c, [], order) && TopologicalOffCycles(g, order) && DepsIn(g, names, |names|, order)
    requires forall n :: n in names <==> n in g
    ensures Distinct(order) && forall n :: n in order <==> n in g
    ensures !HasCycle(g) ==> Topological(g, order)
  {
    if !HasCycle(g) {
      forall i: nat | i < |order| ensures DepsBefore(g, order, i) {
        if CycleFrom(g, order[i]) {
          CycleFromIsCycle(g, order[i]);
        }
      }
    }
  }

  /** A node whose dependencies are finished can be finished. */
  lemma FinishNode(g: Graph, c: Colors, path: seq<string>, done: seq<string>, node: string)
    requires Coloring(g, c, path + [node], done) && Topological(g, done)
    requires node in g && DepsIn(g, g[node], |g[node]|, done)
    ensures Coloring(g, c[node := Black], path, done + [node]) && Topological(g, done + [node])
    ensures Whites(c[node := Black]) == Whites(c)
  {
    DepsBeforeAppend(g, done, node);
    ColoringLeave(g, c, path, done, node);
  }

  /** The inner `dfs` of `check_circular`. */
  method CircularDfs(g: Graph, node: string, c: Colors, path: seq<string>, ghost done: seq<string>)
    returns (found: bool, c': Colors, path': seq<string>, ghost done': seq<string>)
    requires Coloring(g, c, path, done) && Topological(g, done) && MayVisit(g, path, node)
    ensures found ==> IsPath(g, path') && RepeatsLast(path')
    ensures !found ==>
              && Coloring(g, c', path, done') && Topological(g, done')
              && path' == path && done <= done' && Whites(c') <= Whites(c)
              && (node in g ==> node in done')
    decreases Whites(c)
  {
    found, c', path', done' := false, c, path, done;
    if node !in g {
      return;
    }
    match c[node] {
      case Black => return;
      case Gray =>
        GrayClosesCycle(g, path, node);
        path' := path' + [node];
        found := true;
        return;
      case White =>
    }
    ColoringEnter(g, c, path, done, node);
    c' := c[node := Gray];
    path' := path + [node];
    ghost var full := path';
    var deps := g[node];
    for k := 0 to |deps|
      invariant Coloring(g, c', full, done') && Topological(g, done')
      invariant path' == full && done <= done' && Whites(c') <= Whites(c[node := Gray])
      invariant DepsIn(g, deps, k, done')
    {
      ghost var before := done';
      found, c', path', done' := CircularDfs(g, deps[k], c', path', done');
      if found {
        return;
      }
      DepsInNext(g, deps, k, before, done');
    }
    path' := path'[..|path'| - 1];
    FinishNode(g, c', path, done', node);
    c' := c'[node := Black];
    done' := done' + [node];
    found := false;
  }

  /** A path into a cycle exactly when the graph has a cycle. */
  method CheckCircular(names: seq<string>, g: Graph) returns (r: Option<seq<string>>)
    requires forall n :: n in names <==> n in g
    ensures r.Some? <==> HasCycle(g)
    ensures r.Some? ==> IsPath(g, r.value) && RepeatsLast(r.value)
  {
    var c: Colors := map n | n in g :: White;
    var path: seq<string> := [];
    ghost var done: seq<string> := [];
    for i := 0 to |names|
      invariant path == [] && Coloring(g, c, [], done) && Topological(g, done)
      invariant forall j | 0 <= j < i :: names[j] in done
    {
      var found;
      found, c, path, done := CircularDfs(g, names[i], c, path, done);
      if found {
        RepeatIsCycle(g, path);
        return Some(path);
      }
    }
    TopologicalHasNoCycle(g, done);
    r := None;
  }

  // ----- Collecting the targets a build needs -----

  /** The recursion of `collect` with a bound on its depth; None when the bound is hit. */
  function CollectWithin(g: Graph, n: string, needed: seq<string>, depth: nat): Option<seq<string>>
    decreases depth, 1
  {
    if depth == 0 then None
    else if n in needed then Some(needed)
    else
      match CollectDeps(g, if n in g then g[n] else [], needed, depth - 1)
      case None => None
      case Some(all) => Some(all + [n])
  }

  function CollectDeps(g: Graph, deps: seq<string>, needed: seq<string>, depth: nat): Option<seq<string>>
    decreases depth, 2, |deps|
  {
    if deps == [] then Some(needed)
    else
      match CollectWithin(g, deps[0], needed, depth)
      case None => None
      case Some(all) => CollectDeps(g, deps[1..], all, depth)
  }

  ghost predicate AvoidsCycles(g: Graph, needed: seq<string>) {
    forall x | x in needed :: !CycleFrom(g, x)
  }

  lemma {:induction false} CollectAvoidsCycles(g: Graph, n: string, needed: seq<string>, depth: nat)
    requires AvoidsCycles(g, needed) && CollectWithin(g, n, needed, depth).Some?
    ensures !CycleFrom(g, n) && AvoidsCycles(g, CollectWithin(g, n, needed, depth).value)
    decreases depth, 1
  {
    if n !in needed {
      var deps := if n in g then g[n] else [];
      CollectDepsAvoidCycles(g, deps, needed, depth - 1);
      if CycleFrom(g, n) {
        var d := CycleFromStep(g, n);
      }
    }
  }

  lemma {:induction false} CollectDepsAvoidCycles(g: Graph, deps: seq<string>, needed: seq<string>, depth: nat)
    requires AvoidsCycles(g, needed) && CollectDeps(g, deps, needed, depth).Some?
    ensures AvoidsCycles(g, deps) && AvoidsCycles(g, CollectDeps(g, deps, needed, depth).value)
    decreases depth, 2, |deps|
  {
    if deps != [] {
      CollectAvoidsCycles(g, deps[0], needed, depth);
      CollectDepsAvoidCycles(g, deps[1..], CollectWithin(g, deps[0], needed, depth).value, depth);
      assert deps == [deps[0]] + deps[1..];
    }
  }

  /** With a cycle in reach, `collect` recurses without bound. */
  lemma CollectDiverges(g: Graph, n: string)
    requires CycleFrom(g, n)
    ensures forall depth: nat :: CollectWithin(g, n, [], depth) == None
  {
    forall depth: nat ensures CollectWithin(g, n, [], depth) == None {
      if CollectWithin(g, n, [], depth).Some? {
        CollectAvoidsCycles(g, n, [], depth);
      }
    }
  }

  ghost predicate Closed(g: Graph, needed: seq<string>) {
    forall x, v | x in needed && Dep(g, x, v) :: v in needed
  }

  lemma {:induction false} DistinctBound(s: seq<string>, all: set<string>)
    requires Distinct(s) && forall x | x in s :: x in all
    ensures |s| <= |all|
    decreases |s|
  {
    if s != [] {
      var last := s[|s| - 1];
      DistinctBound(s[..|s| - 1], all - {last});
    }
  }

  lemma ReachesStep(g: Graph, u: string, d: string, v: string)
    requires Dep(g, u, d) && Reaches(g, d, v)
    ensures Reaches(g, u, v)
  {
    var p :| PathBetween(g, p, d, v);
    assert PathBetween(g, [u] + p, u, v);
  }

  /** What `after` has over `before` is in reach of `n`. */
  ghost predicate InReach(g: Graph, n: string, before: seq<string>, after: seq<string>) {
    forall x | x in after :: x in before || Reaches(g, n, x)
  }

  lemma InReachStep(g: Graph, n: string, d: string, a: seq<string>, b: seq<string>, c: seq<string>)
    requires Dep(g, n, d) && InReach(g, n, a, b) && InReach(g, d, b, c)
    ensures InReach(g, n, a, c)
  {
    forall x | x in c ensures x in a || Reaches(g, n, x) {
      if x !in b {
        ReachesStep(g, n, d, x);
      }
    }
  }

  lemma ReachesSelf(g: Graph, u: string)
    ensures Reaches(g, u, u)
  {
    assert PathBetween(g, [u], u, u);
  }

  /** The recursion stack of `collect`: a path without repetition, because no cycle is in reach. */
  ghost predicate Stack(g: Graph, root: string, path: seq<string>) {
    && Distinct(path) && (forall x | x in path :: x in g)
    && (path != [] ==> IsPath(g, path) && path[0] == root)
  }

  lemma StackPush(g: Graph, root: string, path: seq<string>, n: string)
    requires Stack(g, root, path) && !CycleFrom(g, root) && n in g
    requires if path == [] then n == root else MayVisit(g, path, n)
    ensures Stack(g, root, path + [n])
    ensures |path| < |g.Keys|
  {
    var full := path + [n];
    if path != [] {
      PathExtends(g, path, n);
      if n in path {
        assert full[..|full| - 1] == path;
        assert RepeatsLast(full) && full[0] == root;
      }
    }
    DistinctBound(full, g.Keys);
  }

  lemma CollectDepsMonotone(g: Graph, deps: seq<string>, needed: seq<string>, depth: nat, more: nat)
    requires CollectDeps(g, deps, needed, depth).Some? && depth <= more
    ensures CollectDeps(g, deps, needed, more) == CollectDeps(g, deps, needed, depth)
    decreases depth, 2, |deps|
  {
    if deps != [] {
      CollectMonotone(g, deps[0], needed, depth, more);
      CollectDepsMonotone(g, deps[1..], CollectWithin(g, deps[0], needed, depth).value, depth, more);
    }
  }

  lemma CollectMonotone(g: Graph, n: string, needed: seq<string>, depth: nat, more: nat)
    requires CollectWithin(g, n, needed, depth).Some? && depth <= more
    ensures CollectWithin(g, n, needed, more) == CollectWithin(g, n, needed, depth)
    decreases depth, 1
  {
    if n !in needed {
      CollectDepsMonotone(g, if n in g then g[n] else [], needed, depth - 1, more - 1);
    }
  }

  lemma {:induction false} CollectDepsAppend(g: Graph, deps: seq<string>, d: string, needed: seq<string>, depth: nat)
    requires CollectDeps(g, deps, needed, depth).Some?
    ensures CollectDeps(g, deps + [d], needed, depth)
         == CollectWithin(g, d, CollectDeps(g, deps, needed, depth).value, depth)
    decreases |deps|
  {
    if deps == [] {
      assert deps + [d] == [d];
      assert [d][1..] == [];
    } else {
      assert (deps + [d])[1..] == deps[1..] + [d];
      CollectDepsAppend(g, deps[1..], d, CollectWithin(g, deps[0], needed, depth).value, depth);
    }
  }

  lemma {:induction false} CollectEnds(g: Graph, n: string, needed: seq<string>, root: string, path: seq<string>)
    returns (depth: nat)
    requires !CycleFrom(g, root) && Stack(g, root, path)
    requires if path == [] then n == root else MayVisit(g, path, n)
    ensures CollectWithin(g, n, needed, depth).Some?
    decreases |g.Keys| - |path|, 1, 0
  {
    depth := 1;
    if n !in needed && n in g {
      StackPush(g, root, path, n);
      var d := CollectDepsEnd(g, g[n], needed, root, path + [n]);
      depth := d + 1;
    }
  }

  lemma {:induction false} CollectDepsEnd(g: Graph, deps: seq<string>, needed: seq<string>,
                                          root: string, path: seq<string>)
    returns (depth: nat)
    requires !CycleFrom(g, root) && Stack(g, root, path) && path != [] && |path| <= |g.Keys|
    requires forall i | 0 <= i < |deps| :: MayVisit(g, path, deps[i])
    ensures CollectDeps(g, deps, needed, depth).Some?
    decreases |g.Keys| - |path|, 2, |deps|
  {
    depth := 0;
    if deps != [] {
      var d := CollectEnds(g, deps[0], needed, root, path);
      var all := CollectWithin(g, deps[0], needed, d).value;
      var e := CollectDepsEnd(g, deps[1..], all, root, path);
      depth := if d < e then e else d;
      CollectMonotone(g, deps[0], needed, d, depth);
      CollectDepsMonotone(g, deps[1..], all, e, depth);
    }
  }

  /** `collect` ends exactly when no cycle can be reached from the target. */
  lemma CollectEndsExactlyOffCycles(g: Graph, n: string)
    ensures (exists depth: nat :: CollectWithin(g, n, [], depth).Some?) <==> !CycleFrom(g, n)
  {
    if CycleFrom(g, n) {
      CollectDiverges(g, n);
    } else {
      var depth := CollectEnds(g, n, [], n, []);
    }
  }

  lemma DeeperDeps(g: Graph, deps: seq<string>, k: nat, needed: seq<string>, depth: nat, d: nat) returns (m: nat)
    requires k < |deps| && CollectDeps(g, deps[..k], needed, depth).Some?
    requires CollectWithin(g, deps[k], CollectDeps(g, deps[..k], needed, depth).value, d).Some?
    ensures CollectDeps(g, deps[..k + 1], needed, m)
         == CollectWithin(g, deps[k], CollectDeps(g, deps[..k], needed, depth).value, d)
  {
    m := if d < depth then depth else d;
    CollectDepsMonotone(g, deps[..k], needed, depth, m);
    CollectMonotone(g, deps[k], CollectDeps(g, deps[..k], needed, depth).value, d, m);
    CollectDepsAppend(g, deps[..k], deps[k], needed, m);
    assert deps[..k + 1] == deps[..k] + [deps[k]];
  }

  /** Where the loop of `collect` stands: the first k dependencies of `n` have been collected. */
  ghost predicate Collecting(g: Graph, n: string, deps: seq<string>, k: nat,
                             needed: seq<string>, now: seq<string>, depth: nat)
    requires k <= |deps|
  {
    && needed <= now && Closed(g, now) && InReach(g, n, needed, now)
    && (forall j | 0 <= j < k :: deps[j] in now)
    && CollectDeps(g, deps[..k], needed, depth) == Some(now)
  }

  lemma CollectingStart(g: Graph, n: string, deps: seq<string>, needed: seq<string>)
    requires Closed(g, needed)
    ensures Collecting(g, n, deps, 0, needed, needed, 0)
  {
  }

  lemma CollectingNext(g: Graph, n: string, deps: seq<string>, k: nat,
                       needed: seq<string>, now: seq<string>, depth: nat, next: seq<string>, d: nat)
    returns (depth': nat)
    requires k < |deps| && n in g && deps == g[n] && Collecting(g, n, deps, k, needed, now, depth)
    requires now <= next && deps[k] in next && Closed(g, next) && InReach(g, deps[k], now, next)
    requires CollectWithin(g, deps[k], now, d) == Some(next)
    ensures Collecting(g, n, deps, k + 1, needed, next, depth')
  {
    assert Dep(g, n, deps[k]);
    InReachStep(g, n, deps[k], needed, now, next);
    depth' := DeeperDeps(g, deps, k, needed, depth, d);
  }

  lemma CollectingDone(g: Graph, n: string, deps: seq<string>, needed: seq<string>, now: seq<string>, depth: nat)
    requires deps == (if n in g then g[n] else []) && n !in needed
    requires Collecting(g, n, deps, |deps|, needed, now, depth)
    ensures Closed(g, now + [n]) && InReach(g, n, needed, now + [n])
    ensures CollectWithin(g, n, needed, depth + 1) == Some(now + [n])
  {
    ReachesSelf(g, n);
    assert deps[..|deps|] == deps;
    forall x, v | x in now + [n] && Dep(g, x, v) ensures v in now + [n] {
      if x !in now {
        assert v in deps;
      }
    }
  }

  /** `collect`: it ends when no cycle is in reach, with exactly the targets in reach added. */
  method Collect(g: Graph, n: string, needed: seq<string>, ghost root: string, ghost path: seq<string>)
    returns (needed': seq<string>, ghost depth: nat)
    requires !CycleFrom(g, root) && Stack(g, root, path)
    requires if path == [] then n == root else MayVisit(g, path, n)
    requires Closed(g, needed)
    ensures needed <= needed' && n in needed' && Closed(g, needed')
    ensures InReach(g, n, needed, needed')
    ensures CollectWithin(g, n, needed, depth) == Some(needed')
    decreases |g.Keys| - |path|
  {
    if n in needed {
      return needed, 1;
    }
    needed', depth := needed, 0;
    var deps := if n in g then g[n] else [];
    if n in g {
      StackPush(g, root, path, n);
    }
    CollectingStart(g, n, deps, needed);
    ghost var stack := path + [n];
    for k := 0 to |deps|
      invariant Collecting(g, n, deps, k, needed, needed', depth)
    {
      ghost var before := needed';
      ghost var d;
      needed', d := Collect(g, deps[k], needed', root, stack);
      depth := CollectingNext(g, n, deps, k, needed, before, depth, needed', d);
    }
    CollectingDone(g, n, deps, needed, needed', depth);
    needed' := needed' + [n];
    depth := depth + 1;
  }

  lemma {:induction false} ClosedFollowsPath(g: Graph, needed: seq<string>, p: seq<string>)
    requires Closed(g, needed) && IsPath(g, p) && p[0] in needed
    ensures p[|p| - 1] in needed
    decreases |p|
  {
    if |p| > 1 {
      assert Dep(g, p[0], p[1]);
      ClosedFollowsPath(g, needed, p[1..]);
    }
  }

  /** What `collect` gathers for a registered target is exactly what the target reaches. */
  lemma CollectedIsReachable(g: Graph, n: string, needed: seq<string>)
    requires Closed(g, needed) && n in needed && InReach(g, n, [], needed)
    ensures forall x :: x in needed <==> Reaches(g, n, x)
  {
    forall x | Reaches(g, n, x) ensures x in needed {
      var p :| PathBetween(g, p, n, x);
      ClosedFollowsPath(g, needed, p);
    }
  }

  // ----- Targets and builds -----

  datatype Target = Target(name: string, deps: seq<string>, built: bool, builtAt: nat)

  predicate UniqueNames(ts: seq<Target>) {
    forall i, j | 0 <= i < j < |ts| :: ts[i].name != ts[j].name
  }

  /** The position of the first target called `name`; |ts| when there is none. */
  function IndexOf(ts: seq<Target>, name: string): (r: nat)
    ensures r <= |ts| && (r < |ts| ==> ts[r].name == name)
    ensures forall i | 0 <= i < r :: ts[i].name != name
  {
    if ts == [] || ts[0].name == name then 0 else 1 + IndexOf(ts[1..], name)
  }

  function Names(ts: seq<Target>): seq<string> {
    seq(|ts|, i requires 0 <= i < |ts| => ts[i].name)
  }

  function GraphOf(ts: seq<Target>): (g: Graph)
    ensures forall n :: n in Names(ts) <==> n in g
  {
    map n | n in Names(ts) :: var i := IndexOf(ts, n); if i < |ts| then ts[i].deps else []
  }

  /** Building a registered target that depends on itself never ends. */
  lemma SelfDependentDiverges(ts: seq<Target>, i: nat)
    requires UniqueNames(ts) && i < |ts| && ts[i].name in ts[i].deps
    ensures forall depth: nat :: CollectWithin(GraphOf(ts), ts[i].name, [], depth) == None
  {
    var g, n := GraphOf(ts), ts[i].name;
    assert Names(ts)[i] == n;
    assert IndexOf(ts, n) == i;
    var p := [n, n];
    assert IsPath(g, p) && p[..1] == [n] && RepeatsLast(p);
    CollectDiverges(g, n);
  }

  /** Equal up to the record of what is built. */
  predicate SameTargets(ts: seq<Target>, us: seq<Target>) {
    |ts| == |us| && forall i | 0 <= i < |ts| :: us[i].name == ts[i].name && us[i].deps == ts[i].deps
  }

  lemma {:induction false} SameIndex(ts: seq<Target>, us: seq<Target>, n: string)
    requires SameTargets(ts, us)
    ensures IndexOf(us, n) == IndexOf(ts, n)
  {
    if ts != [] && ts[0].name != n {
      SameIndex(ts[1..], us[1..], n);
    }
  }

  lemma SameGraph(ts: seq<Target>, us: seq<Target>)
    requires SameTargets(ts, us) && UniqueNames(ts)
    ensures Names(us) == Names(ts) && GraphOf(us) == GraphOf(ts) && UniqueNames(us)
  {
    assert Names(us) == Names(ts);
    forall n ensures IndexOf(us, n) == IndexOf(ts, n) {
      SameIndex(ts, us, n);
    }
    assert GraphOf(us) == GraphOf(ts);
  }

  predicate Pending(t: Target, needed: seq<string>) {
    !t.built && t.name in needed
  }

  /** `us` is `ts` with the pending targets among `seen` built, in the order `built` and at ticks from `tick` on. */
  ghost predicate Marked(ts: seq<Target>, us: seq<Target>, needed: seq<string>, seen: seq<string>,
                         tick: nat, built: seq<string>)
  {
    && SameTargets(ts, us)
    && (forall i | 0 <= i < |ts| ::
          if Pending(ts[i], needed) && ts[i].name in seen
          then us[i].built && ts[i].name in built
          else us[i] == ts[i] && ts[i].name !in built)
    && (forall i, k | 0 <= i < |ts| && 0 <= k < |built| && ts[i].name == built[k] :: us[i].builtAt == tick + k)
    && (forall x | x in built :: x in Names(ts))
  }

  lemma MarkedStep(ts: seq<Target>, us: seq<Target>, needed: seq<string>, seen: seq<string>,
                   tick: nat, built: seq<string>, i: nat)
    requires UniqueNames(ts) && Marked(ts, us, needed, seen, tick, built) && i < |ts|
    requires Pending(ts[i], needed) && ts[i].name !in seen
    ensures Marked(ts, us[i := us[i].(built := true, builtAt := tick + |built|)], needed, seen + [ts[i].name],
                   tick, built + [ts[i].name])
  {
    var name := ts[i].name;
    var us' := us[i := us[i].(built := true, builtAt := tick + |built|)];
    var built' := built + [name];
    assert name !in built && name in Names(ts) by { assert Names(ts)[i] == name; }
    forall j | 0 <= j < |ts|
      ensures if Pending(ts[j], needed) && ts[j].name in seen + [name]
              then us'[j].built && ts[j].name in built'
              else us'[j] == ts[j] && ts[j].name !in built'
    {
      assert j != i ==> ts[j].name != name;
      assert built'[|built|] == name;
    }
    forall j, k | 0 <= j < |ts| && 0 <= k < |built'| && ts[j].name == built'[k] ensures us'[j].builtAt == tick + k {
      if k < |built| {
        assert built[k] in built;
      }
    }
  }

  lemma MarkedSkip(ts: seq<Target>, us: seq<Target>, needed: seq<string>, seen: seq<string>,
                   tick: nat, built: seq<string>, name: string)
    requires Marked(ts, us, needed, seen, tick, built)
    requires forall i | 0 <= i < |ts| && ts[i].name == name :: name in seen || !Pending(ts[i], needed)
    ensures Marked(ts, us, needed, seen + [name], tick, built)
  {
  }

  /** The body of the marking loop: build `name` if it is needed and not built yet. */
  method MarkOne(ghost ts: seq<Target>, us: seq<Target>, tick: nat, needed: seq<string>, name: string,
                 ghost seen: seq<string>, ghost tick0: nat, built: seq<string>)
    returns (us': seq<Target>, tick': nat, built': seq<string>)
    requires UniqueNames(ts) && Marked(ts, us, needed, seen, tick0, built) && tick == tick0 + |built|
    ensures Marked(ts, us', needed, seen + [name], tick0, built') && tick' == tick0 + |built'|
    ensures built' == built || (built' == built + [name] && name in needed && name in Names(ts) && name !in seen)
  {
    us', tick', built' := us, tick, built;
    var i := IndexOf(us, name);
    if name in needed && i < |us| && !us[i].built {
      assert Pending(ts[i], needed) && name !in seen && Names(ts)[i] == name;
      MarkedStep(ts, us, needed, seen, tick0, built, i);
      us' := us[i := us[i].(built := true, builtAt := tick)];
      built' := built + [name];
      tick' := tick + 1;
    } else {
      MarkedSkip(ts, us, needed, seen, tick0, built, name);
    }
  }

  /** The marking loop of `build` and `build_all`. */
  method Mark(ts: seq<Target>, tick: nat, needed: seq<string>, order: seq<string>, ghost g: Graph)
    returns (us: seq<Target>, tick': nat, built: seq<string>)
    requires UniqueNames(ts) && forall n | n in Names(ts) :: n in g
    ensures Marked(ts, us, needed, order, tick, built) && tick' == tick + |built|
    ensures BuiltSoFar(g, needed, order, |order|, built)
  {
    us, tick', built := ts, tick, [];
    ghost var seen: seq<string> := [];
    for k := 0 to |order|
      invariant seen == order[..k]
      invariant Marked(ts, us, needed, seen, tick, built) && tick' == tick + |built|
      invariant BuiltSoFar(g, needed, order, k, built)
    {
      ghost var before := built;
      us, tick', built := MarkOne(ts, us, tick', needed, order[k], seen, tick, built);
      BuiltStep(g, needed, order, k, before, built);
      seen := seen + [order[k]];
    }
    assert order[..|order|] == order;
  }

  ghost predicate BuiltSoFar(g: Graph, needed: seq<string>, order: seq<string>, k: nat, built: seq<string>)
    requires k <= |order|
  {
    && (forall x | x in built :: x in needed && x in order[..k])
    && (TopologicalAmong(g, needed, order) ==> BuiltAfterDeps(g, built))
  }

  lemma BuiltStep(g: Graph, needed: seq<string>, order: seq<string>, k: nat, built: seq<string>, built': seq<string>)
    requires k < |order| && BuiltSoFar(g, needed, order, k, built)
    requires built' == built ||
             (built' == built + [order[k]] && order[k] in needed && order[k] in g && order[k] !in order[..k])
    ensures BuiltSoFar(g, needed, order, k + 1, built')
  {
    assert order[..k + 1] == order[..k] + [order[k]];
    if built' != built && TopologicalAmong(g, needed, order) {
      BuiltAfterDepsAppend(g, needed, order, k, built);
    }
  }

  /** Each needed target of the order comes after its registered dependencies. */
  ghost predicate TopologicalAmong(g: Graph, needed: seq<string>, order: seq<string>) {
    forall i: nat | i < |order| && order[i] in needed :: DepsBefore(g, order, i)
  }

  /** Of two targets built by one call, a dependency was built first. */
  ghost predicate BuiltAfterDeps(g: Graph, built: seq<string>) {
    forall k, v | 0 <= k < |built| && Dep(g, built[k], v) && v in built :: v in built[..k]
  }

  /** A target that is still pending at position k is no dependency of one built before. */
  lemma BuiltAfterDepsAppend(g: Graph, needed: seq<string>, order: seq<string>, k: nat, built: seq<string>)
    requires k < |order| && order[k] in g && order[k] in needed && order[k] !in order[..k]
    requires forall x | x in built :: x in needed && x in order[..k]
    requires BuiltAfterDeps(g, built) && TopologicalAmong(g, needed, order)
    ensures BuiltAfterDeps(g, built + [order[k]])
  {
    var u := order[k];
    var w := built + [u];
    forall j, v | 0 <= j < |w| && Dep(g, w[j], v) && v in w ensures v in w[..j] {
      if j == |built| {
        assert w[..j] == built;
        assert DepsBefore(g, order, k);
      } else {
        assert w[..j] == built[..j] && built[j] in built;
        var p :| 0 <= p < k && order[p] == built[j];
        assert DepsBefore(g, order, p);
        assert forall x | x in order[..p] :: x in order[..k];
      }
    }
  }

  lemma CycleFromReach(g: Graph, u: string, v: string)
    requires Reaches(g, u, v) && CycleFrom(g, v)
    ensures CycleFrom(g, u)
  {
    var p :| PathBetween(g, p, u, v);
    var q :| IsPath(g, q) && q[0] == v && RepeatsLast(q);
    var w := p + q[1..];
    var shift := |p| - 1;
    forall i | 0 <= i < |w| - 1 ensures Dep(g, w[i], w[i + 1]) {
      if i >= shift {
        assert w[i] == q[i - shift] && w[i + 1] == q[i + 1 - shift];
      }
    }
    var i :| 0 <= i < |q| - 1 && q[i] == q[|q| - 1];
    assert w[shift + i] == w[|w| - 1];
    assert w[|w| - 1] in w[..|w| - 1];
    assert IsPath(g, w) && w[0] == u && RepeatsLast(w);
  }

  /** Exactly the wanted targets that were not built are built, at successive ticks in the order `built`. */
  ghost predicate Builds(ts: seq<Target>, tick: nat, wanted: iset<string>,
                         us: seq<Target>, tick': nat, built: seq<string>)
  {
    && SameTargets(ts, us)
    && (forall i | 0 <= i < |ts| ::
          if !ts[i].built && ts[i].name in wanted
          then us[i].built && ts[i].name in built
          else us[i] == ts[i] && ts[i].name !in built)
    && (forall i, k | 0 <= i < |ts| && 0 <= k < |built| && ts[i].name == built[k] :: us[i].builtAt == tick + k)
    && (forall x | x in built :: x in Names(ts))
    && tick' == tick + |built|
  }

  /** The effect of building `name`: exactly the targets in its reach are built, dependencies first. */
  ghost predicate BuildsReach(g: Graph, ts: seq<Target>, tick: nat, name: string,
                              us: seq<Target>, tick': nat, built: seq<string>)
  {
    Builds(ts, tick, (iset n | Reaches(g, name, n)), us, tick', built) && BuiltAfterDeps(g, built)
  }

  /** The effect of building everything, dependencies first when there is no cycle. */
  ghost predicate BuildsAll(g: Graph, ts: seq<Target>, tick: nat, us: seq<Target>, tick': nat, built: seq<string>) {
    Builds(ts, tick, (iset n | n in Names(ts)), us, tick', built) && (!HasCycle(g) ==> BuiltAfterDeps(g, built))
  }

  /** The names of the targets that are not built. */
  function Unbuilt(ts: seq<Target>): seq<string> {
    if ts == [] then []
    else if ts[|ts| - 1].built then Unbuilt(ts[..|ts| - 1])
    else Unbuilt(ts[..|ts| - 1]) + [ts[|ts| - 1].name]
  }

  lemma DistinctAppend(s: seq<string>, x: string)
    requires Distinct(s) && x !in s
    ensures Distinct(s + [x])
  {
  }

  ghost predicate IsUnbuilt(ts: seq<Target>, x: string) {
    exists i :: 0 <= i < |ts| && !ts[i].built && ts[i].name == x
  }

  lemma {:induction false} UnbuiltNames(ts: seq<Target>)
    requires UniqueNames(ts)
    ensures Distinct(Unbuilt(ts)) && forall x :: x in Unbuilt(ts) <==> IsUnbuilt(ts, x)
    decreases |ts|
  {
    if ts != [] {
      var front, last := ts[..|ts| - 1], ts[|ts| - 1];
      UnbuiltNames(front);
      assert !IsUnbuilt(front, last.name);
      forall x ensures IsUnbuilt(ts, x) <==> IsUnbuilt(front, x) || (!last.built && x == last.name) {
        if IsUnbuilt(front, x) {
          var i :| 0 <= i < |front| && !front[i].built && front[i].name == x;
          assert ts[i] == front[i];
        }
      }
      DistinctAppend(Unbuilt(front), last.name);
    }
  }

  function Elements(s: seq<string>): set<string> {
    set x | x in s
  }

  lemma {:induction false} SetSize(s: seq<string>)
    ensures |Elements(s)| <= |s|
    decreases |s|
  {
    if s != [] {
      var front, last := s[..|s| - 1], s[|s| - 1];
      SetSize(front);
      assert s == front + [last];
      assert Elements(s) == Elements(front) + {last};
    }
  }

  lemma SameLength(a: seq<string>, b: seq<string>)
    requires Distinct(a) && Distinct(b) && forall x :: x in a <==> x in b
    ensures |a| == |b|
  {
    DistinctBound(a, Elements(b));
    SetSize(b);
    DistinctBound(b, Elements(a));
    SetSize(a);
  }

  lemma BuiltDistinct(ts: seq<Target>, tick: nat, wanted: iset<string>, us: seq<Target>, tick': nat, built: seq<string>)
    requires Builds(ts, tick, wanted, us, tick', built)
    ensures Distinct(built)
  {
    forall k, l | 0 <= k < l < |built| ensures built[k] != built[l] {
      assert built[k] in built;
      var i :| 0 <= i < |ts| && Names(ts)[i] == built[k];
      assert ts[i].name == built[k];
    }
  }

  /** Building everything builds as many targets as were not built. */
  lemma BuildsAllCounts(g: Graph, ts: seq<Target>, tick: nat, us: seq<Target>, tick': nat, built: seq<string>)
    requires UniqueNames(ts) && BuildsAll(g, ts, tick, us, tick', built)
    ensures |built| == |Unbuilt(ts)|
  {
    BuiltDistinct(ts, tick, (iset n | n in Names(ts)), us, tick', built);
    UnbuiltNames(ts);
    forall x ensures x in built <==> x in Unbuilt(ts) {
      if x in built {
        var i :| 0 <= i < |ts| && Names(ts)[i] == x;
        assert ts[i].name == x;
      }
      if x in Unbuilt(ts) {
        assert IsUnbuilt(ts, x);
        var i :| 0 <= i < |ts| && !ts[i].built && ts[i].name == x;
        assert Names(ts)[i] == x;
      }
    }
    SameLength(built, Unbuilt(ts));
  }

  lemma NeededOrderIsTopological(g: Graph, name: string, needed: seq<string>, order: seq<string>)
    requires !CycleFrom(g, name) && TopologicalOffCycles(g, order)
    requires forall x | x in needed :: Reaches(g, name, x)
    ensures TopologicalAmong(g, needed, order)
  {
    forall i: nat | i < |order| && order[i] in needed ensures DepsBefore(g, order, i) {
      if CycleFrom(g, order[i]) {
        CycleFromReach(g, name, order[i]);
      }
    }
  }

  /** The body of `build` once the target is known to exist. */
  method BuildTarget(ts: seq<Target>, tick: nat, name: string, g: Graph)
    returns (us: seq<Target>, tick': nat, built: seq<string>)
    requires UniqueNames(ts) && (forall n :: n in Names(ts) <==> n in g) && !CycleFrom(g, name)
    ensures BuildsReach(g, ts, tick, name, us, tick', built)
  {
    var order := BuildOrder(Names(ts), g);
    var needed, _ := Collect(g, name, [], name, []);
    CollectedIsReachable(g, name, needed);
    NeededOrderIsTopological(g, name, needed, order);
    us, tick', built := Mark(ts, tick, needed, order, g);
    forall i | 0 <= i < |ts| ensures ts[i].name in order {
      assert Names(ts)[i] == ts[i].name;
    }
  }

  /** The body of `build_all`. */
  method BuildTargets(ts: seq<Target>, tick: nat, g: Graph)
    returns (us: seq<Target>, tick': nat, built: seq<string>)
    requires UniqueNames(ts) && (forall n :: n in Names(ts) <==> n in g)
    ensures BuildsAll(g, ts, tick, us, tick', built) && |built| == |Unbuilt(ts)|
  {
    var order := BuildOrder(Names(ts), g);
    us, tick', built := Mark(ts, tick, order, order, g);
    forall i | 0 <= i < |ts| ensures ts[i].name in order && ts[i].name in Names(ts) {
      assert Names(ts)[i] == ts[i].name;
    }
    BuildsAllCounts(g, ts, tick, us, tick', built);
  }

  /** Afterwards every target is built, and those that were built before keep their time. */
  lemma AllAreBuilt(g: Graph, ts: seq<Target>, tick: nat, us: seq<Target>, tick': nat, built: seq<string>)
    requires BuildsAll(g, ts, tick, us, tick', built)
    ensures |us| == |ts| && forall i | 0 <= i < |ts| :: us[i].built && (ts[i].built ==> us[i] == ts[i])
  {
    forall i | 0 <= i < |ts| ensures us[i].built && (ts[i].built ==> us[i] == ts[i]) {
      assert Names(ts)[i] == ts[i].name;
    }
  }

  /** Building the same target again changes nothing. */
  lemma BuildAgainChangesNothing(ts: seq<Target>, tick: nat, name: string,
                                 us: seq<Target>, tick': nat, built: seq<string>,
                                 vs: seq<Target>, tick'': nat, built': seq<string>)
    requires UniqueNames(ts)
    requires BuildsReach(GraphOf(ts), ts, tick, name, us, tick', built)
    requires BuildsReach(GraphOf(us), us, tick', name, vs, tick'', built')
    ensures vs == us && tick'' == tick' && built' == []
  {
    SameGraph(ts, us);
    forall i | 0 <= i < |us| ensures vs[i] == us[i] && us[i].name !in built' {
      assert us[i].name == ts[i].name;
    }
    HasElement(built');
  }

  lemma HasElement(s: seq<string>)
    ensures s == [] || exists x :: x in s
  {
    if s != [] {
      assert s[0] in s;
    }
  }

  /** The registered targets and the build clock. */
  class Builder {
    var targets: seq<Target>
    var tick: nat

    ghost predicate Valid()
      reads this
    {
      UniqueNames(targets) && |targets| <= MAX_TARGETS
    }

    constructor ()
      ensures Valid() && targets == [] && tick == 1
    {
      targets, tick := [], 1;
    }

    method RegisterTarget(t: Target)
      requires Valid()
      modifies this
      ensures Valid() && tick == old(tick)
      ensures targets == if |old(targets)| < MAX_TARGETS && t.name !in Names(old(targets))
                         then old(targets) + [t] else old(targets)
    {
      if |targets| >= MAX_TARGETS {
        return;
      }
      if IndexOf(targets, t.name) < |targets| {
        assert Names(targets)[IndexOf(targets, t.name)] == t.name;
        return;
      }
      targets := targets + [t];
    }

    method Build(name: string) returns (r: Result<seq<string>, string>)
      requires Valid() && !CycleFrom(GraphOf(targets), name)
      modifies this
      ensures Valid()
      ensures r.Ok? <==> name in Names(old(targets))
      ensures r.Err? ==> targets == old(targets) && tick == old(tick)
      ensures r.Ok? ==> BuildsReach(GraphOf(old(targets)), old(targets), old(tick), name, targets, tick, r.value)
    {
      if name !in Names(targets) {
        return Err("target not found");
      }
      var us, tick', built := BuildTarget(targets, tick, name, GraphOf(targets));
      SameGraph(targets, us);
      targets, tick := us, tick';
      r := Ok(built);
    }

    method BuildAll() returns (count: nat, ghost built: seq<string>)
      requires Valid()
      modifies this
      ensures Valid() && BuildsAll(GraphOf(old(targets)), old(targets), old(tick), targets, tick, built)
      ensures count == |built| == |Unbuilt(old(targets))|
    {
      var us, tick', now := BuildTargets(targets, tick, GraphOf(targets));
      SameGraph(targets, us);
      targets, tick, count, built := us, tick', |now|, now;
    }
  }
}
