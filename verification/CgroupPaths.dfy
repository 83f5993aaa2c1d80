/** How the paths of the control groups of src/cgroup.rs follow the hierarchy, over every run. */
module CgroupPaths {
  import opened Cgroup
  import opened Prelude

  // ----- Trimming and splitting -----

  lemma {:induction false} TrimIsPrefix(s: string)
    ensures TrimSlashes(s) <= s && (TrimSlashes(s) != "" ==> TrimSlashes(s)[|TrimSlashes(s)| - 1] != '/')
  {
    if s != "" && s[|s| - 1] == '/' {
      TrimIsPrefix(s[..|s| - 1]);
    }
  }

  lemma TrimOneMore(s: string)
    ensures TrimSlashes(s + "/") == TrimSlashes(s)
  {
    assert (s + "/")[..|s|] == s;
  }

  lemma {:induction false} LastSlashIs(s: string)
    ensures var r := LastSlash(s); if r < |s| then s[r] == '/' else '/' !in s
    ensures forall i | LastSlash(s) < i < |s| :: s[i] != '/'
  {
    if s != "" && s[|s| - 1] != '/' {
      LastSlashIs(s[..|s| - 1]);
    }
  }

  // ----- The path of a group and the path of its parent -----

  predicate IsName(name: string) {
    name != "" && '/' !in name
  }

  /** Up to trailing slashes, the child's path is the parent's path, a slash unless that ends with one, and a name. */
  ghost predicate Extends(parent: string, child: string, name: string) {
    && IsName(name)
    && (|| TrimSlashes(child) == parent + "/" + name
        || (parent != "" && parent[|parent| - 1] == '/' && TrimSlashes(child) == parent + name))
  }

  ghost predicate PathAt(gs: seq<Group>, x: nat)
    requires x < |gs|
  {
    && ROOT_PATH <= gs[x].path
    && (x > 0 ==> Up(gs, x) < |gs| && Extends(gs[Up(gs, x)].path, gs[x].path, gs[x].name))
  }

  ghost predicate Paths(gs: seq<Group>) {
    forall x: nat | x < |gs| :: PathAt(gs, x)
  }

  lemma SplitAt(t: string, pos: nat)
    requires pos < |t| && t[pos] == '/' && t[|t| - 1] != '/' && forall i | pos < i < |t| :: t[i] != '/'
    ensures t == t[..pos] + "/" + t[pos + 1..] && IsName(t[pos + 1..])
  {
  }

  /** The path that `create_cgroup` looks up, and with a slash added, for the parent. */
  lemma SplitPath(path: string)
    requires LastSlash(TrimSlashes(path)) < |TrimSlashes(path)|
    ensures var t := TrimSlashes(path);
            t == t[..LastSlash(t)] + "/" + LeafName(path) && IsName(LeafName(path))
  {
    TrimIsPrefix(path);
    LastSlashIs(TrimSlashes(path));
    SplitAt(TrimSlashes(path), LastSlash(TrimSlashes(path)));
  }

  lemma ParentExtends(gs: seq<Group>, path: string)
    requires Paths(gs) && ParentIndex(gs, path) < |gs|
    ensures Extends(gs[ParentIndex(gs, path)].path, path, LeafName(path))
  {
    var t, i := TrimSlashes(path), ParentIndex(gs, path);
    SplitPath(path);
    assert PathAt(gs, i) && |gs[i].path| >= |ROOT_PATH|;
    var p := t[..LastSlash(t)];
    assert p + "/" + LeafName(path) == (p + "/") + LeafName(path);
  }

  lemma AdoptKeepsPaths(gs: seq<Group>, p: nat, g: Group)
    requires Paths(gs) && p < |gs| && g.parent == Some(p) && ROOT_PATH <= g.path && Extends(gs[p].path, g.path, g.name)
    ensures Paths(Adopt(gs, p, g))
  {
    var hs := Adopt(gs, p, g);
    forall x: nat | x < |hs| ensures PathAt(hs, x) {
      if x < |gs| {
        assert PathAt(gs, x);
      }
    }
  }

  ghost predicate SameLabels(gs: seq<Group>, hs: seq<Group>) {
    |gs| == |hs| && forall x | 0 <= x < |gs| ::
      hs[x].path == gs[x].path && hs[x].name == gs[x].name && hs[x].parent == gs[x].parent
  }

  lemma LabelsKeepPaths(gs: seq<Group>, hs: seq<Group>)
    requires Paths(gs) && SameLabels(gs, hs)
    ensures Paths(hs)
  {
    forall x: nat | x < |hs| ensures PathAt(hs, x) {
      assert PathAt(gs, x);
    }
  }

  lemma CreatedKeepsPaths(s: State, path: string)
    requires Inv(s) && Paths(s.groups)
    ensures Paths(Created(s, path).0.groups)
  {
    var gs := s.groups;
    if Created(s, path).1.Ok? {
      var p := ParentIndex(gs, path);
      assert PlacedAt(gs, p);
      ParentExtends(gs, path);
      AdoptKeepsPaths(gs, p, NewGroup(s.nextId, LeafName(path), path, Some(p)));
    }
  }

  lemma OrphanKeepsLabels(gs: seq<Group>, i: nat, p: nat)
    requires i < |gs|
    ensures SameLabels(gs, Orphan(gs, i, p)) && forall x: nat | Active(Orphan(gs, i, p), x) :: Active(gs, x)
  {
  }

  lemma RemovedKeepsLabels(s: State, path: string)
    ensures SameLabels(s.groups, Removed(s, path).0.groups)
    ensures forall x: nat | Active(Removed(s, path).0.groups, x) :: Active(s.groups, x)
  {
    if Removed(s, path).1.Ok? {
      var i := FindByPath(s.groups, path);
      OrphanKeepsLabels(s.groups, i, s.groups[i].parent.value);
    }
  }

  lemma AddedKeepsLabels(s: State, path: string, pid: nat)
    ensures SameLabels(s.groups, Added(s, path, pid).0.groups)
    ensures forall x: nat | Active(Added(s, path, pid).0.groups, x) :: Active(s.groups, x)
  {
  }

  lemma DroppedKeepsLabels(s: State, path: string, pid: nat)
    ensures SameLabels(s.groups, Dropped(s, path, pid).0.groups)
    ensures forall x: nat | Active(Dropped(s, path, pid).0.groups, x) :: Active(s.groups, x)
  {
  }

  /** Only creation adds an active group. */
  lemma OthersKeepLabels(s: State, op: Op)
    requires !op.Create?
    ensures SameLabels(s.groups, Apply(s, op).groups)
    ensures forall x: nat | Active(Apply(s, op).groups, x) :: Active(s.groups, x)
  {
    match op
    case Remove(path) => RemovedKeepsLabels(s, path);
    case Add(path, pid) => AddedKeepsLabels(s, path, pid);
    case Drop(path, pid) => DroppedKeepsLabels(s, path, pid);
  }

  lemma ApplyKeepsPaths(s: State, op: Op)
    requires Inv(s) && Paths(s.groups)
    ensures Inv(Apply(s, op)) && Paths(Apply(s, op).groups)
  {
    ApplyKeepsInv(s, op);
    match op
    case Create(path) => CreatedKeepsPaths(s, path);
    case _ =>
      OthersKeepLabels(s, op);
      LabelsKeepPaths(s.groups, Apply(s, op).groups);
  }

  /** In every state of every run the path of a group extends that of its parent by its name. */
  lemma {:induction false} RunKeepsPaths(s: State, ops: seq<Op>)
    requires Inv(s) && Paths(s.groups)
    ensures Inv(Run(s, ops)) && Paths(Run(s, ops).groups)
    decreases |ops|
  {
    if ops != [] {
      ApplyKeepsPaths(s, ops[0]);
      RunKeepsPaths(Apply(s, ops[0]), ops[1..]);
    }
  }

  lemma ExtendsIsLonger(parent: string, child: string, name: string)
    requires Extends(parent, child, name)
    ensures parent < child
  {
    TrimIsPrefix(child);
  }

  /** The path of a group is a proper prefix of the path of every group below it. */
  lemma {:induction false} PathIsPrefix(gs: seq<Group>, x: nat, a: nat)
    requires Tree(gs) && Paths(gs) && x < |gs| && Under(gs, x, a)
    ensures a < |gs| && gs[a].path <= gs[x].path && (x != a ==> gs[a].path < gs[x].path)
    decreases x
  {
    if x != a {
      assert PathAt(gs, x);
      ExtendsIsLonger(gs[Up(gs, x)].path, gs[x].path, gs[x].name);
      PathIsPrefix(gs, Up(gs, x), a);
    }
  }

  // ----- Paths that differ by trailing slashes only -----

  ghost predicate TwinAt(gs: seq<Group>, path: string, x: nat) {
    Active(gs, x) && TrimSlashes(gs[x].path) == TrimSlashes(path)
  }

  /** No two active groups have paths that differ by trailing slashes only. */
  ghost predicate OneEach(gs: seq<Group>) {
    forall x: nat, y: nat | Active(gs, x) && TwinAt(gs, gs[x].path, y) :: x == y
  }

  /** There is room, the path is new, and without its trailing slashes it is that of an active group below the root. */
  ghost predicate MakesTwin(gs: seq<Group>, path: string) {
    && ROOT_PATH <= path && |gs| < MAX_CGROUPS && FindByPath(gs, path) == |gs|
    && exists x: nat :: x > 0 && TwinAt(gs, path, x)
  }

  lemma NameIsLast(t: string, p: string, name: string)
    requires IsName(name) && t == p + "/" + name
    ensures p == t[..|p|] && |p| < |t| && t[|p|] == '/' && forall i | |p| < i < |t| :: t[i] != '/'
  {
    forall i | |p| < i < |t| ensures t[i] != '/' {
      assert t[i] == name[i - |p| - 1];
    }
  }

  lemma SameSplit(t: string, p: string, name: string, q: string, name': string)
    requires IsName(name) && IsName(name') && t == p + "/" + name && t == q + "/" + name'
    ensures p == q
  {
    NameIsLast(t, p, name);
    NameIsLast(t, q, name');
  }

  lemma TrimmedSplits(parent: string, child: string, name: string)
    requires Extends(parent, child, name)
    ensures var t := TrimSlashes(child);
            && LastSlash(t) < |t| && (parent == t[..LastSlash(t)] || parent == t[..LastSlash(t)] + "/")
  {
    var t := TrimSlashes(child);
    LastSlashIs(t);
    var p := if t == parent + "/" + name then parent else parent[..|parent| - 1];
    assert t == p + "/" + name && t[|p|] == '/';
    SplitPath(child);
    SameSplit(t, p, name, t[..LastSlash(t)], LeafName(child));
  }

  /** The twin's parent is found again. */
  lemma TwinHasParent(gs: seq<Group>, path: string, x: nat)
    requires Tree(gs) && Paths(gs) && x > 0 && TwinAt(gs, path, x)
    ensures LastSlash(TrimSlashes(path)) < |TrimSlashes(path)| && ParentIndex(gs, path) < |gs|
  {
    var u := Up(gs, x);
    assert PlacedAt(gs, x) && PathAt(gs, x) && PathAt(gs, u) && Active(gs, u);
    TrimmedSplits(gs[u].path, gs[x].path, gs[x].name);
    assert |gs[u].path| >= |ROOT_PATH|;
  }

  /** Nothing can be created beside the root. */
  lemma RootHasNoTwin(gs: seq<Group>, path: string)
    requires Tree(gs) && Paths(gs) && ParentIndex(gs, path) < |gs|
    ensures !TwinAt(gs, path, 0)
  {
    var i := ParentIndex(gs, path);
    ParentExtends(gs, path);
    assert PathAt(gs, i) && PlacedAt(gs, 0);
    TrimIsPrefix(gs[0].path);
  }

  lemma CreatedIs(s: State, path: string)
    requires Inv(s) && Created(s, path).1.Ok?
    ensures var gs, hs := s.groups, Created(s, path).0.groups;
            && ROOT_PATH <= path && |gs| < MAX_CGROUPS && FindByPath(gs, path) == |gs| && ParentIndex(gs, path) < |gs|
            && |hs| == |gs| + 1 && Active(hs, |gs|) && hs[|gs|].path == path
            && forall x: nat | x < |gs| :: hs[x].path == gs[x].path && hs[x].active == gs[x].active
  {
  }

  lemma AloneKeepsOneEach(gs: seq<Group>, hs: seq<Group>, path: string)
    requires OneEach(gs) && |hs| == |gs| + 1 && hs[|gs|].path == path && forall x: nat :: !TwinAt(gs, path, x)
    requires forall x: nat | x < |gs| :: hs[x].path == gs[x].path && hs[x].active == gs[x].active
    ensures OneEach(hs)
  {
    forall x: nat, y: nat | Active(hs, x) && TwinAt(hs, hs[x].path, y) ensures x == y {
      assert TwinAt(gs, path, x) <==> x < |gs| && TrimSlashes(hs[x].path) == TrimSlashes(path);
      assert TwinAt(gs, path, y) <==> y < |gs| && TrimSlashes(hs[y].path) == TrimSlashes(path);
      assert x < |gs| && y < |gs| ==> TwinAt(gs, gs[x].path, y);
    }
  }

  /** Creating a group makes the first twins exactly when the path is a twin. */
  lemma CreatedKeepsOneEach(s: State, path: string)
    requires Inv(s) && Paths(s.groups) && OneEach(s.groups)
    ensures OneEach(Created(s, path).0.groups) <==> !MakesTwin(s.groups, path)
  {
    var gs, hs := s.groups, Created(s, path).0.groups;
    if MakesTwin(gs, path) {
      var x: nat :| x > 0 && TwinAt(gs, path, x);
      TwinHasParent(gs, path, x);
      CreatedIs(s, path);
      assert TwinAt(hs, hs[|gs|].path, x);
    } else if Created(s, path).1.Ok? {
      CreatedIs(s, path);
      RootHasNoTwin(gs, path);
      assert forall x: nat :: x == 0 || !TwinAt(gs, path, x);
      AloneKeepsOneEach(gs, hs, path);
    }
  }

  /** Fewer active groups have no more twins. */
  lemma FewerKeepsOneEach(gs: seq<Group>, hs: seq<Group>)
    requires OneEach(gs) && SameLabels(gs, hs) && forall x: nat | Active(hs, x) :: Active(gs, x)
    ensures OneEach(hs)
  {
    forall x: nat, y: nat | Active(hs, x) && TwinAt(hs, hs[x].path, y) ensures x == y {
      assert TwinAt(gs, gs[x].path, y);
    }
  }

  ghost predicate OpMakesTwin(s: State, op: Op) {
    op.Create? && MakesTwin(s.groups, op.path)
  }

  lemma ApplyKeepsOneEach(s: State, op: Op)
    requires Inv(s) && Paths(s.groups) && OneEach(s.groups)
    ensures OneEach(Apply(s, op).groups) <==> !OpMakesTwin(s, op)
  {
    match op
    case Create(path) => CreatedKeepsOneEach(s, path);
    case _ =>
      OthersKeepLabels(s, op);
      FewerKeepsOneEach(s.groups, Apply(s, op).groups);
  }

  /** No state of the run has twins. */
  ghost predicate AlwaysOneEach(s: State, ops: seq<Op>)
    decreases |ops|
  {
    OneEach(s.groups) && (ops != [] ==> AlwaysOneEach(Apply(s, ops[0]), ops[1..]))
  }

  ghost predicate NeverMakesTwin(s: State, ops: seq<Op>)
    decreases |ops|
  {
    ops != [] ==> !OpMakesTwin(s, ops[0]) && NeverMakesTwin(Apply(s, ops[0]), ops[1..])
  }

  /** A run has no twins in any state exactly when it never creates the path of an active group with other slashes. */
  lemma {:induction false} OneEachExactly(s: State, ops: seq<Op>)
    requires Inv(s) && Paths(s.groups) && OneEach(s.groups)
    ensures AlwaysOneEach(s, ops) <==> NeverMakesTwin(s, ops)
    decreases |ops|
  {
    if ops != [] {
      var t := Apply(s, ops[0]);
      ApplyKeepsOneEach(s, ops[0]);
      ApplyKeepsPaths(s, ops[0]);
      if OneEach(t.groups) {
        OneEachExactly(t, ops[1..]);
      }
    }
  }

  /** While there is room every group below the root can be doubled. */
  lemma EveryGroupCanBeDoubled(s: State, x: nat)
    requires Inv(s) && Paths(s.groups) && OneEach(s.groups) && |s.groups| < MAX_CGROUPS && x > 0 && Active(s.groups, x)
    ensures !OneEach(Created(s, s.groups[x].path + "/").0.groups)
  {
    var gs := s.groups;
    var path := gs[x].path + "/";
    TrimOneMore(gs[x].path);
    assert PathAt(gs, x) && TwinAt(gs, path, x);
    forall y: nat | Active(gs, y) ensures gs[y].path != path {
      assert TwinAt(gs, gs[x].path, y) <==> TrimSlashes(gs[y].path) == TrimSlashes(gs[x].path);
    }
    CreatedKeepsOneEach(s, path);
  }

  // ----- Callers that leave trailing slashes away -----

  predicate Plain(path: string) {
    TrimSlashes(path) == path
  }

  ghost predicate PlainAt(gs: seq<Group>, x: nat)
    requires x < |gs|
  {
    x > 0 ==> Plain(gs[x].path)
  }

  ghost predicate AllPlain(gs: seq<Group>) {
    forall x: nat | x < |gs| :: PlainAt(gs, x)
  }

  /** A single group, as after `init`. */
  lemma SingleGroup(gs: seq<Group>)
    requires |gs| == 1 && ROOT_PATH <= gs[0].path
    ensures Paths(gs) && OneEach(gs) && AllPlain(gs)
  {
  }

  lemma LabelsKeepPlain(gs: seq<Group>, hs: seq<Group>)
    requires AllPlain(gs) && SameLabels(gs, hs)
    ensures AllPlain(hs)
  {
    forall x: nat | x < |hs| ensures PlainAt(hs, x) {
      assert PlainAt(gs, x);
    }
  }

  lemma CreatedKeepsPlain(s: State, path: string)
    requires Inv(s) && AllPlain(s.groups) && Plain(path)
    ensures AllPlain(Created(s, path).0.groups) && !MakesTwin(s.groups, path)
  {
    var gs, hs := s.groups, Created(s, path).0.groups;
    forall x: nat | x > 0 && TwinAt(gs, path, x) ensures gs[x].path == path {
      assert PlainAt(gs, x);
    }
    if Created(s, path).1.Ok? {
      CreatedIs(s, path);
      forall x: nat | x < |hs| ensures PlainAt(hs, x) {
        if x < |gs| {
          assert PlainAt(gs, x);
        }
      }
    }
  }

  lemma ApplyKeepsPlain(s: State, op: Op)
    requires Inv(s) && AllPlain(s.groups) && (op.Create? ==> Plain(op.path))
    ensures AllPlain(Apply(s, op).groups) && !OpMakesTwin(s, op)
  {
    match op
    case Create(path) => CreatedKeepsPlain(s, path);
    case _ =>
      OthersKeepLabels(s, op);
      LabelsKeepPlain(s.groups, Apply(s, op).groups);
  }

  /** When no path that is created ends with a slash, there are never twins. */
  lemma {:induction false} PlainPathsMakeNoTwins(s: State, ops: seq<Op>)
    requires Inv(s) && AllPlain(s.groups) && forall op | op in ops && op.Create? :: Plain(op.path)
    ensures NeverMakesTwin(s, ops)
    decreases |ops|
  {
    if ops != [] {
      assert ops[0] in ops;
      ApplyKeepsPlain(s, ops[0]);
      ApplyKeepsInv(s, ops[0]);
      PlainPathsMakeNoTwins(Apply(s, ops[0]), ops[1..]);
    }
  }

  /** Every run after `init`: paths follow the tree, and there are twins in some state exactly when one is created. */
  lemma BootedPaths(boot: State, ops: seq<Op>)
    requires Inv(boot) && |boot.groups| == 1
    ensures Inv(Run(boot, ops)) && Paths(Run(boot, ops).groups)
    ensures AlwaysOneEach(boot, ops) <==> NeverMakesTwin(boot, ops)
  {
    assert PlacedAt(boot.groups, 0);
    SingleGroup(boot.groups);
    RunKeepsPaths(boot, ops);
    OneEachExactly(boot, ops);
  }
}
