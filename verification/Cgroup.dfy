/** Model of the control-group hierarchy in src/cgroup.rs: creation, removal, membership and the tree listing. */
module Cgroup {
  import opened Prelude

  const MAX_CGROUPS: nat := 128
  const MAX_MEMBERS: nat := 64
  const ROOT_PATH: string := "/sys/fs/cgroup/"

  datatype Group = Group(id: nat, name: string, path: string, parent: Option<nat>, children: seq<nat>,
                         members: seq<nat>, pidsMax: nat, pidsCurrent: nat, active: bool)

  /** The manager and the three global counters. */
  datatype State = State(groups: seq<Group>, nextId: nat, total: int, creates: int, removes: int)

  function NewGroup(id: nat, name: string, path: string, parent: Option<nat>): Group {
    Group(id, name, path, parent, [], [], 0, 0, true)
  }

  /** After one `init`. */
  function Initial(): State {
    State([NewGroup(0, "cgroup", ROOT_PATH, None)], 1, 1, 1, 0)
  }

  // ----- The hierarchy -----

  predicate Active(gs: seq<Group>, x: nat) {
    x < |gs| && gs[x].active
  }

  predicate ChildOf(gs: seq<Group>, x: nat, p: nat) {
    Active(gs, x) && gs[x].parent == Some(p)
  }

  /** Group x stands at position x; its parent is older and, while x is active, active too. */
  ghost predicate PlacedAt(gs: seq<Group>, x: nat)
    requires x < |gs|
  {
    && gs[x].id == x
    && (if x == 0 then gs[0].parent.None? && gs[0].active && gs[0].path == ROOT_PATH
        else gs[x].parent.Some? && gs[x].parent.value < x && (gs[x].active ==> gs[gs[x].parent.value].active))
  }

  /** The list of children is exact, and the process count is the number of distinct members. */
  ghost predicate ListsAt(gs: seq<Group>, x: nat)
    requires x < |gs|
  {
    && Distinct(gs[x].children) && Distinct(gs[x].members)
    && (forall c: nat :: c in gs[x].children <==> ChildOf(gs, c, x))
    && gs[x].pidsCurrent == |gs[x].members| <= MAX_MEMBERS
  }

  ghost predicate UniquePaths(gs: seq<Group>) {
    forall x: nat, y: nat | Active(gs, x) && Active(gs, y) && gs[x].path == gs[y].path :: x == y
  }

  ghost predicate Tree(gs: seq<Group>) {
    && gs != []
    && (forall x: nat | x < |gs| :: PlacedAt(gs, x))
    && (forall x: nat | x < |gs| :: ListsAt(gs, x))
    && UniquePaths(gs)
  }

  function ActiveCount(gs: seq<Group>): nat {
    if gs == [] then 0 else ActiveCount(gs[..|gs| - 1]) + (if gs[|gs| - 1].active then 1 else 0)
  }

  ghost predicate Inv(s: State) {
    && Tree(s.groups) && s.nextId == |s.groups| <= MAX_CGROUPS
    && s.total == ActiveCount(s.groups) == s.creates - s.removes
  }

  // ----- Paths -----

  /** The position of the active group with the path; |gs| when there is none. */
  function FindByPath(gs: seq<Group>, path: string): (r: nat)
    ensures r <= |gs| && (r < |gs| ==> gs[r].active && gs[r].path == path)
    ensures forall i: nat | i < r :: !(gs[i].active && gs[i].path == path)
  {
    FindFrom(gs, path, 0)
  }

  function FindFrom(gs: seq<Group>, path: string, i: nat): (r: nat)
    requires i <= |gs|
    ensures i <= r <= |gs| && (r < |gs| ==> gs[r].active && gs[r].path == path)
    ensures forall k: nat | i <= k < r :: !(gs[k].active && gs[k].path == path)
    decreases |gs| - i
  {
    if i == |gs| || (gs[i].active && gs[i].path == path) then i else FindFrom(gs, path, i + 1)
  }

  function TrimSlashes(s: string): string {
    if s != "" && s[|s| - 1] == '/' then TrimSlashes(s[..|s| - 1]) else s
  }

  /** The position of the last slash; |s| when there is none. */
  function LastSlash(s: string): (r: nat)
    ensures r <= |s|
  {
    if s == "" then 0
    else if s[|s| - 1] == '/' then |s| - 1
    else
      var r := LastSlash(s[..|s| - 1]);
      if r == |s| - 1 then |s| else r
  }

  predicate StartsWith(s: string, prefix: string) {
    prefix <= s
  }

  /** The group under which `path` would be created; |gs| when there is none. */
  function ParentIndex(gs: seq<Group>, path: string): (r: nat)
    ensures r <= |gs| && (r < |gs| ==> gs[r].active)
  {
    var trimmed := TrimSlashes(path);
    var pos := LastSlash(trimmed);
    if pos == |trimmed| then |gs|
    else
      var p := if pos == 0 then "/" else trimmed[..pos];
      var r := FindByPath(gs, p);
      if r < |gs| then r else FindByPath(gs, p + "/")
  }

  function LeafName(path: string): string {
    var trimmed := TrimSlashes(path);
    var pos := LastSlash(trimmed);
    if pos == |trimmed| then trimmed else trimmed[pos + 1..]
  }

  // ----- Operations -----

  function Created(s: State, path: string): (State, Result<nat, string>) {
    var gs := s.groups;
    if !StartsWith(path, ROOT_PATH) then (s, Err("path must start with /sys/fs/cgroup/"))
    else if |gs| >= MAX_CGROUPS then (s, Err("maximum number of cgroups reached"))
    else if FindByPath(gs, path) < |gs| then (s, Err("cgroup already exists"))
    else if LastSlash(TrimSlashes(path)) == |TrimSlashes(path)| then (s, Err("invalid path"))
    else
      var p := ParentIndex(gs, path);
      if p == |gs| then (s, Err("parent cgroup not found"))
      else
        var g := NewGroup(s.nextId, LeafName(path), path, Some(gs[p].id));
        (State(Adopt(gs, p, g), s.nextId + 1, s.total + 1, s.creates + 1, s.removes), Ok(s.nextId))
  }

  /** Append a group and enter it in the list of its parent. */
  function Adopt(gs: seq<Group>, p: nat, g: Group): seq<Group>
    requires p < |gs|
  {
    (gs + [g])[p := gs[p].(children := gs[p].children + [g.id])]
  }

  function Without(s: seq<nat>, x: nat): seq<nat> {
    if s == [] then [] else if s[0] == x then Without(s[1..], x) else [s[0]] + Without(s[1..], x)
  }

  function Removed(s: State, path: string): (State, Result<(), string>) {
    var gs := s.groups;
    var i := FindByPath(gs, path);
    if i == |gs| then (s, Err("cgroup not found"))
    else if gs[i].children != [] then (s, Err("cgroup has children"))
    else if gs[i].members != [] then (s, Err("cgroup has member processes"))
    else if gs[i].parent.None? then (s, Err("cannot remove root cgroup"))
    else
      (s.(groups := Orphan(gs, i, gs[i].parent.value), total := s.total - 1, removes := s.removes + 1), Ok(()))
  }

  /** Deactivate group i and take its id out of the list of the active group with id p. */
  function Orphan(gs: seq<Group>, i: nat, p: nat): seq<Group>
    requires i < |gs|
  {
    var hs := gs[i := gs[i].(active := false)];
    var q := FindById(hs, p, 0);
    if q == |hs| then hs else hs[q := hs[q].(children := Without(hs[q].children, gs[i].id))]
  }

  function FindById(gs: seq<Group>, id: nat, i: nat): (r: nat)
    requires i <= |gs|
    ensures i <= r <= |gs| && (r < |gs| ==> gs[r].active && gs[r].id == id)
    ensures forall k: nat | i <= k < r :: !(gs[k].active && gs[k].id == id)
    decreases |gs| - i
  {
    if i == |gs| || (gs[i].active && gs[i].id == id) then i else FindById(gs, id, i + 1)
  }

  function Added(s: State, path: string, pid: nat): (State, Result<(), string>) {
    var gs := s.groups;
    var i := FindByPath(gs, path);
    if i == |gs| then (s, Err("cgroup not found"))
    else if |gs[i].members| >= MAX_MEMBERS then (s, Err("cgroup member limit reached"))
    else if pid in gs[i].members then (s, Err("process already in cgroup"))
    else if gs[i].pidsMax > 0 && gs[i].pidsCurrent >= gs[i].pidsMax then (s, Err("pids.max limit reached"))
    else (s.(groups := gs[i := gs[i].(members := gs[i].members + [pid], pidsCurrent := gs[i].pidsCurrent + 1)]), Ok(()))
  }

  /** `members.remove(position of pid)`: the first occurrence is taken out. */
  function RemoveFirst(s: seq<nat>, x: nat): seq<nat> {
    if s == [] then [] else if s[0] == x then s[1..] else [s[0]] + RemoveFirst(s[1..], x)
  }

  function Dropped(s: State, path: string, pid: nat): (State, Result<(), string>) {
    var gs := s.groups;
    var i := FindByPath(gs, path);
    if i == |gs| then (s, Err("cgroup not found"))
    else if pid !in gs[i].members then (s, Err("process not in cgroup"))
    else
      (s.(groups := gs[i := gs[i].(members := RemoveFirst(gs[i].members, pid),
                                   pidsCurrent := if gs[i].pidsCurrent > 0 then gs[i].pidsCurrent - 1 else 0)]), Ok(()))
  }

  // ----- Every operation keeps the tree -----

  lemma InitialInv()
    ensures Inv(Initial())
  {
    var gs := Initial().groups;
    assert gs[..0] == [];
    assert ActiveCount(gs) == 1;
  }

  lemma ActiveCountAppend(gs: seq<Group>, g: Group)
    ensures ActiveCount(gs + [g]) == ActiveCount(gs) + (if g.active then 1 else 0)
  {
    assert (gs + [g])[..|gs|] == gs;
  }

  lemma {:induction false} ActiveCountUpdate(gs: seq<Group>, i: nat, g: Group)
    requires i < |gs|
    ensures ActiveCount(gs[i := g]) == ActiveCount(gs) - (if gs[i].active then 1 else 0) + (if g.active then 1 else 0)
  {
    var n := |gs| - 1;
    if i == n {
      assert gs[i := g][..n] == gs[..n];
    } else {
      assert gs[i := g][..n] == gs[..n][i := g];
      ActiveCountUpdate(gs[..n], i, g);
    }
  }

  lemma AdoptKeepsTree(gs: seq<Group>, p: nat, g: Group)
    requires Tree(gs) && Active(gs, p)
    requires g == NewGroup(|gs|, g.name, g.path, Some(p)) && FindByPath(gs, g.path) == |gs|
    ensures Tree(Adopt(gs, p, g))
  {
    var hs, n := Adopt(gs, p, g), |gs|;
    forall x: nat | x < |hs| ensures PlacedAt(hs, x) {
      if x < n {
        assert PlacedAt(gs, x);
      }
    }
    forall x: nat, c: nat | x < n ensures ChildOf(hs, c, x) <==> ChildOf(gs, c, x) || (c == n && x == p) {}
    forall x: nat | x < |hs| ensures ListsAt(hs, x) {
      if x < n {
        assert ListsAt(gs, x);
        assert n !in gs[x].children;
      } else {
        forall c: nat ensures !ChildOf(hs, c, n) {
          if c < n {
            assert PlacedAt(gs, c);
          }
        }
      }
    }
    forall x: nat | x < n && Active(gs, x) ensures gs[x].path != g.path {}
  }

  lemma ConsDistinct(h: nat, t: seq<nat>)
    requires h !in t && Distinct(t)
    ensures Distinct([h] + t)
  {
    var s := [h] + t;
    forall i, j | 0 <= i < j < |s| ensures s[i] != s[j] {
      assert s[j] == t[j - 1];
      assert i > 0 ==> s[i] == t[i - 1];
    }
  }

  lemma HeadNotInTail(s: seq<nat>)
    requires Distinct(s) && s != []
    ensures s[0] !in s[1..] && Distinct(s[1..]) && s == [s[0]] + s[1..]
  {
  }

  lemma {:induction false} WithoutElements(s: seq<nat>, x: nat)
    requires Distinct(s)
    ensures Distinct(Without(s, x)) && forall c: nat :: c in Without(s, x) <==> c in s && c != x
  {
    if s != [] {
      HeadNotInTail(s);
      WithoutElements(s[1..], x);
      if s[0] != x {
        ConsDistinct(s[0], Without(s[1..], x));
      }
    }
  }

  lemma {:induction false} RemoveFirstElements(s: seq<nat>, x: nat)
    requires Distinct(s) && x in s
    ensures Distinct(RemoveFirst(s, x)) && |RemoveFirst(s, x)| == |s| - 1
    ensures forall c: nat :: c in RemoveFirst(s, x) <==> c in s && c != x
  {
    HeadNotInTail(s);
    if s[0] != x {
      RemoveFirstElements(s[1..], x);
      ConsDistinct(s[0], RemoveFirst(s[1..], x));
    }
  }

  lemma OrphanIsUpdate(gs: seq<Group>, i: nat, p: nat)
    requires Tree(gs) && Active(gs, i) && gs[i].parent == Some(p)
    ensures p < i && Active(gs, p)
    ensures Orphan(gs, i, p)
         == gs[i := gs[i].(active := false)][p := gs[p].(children := Without(gs[p].children, i))]
  {
    assert PlacedAt(gs, i) && PlacedAt(gs, p);
    var hs := gs[i := gs[i].(active := false)];
    var q := FindById(hs, p, 0);
    assert hs[p].active && hs[p].id == p;
    assert q <= p;
    assert PlacedAt(gs, q);
  }

  lemma OrphanKeepsTree(gs: seq<Group>, i: nat, p: nat)
    requires Tree(gs) && Active(gs, i) && gs[i].parent == Some(p) && gs[i].children == []
    ensures Tree(Orphan(gs, i, p))
  {
    OrphanIsUpdate(gs, i, p);
    var hs := Orphan(gs, i, p);
    assert ListsAt(gs, i) && ListsAt(gs, p);
    WithoutElements(gs[p].children, i);
    forall x: nat | x < |hs| ensures PlacedAt(hs, x) {
      assert PlacedAt(gs, x);
      assert !ChildOf(gs, x, i);
    }
    forall x: nat, c: nat | x < |gs| ensures ChildOf(hs, c, x) <==> ChildOf(gs, c, x) && c != i {}
    forall x: nat | x < |hs| ensures ListsAt(hs, x) {
      assert ListsAt(gs, x);
    }
  }

  /** Changing the members of a group, with the count, leaves the hierarchy as it is. */
  lemma MembersKeepTree(gs: seq<Group>, i: nat, ms: seq<nat>)
    requires Tree(gs) && i < |gs| && Distinct(ms) && |ms| <= MAX_MEMBERS
    ensures Tree(gs[i := gs[i].(members := ms, pidsCurrent := |ms|)])
  {
    var hs := gs[i := gs[i].(members := ms, pidsCurrent := |ms|)];
    forall x: nat | x < |hs| ensures PlacedAt(hs, x) {
      assert PlacedAt(gs, x);
    }
    forall x: nat, c: nat ensures ChildOf(hs, c, x) <==> ChildOf(gs, c, x) {}
    forall x: nat | x < |hs| ensures ListsAt(hs, x) {
      assert ListsAt(gs, x);
    }
    forall x: nat ensures Active(hs, x) <==> Active(gs, x) {}
  }

  lemma CreatedKeepsInv(s: State, path: string)
    requires Inv(s)
    ensures Inv(Created(s, path).0)
  {
    var gs := s.groups;
    var (t, r) := Created(s, path);
    if r.Ok? {
      var p := ParentIndex(gs, path);
      var g := NewGroup(s.nextId, LeafName(path), path, Some(gs[p].id));
      assert PlacedAt(gs, p);
      AdoptKeepsTree(gs, p, g);
      ActiveCountAppend(gs, g);
      ActiveCountUpdate(gs + [g], p, gs[p].(children := gs[p].children + [g.id]));
    }
  }

  lemma RemovedKeepsInv(s: State, path: string)
    requires Inv(s)
    ensures Inv(Removed(s, path).0)
  {
    var gs := s.groups;
    if Removed(s, path).1.Ok? {
      var i := FindByPath(gs, path);
      var p := gs[i].parent.value;
      OrphanKeepsTree(gs, i, p);
      OrphanIsUpdate(gs, i, p);
      var hs := gs[i := gs[i].(active := false)];
      ActiveCountUpdate(gs, i, gs[i].(active := false));
      ActiveCountUpdate(hs, p, gs[p].(children := Without(gs[p].children, i)));
    }
  }

  lemma AddedKeepsInv(s: State, path: string, pid: nat)
    requires Inv(s)
    ensures Inv(Added(s, path, pid).0)
  {
    var gs := s.groups;
    if Added(s, path, pid).1.Ok? {
      var i := FindByPath(gs, path);
      assert ListsAt(gs, i);
      var ms := gs[i].members + [pid];
      MembersKeepTree(gs, i, ms);
      ActiveCountUpdate(gs, i, gs[i].(members := ms, pidsCurrent := |ms|));
    }
  }

  lemma DroppedKeepsInv(s: State, path: string, pid: nat)
    requires Inv(s)
    ensures Inv(Dropped(s, path, pid).0)
  {
    var gs := s.groups;
    if Dropped(s, path, pid).1.Ok? {
      var i := FindByPath(gs, path);
      assert ListsAt(gs, i);
      var ms := RemoveFirst(gs[i].members, pid);
      RemoveFirstElements(gs[i].members, pid);
      MembersKeepTree(gs, i, ms);
      ActiveCountUpdate(gs, i, gs[i].(members := ms, pidsCurrent := |ms|));
    }
  }

  // ----- Whole runs -----

  datatype Op = Create(path: string) | Remove(path: string) | Add(path: string, pid: nat) | Drop(path: string, pid: nat)

  function Apply(s: State, op: Op): State {
    match op
    case Create(path) => Created(s, path).0
    case Remove(path) => Removed(s, path).0
    case Add(path, pid) => Added(s, path, pid).0
    case Drop(path, pid) => Dropped(s, path, pid).0
  }

  function Run(s: State, ops: seq<Op>): State
    decreases |ops|
  {
    if ops == [] then s else Run(Apply(s, ops[0]), ops[1..])
  }

  lemma ApplyKeepsInv(s: State, op: Op)
    requires Inv(s)
    ensures Inv(Apply(s, op))
  {
    match op
    case Create(path) => CreatedKeepsInv(s, path);
    case Remove(path) => RemovedKeepsInv(s, path);
    case Add(path, pid) => AddedKeepsInv(s, path, pid);
    case Drop(path, pid) => DroppedKeepsInv(s, path, pid);
  }

  /** Over every run the active groups form a tree and the counters agree with it. */
  lemma {:induction false} RunKeepsInv(s: State, ops: seq<Op>)
    requires Inv(s)
    ensures Inv(Run(s, ops))
    decreases |ops|
  {
    if ops != [] {
      ApplyKeepsInv(s, ops[0]);
      RunKeepsInv(Apply(s, ops[0]), ops[1..]);
    }
  }

  // ----- The tree listing -----

  /** Group `a` is group `x` or one of its ancestors. */
  ghost predicate Under(gs: seq<Group>, x: nat, a: nat)
    requires Tree(gs) && x < |gs|
    decreases x
  {
    x == a || (x > 0 && Up(gs, x) < x && Under(gs, Up(gs, x), a))
  }

  function Up(gs: seq<Group>, x: nat): nat
    requires x < |gs|
  {
    if gs[x].parent.Some? then gs[x].parent.value else 0
  }

  lemma {:induction false} UnderIsOlder(gs: seq<Group>, x: nat, a: nat)
    requires Tree(gs) && x < |gs| && Under(gs, x, a)
    ensures a <= x
    decreases x
  {
    if x != a {
      UnderIsOlder(gs, Up(gs, x), a);
    }
  }

  lemma {:induction false} AllUnderRoot(gs: seq<Group>, x: nat)
    requires Tree(gs) && Active(gs, x)
    ensures Under(gs, x, 0)
    decreases x
  {
    if x > 0 {
      assert PlacedAt(gs, x);
      AllUnderRoot(gs, Up(gs, x));
    }
  }

  /** An active group below `a` is below exactly one active child of `a`. */
  lemma {:induction false} BranchOf(gs: seq<Group>, x: nat, a: nat) returns (c: nat)
    requires Tree(gs) && Active(gs, x) && Under(gs, x, a) && x != a
    ensures a < |gs| && c in gs[a].children && Under(gs, x, c)
    decreases x
  {
    assert PlacedAt(gs, x);
    UnderIsOlder(gs, x, a);
    var p := Up(gs, x);
    if p == a {
      c := x;
      assert ListsAt(gs, a) && ChildOf(gs, x, a);
    } else {
      c := BranchOf(gs, p, a);
    }
  }

  lemma {:induction false} UnderBranch(gs: seq<Group>, x: nat, c: nat, a: nat)
    requires Tree(gs) && x < |gs| && Under(gs, x, c) && ChildOf(gs, c, a)
    ensures Under(gs, x, a)
    decreases x
  {
    assert PlacedAt(gs, c);
    if x != c {
      UnderBranch(gs, Up(gs, x), c, a);
    }
  }

  /** The subtrees of two children do not meet. */
  lemma {:induction false} BranchesDisjoint(gs: seq<Group>, x: nat, c: nat, d: nat, a: nat)
    requires Tree(gs) && x < |gs| && ChildOf(gs, c, a) && ChildOf(gs, d, a) && Under(gs, x, c) && Under(gs, x, d)
    ensures c == d
    decreases x
  {
    assert PlacedAt(gs, c) && PlacedAt(gs, d);
    if x == c && x != d {
      UnderIsOlder(gs, Up(gs, x), d);
    } else if x == d && x != c {
      UnderIsOlder(gs, Up(gs, x), c);
    } else if x != c {
      BranchesDisjoint(gs, Up(gs, x), c, d, a);
    }
  }

  /** The listing shows the active groups below `a`, each once. */
  ghost predicate ListsSubtree(gs: seq<Group>, a: nat, out: seq<nat>)
    requires Tree(gs)
  {
    Distinct(out) && forall x: nat :: x in out <==> Active(gs, x) && Under(gs, x, a)
  }

  /** The listing shows `a` and the active groups below its first k children, each once. */
  ghost predicate ListsBranches(gs: seq<Group>, a: nat, k: nat, out: seq<nat>)
    requires Tree(gs) && a < |gs| && k <= |gs[a].children|
  {
    && Distinct(out) && a in out
    && (forall x: nat | x in out :: Active(gs, x) && Under(gs, x, a))
    && (forall x: nat | Active(gs, x) && x != a && Under(gs, x, a) ::
          (x in out <==> exists j: nat :: j < k && Under(gs, x, gs[a].children[j])))
  }

  lemma ConcatDistinct(a: seq<nat>, b: seq<nat>)
    requires Distinct(a) && Distinct(b) && forall x | x in a :: x !in b
    ensures Distinct(a + b)
  {
    var s := a + b;
    forall i, j | 0 <= i < j < |s| ensures s[i] != s[j] {
      if i < |a| <= j {
        assert s[i] in a && s[j] in b;
      }
    }
  }

  lemma BranchesStart(gs: seq<Group>, a: nat)
    requires Tree(gs) && Active(gs, a)
    ensures ListsBranches(gs, a, 0, [a])
  {
  }

  lemma BranchesNext(gs: seq<Group>, a: nat, k: nat, out: seq<nat>, sub: seq<nat>)
    requires Tree(gs) && Active(gs, a) && k < |gs[a].children| && ListsBranches(gs, a, k, out)
    requires ListsSubtree(gs, gs[a].children[k], sub)
    ensures ListsBranches(gs, a, k + 1, out + sub)
  {
    var kids := gs[a].children;
    var c := kids[k];
    assert ListsAt(gs, a) && c in kids;
    assert ChildOf(gs, c, a) && PlacedAt(gs, c);
    forall x: nat | x in sub ensures x !in out && Active(gs, x) && Under(gs, x, a) && x != a {
      UnderIsOlder(gs, x, c);
      UnderBranch(gs, x, c, a);
      if x in out {
        var j: nat :| j < k && Under(gs, x, kids[j]);
        assert kids[j] in kids;
        BranchesDisjoint(gs, x, kids[j], c, a);
      }
    }
    forall x | x in out ensures x !in sub {}
    ConcatDistinct(out, sub);
    forall x: nat | Active(gs, x) && x != a && Under(gs, x, a)
      ensures x in out + sub <==> exists j: nat :: j < k + 1 && Under(gs, x, kids[j])
    {
      if x in sub {
        assert Under(gs, x, kids[k]);
      }
    }
  }

  lemma BranchesDone(gs: seq<Group>, a: nat, out: seq<nat>)
    requires Tree(gs) && Active(gs, a) && ListsBranches(gs, a, |gs[a].children|, out)
    ensures ListsSubtree(gs, a, out)
  {
    forall x: nat | Active(gs, x) && Under(gs, x, a) ensures x in out {
      if x != a {
        var c := BranchOf(gs, x, a);
        var j :| 0 <= j < |gs[a].children| && gs[a].children[j] == c;
      }
    }
  }

  // ----- The order of the listing -----

  /** x is under an earlier child of g, and y under a later one. */
  ghost predicate Separates(gs: seq<Group>, g: nat, s: nat, t: nat, x: nat, y: nat)
    requires Tree(gs) && x < |gs| && y < |gs|
  {
    && g < |gs| && s < t < |gs[g].children|
    && Under(gs, x, gs[g].children[s]) && Under(gs, y, gs[g].children[t])
  }

  /** x is above y, or in an earlier branch of a common ancestor. */
  ghost predicate Precedes(gs: seq<Group>, x: nat, y: nat)
    requires Tree(gs) && x < |gs| && y < |gs|
  {
    Under(gs, y, x) || exists g: nat, s: nat, t: nat :: Separates(gs, g, s, t, x, y)
  }

  ghost predicate Ordered(gs: seq<Group>, out: seq<nat>)
    requires Tree(gs)
  {
    && (forall i | 0 <= i < |out| :: out[i] < |gs|)
    && forall i, j | 0 <= i < j < |out| :: Precedes(gs, out[i], out[j])
  }

  /** The number of groups above x. */
  ghost function Depth(gs: seq<Group>, x: nat): nat
    requires Tree(gs) && x < |gs|
    decreases x
  {
    if x > 0 && Up(gs, x) < x then 1 + Depth(gs, Up(gs, x)) else 0
  }

  /** Each group is indented by its depth below the first one. */
  ghost predicate Indented(gs: seq<Group>, out: seq<nat>, indents: seq<nat>, a: nat, indent: nat)
    requires Tree(gs) && a < |gs|
  {
    && |indents| == |out| && (forall i | 0 <= i < |out| :: out[i] < |gs|)
    && forall i | 0 <= i < |out| :: indents[i] + Depth(gs, a) == indent + Depth(gs, out[i])
  }

  lemma OrderedNext(gs: seq<Group>, a: nat, k: nat, out: seq<nat>, sub: seq<nat>)
    requires Tree(gs) && Active(gs, a) && k < |gs[a].children| && ListsBranches(gs, a, k, out)
    requires ListsSubtree(gs, gs[a].children[k], sub) && Ordered(gs, out) && Ordered(gs, sub)
    ensures Ordered(gs, out + sub)
  {
    var all, kids := out + sub, gs[a].children;
    var c := kids[k];
    assert ListsAt(gs, a) && c in kids;
    assert forall i | 0 <= i < |all| :: all[i] < |gs|;
    forall i, j | 0 <= i < j < |all| ensures Precedes(gs, all[i], all[j]) {
      if j < |out| {
        assert all[i] == out[i] && all[j] == out[j];
      } else if i >= |out| {
        assert all[i] == sub[i - |out|] && all[j] == sub[j - |out|];
      } else {
        var x, y := out[i], sub[j - |out|];
        assert x in out && y in sub;
        BranchPrecedes(gs, a, k, out, x, y);
      }
    }
  }

  lemma BranchPrecedes(gs: seq<Group>, a: nat, k: nat, out: seq<nat>, x: nat, y: nat)
    requires Tree(gs) && Active(gs, a) && k < |gs[a].children| && ListsBranches(gs, a, k, out) && x in out
    requires y < |gs| && Under(gs, y, gs[a].children[k])
    ensures Precedes(gs, x, y)
  {
    var kids := gs[a].children;
    assert ListsAt(gs, a) && kids[k] in kids;
    if x == a {
      UnderBranch(gs, y, kids[k], a);
    } else {
      var s: nat :| s < k && Under(gs, x, kids[s]);
      assert Separates(gs, a, s, k, x, y);
    }
  }

  lemma IndentedNext(gs: seq<Group>, out: seq<nat>, indents: seq<nat>, a: nat, indent: nat,
                     sub: seq<nat>, subIndents: seq<nat>, c: nat)
    requires Tree(gs) && a < |gs| && Indented(gs, out, indents, a, indent) && ChildOf(gs, c, a)
    requires Indented(gs, sub, subIndents, c, indent + 1)
    ensures Indented(gs, out + sub, indents + subIndents, a, indent)
  {
    assert PlacedAt(gs, c) && Depth(gs, c) == 1 + Depth(gs, a);
  }

  /** `tree_recursive`: the ids in the order in which the listing prints them, and their indentation. */
  method TreeRecursive(gs: seq<Group>, a: nat, indent: nat) returns (out: seq<nat>, indents: seq<nat>)
    requires Tree(gs) && Active(gs, a)
    ensures ListsSubtree(gs, a, out) && Ordered(gs, out) && Indented(gs, out, indents, a, indent)
    decreases |gs| - a
  {
    out, indents := [a], [indent];
    BranchesStart(gs, a);
    var kids := gs[a].children;
    for k := 0 to |kids|
      invariant ListsBranches(gs, a, k, out) && Ordered(gs, out) && Indented(gs, out, indents, a, indent)
    {
      assert ListsAt(gs, a) && kids[k] in kids;
      assert ChildOf(gs, kids[k], a) && PlacedAt(gs, kids[k]);
      var c := FindById(gs, kids[k], 0);
      assert PlacedAt(gs, c);
      var sub, subIndents := TreeRecursive(gs, c, indent + 1);
      BranchesNext(gs, a, k, out, sub);
      OrderedNext(gs, a, k, out, sub);
      IndentedNext(gs, out, indents, a, indent, sub, subIndents, c);
      out, indents := out + sub, indents + subIndents;
    }
    BranchesDone(gs, a, out);
  }

  /** `cgroup_tree` visits every active group exactly once, above before below and earlier branches first, and indents
      each by its depth. */
  method CgroupTree(s: State) returns (out: seq<nat>, indents: seq<nat>)
    requires Inv(s)
    ensures Distinct(out) && forall x: nat :: x in out <==> Active(s.groups, x)
    ensures Ordered(s.groups, out) && Indented(s.groups, out, indents, 0, 0)
  {
    assert PlacedAt(s.groups, 0);
    out, indents := TreeRecursive(s.groups, 0, 0);
    forall x: nat | Active(s.groups, x) ensures Under(s.groups, x, 0) {
      AllUnderRoot(s.groups, x);
    }
  }

  /** The manager that the kernel keeps behind a lock. */
  class Manager {
    var groups: seq<Group>
    var nextId: nat
    var total: int
    var creates: int
    var removes: int

    function Now(): State
      reads this
    {
      State(groups, nextId, total, creates, removes)
    }

    constructor Init()
      ensures Now() == Initial()
    {
      groups, nextId, total, creates, removes := [NewGroup(0, "cgroup", ROOT_PATH, None)], 1, 1, 1, 0;
    }

    method CreateCgroup(path: string) returns (r: Result<nat, string>)
      requires Inv(Now())
      modifies this
      ensures (Now(), r) == Created(old(Now()), path) && Inv(Now())
    {
      CreatedKeepsInv(Now(), path);
      if !StartsWith(path, ROOT_PATH) {
        return Err("path must start with /sys/fs/cgroup/");
      }
      if |groups| >= MAX_CGROUPS {
        return Err("maximum number of cgroups reached");
      }
      if FindByPath(groups, path) < |groups| {
        return Err("cgroup already exists");
      }
      if LastSlash(TrimSlashes(path)) == |TrimSlashes(path)| {
        return Err("invalid path");
      }
      var p := ParentIndex(groups, path);
      if p == |groups| {
        return Err("parent cgroup not found");
      }
      var id := nextId;
      nextId := nextId + 1;
      groups := groups + [NewGroup(id, LeafName(path), path, Some(groups[p].id))];
      groups := groups[p := groups[p].(children := groups[p].children + [id])];
      total := total + 1;
      creates := creates + 1;
      r := Ok(id);
    }

    method RemoveCgroup(path: string) returns (r: Result<(), string>)
      requires Inv(Now())
      modifies this
      ensures (Now(), r) == Removed(old(Now()), path) && Inv(Now())
    {
      RemovedKeepsInv(Now(), path);
      var i := FindByPath(groups, path);
      if i == |groups| {
        return Err("cgroup not found");
      }
      if groups[i].children != [] {
        return Err("cgroup has children");
      }
      if groups[i].members != [] {
        return Err("cgroup has member processes");
      }
      if groups[i].parent.None? {
        return Err("cannot remove root cgroup");
      }
      var id, p := groups[i].id, groups[i].parent.value;
      groups := groups[i := groups[i].(active := false)];
      var q := FindById(groups, p, 0);
      if q < |groups| {
        groups := groups[q := groups[q].(children := Without(groups[q].children, id))];
      }
      total := total - 1;
      removes := removes + 1;
      r := Ok(());
    }

    method AddProcess(path: string, pid: nat) returns (r: Result<(), string>)
      requires Inv(Now())
      modifies this
      ensures (Now(), r) == Added(old(Now()), path, pid) && Inv(Now())
    {
      AddedKeepsInv(Now(), path, pid);
      var i := FindByPath(groups, path);
      if i == |groups| {
        return Err("cgroup not found");
      }
      if |groups[i].members| >= MAX_MEMBERS {
        return Err("cgroup member limit reached");
      }
      if pid in groups[i].members {
        return Err("process already in cgroup");
      }
      if groups[i].pidsMax > 0 && groups[i].pidsCurrent >= groups[i].pidsMax {
        return Err("pids.max limit reached");
      }
      groups := groups[i := groups[i].(members := groups[i].members + [pid], pidsCurrent := groups[i].pidsCurrent + 1)];
      r := Ok(());
    }

    method RemoveProcess(path: string, pid: nat) returns (r: Result<(), string>)
      requires Inv(Now())
      modifies this
      ensures (Now(), r) == Dropped(old(Now()), path, pid) && Inv(Now())
    {
      DroppedKeepsInv(Now(), path, pid);
      var i := FindByPath(groups, path);
      if i == |groups| {
        return Err("cgroup not found");
      }
      if pid !in groups[i].members {
        return Err("process not in cgroup");
      }
      var left := if groups[i].pidsCurrent > 0 then groups[i].pidsCurrent - 1 else 0;
      groups := groups[i := groups[i].(members := RemoveFirst(groups[i].members, pid), pidsCurrent := left)];
      r := Ok(());
    }
  }
}
