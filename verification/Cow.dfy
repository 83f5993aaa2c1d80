/** Model of src/cow.rs: reference counts of shared frames and the copy-on-write fault,
    against a system that copies every page when a process forks. */
module Cow {
  import opened Prelude

  const PAGE_SIZE: nat := 4096

  type Counts = map<nat, nat>
  type Page = seq<Byte>

  function Poke(page: Page, off: nat, b: Byte): Page
    requires off < |page|
  {
    page[off := b]
  }

  // ----- The tracker -----

  /** The address with its low twelve bits cleared. */
  function Align(addr: nat): nat {
    addr - addr % PAGE_SIZE
  }

  function Shared(rc: Counts, addr: nat): Counts {
    var a := Align(addr);
    rc[a := (if a in rc then rc[a] else 1) + 1]
  }

  function Unshared(rc: Counts, addr: nat): Counts {
    var a := Align(addr);
    if a !in rc then rc
    else if rc[a] <= 2 then rc - {a}
    else rc[a := rc[a] - 1]
  }

  predicate Sharing(rc: Counts, addr: nat) {
    Align(addr) in rc && rc[Align(addr)] > 1
  }

  class CowTracker {
    var refCounts: Counts

    constructor ()
      ensures refCounts == map[]
    {
      refCounts := map[];
    }

    method ShareFrame(addr: nat)
      modifies this
      ensures refCounts == Shared(old(refCounts), addr)
    {
      var aligned := Align(addr);
      if aligned !in refCounts {
        refCounts := refCounts[aligned := 1];
      }
      refCounts := refCounts[aligned := refCounts[aligned] + 1];
    }

    method IsShared(addr: nat) returns (r: bool)
      ensures r <==> Sharing(refCounts, addr)
    {
      var aligned := Align(addr);
      r := if aligned in refCounts then refCounts[aligned] > 1 else false;
    }

    method UnshareFrame(addr: nat) returns (last: bool)
      modifies this
      ensures refCounts == Unshared(old(refCounts), addr)
      ensures last <==> Align(addr) in old(refCounts) && Align(addr) !in refCounts
    {
      var aligned := Align(addr);
      if aligned in refCounts {
        var count := if refCounts[aligned] == 0 then 0 else refCounts[aligned] - 1;
        refCounts := refCounts[aligned := count];
        if count <= 1 {
          refCounts := refCounts - {aligned};
          return true;
        }
      }
      last := false;
    }
  }

  // ----- Processes sharing frames -----

  /** A virtual page of a process. */
  datatype Key = Key(pid: nat, vpn: nat)

  datatype Mapping = Mapping(frame: nat, writable: bool)

  datatype Sys = Sys(pt: map<Key, Mapping>, mem: map<nat, Page>, rc: Counts)

  function Mappers(pt: map<Key, Mapping>, f: nat): set<Key> {
    set k | k in pt && pt[k].frame == f
  }

  /** The tracker counts the mappings of every frame that has at least two, and no others. */
  ghost predicate Counted(pt: map<Key, Mapping>, rc: Counts) {
    forall f: nat ::
      var n := |Mappers(pt, f)|;
      if n >= 2 then f in rc && rc[f] == n else f !in rc
  }

  /** A page that can be written without a fault has its frame to itself. */
  ghost predicate Exclusive(pt: map<Key, Mapping>) {
    forall k | k in pt && pt[k].writable :: Mappers(pt, pt[k].frame) == {k}
  }

  predicate Backed(s: Sys) {
    forall k | k in s.pt :: s.pt[k].frame in s.mem
  }

  ghost predicate Inv(s: Sys) {
    && Backed(s)
    && (forall f | f in s.mem :: Align(f) == f)
    && Counted(s.pt, s.rc) && Exclusive(s.pt)
  }

  /** The bytes every process sees. */
  function View(s: Sys): map<Key, Page>
    requires Backed(s)
  {
    map k | k in s.pt :: s.mem[s.pt[k].frame]
  }

  predicate Fresh(s: Sys, f: nat) {
    f !in s.mem && Align(f) == f
  }

  // ----- Steps -----

  /** A process gets a page of its own. */
  function NewPage(s: Sys, k: Key, f: nat, page: Page): Sys {
    Sys(s.pt[k := Mapping(f, true)], s.mem[f := page], s.rc)
  }

  /** One page of a fork: both mappings become read-only and the frame is counted once more. */
  function SharePage(s: Sys, from: Key, to: Key): Sys
    requires from in s.pt
  {
    var f := s.pt[from].frame;
    Sys(s.pt[from := Mapping(f, false)][to := Mapping(f, false)], s.mem, Shared(s.rc, f))
  }

  /** `handle_cow_fault`: None when the page is not mapped, its frame is not shared or no frame is free. */
  function HandleFault(s: Sys, k: Key, alloc: Option<nat>): (r: Option<Sys>)
    requires Backed(s)
    ensures r.Some? ==> Backed(r.value) && k in r.value.pt && k in s.pt && View(r.value)[k] == View(s)[k]
  {
    if k !in s.pt || !Sharing(s.rc, s.pt[k].frame) || alloc.None? then None
    else
      var f := s.pt[k].frame;
      Some(Sys(s.pt[k := Mapping(alloc.value, true)], s.mem[alloc.value := s.mem[f]], Unshared(s.rc, f)))
  }

  function Unmap(s: Sys, k: Key): Sys
    requires k in s.pt
  {
    Sys(s.pt - {k}, s.mem, Unshared(s.rc, s.pt[k].frame))
  }

  function Store(s: Sys, k: Key, off: nat, b: Byte): Sys
    requires Backed(s) && k in s.pt && off < |View(s)[k]|
  {
    var f := s.pt[k].frame;
    s.(mem := s.mem[f := Poke(s.mem[f], off, b)])
  }

  /** A store to a page: on a read-only page it goes through the fault handler first; None when that gives up. */
  function Write(s: Sys, k: Key, off: nat, b: Byte, alloc: Option<nat>): Option<Sys>
    requires Backed(s) && k in s.pt && off < |View(s)[k]|
  {
    if s.pt[k].writable then Some(Store(s, k, off, b))
    else match HandleFault(s, k, alloc)
      case None => None
      case Some(t) => Some(Store(t, k, off, b))
  }

  // ----- Every step keeps the invariant and copies what eager copying copies -----

  lemma NewPageKeeps(s: Sys, k: Key, f: nat, page: Page)
    requires Inv(s) && k !in s.pt && Fresh(s, f)
    ensures Inv(NewPage(s, k, f, page))
    ensures View(NewPage(s, k, f, page)) == View(s)[k := page]
  {
    var t := NewPage(s, k, f, page);
    assert Mappers(t.pt, f) == {k};
    forall g: nat | g != f ensures Mappers(t.pt, g) == Mappers(s.pt, g) {}
    assert Mappers(s.pt, f) == {};
  }

  lemma AddMapper(pt: map<Key, Mapping>, rc: Counts, from: Key, to: Key)
    requires Counted(pt, rc) && from in pt && to !in pt && Align(pt[from].frame) == pt[from].frame
    ensures var f := pt[from].frame;
            Counted(pt[from := Mapping(f, false)][to := Mapping(f, false)], Shared(rc, f))
  {
    var f := pt[from].frame;
    var pt' := pt[from := Mapping(f, false)][to := Mapping(f, false)];
    assert Mappers(pt', f) == Mappers(pt, f) + {to};
    assert from in Mappers(pt, f);
    assert |Mappers(pt', f)| == |Mappers(pt, f)| + 1;
    forall g: nat | g != f ensures Mappers(pt', g) == Mappers(pt, g) {}
  }

  lemma SharedIsReadOnly(pt: map<Key, Mapping>, from: Key, to: Key)
    requires Exclusive(pt) && from in pt && to !in pt
    ensures var f := pt[from].frame;
            Exclusive(pt[from := Mapping(f, false)][to := Mapping(f, false)])
  {
    var f := pt[from].frame;
    var pt' := pt[from := Mapping(f, false)][to := Mapping(f, false)];
    forall k | k in pt' && pt'[k].writable ensures Mappers(pt', pt'[k].frame) == {k} {
      assert from in Mappers(pt, f);
      assert Mappers(pt', pt[k].frame) == Mappers(pt, pt[k].frame);
    }
  }

  lemma ShareKeeps(s: Sys, from: Key, to: Key)
    requires Inv(s) && from in s.pt && to !in s.pt
    ensures Inv(SharePage(s, from, to))
    ensures View(SharePage(s, from, to)) == View(s)[to := View(s)[from]]
  {
    AddMapper(s.pt, s.rc, from, to);
    SharedIsReadOnly(s.pt, from, to);
    ShareView(s, from, to);
  }

  lemma ShareView(s: Sys, from: Key, to: Key)
    requires Backed(s) && from in s.pt && to !in s.pt
    ensures Backed(SharePage(s, from, to))
    ensures View(SharePage(s, from, to)) == View(s)[to := View(s)[from]]
  {
  }

  lemma RemoveMapper(pt: map<Key, Mapping>, pt': map<Key, Mapping>, rc: Counts, k: Key, f: nat)
    requires Counted(pt, rc) && k in pt && pt[k].frame == f && Align(f) == f
    requires Mappers(pt', f) == Mappers(pt, f) - {k}
    requires forall g: nat | g != f ::
               |Mappers(pt', g)| == |Mappers(pt, g)| || (|Mappers(pt', g)| < 2 && |Mappers(pt, g)| < 2)
    ensures Counted(pt', Unshared(rc, f))
  {
    assert k in Mappers(pt, f);
    assert |Mappers(pt', f)| == |Mappers(pt, f)| - 1;
  }

  lemma FaultCounts(s: Sys, k: Key, n: nat)
    requires Inv(s) && Fresh(s, n) && k in s.pt
    ensures Counted(s.pt[k := Mapping(n, true)], Unshared(s.rc, s.pt[k].frame))
  {
    var pt, f := s.pt[k := Mapping(n, true)], s.pt[k].frame;
    assert Mappers(s.pt, n) == {} && Mappers(pt, n) == {k};
    assert Mappers(pt, f) == Mappers(s.pt, f) - {k};
    forall g: nat | g != f && g != n ensures Mappers(pt, g) == Mappers(s.pt, g) {}
    RemoveMapper(s.pt, pt, s.rc, k, f);
  }

  lemma FaultExclusive(s: Sys, k: Key, n: nat)
    requires Inv(s) && Fresh(s, n) && k in s.pt
    ensures Exclusive(s.pt[k := Mapping(n, true)])
  {
    var pt := s.pt[k := Mapping(n, true)];
    forall j | j in pt && pt[j].writable ensures Mappers(pt, pt[j].frame) == {j} {
      if j != k {
        assert k !in Mappers(s.pt, pt[j].frame);
        assert Mappers(pt, pt[j].frame) == Mappers(s.pt, pt[j].frame);
      } else {
        assert Mappers(pt, n) == {k};
      }
    }
  }

  lemma FaultKeeps(s: Sys, k: Key, alloc: Option<nat>)
    requires Inv(s) && (alloc.Some? ==> Fresh(s, alloc.value))
    ensures var r := HandleFault(s, k, alloc);
            r.Some? ==> Inv(r.value) && View(r.value) == View(s) && k in r.value.pt && r.value.pt[k].writable
  {
    if HandleFault(s, k, alloc).Some? {
      FaultCounts(s, k, alloc.value);
      FaultExclusive(s, k, alloc.value);
    }
  }

  lemma UnmapKeeps(s: Sys, k: Key)
    requires Inv(s) && k in s.pt
    ensures Inv(Unmap(s, k)) && View(Unmap(s, k)) == View(s) - {k}
  {
    var t, f := Unmap(s, k), s.pt[k].frame;
    assert Mappers(t.pt, f) == Mappers(s.pt, f) - {k};
    forall g: nat | g != f ensures Mappers(t.pt, g) == Mappers(s.pt, g) {}
    RemoveMapper(s.pt, t.pt, s.rc, k, f);
    forall j | j in t.pt && t.pt[j].writable ensures Mappers(t.pt, t.pt[j].frame) == {j} {}
  }

  lemma StoreKeeps(s: Sys, k: Key, off: nat, b: Byte)
    requires Inv(s) && k in s.pt && s.pt[k].writable && off < |View(s)[k]|
    ensures Inv(Store(s, k, off, b))
    ensures View(Store(s, k, off, b)) == View(s)[k := Poke(View(s)[k], off, b)]
  {
    var f := s.pt[k].frame;
    forall j | j in s.pt && j != k ensures s.pt[j].frame != f {
      assert j !in Mappers(s.pt, f);
    }
  }

  /** A write changes the writer's page and nothing that any other page shows. */
  lemma WriteKeeps(s: Sys, k: Key, off: nat, b: Byte, alloc: Option<nat>)
    requires Inv(s) && k in s.pt && off < |View(s)[k]| && (alloc.Some? ==> Fresh(s, alloc.value))
    ensures var r := Write(s, k, off, b, alloc);
            r.Some? ==> Inv(r.value) && View(r.value) == View(s)[k := Poke(View(s)[k], off, b)]
  {
    FaultKeeps(s, k, alloc);
    if s.pt[k].writable {
      StoreKeeps(s, k, off, b);
    } else if HandleFault(s, k, alloc).Some? {
      StoreKeeps(HandleFault(s, k, alloc).value, k, off, b);
    }
  }

  /** A write is refused exactly when the page is read-only and its process is the last owner, or memory is out. */
  lemma WriteRefusedExactly(s: Sys, k: Key, off: nat, b: Byte, alloc: Option<nat>)
    requires Inv(s) && k in s.pt && off < |View(s)[k]| && (alloc.Some? ==> Fresh(s, alloc.value))
    ensures Write(s, k, off, b, alloc).None?
       <==> !s.pt[k].writable && (Mappers(s.pt, s.pt[k].frame) == {k} || alloc.None?)
  {
    var f := s.pt[k].frame;
    var m := Mappers(s.pt, f);
    assert k in m;
    if |m| == 1 {
      OneElement(m, k);
    }
    assert Sharing(s.rc, f) <==> |m| >= 2;
  }

  lemma OneElement(m: set<Key>, k: Key)
    requires k in m && |m| == 1
    ensures m == {k}
  {
    assert |m - {k}| == 0;
  }

  // ----- Whole runs -----

  datatype Event =
    | New(k: Key, frame: nat, page: Page)
    | Fork(parent: nat, child: nat, pages: seq<nat>)
    | Put(k: Key, off: nat, b: Byte, alloc: Option<nat>)
    | Fault(k: Key, alloc: Option<nat>)
    | Exit(pid: nat, pages: seq<nat>)

  /** The pages of a process, each listed once. */
  ghost predicate Lists(s: Sys, pid: nat, pages: seq<nat>) {
    && Distinct(pages)
    && (forall v: nat :: v in pages <==> Key(pid, v) in s.pt)
  }

  ghost predicate Enabled(s: Sys, e: Event)
    requires Backed(s)
  {
    match e
    case New(k, f, _) => k !in s.pt && Fresh(s, f)
    case Fork(p, c, pages) => p != c && Lists(s, p, pages) && forall v: nat :: Key(c, v) !in s.pt
    case Put(k, off, _, alloc) => k in s.pt && off < |View(s)[k]| && (alloc.Some? ==> Fresh(s, alloc.value))
    case Fault(_, alloc) => alloc.Some? ==> Fresh(s, alloc.value)
    case Exit(p, pages) => Lists(s, p, pages)
  }

  /** Share the listed pages of a parent with its child, one after another. */
  function ForkPages(s: Sys, p: nat, c: nat, pages: seq<nat>): Sys
    decreases |pages|
  {
    if pages == [] then s
    else if Key(p, pages[0]) !in s.pt then s
    else ForkPages(SharePage(s, Key(p, pages[0]), Key(c, pages[0])), p, c, pages[1..])
  }

  function ExitPages(s: Sys, p: nat, pages: seq<nat>): Sys
    decreases |pages|
  {
    if pages == [] then s
    else if Key(p, pages[0]) !in s.pt then s
    else ExitPages(Unmap(s, Key(p, pages[0])), p, pages[1..])
  }

  /** One event; None when a write is refused. A fault that is not a copy-on-write fault changes nothing. */
  ghost function Step(s: Sys, e: Event): Option<Sys>
    requires Backed(s) && Enabled(s, e)
  {
    match e
    case New(k, f, page) => Some(NewPage(s, k, f, page))
    case Fork(p, c, pages) => Some(ForkPages(s, p, c, pages))
    case Put(k, off, b, alloc) => Write(s, k, off, b, alloc)
    case Fault(k, alloc) =>
      var r := HandleFault(s, k, alloc);
      Some(if r.Some? then r.value else s)
    case Exit(p, pages) => Some(ExitPages(s, p, pages))
  }

  // ----- The eager system: every page private, copied when a process forks -----

  ghost function EagerStep(view: map<Key, Page>, e: Event): map<Key, Page> {
    match e
    case New(k, _, page) => view[k := page]
    case Fork(p, c, _) => EagerFork(view, p, c)
    case Put(k, off, b, _) => if k in view && off < |view[k]| then view[k := Poke(view[k], off, b)] else view
    case Fault(_, _) => view
    case Exit(p, _) => map k | k in view && k.pid != p :: view[k]
  }

  /** The child gets its own copy of every page of the parent. */
  ghost function EagerFork(view: map<Key, Page>, p: nat, c: nat): map<Key, Page> {
    var copies := set k | k in view && k.pid == p :: Key(c, k.vpn);
    map k | k in view.Keys + copies :: if k.pid == c && Key(p, k.vpn) in view then view[Key(p, k.vpn)]
                                       else if k in view then view[k] else []
  }

  /** The page `k` is one of the listed pages of process `p`. */
  predicate Of(k: Key, p: nat, pages: seq<nat>) {
    k.pid == p && k.vpn in pages
  }

  lemma OfTail(k: Key, p: nat, pages: seq<nat>)
    requires pages != []
    ensures Of(k, p, pages) <==> k == Key(p, pages[0]) || Of(k, p, pages[1..])
  {
    assert pages == [pages[0]] + pages[1..];
  }

  lemma {:induction false} ForkKeeps(s: Sys, p: nat, c: nat, pages: seq<nat>)
    requires Inv(s) && p != c && Distinct(pages)
    requires forall v | v in pages :: Key(p, v) in s.pt && Key(c, v) !in s.pt
    ensures var t := ForkPages(s, p, c, pages);
            && Inv(t)
            && (forall k :: k in View(t) <==> k in View(s) || Of(k, c, pages))
            && (forall k | k in View(t) :: View(t)[k] == View(s)[if Of(k, c, pages) then Key(p, k.vpn) else k])
    decreases |pages|
  {
    if pages != [] {
      var from, to := Key(p, pages[0]), Key(c, pages[0]);
      ShareKeeps(s, from, to);
      ForkKeeps(SharePage(s, from, to), p, c, pages[1..]);
      forall k ensures Of(k, c, pages) <==> k == to || Of(k, c, pages[1..]) {
        OfTail(k, c, pages);
      }
    }
  }

  lemma EagerForkPages(view: map<Key, Page>, t: map<Key, Page>, p: nat, c: nat, pages: seq<nat>)
    requires forall v: nat :: v in pages <==> Key(p, v) in view
    requires forall v: nat :: Key(c, v) !in view
    requires forall k :: k in t <==> k in view || Of(k, c, pages)
    requires forall k | k in view :: t[k] == view[k]
    requires forall k | Of(k, c, pages) :: t[k] == view[Key(p, k.vpn)]
    ensures t == EagerFork(view, p, c)
  {
    var eager := EagerFork(view, p, c);
    forall k ensures k in eager <==> k in t {
      if Of(k, c, pages) {
        assert Key(p, k.vpn) in view && k == Key(c, Key(p, k.vpn).vpn);
      }
      if k in eager && k !in view {
        var j :| j in view && j.pid == p && k == Key(c, j.vpn);
        assert j == Key(p, k.vpn);
      }
    }
    forall k | k in eager ensures eager[k] == t[k] {
      assert k == Key(k.pid, k.vpn);
    }
  }

  lemma ForkIsEagerFork(s: Sys, p: nat, c: nat, pages: seq<nat>)
    requires Inv(s) && Enabled(s, Fork(p, c, pages))
    ensures Inv(ForkPages(s, p, c, pages))
    ensures View(ForkPages(s, p, c, pages)) == EagerFork(View(s), p, c)
  {
    ForkKeeps(s, p, c, pages);
    EagerForkPages(View(s), View(ForkPages(s, p, c, pages)), p, c, pages);
  }

  lemma {:induction false} ExitKeeps(s: Sys, p: nat, pages: seq<nat>)
    requires Inv(s) && Distinct(pages)
    requires forall v | v in pages :: Key(p, v) in s.pt
    ensures var t := ExitPages(s, p, pages);
            && Inv(t)
            && (forall k :: k in View(t) <==> k in View(s) && !Of(k, p, pages))
            && (forall k | k in View(t) :: View(t)[k] == View(s)[k])
    decreases |pages|
  {
    if pages != [] {
      var gone := Key(p, pages[0]);
      UnmapKeeps(s, gone);
      ExitKeeps(Unmap(s, gone), p, pages[1..]);
      forall k ensures Of(k, p, pages) <==> k == gone || Of(k, p, pages[1..]) {
        OfTail(k, p, pages);
      }
    }
  }

  lemma ExitIsEagerExit(s: Sys, p: nat, pages: seq<nat>)
    requires Inv(s) && Enabled(s, Exit(p, pages))
    ensures Inv(ExitPages(s, p, pages))
    ensures View(ExitPages(s, p, pages)) == EagerStep(View(s), Exit(p, pages))
  {
    ExitKeeps(s, p, pages);
    forall k | k in View(s) ensures Of(k, p, pages) <==> k.pid == p {
      assert k == Key(k.pid, k.vpn);
    }
  }

  lemma StepRefinesEager(s: Sys, e: Event)
    requires Inv(s) && Enabled(s, e)
    ensures var r := Step(s, e);
            r.Some? ==> Inv(r.value) && View(r.value) == EagerStep(View(s), e)
  {
    match e
    case New(k, f, page) => NewPageKeeps(s, k, f, page);
    case Fork(p, c, pages) => ForkIsEagerFork(s, p, c, pages);
    case Put(k, off, b, alloc) => WriteKeeps(s, k, off, b, alloc);
    case Fault(k, alloc) => FaultKeeps(s, k, alloc);
    case Exit(p, pages) => ExitIsEagerExit(s, p, pages);
  }

  /** `es` can happen one after another from `s`, no write is refused, and they end in `t`. */
  ghost predicate Runs(s: Sys, es: seq<Event>, t: Sys)
    decreases |es|
  {
    if es == [] then t == s
    else Backed(s) && Enabled(s, es[0]) && Step(s, es[0]).Some? && Runs(Step(s, es[0]).value, es[1..], t)
  }

  ghost function EagerRun(view: map<Key, Page>, es: seq<Event>): map<Key, Page>
    decreases |es|
  {
    if es == [] then view else EagerRun(EagerStep(view, es[0]), es[1..])
  }

  /** Over every run, processes see exactly what they would see if fork copied every page,
      and the tracker counts exactly the frames with two mappings or more. */
  lemma {:induction false} RunRefinesEager(s: Sys, es: seq<Event>, t: Sys)
    requires Inv(s) && Runs(s, es, t)
    ensures Inv(t) && View(t) == EagerRun(View(s), es)
    decreases |es|
  {
    if es != [] {
      StepRefinesEager(s, es[0]);
      RunRefinesEager(Step(s, es[0]).value, es[1..], t);
    }
  }

  const BOOT: Sys := Sys(map[], map[], map[])

  lemma BootInv()
    ensures Inv(BOOT)
  {
    forall f: nat ensures Mappers(BOOT.pt, f) == {} {}
  }

  lemma {:induction false} RunsThen(s: Sys, es: seq<Event>, t: Sys, e: Event)
    requires Runs(s, es, t) && Inv(t) && Enabled(t, e) && Step(t, e).Some?
    ensures Runs(s, es + [e], Step(t, e).value)
    decreases |es|
  {
    if es == [] {
      assert es + [e] == [e] && [e][1..] == [];
    } else {
      assert (es + [e])[1..] == es[1..] + [e];
      RunsThen(Step(s, es[0]).value, es[1..], t, e);
    }
  }

  /** A parent with one page has forked a child. */
  function Forked(page: Page): Sys {
    Sys(map[Key(1, 0) := Mapping(0, false), Key(2, 0) := Mapping(0, false)], map[0 := page], map[0 := 2])
  }

  lemma ForkedIsReachable(page: Page)
    ensures Inv(Forked(page))
    ensures Runs(BOOT, [New(Key(1, 0), 0, page), Fork(1, 2, [0])], Forked(page))
  {
    BootInv();
    var p, c := Key(1, 0), Key(2, 0);
    var e1, e2 := New(p, 0, page), Fork(1, 2, [0]);
    var s1 := NewPage(BOOT, p, 0, page);
    NewPageKeeps(BOOT, p, 0, page);
    RunsThen(BOOT, [], BOOT, e1);
    assert [] + [e1] == [e1];
    ShareKeeps(s1, p, c);
    ForkedIsFork(page, s1);
    RunsThen(BOOT, [e1], s1, e2);
    assert [e1] + [e2] == [e1, e2];
  }

  lemma ForkedIsFork(page: Page, s1: Sys)
    requires s1 == NewPage(BOOT, Key(1, 0), 0, page)
    ensures Lists(s1, 1, [0]) && SharePage(s1, Key(1, 0), Key(2, 0)) == Forked(page)
    ensures ForkPages(s1, 1, 2, [0]) == SharePage(s1, Key(1, 0), Key(2, 0))
  {
    assert forall v: nat :: v in [0] <==> v == 0;
    assert [0][1..] == [];
  }

  /** After a fork and a write by the child, the parent owns a read-only page alone: its fault is
      not treated as a copy-on-write fault and its write is refused, though a frame is free. */
  lemma LastOwnerIsStuck(page: Page, b: Byte) returns (s: Sys)
    requires page != []
    ensures Runs(BOOT, [New(Key(1, 0), 0, page), Fork(1, 2, [0]), Put(Key(2, 0), 0, b, Some(PAGE_SIZE))], s)
    ensures Inv(s) && Enabled(s, Put(Key(1, 0), 0, b, Some(2 * PAGE_SIZE)))
    ensures HandleFault(s, Key(1, 0), Some(2 * PAGE_SIZE)) == None
    ensures Step(s, Put(Key(1, 0), 0, b, Some(2 * PAGE_SIZE))) == None
  {
    var p, c := Key(1, 0), Key(2, 0);
    var e1, e2, e3 := New(p, 0, page), Fork(1, 2, [0]), Put(c, 0, b, Some(PAGE_SIZE));
    ForkedIsReachable(page);
    s := ChildWrites(page, b);
    RunsThen(BOOT, [e1, e2], Forked(page), e3);
    assert [e1, e2] + [e3] == [e1, e2, e3];
    ParentIsRefused(s, page, b);
  }

  lemma ParentIsRefused(s: Sys, page: Page, b: Byte)
    requires page != [] && Inv(s)
    requires s.pt == map[Key(1, 0) := Mapping(0, false), Key(2, 0) := Mapping(PAGE_SIZE, true)]
    requires s.mem.Keys == {0, PAGE_SIZE} && s.mem[0] == page && s.rc == map[]
    ensures Enabled(s, Put(Key(1, 0), 0, b, Some(2 * PAGE_SIZE)))
    ensures HandleFault(s, Key(1, 0), Some(2 * PAGE_SIZE)) == None
    ensures Step(s, Put(Key(1, 0), 0, b, Some(2 * PAGE_SIZE))) == None
  {
    assert View(s)[Key(1, 0)] == page;
  }

  lemma ChildFaults(page: Page)
    requires page != []
    ensures var t, c := Forked(page), Key(2, 0);
            HandleFault(t, c, Some(PAGE_SIZE))
            == Some(Sys(t.pt[c := Mapping(PAGE_SIZE, true)], t.mem[PAGE_SIZE := page], map[]))
  {
  }

  lemma ChildWrites(page: Page, b: Byte) returns (s: Sys)
    requires page != [] && Inv(Forked(page))
    ensures Enabled(Forked(page), Put(Key(2, 0), 0, b, Some(PAGE_SIZE)))
    ensures Step(Forked(page), Put(Key(2, 0), 0, b, Some(PAGE_SIZE))) == Some(s)
    ensures Inv(s) && s.pt == map[Key(1, 0) := Mapping(0, false), Key(2, 0) := Mapping(PAGE_SIZE, true)]
    ensures s.mem.Keys == {0, PAGE_SIZE} && s.mem[0] == page && s.rc == map[]
  {
    var t, c := Forked(page), Key(2, 0);
    assert View(t)[c] == page;
    ChildFaults(page);
    WriteKeeps(t, c, 0, b, Some(PAGE_SIZE));
    s := Store(Sys(t.pt[c := Mapping(PAGE_SIZE, true)], t.mem[PAGE_SIZE := page], map[]), c, 0, b);
  }
}
