/** What the memory core implements, on its own terms: a page allocator, one translation
    per address and top-level slot owner, and how many tables each address still lacks. The
    machine below never looks at a page table; every run of the kernel's code follows it. */
module SimpleSpaces {
  import opened Words
  import opened Pte
  import opened PageHeap
  import opened PageTables
  import opened TableLemmas
  import opened Spaces
  import opened SpaceRuns

  // ---------------------------------------------------------------- the simple machine

  /** owner(r, i): who owns top-level slot i of space r; spaces with one owner for a slot
      share it. missing(o, va) and page(o, va): under owner o, how many of the three lower
      tables on the path to va do not exist, and what va translates to. */
  datatype Simple = Simple(
    heap: Heap, spaces: set<nat>,
    owner: (nat, nat) -> nat, missing: (nat, nat) -> nat, page: (nat, nat) -> Translation)

  function OwnerOf(a: Simple, r: nat, va: nat): nat { a.owner(r, Idx(va, 0)) }

  /** How many of the tables below depth d on the paths to va and vb are not common. */
  function Apart(va: nat, vb: nat, d: nat): (n: nat)
    requires d < 4
    ensures n <= 3 - d
    decreases 4 - d
  {
    if d == 3 then 0 else if Idx(va, d) != Idx(vb, d) then 3 - d else Apart(va, vb, d + 1)
  }

  /** The allocator after k allocations of one page. */
  ghost function TakeTables(h: Heap, k: nat): Heap
    decreases k
  {
    if k == 0 then h else TakeTables(AllocPages(h, 1).0, k - 1)
  }

  /** Builds the tables for va under owner o, as far as the free pages go. */
  ghost function Build(a: Simple, o: nat, va: nat): Simple {
    var take := Min(a.missing(o, va), |a.heap.free|);
    var left := a.missing(o, va) - take;
    a.(heap := TakeTables(a.heap, take),
       missing := (o': nat, vb: nat) =>
         if o' == o then Min(a.missing(o', vb), Max(left, Apart(va, vb, 0))) else a.missing(o', vb))
  }

  ghost function SetPage(a: Simple, o: nat, va: nat, tr: Translation): Simple {
    a.(page := (o': nat, vb: nat) => if o' == o && Vpn(vb) == Vpn(va) then tr else a.page(o', vb))
  }

  ghost function SimpleMap(a: Simple, r: nat, va: nat, phys: nat, flags: Word): (Simple, bool) {
    var o := OwnerOf(a, r, va);
    if a.missing(o, va) <= |a.heap.free| then (SetPage(Build(a, o, va), o, va, Page(Leaf(phys, flags))), true)
    else (Build(a, o, va), false)
  }

  ghost function SimpleUnmap(a: Simple, r: nat, va: nat): (Simple, bool) {
    var o := OwnerOf(a, r, va);
    (SetPage(a, o, va, Absent), a.missing(o, va) == 0)
  }

  /** Upper slot i of the kernel's space has a table, which a new space will share. */
  predicate Handed(a: Simple, kernel: nat, i: nat) {
    i >= 256 && a.missing(a.owner(kernel, i), i * 0x80_0000_0000) < 3
  }

  ghost function SimpleCreate(a: Simple, kernel: nat): (Simple, Option<nat>) {
    if a.heap.free == {} then (a, None)
    else
      var (h, phys) := AllocPages(a.heap, 1);
      var f := phys / PAGE_SIZE;
      (Simple(h, a.spaces + {f},
              (r: nat, i: nat) =>
                if r != f then a.owner(r, i) else if Handed(a, kernel, i) then a.owner(kernel, i) else f,
              (o: nat, va: nat) => if o == f then 3 else a.missing(o, va),
              (o: nat, va: nat) => if o == f then Absent else a.page(o, va)),
       Some(f))
  }

  ghost function SimpleDo(a: Simple, kernel: nat, op: Op): Simple {
    match op
    case Map(r, va, phys, flags) => SimpleMap(a, r, va, phys, flags).0
    case Unmap(r, va) => SimpleUnmap(a, r, va).0
    case NewSpace => SimpleCreate(a, kernel).0
    case TakePages(n) => a.(heap := AllocPages(a.heap, n).0)
    case GivePages(start, n) => a.(heap := FreePages(a.heap, start * PAGE_SIZE, n))
    case Store(_, _, _) => a
  }

  ghost function SimpleRun(a: Simple, kernel: nat, ops: seq<Op>): Simple
    decreases |ops|
  {
    if ops == [] then a else SimpleRun(SimpleDo(a, kernel, ops[0]), kernel, ops[1..])
  }

  // ---------------------------------------------------------------- simulation

  ghost predicate SlotSim(s: Vm, a: Simple, r: nat, r': nat, i: nat) {
    Shares(s.mem, r, r', i) <==> a.owner(r, i) == a.owner(r', i)
  }

  ghost predicate PageSim(s: Vm, a: Simple, r: nat, va: nat) {
    && Walk(s.mem, r, va) == a.page(OwnerOf(a, r, va), va)
    && Missing(s.mem, r, va, 0) == a.missing(OwnerOf(a, r, va), va)
  }

  ghost predicate Sim(s: Vm, a: Simple) {
    && a.heap == s.heap
    && (forall r :: r in a.spaces <==> IsRoot(s, r))
    && (forall r, i :: IsRoot(s, r) && 0 <= i < 512 ==> a.owner(r, i) in s.nodes)
    && (forall r, r', i :: IsRoot(s, r) && IsRoot(s, r') && 0 <= i < 512 ==> SlotSim(s, a, r, r', i))
    && (forall r, va: nat :: IsRoot(s, r) ==> PageSim(s, a, r, va))
  }

  /** The simple state of a memory: a present slot is owned by its table, an absent one by
      its space. */
  ghost function Abstraction(s: Vm): Simple {
    Simple(s.heap, set r | r in s.nodes && IsRoot(s, r),
           (r: nat, i: nat) => if Present(Get(s.mem, r, i)) then HwFrame(Get(s.mem, r, i)) else r,
           (o: nat, va: nat) => if o in s.nodes && s.nodes[o].depth == 1 then Missing(s.mem, o, va, 1) else 3,
           (o: nat, va: nat) => if o in s.nodes && s.nodes[o].depth == 1 then WalkFrom(s.mem, o, va, 1) else Absent)
  }

  /** Every owned state of the page tables has a simple state to start from. */
  lemma AbstractionSim(s: Vm)
    requires Wf(s)
    ensures Sim(s, Abstraction(s))
  {
    var a := Abstraction(s);
    forall r, i | IsRoot(s, r) && 0 <= i < 512 ensures a.owner(r, i) in s.nodes {
      assert Linked(s, r, i);
    }
    forall r, r', i | IsRoot(s, r) && IsRoot(s, r') && 0 <= i < 512 ensures SlotSim(s, a, r, r', i) {
      assert Linked(s, r, i) && Linked(s, r', i);
    }
    forall r, va: nat | IsRoot(s, r) ensures PageSim(s, a, r, va) {
      assert Linked(s, r, Idx(va, 0));
    }
  }

  // ---------------------------------------------------------------- missing tables

  /** Tables that are not written leave the number of missing ones as it is. */
  lemma {:induction false} SameBelow(s: Vm, m: Mem, t: nat, va: nat, d: nat)
    requires Wf(s) && d < 4 && t in s.nodes && s.nodes[t].depth == d && |m| == |s.mem|
    requires forall u :: u in s.nodes && s.nodes[u].depth >= d ==> m[u] == s.mem[u]
    ensures Missing(m, t, va, d) == Missing(s.mem, t, va, d)
    decreases 4 - d
  {
    assert Linked(s, t, Idx(va, d));
    var e := Get(s.mem, t, Idx(va, d));
    if d < 3 && Follows(d, e) {
      SameBelow(s, m, HwFrame(e), va, d + 1);
    }
  }

  lemma {:induction false} MissingBound(m: Mem, t: nat, va: nat, d: nat)
    requires d < 4
    ensures Missing(m, t, va, d) <= 3 - d
    decreases 4 - d
  {
    if d < 3 {
      MissingBound(m, HwFrame(Get(m, t, Idx(va, d))), va, d + 1);
    }
  }

  /** A leaf is no table. */
  lemma {:induction false} LeafKeepsMissing(s: Vm, l: nat, i: nat, e: Word, t: nat, va: nat, d: nat)
    requires Wf(s) && l in s.nodes && s.nodes[l].depth == 3
    requires d < 4 && t in s.nodes && s.nodes[t].depth == d
    ensures Missing(Put(s.mem, l, i, e), t, va, d) == Missing(s.mem, t, va, d)
    decreases 4 - d
  {
    if d < 3 {
      assert Linked(s, t, Idx(va, d));
      var e' := Get(s.mem, t, Idx(va, d));
      assert Get(Put(s.mem, l, i, e), t, Idx(va, d)) == e';
      if Follows(d, e') {
        LeafKeepsMissing(s, l, i, e, HwFrame(e'), va, d + 1);
      }
    }
  }

  /** Table u at depth d reaches the new tables below t: it is t, or a PML4 that shares the
      slot with t. */
  predicate Hit(s: Vm, t: nat, u: nat, va: nat, d: nat)
    requires d < 4
  {
    u == t || (d == 0 && Shares(s.mem, t, u, Idx(va, 0)))
  }

  /** The tables for va missing below t have been built, as far as the free pages went: this
      is what is left for vb below u. */
  ghost predicate Built(s: Vm, s': Vm, t: nat, va: nat, d: nat, u: nat, vb: nat)
    requires d < 4
  {
    var need, have := Missing(s.mem, t, va, d), |s.heap.free|;
    && Missing(s'.mem, t, va, d) == need - Min(need, have)
    && s'.heap == TakeTables(s.heap, Min(need, have))
    && (Missing(s'.mem, u, vb, d) == if Hit(s, t, u, va, d)
          then Min(Missing(s.mem, u, vb, d), Max(Missing(s'.mem, t, va, d), Apart(va, vb, d)))
          else Missing(s.mem, u, vb, d))
    && (forall r :: IsRoot(s', r) <==> IsRoot(s, r))
  }

  /** What one level of ensure_pt writes, exactly. */
  lemma LevelWrites(s: Vm, t: nat, va: nat, d: nat, flags: Word)
    requires Wf(s) && d < 3 && t in s.nodes && s.nodes[t].depth == d && CleanFrom(s.mem, t, va, d)
    ensures var r := EnsureLevel(s, t, va, d, flags);
            && (forall j :: 0 <= j < 512 && j != Idx(va, d) ==> Get(r.0.mem, t, j) == Get(s.mem, t, j))
            && (forall x :: IsRoot(r.0, x) <==> IsRoot(s, x))
            && r.0.heap == (if Present(Get(s.mem, t, Idx(va, d))) then s.heap else AllocPages(s.heap, 1).0)
  {
    AllocTableFresh(s);
  }

  /** ensure_pt builds what is missing and nothing else. */
  lemma {:induction false} EnsureBuilds(s: Vm, t: nat, va: nat, d: nat, flags: Word, u: nat, vb: nat)
    requires Wf(s) && d < 4 && t in s.nodes && s.nodes[t].depth == d && CleanFrom(s.mem, t, va, d)
    requires u in s.nodes && s.nodes[u].depth == d
    ensures Built(s, EnsureFrom(s, t, va, d, flags).0, t, va, d, u, vb)
    decreases 4 - d
  {
    hide Built, LevelEnsured, Ensured, EnsureLevel, Wf;
    if d == 3 {
      NothingBuilt(s, t, va, u, vb);
    } else {
      EnsureLevelGrows(s, t, va, d, flags);
      LevelWrites(s, t, va, d, flags);
      var a := EnsureLevel(s, t, va, d, flags);
      match a.1 {
        case None => LevelFailedBuilt(s, a.0, t, va, d, u, vb);
        case Some(c) =>
          ChildIsClean(s, a.0, t, va, d, c);
          var w := Below(s, a.0, t, va, d, c, u, vb);
          EnsureBuilds(a.0, c, va, d + 1, flags, w, vb);
          EnsureFromGrows(a.0, c, va, d + 1, flags);
          var r := EnsureFrom(a.0, c, va, d + 1, flags);
          LevelThenBuilt(s, a.0, r.0, t, va, d, c, u, vb, w, r.1);
      }
    }
  }

  lemma NothingBuilt(s: Vm, t: nat, va: nat, u: nat, vb: nat)
    ensures Built(s, s, t, va, 3, u, vb)
  {
  }

  lemma LevelFailedBuilt(s: Vm, a: Vm, t: nat, va: nat, d: nat, u: nat, vb: nat)
    requires d < 3 && LevelEnsured(s, a, t, va, d, None)
    ensures Built(s, a, t, va, d, u, vb)
  {
    MissingBound(s.mem, u, vb, d);
  }

  /** The table to look at one level down: u's next on the path to vb, if there is one. */
  lemma Below(s: Vm, a: Vm, t: nat, va: nat, d: nat, c: nat, u: nat, vb: nat) returns (w: nat)
    requires Wf(s) && d < 3 && t in s.nodes && s.nodes[t].depth == d && u in s.nodes && s.nodes[u].depth == d
    requires LevelEnsured(s, a, t, va, d, Some(c))
    ensures w in a.nodes && a.nodes[w].depth == d + 1
    ensures w == if Follows(d, Get(a.mem, u, Idx(vb, d))) then HwFrame(Get(a.mem, u, Idx(vb, d))) else c
  {
    assert u in a.nodes && a.nodes[u] == s.nodes[u];
    assert Linked(a, u, Idx(vb, d));
    w := if Follows(d, Get(a.mem, u, Idx(vb, d))) then HwFrame(Get(a.mem, u, Idx(vb, d))) else c;
  }

  lemma LevelThenBuilt(s: Vm, a: Vm, s': Vm, t: nat, va: nat, d: nat, c: nat, u: nat, vb: nat, w: nat, l: Option<nat>)
    requires Wf(s) && Wf(a) && d < 3 && t in s.nodes && s.nodes[t].depth == d && CleanFrom(s.mem, t, va, d)
    requires u in s.nodes && s.nodes[u].depth == d
    requires LevelEnsured(s, a, t, va, d, Some(c)) && Ensured(a, s', c, va, d + 1, l)
    requires forall j :: 0 <= j < 512 && j != Idx(va, d) ==> Get(a.mem, t, j) == Get(s.mem, t, j)
    requires forall x :: IsRoot(a, x) <==> IsRoot(s, x)
    requires a.heap == if Present(Get(s.mem, t, Idx(va, d))) then s.heap else AllocPages(s.heap, 1).0
    requires w == if Follows(d, Get(a.mem, u, Idx(vb, d))) then HwFrame(Get(a.mem, u, Idx(vb, d))) else c
    requires Built(a, s', c, va, d + 1, w, vb)
    ensures Built(s, s', t, va, d, u, vb)
  {
    KeptThroughChild(s, a, s', t, d, c);
    assert Get(s'.mem, t, Idx(va, d)) == Get(a.mem, t, Idx(va, d));
    assert Missing(s'.mem, t, va, d) == Missing(s'.mem, c, va, d + 1);
    PathBuilt(s, a, s', t, va, d, c);
    if u == t && Idx(vb, d) == Idx(va, d) {
      SamePath(s, a, s', t, va, d, c, vb);
    } else {
      OtherPath(s, a, s', t, va, d, c, u, vb, w);
    }
  }

  /** Need, free pages and allocator, one level up. */
  lemma PathBuilt(s: Vm, a: Vm, s': Vm, t: nat, va: nat, d: nat, c: nat)
    requires d < 3 && LevelDone(s, a, t, va, d, Some(c))
    requires Present(Get(s.mem, t, Idx(va, d))) ==> TablePointer(Get(s.mem, t, Idx(va, d)))
    requires a.heap == if Present(Get(s.mem, t, Idx(va, d))) then s.heap else AllocPages(s.heap, 1).0
    requires var need, have := Missing(a.mem, c, va, d + 1), |a.heap.free|;
             && Missing(s'.mem, t, va, d) == need - Min(need, have) && s'.heap == TakeTables(a.heap, Min(need, have))
    ensures var need, have := Missing(s.mem, t, va, d), |s.heap.free|;
            && Missing(s'.mem, t, va, d) == need - Min(need, have) && s'.heap == TakeTables(s.heap, Min(need, have))
  {
    if !Present(Get(s.mem, t, Idx(va, d))) {
      assert d < 2 ==> !Present(Get(a.mem, c, Idx(va, d + 1)));
      assert Missing(a.mem, c, va, d + 1) == 2 - d;
    }
  }

  lemma SamePath(s: Vm, a: Vm, s': Vm, t: nat, va: nat, d: nat, c: nat, vb: nat)
    requires d < 3 && LevelDone(s, a, t, va, d, Some(c)) && Idx(vb, d) == Idx(va, d)
    requires Present(Get(s.mem, t, Idx(va, d))) ==> TablePointer(Get(s.mem, t, Idx(va, d)))
    requires Get(s'.mem, t, Idx(va, d)) == Get(a.mem, t, Idx(va, d))
    requires Missing(s'.mem, c, va, d + 1) <= Missing(a.mem, c, va, d + 1)
    requires Missing(s'.mem, c, vb, d + 1)
          == Min(Missing(a.mem, c, vb, d + 1), Max(Missing(s'.mem, c, va, d + 1), Apart(va, vb, d + 1)))
    ensures Missing(s'.mem, t, vb, d) == Min(Missing(s.mem, t, vb, d), Max(Missing(s'.mem, t, va, d), Apart(va, vb, d)))
  {
    if !Present(Get(s.mem, t, Idx(va, d))) {
      assert d < 2 ==> !Present(Get(a.mem, c, Idx(va, d + 1))) && !Present(Get(a.mem, c, Idx(vb, d + 1)));
      assert Missing(a.mem, c, va, d + 1) == 2 - d == Missing(a.mem, c, vb, d + 1);
    }
  }

  /** A path that does not take the slot of t on the way to va. */
  lemma OtherPath(s: Vm, a: Vm, s': Vm, t: nat, va: nat, d: nat, c: nat, u: nat, vb: nat, w: nat)
    requires Wf(s) && Wf(a) && d < 3 && t in s.nodes && s.nodes[t].depth == d && u in s.nodes && s.nodes[u].depth == d
    requires CleanFrom(s.mem, t, va, d) && LevelEnsured(s, a, t, va, d, Some(c))
    requires !(u == t && Idx(vb, d) == Idx(va, d))
    requires forall j :: 0 <= j < 512 && j != Idx(va, d) ==> Get(a.mem, t, j) == Get(s.mem, t, j)
    requires Get(s'.mem, u, Idx(vb, d)) == Get(a.mem, u, Idx(vb, d))
    requires Missing(s'.mem, t, va, d) == Missing(s'.mem, c, va, d + 1)
    requires w == if Follows(d, Get(a.mem, u, Idx(vb, d))) then HwFrame(Get(a.mem, u, Idx(vb, d))) else c
    requires Missing(s'.mem, w, vb, d + 1) ==
               if w == c
               then Min(Missing(a.mem, w, vb, d + 1), Max(Missing(s'.mem, c, va, d + 1), Apart(va, vb, d + 1)))
               else Missing(a.mem, w, vb, d + 1)
    ensures Missing(s'.mem, u, vb, d) ==
              if Hit(s, t, u, va, d)
              then Min(Missing(s.mem, u, vb, d), Max(Missing(s'.mem, t, va, d), Apart(va, vb, d)))
              else Missing(s.mem, u, vb, d)
  {
    var j := Idx(vb, d);
    assert Get(a.mem, u, j) == Get(s.mem, u, j) by {
      if u != t { assert a.mem[u] == s.mem[u]; }
    }
    MissingBound(s.mem, u, vb, d);
    assert Linked(s, u, j) && Linked(a, u, j) && Linked(a, t, Idx(va, d)) && Linked(s, t, Idx(va, d));
    if Follows(d, Get(s.mem, u, j)) {
      SameBelow(s, a.mem, w, vb, d + 1);
      assert Missing(s.mem, u, vb, d) == Missing(a.mem, w, vb, d + 1);
      assert Missing(s'.mem, u, vb, d) == Missing(s'.mem, w, vb, d + 1);
      if w == c {
        assert EntryKept(s, a, t, Idx(va, d));
        assert Present(Get(s.mem, t, Idx(va, d))) && j == Idx(va, d) && d == 0;
        assert Hit(s, t, u, va, d);
      } else {
        assert Hit(s, t, u, va, d) ==> Apart(va, vb, d) == 3 - d;
      }
    } else {
      assert Missing(s.mem, u, vb, d) == 3 - d == Missing(s'.mem, u, vb, d);
      assert Hit(s, t, u, va, d) ==> j != Idx(va, d);
    }
  }

  /** Single pages are taken until none is left. */
  lemma {:induction false} TakeAll(h: Heap)
    requires Counted(h) && 0 !in h.free
    ensures TakeTables(h, |h.free|).free == {}
    decreases |h.free|
  {
    if |h.free| > 0 {
      var f :| f in h.free;
      assert Block(f, 1) == {f} by { OnePage(f); }
      AllocWithoutRunOrOne(h);
      TakeAll(AllocPages(h, 1).0);
    }
  }

  lemma AllocWithoutRunOrOne(h: Heap)
    requires Counted(h) && 0 !in h.free && h.free != {}
    ensures var h' := AllocPages(h, 1).0;
            Counted(h') && 0 !in h'.free && |h'.free| == |h.free| - 1
  {
    AllocKeepsCount(h, 1);
    FirstFitIsLeast(h.free, h.total, 1, 0);
    var f :| f in h.free;
    OnePage(f);
    match FirstFit(h.free, h.total, 1) {
      case None =>
      case Some(x) =>
        OnePage(x);
        FirstFitIsLeast(h.free, h.total, 1, x);
    }
  }

  /** A map fails only when it has used up every free page and its path still lacks a
      table. */
  lemma MapFailsEmpty(s: Vm, r: nat, va: nat, phys: nat, flags: Word)
    requires Wf(s) && IsRoot(s, r) && Clean(s.mem, r, va) && !MapPage(s, r, va, phys, flags).1
    ensures var s' := MapPage(s, r, va, phys, flags).0; s'.heap.free == {} && Missing(s'.mem, r, va, 0) > 0
  {
    EnsureBuilds(s, r, va, 0, flags, r, va);
    EnsureFromGrows(s, r, va, 0, flags);
    TakeAll(s.heap);
  }

  // ---------------------------------------------------------------- one call

  /** How the abstract side sees the tables that a map builds. */
  lemma BuildSim(s: Vm, a: Simple, e: Vm, r: nat, va: nat)
    requires Wf(s) && IsRoot(s, r) && Sim(s, a)
    requires Preserves(s, e) && SameWalks(s, e)
    requires forall r', vb: nat :: IsRoot(s, r') ==> Built(s, e, r, va, 0, r', vb)
    ensures Sim(e, Build(a, OwnerOf(a, r, va), va))
  {
    var o := OwnerOf(a, r, va);
    var a' := Build(a, o, va);
    assert PageSim(s, a, r, va) && Built(s, e, r, va, 0, r, va);
    forall r', r'', i | IsRoot(e, r') && IsRoot(e, r'') && 0 <= i < 512 ensures SlotSim(e, a', r', r'', i) {
      assert SlotSim(s, a, r', r'', i);
    }
    forall r', vb: nat | IsRoot(e, r') ensures PageSim(e, a', r', vb) {
      BuildPageSim(s, a, e, r, va, r', vb);
    }
  }

  lemma BuildPageSim(s: Vm, a: Simple, e: Vm, r: nat, va: nat, r': nat, vb: nat)
    requires Wf(s) && IsRoot(s, r) && Sim(s, a) && IsRoot(s, r')
    requires SameWalks(s, e) && Built(s, e, r, va, 0, r', vb)
    ensures PageSim(e, Build(a, OwnerOf(a, r, va), va), r', vb)
  {
    assert PageSim(s, a, r, va) && PageSim(s, a, r', vb) && SlotSim(s, a, r, r', Idx(va, 0));
    MissingBound(s.mem, r', vb, 0);
    if Idx(vb, 0) != Idx(va, 0) {
      assert Apart(va, vb, 0) == 3;
    }
  }

  /** And the page it sets. */
  lemma SetSim(s: Vm, a: Simple, s': Vm, r: nat, va: nat, tr: Translation)
    requires Wf(s) && IsRoot(s, r) && Sim(s, a)
    requires Preserves(s, s') && SetsPage(s, s', r, va, tr) && s'.heap == s.heap && s'.nodes == s.nodes
    requires forall r', vb: nat :: IsRoot(s, r') ==> Missing(s'.mem, r', vb, 0) == Missing(s.mem, r', vb, 0)
    ensures Sim(s', SetPage(a, OwnerOf(a, r, va), va, tr))
  {
    var a' := SetPage(a, OwnerOf(a, r, va), va, tr);
    forall r', r'', i | IsRoot(s', r') && IsRoot(s', r'') && 0 <= i < 512 ensures SlotSim(s', a', r', r'', i) {
      assert SlotSim(s, a, r', r'', i);
    }
    forall r', vb: nat | IsRoot(s', r') ensures PageSim(s', a', r', vb) {
      assert PageSim(s, a, r', vb) && SlotSim(s, a, r, r', Idx(va, 0));
      IndicesArePageNumber(va, vb);
    }
  }

  lemma LeafWriteSim(s: Vm, a: Simple, s': Vm, r: nat, va: nat, l: nat, e: Word)
    requires Wf(s) && IsRoot(s, r) && Arrives(s, r, va, 0, l) && Sim(s, a)
    requires s' == s.(mem := Put(s.mem, l, Idx(va, 3), e))
    ensures Sim(s', SetPage(a, OwnerOf(a, r, va), va, LeafTranslation(e)))
  {
    LeafWrite(s, s', r, va, l, e);
    forall r', vb: nat | IsRoot(s, r') ensures Missing(s'.mem, r', vb, 0) == Missing(s.mem, r', vb, 0) {
      LeafKeepsMissing(s, l, Idx(va, 3), e, r', vb, 0);
    }
    SetSim(s, a, s', r, va, LeafTranslation(e));
  }

  lemma EnsureSim(s: Vm, a: Simple, r: nat, va: nat, flags: Word)
    requires Wf(s) && IsRoot(s, r) && Clean(s.mem, r, va) && Sim(s, a)
    ensures var e := EnsurePt(s, r, va, flags);
            && Wf(e.0) && IsRoot(e.0, r) && Sim(e.0, Build(a, OwnerOf(a, r, va), va))
            && (e.1.Some? <==> a.missing(OwnerOf(a, r, va), va) <= |a.heap.free|)
            && (e.1.Some? ==> Arrives(e.0, r, va, 0, e.1.value))
  {
    EnsureFromGrows(s, r, va, 0, flags);
    var e := EnsurePt(s, r, va, flags);
    GrewPreserves(s, e.0, r);
    forall r', vb: nat | IsRoot(s, r') ensures Built(s, e.0, r, va, 0, r', vb) {
      EnsureBuilds(s, r, va, 0, flags, r', vb);
    }
    BuildSim(s, a, e.0, r, va);
    assert PageSim(s, a, r, va);
  }

  lemma MapSim(s: Vm, a: Simple, r: nat, va: nat, phys: nat, flags: Word)
    requires Wf(s) && IsRoot(s, r) && Clean(s.mem, r, va) && Sim(s, a)
    ensures var m, n := MapPage(s, r, va, phys, flags), SimpleMap(a, r, va, phys, flags);
            m.1 == n.1 && Sim(m.0, n.0)
  {
    hide Sim, Build, Wf, Arrives;
    EnsureSim(s, a, r, va, flags);
    var e := EnsurePt(s, r, va, flags);
    if e.1.Some? {
      LeafBits(phys, flags, PTE_P);
      var a', m := Build(a, OwnerOf(a, r, va), va), MapPage(s, r, va, phys, flags).0;
      LeafWriteSim(e.0, a', m, r, va, e.1.value, Leaf(phys, flags));
      BuildKeepsOwners(a, OwnerOf(a, r, va), va);
    }
  }

  lemma BuildKeepsOwners(a: Simple, o: nat, va: nat)
    ensures Build(a, o, va).owner == a.owner
  {
  }

  lemma UnmapSim(s: Vm, a: Simple, r: nat, va: nat)
    requires Wf(s) && IsRoot(s, r) && Clean(s.mem, r, va) && Sim(s, a)
    ensures var u, n := UnmapPage(s, r, va), SimpleUnmap(a, r, va);
            u.1 == n.1 && Sim(u.0, n.0)
  {
    UnmapPageEffect(s, r, va);
    SwReachIsReach(s, r, va);
    assert PageSim(s, a, r, va);
    match SwReach(s.mem, r, va) {
      case None => SetSim(s, a, s, r, va, Absent);
      case Some(l) =>
        SameLeafSlot(s, r, va, r, va, l);
        LeafWriteSim(s, a, UnmapPage(s, r, va).0, r, va, l, Zero());
    }
  }

  lemma SlotAddress(i: nat)
    requires i < 512
    ensures Idx(i * 0x80_0000_0000, 0) == i
  {
  }

  /** A new space's owners are the owners of what it shares, and itself. */
  lemma HandedIsPresent(s: Vm, a: Simple, kernel: nat, i: nat)
    requires Wf(s) && IsRoot(s, kernel) && Sim(s, a) && i < 512
    ensures Handed(a, kernel, i) <==> i >= 256 && Present(Get(s.mem, kernel, i))
  {
    SlotAddress(i);
    var va := i * 0x80_0000_0000;
    assert PageSim(s, a, kernel, va);
    var e := Get(s.mem, kernel, i);
    if Present(e) { MissingBound(s.mem, HwFrame(e), va, 1); }
  }

  lemma CreateSim(s: Vm, a: Simple, kernel: nat)
    requires Wf(s) && IsRoot(s, kernel) && Sim(s, a)
    ensures var c, n := CreateSpace(s, kernel), SimpleCreate(a, kernel);
            c.1 == n.1 && Sim(c.0, n.0)
  {
    AllocTableFresh(s);
    CreateSpaceEffect(s, kernel);
    var c := CreateSpace(s, kernel);
    if c.1.Some? {
      hide CreateSpace, Wf;
      NewSpaceSim(s, a, c.0, kernel, c.1.value);
    }
  }

  lemma NewSpaceSim(s: Vm, a: Simple, s': Vm, kernel: nat, f: nat)
    requires Wf(s) && IsRoot(s, kernel) && Sim(s, a) && NewRoot(s, s', kernel, f)
    requires a.heap.free != {} && AllocPages(s.heap, 1).1 / PAGE_SIZE == f && s'.heap == AllocPages(s.heap, 1).0
    ensures Sim(s', SimpleCreate(a, kernel).0) && SimpleCreate(a, kernel).1 == Some(f)
  {
    var a' := SimpleCreate(a, kernel).0;
    forall i | 0 <= i < 512 ensures Handed(a, kernel, i) <==> i >= 256 && Present(Get(s.mem, kernel, i)) {
      HandedIsPresent(s, a, kernel, i);
    }
    forall r, r', i | IsRoot(s', r) && IsRoot(s', r') && 0 <= i < 512 ensures SlotSim(s', a', r, r', i) {
      NewSlotSim(s, a, s', kernel, f, r, r', i);
    }
    forall r, va: nat | IsRoot(s', r) ensures PageSim(s', a', r, va) {
      if r == f { NewPageSim(s, a, s', kernel, f, va); } else { OldPageSim(s, a, s', kernel, f, r, va); }
    }
  }

  lemma NewSlotSim(s: Vm, a: Simple, s': Vm, kernel: nat, f: nat, r: nat, r': nat, i: nat)
    requires Wf(s) && IsRoot(s, kernel) && Sim(s, a) && NewRoot(s, s', kernel, f)
    requires a.heap.free != {} && AllocPages(s.heap, 1).1 / PAGE_SIZE == f
    requires IsRoot(s', r) && IsRoot(s', r') && i < 512
    requires Handed(a, kernel, i) <==> i >= 256 && Present(Get(s.mem, kernel, i))
    ensures SlotSim(s', SimpleCreate(a, kernel).0, r, r', i)
  {
    assert f !in s.nodes;
    assert r != f ==> a.owner(r, i) in s.nodes && Get(s'.mem, r, i) == Get(s.mem, r, i);
    assert r' != f ==> a.owner(r', i) in s.nodes && Get(s'.mem, r', i) == Get(s.mem, r', i);
    assert a.owner(kernel, i) in s.nodes;
    if r != f && r' != f {
      assert SlotSim(s, a, r, r', i);
    } else if r' != f {
      assert SlotSim(s, a, kernel, r', i);
    } else if r != f {
      assert SlotSim(s, a, r, kernel, i);
    }
  }

  lemma OldPageSim(s: Vm, a: Simple, s': Vm, kernel: nat, f: nat, r: nat, va: nat)
    requires Wf(s) && IsRoot(s, kernel) && Sim(s, a) && NewRoot(s, s', kernel, f)
    requires a.heap.free != {} && AllocPages(s.heap, 1).1 / PAGE_SIZE == f
    requires IsRoot(s, r) && r != f
    ensures PageSim(s', SimpleCreate(a, kernel).0, r, va)
  {
    assert PageSim(s, a, r, va) && OwnerOf(a, r, va) in s.nodes;
    SameTablesWalk(s, s'.mem, r, va, 0);
    SameBelow(s, s'.mem, r, va, 0);
  }

  lemma NewPageSim(s: Vm, a: Simple, s': Vm, kernel: nat, f: nat, va: nat)
    requires Wf(s) && IsRoot(s, kernel) && Sim(s, a) && NewRoot(s, s', kernel, f)
    requires a.heap.free != {} && AllocPages(s.heap, 1).1 / PAGE_SIZE == f
    requires Handed(a, kernel, Idx(va, 0)) <==> Idx(va, 0) >= 256 && Present(Get(s.mem, kernel, Idx(va, 0)))
    ensures PageSim(s', SimpleCreate(a, kernel).0, f, va)
  {
    NewRootWalk(s, s', kernel, f, va);
    assert PageSim(s, a, kernel, va) && OwnerOf(a, kernel, va) in s.nodes;
    var e := Get(s.mem, kernel, Idx(va, 0));
    assert Linked(s, kernel, Idx(va, 0));
    if Idx(va, 0) >= 256 && Present(e) {
      SameBelow(s, s'.mem, HwFrame(e), va, 1);
    }
  }

  /** Calls that write no table. */
  lemma SameTablesSim(s: Vm, a: Simple, s': Vm, a': Simple)
    requires Wf(s) && Sim(s, a) && |s'.mem| == |s.mem| && s'.nodes == s.nodes
    requires forall u :: u in s.nodes ==> s'.mem[u] == s.mem[u]
    requires a' == a.(heap := s'.heap)
    ensures Sim(s', a')
  {
    forall r, r', i | IsRoot(s', r) && IsRoot(s', r') && 0 <= i < 512 ensures SlotSim(s', a', r, r', i) {
      assert SlotSim(s, a, r, r', i);
    }
    forall r, va: nat | IsRoot(s', r) ensures PageSim(s', a', r, va) {
      assert PageSim(s, a, r, va);
      SameTablesWalk(s, s'.mem, r, va, 0);
      SameBelow(s, s'.mem, r, va, 0);
    }
  }

  /** What a call returns: success of a map or an unmap, the new space. */
  datatype Answer = Done(ok: bool) | Created(space: Option<nat>) | Quiet

  ghost function AnswerOf(s: Vm, kernel: nat, op: Op): Answer
    requires kernel < |s.mem|
  {
    match op
    case Map(r, va, phys, flags) => Done(MapPage(s, r, va, phys, flags).1)
    case Unmap(r, va) => Done(UnmapPage(s, r, va).1)
    case NewSpace => Created(CreateSpace(s, kernel).1)
    case _ => Quiet
  }

  ghost function SimpleAnswer(a: Simple, kernel: nat, op: Op): Answer {
    match op
    case Map(r, va, phys, flags) => Done(SimpleMap(a, r, va, phys, flags).1)
    case Unmap(r, va) => Done(SimpleUnmap(a, r, va).1)
    case NewSpace => Created(SimpleCreate(a, kernel).1)
    case _ => Quiet
  }

  /** Each call does what the simple machine does, and returns what it returns. */
  lemma StepSim(s: Vm, a: Simple, kernel: nat, op: Op)
    requires Wf(s) && IsRoot(s, kernel) && MayDo(s, op) && Sim(s, a)
    ensures Sim(Do(s, kernel, op), SimpleDo(a, kernel, op))
    ensures AnswerOf(s, kernel, op) == SimpleAnswer(a, kernel, op)
  {
    hide Sim, SimpleMap, SimpleUnmap, SimpleCreate, MapPage, UnmapPage, CreateSpace;
    match op {
      case Map(r, va, phys, flags) => MapSim(s, a, r, va, phys, flags);
      case Unmap(r, va) => UnmapSim(s, a, r, va);
      case NewSpace => CreateSim(s, a, kernel);
      case TakePages(n) => SameHeap(s, a); SameTablesSim(s, a, Do(s, kernel, op), SimpleDo(a, kernel, op));
      case GivePages(start, n) => SameHeap(s, a); SameTablesSim(s, a, Do(s, kernel, op), SimpleDo(a, kernel, op));
      case Store(f, i, w) => SameHeap(s, a); SameTablesSim(s, a, Do(s, kernel, op), SimpleDo(a, kernel, op));
    }
  }

  lemma SameHeap(s: Vm, a: Simple)
    requires Sim(s, a)
    ensures a.heap == s.heap
  {
  }

  // ---------------------------------------------------------------- runs

  /** What the calls of a run return. */
  ghost function Answers(s: Vm, kernel: nat, ops: seq<Op>): seq<Answer>
    requires Legal(s, kernel, ops)
    decreases |ops|
  {
    if ops == [] then [] else [AnswerOf(s, kernel, ops[0])] + Answers(Do(s, kernel, ops[0]), kernel, ops[1..])
  }

  ghost function SimpleAnswers(a: Simple, kernel: nat, ops: seq<Op>): seq<Answer>
    decreases |ops|
  {
    if ops == [] then []
    else [SimpleAnswer(a, kernel, ops[0])] + SimpleAnswers(SimpleDo(a, kernel, ops[0]), kernel, ops[1..])
  }

  /** Over any run, started anywhere, the page tables of all spaces are the simple machine:
      it finds every page, every success and failure, every new space, all that is shared
      and every page that is free, without a look at the tables. */
  lemma {:induction false} RunSimulates(s: Vm, a: Simple, kernel: nat, ops: seq<Op>)
    requires Wf(s) && IsRoot(s, kernel) && Sim(s, a) && Legal(s, kernel, ops)
    ensures Wf(SpaceRuns.Run(s, kernel, ops)) && Sim(SpaceRuns.Run(s, kernel, ops), SimpleRun(a, kernel, ops))
    ensures Answers(s, kernel, ops) == SimpleAnswers(a, kernel, ops)
    decreases |ops|
  {
    if ops != [] {
      hide Sim, SimpleDo, SimpleAnswer, AnswerOf;
      StepSim(s, a, kernel, ops[0]);
      StepRefines(s, kernel, ops[0], kernel);
      RunSimulates(Do(s, kernel, ops[0]), SimpleDo(a, kernel, ops[0]), kernel, ops[1..]);
    }
  }

  /** In particular, the walk: over any run, the four-level walk of every space is the page
      that the simple machine, started from the abstraction, has under the slot's owner. */
  lemma RunRefines(s: Vm, kernel: nat, ops: seq<Op>, r: nat, va: nat)
    requires Wf(s) && IsRoot(s, kernel) && Legal(s, kernel, ops)
    ensures var s', a' := SpaceRuns.Run(s, kernel, ops), SimpleRun(Abstraction(s), kernel, ops);
            && (IsRoot(s', r) <==> r in a'.spaces)
            && (r in a'.spaces ==> Walk(s'.mem, r, va) == a'.page(a'.owner(r, Idx(va, 0)), va))
            && s'.heap == a'.heap && Answers(s, kernel, ops) == SimpleAnswers(Abstraction(s), kernel, ops)
  {
    AbstractionSim(s);
    RunSimulates(s, Abstraction(s), kernel, ops);
    var s', a' := SpaceRuns.Run(s, kernel, ops), SimpleRun(Abstraction(s), kernel, ops);
    if IsRoot(s', r) { assert PageSim(s', a', r, va); }
  }
}
