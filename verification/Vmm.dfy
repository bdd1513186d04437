/** The virtual memory manager (kernel/mm/vmm.c) over physical memory, CR3 and a TLB that
    may cache any walk of the current CR3 at any moment. */
module Vmm {
  import opened Words
  import opened Pte
  import opened PageTables
  import opened TableLemmas
  import opened Spaces
  import Pmm

  /** vmm_space_t; 0 stands for "no space". */
  datatype Space = Space(pml4Phys: nat)

  /** A cached translation of one page. */
  datatype Cached = Cached(vpn: nat, tr: Translation)

  predicate Global(tr: Translation) {
    match tr
    case Absent => false
    case Page(e) => e[PTE_G]
    case LargePage(_, e) => e[PTE_G]
  }

  ghost predicate IsWalk(m: Mem, root: nat, x: Cached) {
    x.vpn < 0x10_0000_0000 && x.tr != Absent && Walk(m, root, x.vpn * PAGE_SIZE) == x.tr
  }

  /** Every non-global cached translation, except for page v if given, is the current walk. */
  ghost predicate Agrees(tlb: set<Cached>, m: Mem, root: nat, v: Option<nat>) {
    forall x :: x in tlb && !Global(x.tr) && v != Some(x.vpn) ==> IsWalk(m, root, x)
  }

  ghost function FlushNonGlobal(tlb: set<Cached>): set<Cached> { set x | x in tlb && Global(x.tr) }

  ghost function FlushPage(tlb: set<Cached>, v: nat): set<Cached> { set x | x in tlb && x.vpn != v }

  /** The processor may drop cached translations and cache current walks. */
  ghost predicate Speculates(tlb: set<Cached>, tlb': set<Cached>, m: Mem, root: nat) {
    forall x :: x in tlb' ==> x in tlb || IsWalk(m, root, x)
  }

  ghost function Contents(a: array2<Word>): (m: Mem)
    requires a.Length1 == 512
    reads a
    ensures |m| == a.Length0
    ensures forall f, i :: 0 <= f < a.Length0 && 0 <= i < 512 ==> m[f][i] == a[f, i]
  {
    seq(a.Length0, f requires 0 <= f < a.Length0 reads a => Row(a, f))
  }

  ghost function Row(a: array2<Word>, f: nat): (t: Table)
    requires a.Length1 == 512 && f < a.Length0
    reads a
    ensures forall i :: 0 <= i < 512 ==> t[i] == a[f, i]
  {
    seq(512, i requires 0 <= i < 512 reads a => a[f, i])
  }

  class Mmu {
    const pmm: Pmm.Allocator
    /** Physical memory as the kernel sees it through the direct map: frame x word. */
    const mem: array2<Word>
    var cr3: nat
    var kernelCr3: nat
    ghost var nodes: map<nat, Node>
    ghost var user: set<nat>
    ghost var tlb: set<Cached>

    /** The machine as the boot code leaves it; vmm_init records the current CR3. */
    constructor (pmm: Pmm.Allocator, mem: array2<Word>, cr3: nat, ghost nodes: map<nat, Node>, ghost user: set<nat>)
      requires mem.Length1 == 512 && pmm.Valid()
      requires Wf(Vm(Contents(mem), pmm.View(), nodes, user))
      requires IsRoot(Vm(Contents(mem), pmm.View(), nodes, user), cr3 / PAGE_SIZE)
      ensures Valid() && CoherentExcept(None) && kernelCr3 == AlignDown(cr3)
      ensures this.pmm == pmm && this.mem == mem && this.cr3 == cr3 && this.nodes == nodes && this.user == user
    {
      this.pmm, this.mem, this.cr3, this.nodes, this.user := pmm, mem, cr3, nodes, user;
      this.kernelCr3, this.tlb := AlignDown(cr3), {};
    }

    ghost function Mem(): Mem
      requires mem.Length1 == 512
      reads mem
    {
      Contents(mem)
    }

    ghost function State(): Vm
      requires mem.Length1 == 512 && pmm.Valid()
      reads this, mem, pmm, pmm.bitmap
    {
      Vm(Mem(), pmm.View(), nodes, user)
    }

    ghost predicate Valid()
      reads this, mem, pmm, pmm.bitmap
      ensures Valid() ==> mem.Length1 == 512 && pmm.Valid() && Wf(State()) && IsRoot(State(), cr3 / PAGE_SIZE)
    {
      mem.Length1 == 512 && pmm.Valid() && Wf(State()) && IsRoot(State(), cr3 / PAGE_SIZE)
    }

    ghost predicate CoherentExcept(v: Option<nat>)
      requires mem.Length1 == 512
      reads this, mem
    {
      Agrees(tlb, Mem(), cr3 / PAGE_SIZE, v)
    }

    // -------------------------------------------------------------- the processor

    /** At any moment the processor may drop cached translations and cache current walks. */
    ghost method Speculate(v: Option<nat>)
      requires mem.Length1 == 512 && CoherentExcept(v)
      modifies this`tlb
      ensures CoherentExcept(v)
      ensures Speculates(old(tlb), tlb, Mem(), cr3 / PAGE_SIZE)
    {
      assert Speculates(tlb, tlb, Mem(), cr3 / PAGE_SIZE);
      var m := Mem();
      var t :| Speculates(tlb, t, m, cr3 / PAGE_SIZE);
      SpeculationAgrees(tlb, t, m, cr3 / PAGE_SIZE, v);
      tlb := t;
      assert Mem() == m;
    }

    /** Loading CR3 drops every non-global translation. */
    method WriteCr3(v: nat)
      modifies this`cr3, this`tlb
      ensures cr3 == v && tlb == FlushNonGlobal(old(tlb))
    {
      cr3 := v;
      tlb := FlushNonGlobal(tlb);
    }

    /** invlpg drops the translation of one page, global or not. */
    method Invlpg(va: nat)
      modifies this`tlb
      ensures tlb == FlushPage(old(tlb), Vpn(va))
    {
      tlb := FlushPage(tlb, Vpn(va));
    }

    method StoreEntry(f: nat, i: nat, e: Word)
      requires mem.Length1 == 512 && f < mem.Length0 && i < 512
      modifies mem
      ensures Mem() == Put(old(Mem()), f, i, e)
    {
      mem[f, i] := e;
      forall g | 0 <= g < mem.Length0 ensures Mem()[g] == Put(old(Mem()), f, i, e)[g] {
        assert forall j :: 0 <= j < 512 ==> Mem()[g][j] == Put(old(Mem()), f, i, e)[g][j];
      }
    }

    // -------------------------------------------------------------- vmm.c

    /** alloc_pt_page_phys */
    method AllocPtPage() returns (phys: nat)
      requires Valid()
      modifies mem, pmm`freeBytes, pmm.bitmap
      ensures mem.Length1 == 512 && pmm.Valid()
      ensures State() == AllocTable(old(State())).0
      ensures phys == FrameAddress(AllocTable(old(State())).1)
    {
      AllocTableFresh(State());
      phys := pmm.AllocPages(1);
      if phys == 0 { return; }
      var f := phys / PAGE_SIZE;
      assert f < mem.Length0;
      ZeroFrame(f);
    }

    method ZeroFrame(f: nat)
      requires mem.Length1 == 512 && f < mem.Length0
      modifies mem
      ensures Mem() == old(Mem())[f := EmptyTable()]
    {
      for i := 0 to 512
        invariant forall g, j :: 0 <= g < mem.Length0 && 0 <= j < 512 ==>
                    mem[g, j] == if g == f && j < i then Zero() else old(mem[g, j])
      {
        mem[f, i] := Zero();
      }
      ghost var m := old(Mem())[f := EmptyTable()];
      forall g | 0 <= g < mem.Length0 ensures Mem()[g] == m[g] {
        assert forall j :: 0 <= j < 512 ==> Mem()[g][j] == m[g][j];
      }
    }

    /** One level of ensure_pt: the table below slot Idx(va, d) of table t, created if
        absent; 0 if no page is left. */
    method EnsureLevel(t: nat, va: nat, d: nat, flags: Word) returns (child: nat)
      requires Valid() && CoherentExcept(None)
      requires d < 3 && t in nodes && nodes[t].depth == d
      requires Present(Get(State().mem, t, Idx(va, d))) ==> TablePointer(Get(State().mem, t, Idx(va, d)))
      modifies mem, pmm`freeBytes, pmm.bitmap, this`nodes, this`tlb
      ensures Valid() && CoherentExcept(None)
      ensures State() == PageTables.EnsureLevel(old(State()), t, va, d, flags).0
      ensures child == FrameAddress(PageTables.EnsureLevel(old(State()), t, va, d, flags).1)
    {
      hide Wf, Agrees, SwFrame, TableEntry;
      LevelIsCoherent(State(), t, va, d, flags, tlb, cr3 / PAGE_SIZE);
      var i := Idx(va, d);
      var e := mem[t, i];
      if Present(e) { return SwFrame(e) * PAGE_SIZE; }
      var table := AllocPtPage();
      if table == 0 { return 0; }
      StoreEntry(t, i, TableEntry(table / PAGE_SIZE, flags));
      nodes := nodes[table / PAGE_SIZE := Node(d + 1, t, i)];
      child := SwFrame(mem[t, i]) * PAGE_SIZE;
      Speculate(None);
    }

    /** ensure_pt */
    method EnsurePt(root: nat, va: nat, flags: Word) returns (table: nat)
      requires Valid() && CoherentExcept(None)
      requires IsRoot(State(), root) && Clean(State().mem, root, va)
      modifies mem, pmm`freeBytes, pmm.bitmap, this`nodes, this`tlb
      ensures Valid() && CoherentExcept(None)
      ensures State() == PageTables.EnsurePt(old(State()), root, va, flags).0
      ensures table == FrameAddress(PageTables.EnsurePt(old(State()), root, va, flags).1)
    {
      hide Wf, Agrees, PageTables.EnsureLevel, Idx;
      EnsureNext(State(), root, va, 0, flags);
      var pdpt := EnsureLevel(root, va, 0, flags);
      if pdpt == 0 { return 0; }
      EnsureNext(State(), pdpt / PAGE_SIZE, va, 1, flags);
      var pd := EnsureLevel(pdpt / PAGE_SIZE, va, 1, flags);
      if pd == 0 { return 0; }
      EnsureNext(State(), pd / PAGE_SIZE, va, 2, flags);
      table := EnsureLevel(pd / PAGE_SIZE, va, 2, flags);
    }

    /** The part that vmm_map_page_cr3 and vmm_map_page_mmio have in common, on the
        current CR3: 0 on success, -1 when a table could not be allocated. */
    method MapRaw(root: nat, virt: nat, phys: nat, flags: Word) returns (rc: int)
      requires Valid() && CoherentExcept(None) && root == cr3 / PAGE_SIZE
      requires Clean(State().mem, root, virt)
      modifies mem, pmm`freeBytes, pmm.bitmap, this`nodes, this`tlb
      ensures Valid() && CoherentExcept(None)
      ensures (State(), rc == 0) == MapPage(old(State()), root, AlignDown(virt), AlignDown(phys), flags)
      ensures rc == 0 || rc == -1
    {
      hide Wf, Agrees, PageTables.EnsurePt, Idx, Leaf, Arrives;
      var va, p := AlignDown(virt), AlignDown(phys);
      AlignDownKeepsPage(virt);
      WalkByPage(State().mem, root, virt, va);
      EnsureArrives(State(), root, va, flags);
      var pt := EnsurePt(root, va, flags);
      if pt == 0 { return -1; }
      StoreLeaf(root, va, pt / PAGE_SIZE, p, flags);
      rc := 0;
    }

    /** The leaf, in two stores when it is execute-disabled, and its invalidation. */
    method StoreLeaf(root: nat, va: nat, l: nat, phys: nat, flags: Word)
      requires Valid() && CoherentExcept(None) && root == cr3 / PAGE_SIZE
      requires Arrives(State(), root, va, 0, l) && l < mem.Length0
      modifies mem, this`tlb
      ensures Valid() && CoherentExcept(None)
      ensures State() == old(State()).(mem := Put(old(State()).mem, l, Idx(va, 3), Leaf(phys, flags)))
    {
      hide Wf, Agrees, Idx, Or, LeafWithoutNx, Arrives;
      ghost var s := State();
      var i1 := Idx(va, 3);
      LeafIsCoherent(s, root, va, l, LeafWithoutNx(phys, flags), tlb);
      StoreEntry(l, i1, LeafWithoutNx(phys, flags));
      Speculate(Some(Vpn(va)));
      if flags[PTE_NX] {
        PutTwice(s.mem, l, i1, LeafWithoutNx(phys, flags), Or(LeafWithoutNx(phys, flags), Bit(PTE_NX)));
        LeafIsCoherent(State(), root, va, l, Or(LeafWithoutNx(phys, flags), Bit(PTE_NX)), tlb);
        StoreEntry(l, i1, Or(mem[l, i1], Bit(PTE_NX)));
        Speculate(Some(Vpn(va)));
      }
      FlushIsCoherent(tlb, State().mem, root, Vpn(va));
      Invlpg(va);
      Speculate(None);
    }

    /** vmm_map_page_cr3 on the current CR3; vmm_map_page is this with CR3 read first. */
    method MapPageCurrent(virt: nat, phys: nat, flags: Word) returns (rc: int)
      requires Valid() && CoherentExcept(None) && Clean(State().mem, cr3 / PAGE_SIZE, virt)
      modifies mem, pmm`freeBytes, pmm.bitmap, this`nodes, this`tlb
      ensures Valid() && CoherentExcept(None)
      ensures (State(), rc == 0)
           == MapPage(old(State()), cr3 / PAGE_SIZE, AlignDown(virt), AlignDown(phys), StripCache(flags))
      ensures rc == 0 || rc == -1
    {
      rc := MapRaw(cr3 / PAGE_SIZE, virt, phys, StripCache(flags));
    }

    /** vmm_map_page_mmio: the same, keeping the cache bits. */
    method MapPageMmio(virt: nat, phys: nat, flags: Word) returns (rc: int)
      requires Valid() && CoherentExcept(None) && Clean(State().mem, cr3 / PAGE_SIZE, virt)
      modifies mem, pmm`freeBytes, pmm.bitmap, this`nodes, this`tlb
      ensures Valid() && CoherentExcept(None)
      ensures (State(), rc == 0) == MapPage(old(State()), cr3 / PAGE_SIZE, AlignDown(virt), AlignDown(phys), flags)
      ensures rc == 0 || rc == -1
    {
      rc := MapRaw(cr3 / PAGE_SIZE, virt, phys, flags);
    }

    /** vmm_unmap_page_cr3 on the current CR3. */
    method UnmapPageCurrent(virt: nat) returns (rc: int)
      requires Valid() && CoherentExcept(None) && Clean(State().mem, cr3 / PAGE_SIZE, virt)
      modifies mem, this`tlb
      ensures Valid() && CoherentExcept(None)
      ensures (State(), rc == 0) == UnmapPage(old(State()), cr3 / PAGE_SIZE, AlignDown(virt))
      ensures rc == 0 || rc == -1
    {
      hide Wf, Agrees, Idx, Arrives, SwFrame, Clean;
      ghost var s := State();
      var root, va := cr3 / PAGE_SIZE, AlignDown(virt);
      AlignDownKeepsPage(virt);
      WalkByPage(s.mem, root, virt, va);
      UnmapSteps(s, root, va);
      var e4 := mem[root, Idx(va, 0)];
      if !Present(e4) { return -1; }
      var e3 := mem[SwFrame(e4), Idx(va, 1)];
      if !Present(e3) { return -1; }
      var e2 := mem[SwFrame(e3), Idx(va, 2)];
      if !Present(e2) { return -1; }
      LeafIsCoherent(s, root, va, SwFrame(e2), Zero(), tlb);
      StoreEntry(SwFrame(e2), Idx(va, 3), Zero());
      Speculate(Some(Vpn(va)));
      FlushIsCoherent(tlb, State().mem, root, Vpn(va));
      Invlpg(va);
      Speculate(None);
      rc := 0;
    }

    /** Loading CR3 with a space's PML4, whatever was cached before. */
    method LoadSpace(pml4: nat)
      requires mem.Length1 == 512 && pmm.Valid() && Wf(State()) && IsRoot(State(), pml4 / PAGE_SIZE)
      modifies this`cr3, this`tlb
      ensures Valid() && CoherentExcept(None) && State() == old(State()) && cr3 == pml4
    {
      hide Wf, Agrees;
      ghost var s := State();
      FlushedAgrees(tlb, s.mem, pml4 / PAGE_SIZE);
      WriteCr3(pml4);
      assert State() == s;
      Speculate(None);
    }

    /** vmm_map_page_space: the current CR3 base is put back. */
    method MapPageSpace(space: Space, virt: nat, phys: nat, flags: Word) returns (rc: int)
      requires Valid() && CoherentExcept(None)
      requires space.pml4Phys != 0 ==> IsRoot(State(), space.pml4Phys / PAGE_SIZE)
                                       && Clean(State().mem, space.pml4Phys / PAGE_SIZE, virt)
      modifies mem, pmm`freeBytes, pmm.bitmap, this`nodes, this`tlb, this`cr3
      ensures Valid() && CoherentExcept(None)
      ensures cr3 == if space.pml4Phys == 0 then old(cr3) else AlignDown(old(cr3))
      ensures if space.pml4Phys == 0 then rc == -1 && State() == old(State())
              else var root := space.pml4Phys / PAGE_SIZE;
                (State(), rc == 0) == MapPage(old(State()), root, AlignDown(virt), AlignDown(phys), StripCache(flags))
    {
      if space.pml4Phys == 0 { return -1; }
      hide Wf, Agrees, MapPage, Clean, IsRoot, StripCache, AlignDown;
      var prev := AlignDown(cr3);
      SameBase(cr3);
      LoadSpace(space.pml4Phys);
      MapKeepsRoot(State(), cr3 / PAGE_SIZE, virt, phys, StripCache(flags), prev / PAGE_SIZE);
      rc := MapPageCurrent(virt, phys, flags);
      LoadSpace(prev);
    }

    /** vmm_unmap_page_space */
    method UnmapPageSpace(space: Space, virt: nat) returns (rc: int)
      requires Valid() && CoherentExcept(None)
      requires space.pml4Phys != 0 ==> IsRoot(State(), space.pml4Phys / PAGE_SIZE)
                                       && Clean(State().mem, space.pml4Phys / PAGE_SIZE, virt)
      modifies mem, this`tlb, this`cr3
      ensures Valid() && CoherentExcept(None)
      ensures cr3 == if space.pml4Phys == 0 then old(cr3) else AlignDown(old(cr3))
      ensures if space.pml4Phys == 0 then rc == -1 && State() == old(State())
              else (State(), rc == 0) == UnmapPage(old(State()), space.pml4Phys / PAGE_SIZE, AlignDown(virt))
    {
      if space.pml4Phys == 0 { return -1; }
      hide Wf, Agrees, UnmapPage, Clean, AlignDown;
      var prev := AlignDown(cr3);
      SameBase(cr3);
      LoadSpace(space.pml4Phys);
      rc := UnmapPageCurrent(virt);
      LoadSpace(prev);
    }

    /** vmm_create_space: a PML4 with the kernel's upper half, or no space. */
    method CreateSpace() returns (space: Space)
      requires Valid() && CoherentExcept(None) && IsRoot(State(), kernelCr3 / PAGE_SIZE)
      modifies mem, pmm`freeBytes, pmm.bitmap, this`nodes, this`tlb
      ensures Valid() && CoherentExcept(None)
      ensures State() == PageTables.CreateSpace(old(State()), kernelCr3 / PAGE_SIZE).0
      ensures space == Space(FrameAddress(PageTables.CreateSpace(old(State()), kernelCr3 / PAGE_SIZE).1))
      ensures match PageTables.CreateSpace(old(State()), kernelCr3 / PAGE_SIZE).1
              case None => space.pml4Phys == 0
              case Some(f) => space.pml4Phys == f * 4096 > 0
    {
      hide Wf, Agrees;
      ghost var s := State();
      CreateIsCoherent(s, kernelCr3 / PAGE_SIZE, tlb, cr3 / PAGE_SIZE);
      var pml4 := AllocPtPage();
      if pml4 == 0 { return Space(0); }
      CopyKernelHalf(kernelCr3 / PAGE_SIZE, pml4 / PAGE_SIZE);
      nodes := nodes[pml4 / PAGE_SIZE := Node(0, pml4 / PAGE_SIZE, 0)];
      Speculate(None);
      space := Space(pml4);
    }

    method CopyKernelHalf(src: nat, dst: nat)
      requires mem.Length1 == 512 && src < mem.Length0 && dst < mem.Length0 && src != dst
      requires Mem()[dst] == EmptyTable()
      modifies mem
      ensures Mem() == old(Mem())[dst := KernelHalf(old(Mem())[src])]
    {
      assert forall j :: 0 <= j < 512 ==> mem[dst, j] == Mem()[dst][j];
      for i := 256 to 512
        invariant forall g, j :: 0 <= g < mem.Length0 && 0 <= j < 512 ==>
                    mem[g, j] == if g == dst && 256 <= j < i then old(mem[src, j]) else old(mem[g, j])
      {
        mem[dst, i] := mem[src, i];
      }
      ghost var m := old(Mem())[dst := KernelHalf(old(Mem())[src])];
      forall g | 0 <= g < mem.Length0 ensures Mem()[g] == m[g] {
        assert forall j :: 0 <= j < 512 ==> Mem()[g][j] == m[g][j];
      }
    }

    /** vmm_switch_space */
    method SwitchSpace(space: Space)
      requires Valid() && CoherentExcept(None)
      requires space.pml4Phys != 0 ==> IsRoot(State(), space.pml4Phys / PAGE_SIZE)
      modifies this`cr3, this`tlb
      ensures Valid() && CoherentExcept(None) && State() == old(State())
      ensures cr3 == if space.pml4Phys == 0 then old(cr3) else space.pml4Phys
    {
      if space.pml4Phys == 0 { return; }
      LoadSpace(space.pml4Phys);
    }
  }

  function FrameAddress(f: Option<nat>): nat {
    match f
    case None => 0
    case Some(f) => f * PAGE_SIZE
  }

  lemma SpeculationAgrees(tlb: set<Cached>, tlb': set<Cached>, m: Mem, root: nat, v: Option<nat>)
    requires Agrees(tlb, m, root, v) && Speculates(tlb, tlb', m, root)
    ensures Agrees(tlb', m, root, v)
  {
  }

  lemma GrowthIsCoherent(s: Vm, s': Vm, tlb: set<Cached>, root: nat)
    requires IsRoot(s, root) && SameWalks(s, s') && Agrees(tlb, s.mem, root, None)
    ensures Agrees(tlb, s'.mem, root, None)
  {
    assert forall x :: IsWalk(s.mem, root, x) ==> IsWalk(s'.mem, root, x);
  }

  /** One level of ensure_pt leaves every cached translation right. */
  lemma LevelIsCoherent(s: Vm, t: nat, va: nat, d: nat, flags: Word, tlb: set<Cached>, root: nat)
    requires Wf(s) && IsRoot(s, root) && t in s.nodes && d < 3 && s.nodes[t].depth == d
    requires Present(Get(s.mem, t, Idx(va, d))) ==> TablePointer(Get(s.mem, t, Idx(va, d)))
    requires Agrees(tlb, s.mem, root, None)
    ensures var r := EnsureLevel(s, t, va, d, flags);
            && Wf(r.0) && IsRoot(r.0, root) && Agrees(tlb, r.0.mem, root, None) && t < |s.mem|
            && (r.1.None? ==> r.0 == s)
    ensures var a := AllocTable(s);
            && (a.1.None? ==> a.0 == s)
            && (a.1.Some? ==> 0 < a.1.value < |s.mem| && |a.0.mem| == |s.mem|)
  {
    EnsureLevelGrows(s, t, va, d, flags);
    AllocTableFresh(s);
    var r := EnsureLevel(s, t, va, d, flags);
    GrewPreserves(s, r.0, t);
    GrowthIsCoherent(s, r.0, tlb, root);
  }

  /** What the next level of ensure_pt may rely on. */
  lemma EnsureNext(s: Vm, t: nat, va: nat, d: nat, flags: Word)
    requires Wf(s) && d < 3 && t in s.nodes && s.nodes[t].depth == d && CleanFrom(s.mem, t, va, d)
    ensures Present(Get(s.mem, t, Idx(va, d))) ==> TablePointer(Get(s.mem, t, Idx(va, d)))
    ensures var r := EnsureLevel(s, t, va, d, flags);
            match r.1
            case None => true
            case Some(c) => 0 < c && c in r.0.nodes && r.0.nodes[c].depth == d + 1 && CleanFrom(r.0.mem, c, va, d + 1)
  {
    EnsureLevelGrows(s, t, va, d, flags);
    var r := EnsureLevel(s, t, va, d, flags);
    if r.1.Some? {
      ChildIsClean(s, r.0, t, va, d, r.1.value);
    }
  }

  /** What vmm_map_page_cr3 may rely on after ensure_pt. */
  lemma EnsureArrives(s: Vm, root: nat, va: nat, flags: Word)
    requires Wf(s) && IsRoot(s, root) && Clean(s.mem, root, va)
    ensures var r := PageTables.EnsurePt(s, root, va, flags);
            match r.1
            case None => true
            case Some(l) => 0 < l < |r.0.mem| && IsRoot(r.0, root) && Arrives(r.0, root, va, 0, l)
  {
    EnsureFromGrows(s, root, va, 0, flags);
  }

  /** Storing a leaf makes at most the cached translation of its own page stale. */
  lemma LeafIsCoherent(s: Vm, root: nat, va: nat, l: nat, e: Word, tlb: set<Cached>)
    requires Wf(s) && IsRoot(s, root) && Arrives(s, root, va, 0, l)
    requires Agrees(tlb, s.mem, root, None) || Agrees(tlb, s.mem, root, Some(Vpn(va)))
    ensures var s' := s.(mem := Put(s.mem, l, Idx(va, 3), e));
            && Wf(s') && IsRoot(s', root) && Arrives(s', root, va, 0, l) && Agrees(tlb, s'.mem, root, Some(Vpn(va)))
  {
    var s' := s.(mem := Put(s.mem, l, Idx(va, 3), e));
    LeafWrite(s, s', root, va, l, e);
    SetLeafWalk(s, l, Idx(va, 3), e, root, va, 0);
    SetPageAgrees(s, s', root, va, LeafTranslation(e), tlb);
  }

  lemma SetPageAgrees(s: Vm, s': Vm, root: nat, va: nat, tr: Translation, tlb: set<Cached>)
    requires IsRoot(s, root) && SetsPage(s, s', root, va, tr)
    requires Agrees(tlb, s.mem, root, None) || Agrees(tlb, s.mem, root, Some(Vpn(va)))
    ensures Agrees(tlb, s'.mem, root, Some(Vpn(va)))
  {
    forall x | x in tlb && !Global(x.tr) && Some(Vpn(va)) != Some(x.vpn) ensures IsWalk(s'.mem, root, x) {
      assert IsWalk(s.mem, root, x);
      VpnOfPage(x.vpn);
    }
  }

  lemma FlushIsCoherent(tlb: set<Cached>, m: Mem, root: nat, v: nat)
    requires Agrees(tlb, m, root, Some(v))
    ensures Agrees(FlushPage(tlb, v), m, root, None)
  {
  }

  lemma PutTwice(m: Mem, f: nat, i: nat, a: Word, b: Word)
    ensures Put(Put(m, f, i, a), f, i, b) == Put(m, f, i, b)
    ensures f < |m| && i < 512 ==> Get(Put(m, f, i, a), f, i) == a
  {
    if f < |m| && i < 512 {
      assert m[f][i := a][i := b] == m[f][i := b];
    }
  }

  /** Right after loading CR3 only global translations are cached. */
  lemma FlushedAgrees(tlb: set<Cached>, m: Mem, root: nat)
    ensures Agrees(FlushNonGlobal(tlb), m, root, None)
  {
  }

  lemma SameBase(cr3: nat)
    ensures AlignDown(cr3) >= 0 && AlignDown(cr3) / PAGE_SIZE == cr3 / PAGE_SIZE
  {
  }

  lemma MapKeepsRoot(s: Vm, root: nat, virt: nat, phys: nat, flags: Word, other: nat)
    requires Wf(s) && IsRoot(s, root) && Clean(s.mem, root, virt) && IsRoot(s, other)
    ensures IsRoot(MapPage(s, root, AlignDown(virt), AlignDown(phys), flags).0, other)
  {
    AlignDownKeepsPage(virt);
    WalkByPage(s.mem, root, virt, AlignDown(virt));
    MapPageEffect(s, root, AlignDown(virt), AlignDown(phys), flags);
  }

  /** The frames vmm_unmap_page_cr3 reads are memory, and it arrives where the processor
      does. */
  lemma UnmapSteps(s: Vm, root: nat, va: nat)
    requires Wf(s) && IsRoot(s, root) && Clean(s.mem, root, va)
    ensures root < |s.mem|
    ensures var e4 := Get(s.mem, root, Idx(va, 0));
            Present(e4) ==>
              && SwFrame(e4) < |s.mem|
              && var e3 := Get(s.mem, SwFrame(e4), Idx(va, 1));
                 Present(e3) ==>
                   && SwFrame(e3) < |s.mem|
                   && var e2 := Get(s.mem, SwFrame(e3), Idx(va, 2));
                      Present(e2) ==> SwFrame(e2) < |s.mem| && Arrives(s, root, va, 0, SwFrame(e2))
  {
    SwReachIsReach(s, root, va);
    var e4 := Get(s.mem, root, Idx(va, 0));
    assert Linked(s, root, Idx(va, 0));
    if Present(e4) {
      SwIsHw(e4);
      var e3 := Get(s.mem, HwFrame(e4), Idx(va, 1));
      assert Linked(s, HwFrame(e4), Idx(va, 1));
      if Present(e3) {
        SwIsHw(e3);
        var e2 := Get(s.mem, HwFrame(e3), Idx(va, 2));
        assert Linked(s, HwFrame(e3), Idx(va, 2));
        if Present(e2) {
          SwIsHw(e2);
        }
      }
    }
  }

  lemma CreateIsCoherent(s: Vm, kernel: nat, tlb: set<Cached>, root: nat)
    requires Wf(s) && IsRoot(s, kernel) && IsRoot(s, root) && Agrees(tlb, s.mem, root, None)
    ensures var c := PageTables.CreateSpace(s, kernel);
            && Wf(c.0) && IsRoot(c.0, root) && Agrees(tlb, c.0.mem, root, None)
    ensures var a := AllocTable(s);
            && (a.1.None? ==> a.0 == s)
            && (a.1.Some? ==> 0 < a.1.value < |s.mem| && |a.0.mem| == |s.mem| && kernel < |s.mem| && kernel != a.1.value
                              && a.0.mem[a.1.value] == EmptyTable())
  {
    CreateSpaceEffect(s, kernel);
    AllocTableFresh(s);
    GrowthIsCoherent(s, PageTables.CreateSpace(s, kernel).0, tlb, root);
  }
}
