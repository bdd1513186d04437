/** Four-level page tables in physical memory: the processor's walk, the kernel's table
    operations (kernel/mm/vmm.c) as functions on a memory state, and the ownership
    invariant that keeps the tables of all address spaces apart. */
module PageTables {
  import opened Words
  import opened Pte
  import opened PageHeap

  type Table = t: seq<Word> | |t| == 512 witness seq(512, _ => Zero())
  type Mem = seq<Table>

  function EmptyTable(): Table { seq(512, _ => Zero()) }

  /** Entry i of the table in frame f; memory that is not there reads as 0. */
  function Get(m: Mem, f: nat, i: nat): Word {
    if f < |m| && i < 512 then m[f][i] else Zero()
  }

  function Put(m: Mem, f: nat, i: nat, e: Word): Mem {
    if f < |m| && i < 512 then m[f := m[f][i := e]] else m
  }

  // ---------------------------------------------------------------- addresses

  /** (va >> 39), (va >> 30), (va >> 21), (va >> 12), each & 0x1ff, for d = 0 .. 3 */
  function Idx(va: nat, d: nat): (i: nat)
    requires d < 4
    ensures i < 512
  {
    if d == 0 then va / 0x80_0000_0000 % 512
    else if d == 1 then va / 0x4000_0000 % 512
    else if d == 2 then va / 0x20_0000 % 512
    else va / 0x1000 % 512
  }

  /** Virtual page number: bits 47:12. */
  function Vpn(va: nat): nat { va / PAGE_SIZE % 0x10_0000_0000 }

  /** The four index fields together are exactly the page number. */
  lemma IndicesArePageNumber(a: nat, b: nat)
    ensures Vpn(a) == Vpn(b) <==> Idx(a, 0) == Idx(b, 0) && Idx(a, 1) == Idx(b, 1)
                                  && Idx(a, 2) == Idx(b, 2) && Idx(a, 3) == Idx(b, 3)
  {
    VpnSplit(a);
    VpnSplit(b);
    IdxOfVpn(a);
    IdxOfVpn(b);
  }

  lemma IdxOfVpn(a: nat)
    ensures Idx(a, 0) == Vpn(a) / 0x800_0000 && Idx(a, 1) == Vpn(a) / 0x4_0000 % 512
    ensures Idx(a, 2) == Vpn(a) / 0x200 % 512 && Idx(a, 3) == Vpn(a) % 512
  {
    VpnSplit(a);
    Digits(Idx(a, 0), Idx(a, 1), Idx(a, 2), Idx(a, 3));
  }

  lemma Digits(i0: nat, i1: nat, i2: nat, i3: nat)
    requires i0 < 512 && i1 < 512 && i2 < 512 && i3 < 512
    ensures var v := i0 * 0x800_0000 + i1 * 0x4_0000 + i2 * 0x200 + i3;
            v / 0x800_0000 == i0 && v / 0x4_0000 % 512 == i1 && v / 0x200 % 512 == i2 && v % 512 == i3
  {
    var v := i0 * 0x800_0000 + i1 * 0x4_0000 + i2 * 0x200 + i3;
    assert v / 0x200 == i0 * 0x4_0000 + i1 * 0x200 + i2;
    assert v / 0x4_0000 == i0 * 0x200 + i1;
    assert v / 0x800_0000 == i0;
  }

  lemma VpnOfPage(v: nat)
    requires v < 0x10_0000_0000
    ensures Vpn(v * PAGE_SIZE) == v
  {
  }

  lemma VpnSplit(a: nat)
    ensures Vpn(a) == Idx(a, 0) * 0x800_0000 + Idx(a, 1) * 0x4_0000 + Idx(a, 2) * 0x200 + Idx(a, 3)
  {
    var p := a / 0x1000;
    var q := p / 512;
    var r := q / 512;
    ShiftsCompose(a);
    assert p == 512 * q + Idx(a, 3);
    assert q == 512 * r + Idx(a, 2);
    assert r == 512 * (r / 512) + Idx(a, 1);
    assert r / 512 == 512 * (r / 512 / 512) + Idx(a, 0);
    assert p / 0x10_0000_0000 == r / 512 / 512 by { ShiftFourTimes(p); }
  }

  lemma ShiftsCompose(a: nat)
    ensures a / 0x1000 / 512 == a / 0x20_0000
    ensures a / 0x20_0000 / 512 == a / 0x4000_0000
    ensures a / 0x4000_0000 / 512 == a / 0x80_0000_0000
  {
  }

  lemma ShiftFourTimes(p: nat)
    ensures p / 512 / 512 / 512 / 512 == p / 0x10_0000_0000
  {
    assert p / 512 / 512 == p / 0x4_0000;
    assert p / 0x4_0000 / 512 == p / 0x800_0000;
    assert p / 0x800_0000 / 512 == p / 0x10_0000_0000;
  }

  lemma AlignDownKeepsPage(va: nat)
    ensures Vpn(AlignDown(va)) == Vpn(va)
    ensures forall d :: 0 <= d < 4 ==> Idx(AlignDown(va), d) == Idx(va, d)
  {
    assert AlignDown(va) / 0x1000 == va / 0x1000;
    IndicesArePageNumber(AlignDown(va), va);
  }

  // ---------------------------------------------------------------- the processor's walk

  datatype Translation = Absent | Page(leaf: Word) | LargePage(depth: nat, entry: Word)

  /** Intel SDM Vol. 3A, section 4.5: from the table in frame t at depth d. */
  function WalkFrom(m: Mem, t: nat, va: nat, d: nat): Translation
    requires d < 4
    decreases 4 - d
  {
    var e := Get(m, t, Idx(va, d));
    if !Present(e) then Absent
    else if d == 3 then Page(e)
    else if d > 0 && e[PTE_PS] then LargePage(d, e)
    else WalkFrom(m, HwFrame(e), va, d + 1)
  }

  function Walk(m: Mem, root: nat, va: nat): Translation { WalkFrom(m, root, va, 0) }

  /** The lowest-level table the walk arrives at. */
  function ReachFrom(m: Mem, t: nat, va: nat, d: nat): Option<nat>
    requires d < 4
    decreases 4 - d
  {
    if d == 3 then Some(t)
    else
      var e := Get(m, t, Idx(va, d));
      if Follows(d, e) then ReachFrom(m, HwFrame(e), va, d + 1) else None
  }

  /** The present entries above the leaf on this path are pointers the kernel can follow:
      vmm.c masks only their low 12 bits and never looks for a large page. */
  predicate CleanFrom(m: Mem, t: nat, va: nat, d: nat)
    requires d < 4
    decreases 4 - d
  {
    d == 3 ||
    var e := Get(m, t, Idx(va, d));
    Present(e) ==> TablePointer(e) && CleanFrom(m, HwFrame(e), va, d + 1)
  }

  predicate Clean(m: Mem, root: nat, va: nat) { CleanFrom(m, root, va, 0) }

  // ---------------------------------------------------------------- state and invariant

  /** Where a table hangs: its depth, and the table and slot it was attached to (a PML4,
      at depth 0, hangs nowhere). */
  datatype Node = Node(depth: nat, parent: nat, slot: nat)

  /** nodes: the frames that hold tables; user: frames handed out for anything else. */
  datatype Vm = Vm(mem: Mem, heap: Heap, nodes: map<nat, Node>, user: set<nat>)

  predicate IsRoot(s: Vm, r: nat) { r in s.nodes && s.nodes[r].depth == 0 }

  /** The entry in slot i of table t leads to a table one level down that hangs there; only
      the upper half of a PML4 may point at a table that hangs at another PML4. */
  ghost predicate Linked(s: Vm, t: nat, i: nat)
    requires t in s.nodes
  {
    var d, e := s.nodes[t].depth, Get(s.mem, t, i);
    d < 3 && Follows(d, e) ==>
      var c := HwFrame(e);
      && c in s.nodes && s.nodes[c].depth == d + 1 && s.nodes[c].slot == i
      && (s.nodes[c].parent == t || (d == 0 && i >= 256))
  }

  ghost predicate Wf(s: Vm) {
    && Counted(s.heap) && 0 !in s.heap.free && s.heap.total <= |s.mem| && s.heap.total <= 0x100_0000_0000
    && (forall t :: t in s.nodes ==> 0 < t < |s.mem| && s.nodes[t].depth <= 3 && t !in s.heap.free && t !in s.user)
    && s.user !! s.heap.free
    && (forall f :: f in s.user ==> f < s.heap.total && f > 0)
    && (forall t, i :: t in s.nodes && 0 <= i < 512 ==> Linked(s, t, i))
  }

  // ---------------------------------------------------------------- operations

  /** alloc_pt_page_phys: a zeroed page, or None. */
  ghost function AllocTable(s: Vm): (Vm, Option<nat>) {
    var r := AllocPages(s.heap, 1);
    var f := r.1 / PAGE_SIZE;
    if r.1 == 0 then (s.(heap := r.0), None)
    else if f < |s.mem| then (s.(mem := s.mem[f := EmptyTable()], heap := r.0), Some(f))
    else (s.(heap := r.0), Some(f))
  }

  /** One level of ensure_pt: the table below slot Idx(va, d) of t, created if absent. */
  ghost function EnsureLevel(s: Vm, t: nat, va: nat, d: nat, flags: Word): (Vm, Option<nat>)
    requires d < 3
  {
    var i := Idx(va, d);
    var e := Get(s.mem, t, i);
    if Present(e) then (s, Some(SwFrame(e)))
    else
      var r := AllocTable(s);
      match r.1
      case None => (r.0, None)
      case Some(f) =>
        var e' := TableEntry(f, flags);
        (r.0.(mem := Put(r.0.mem, t, i, e'), nodes := r.0.nodes[f := Node(d + 1, t, i)]), Some(SwFrame(e')))
  }

  /** ensure_pt from depth d on: the lowest-level table for va, creating missing tables. */
  ghost function EnsureFrom(s: Vm, t: nat, va: nat, d: nat, flags: Word): (Vm, Option<nat>)
    requires d < 4
    decreases 4 - d
  {
    if d == 3 then (s, Some(t))
    else
      var r := EnsureLevel(s, t, va, d, flags);
      if r.1.None? then r else EnsureFrom(r.0, r.1.value, va, d + 1, flags)
  }

  ghost function EnsurePt(s: Vm, root: nat, va: nat, flags: Word): (Vm, Option<nat>) {
    EnsureFrom(s, root, va, 0, flags)
  }

  /** The common part of vmm_map_page_cr3 and vmm_map_page_mmio. */
  ghost function MapPage(s: Vm, root: nat, va: nat, phys: nat, flags: Word): (Vm, bool) {
    var r := EnsurePt(s, root, va, flags);
    match r.1
    case None => (r.0, false)
    case Some(t) => (r.0.(mem := Put(r.0.mem, t, Idx(va, 3), Leaf(phys, flags))), true)
  }

  /** The table the kernel arrives at by its own masking, as in vmm_unmap_page_cr3. */
  function SwReach(m: Mem, root: nat, va: nat): Option<nat> {
    var e4 := Get(m, root, Idx(va, 0));
    if !Present(e4) then None
    else
      var e3 := Get(m, SwFrame(e4), Idx(va, 1));
      if !Present(e3) then None
      else
        var e2 := Get(m, SwFrame(e3), Idx(va, 2));
        if !Present(e2) then None else Some(SwFrame(e2))
  }

  /** vmm_unmap_page_cr3 */
  ghost function UnmapPage(s: Vm, root: nat, va: nat): (Vm, bool) {
    match SwReach(s.mem, root, va)
    case None => (s, false)
    case Some(t) => (s.(mem := Put(s.mem, t, Idx(va, 3), Zero())), true)
  }

  /** Slots 256 .. 511 of src over an empty table. */
  function KernelHalf(src: Table): Table {
    seq(256, _ => Zero()) + src[256..]
  }

  /** vmm_create_space; the new PML4, or None. */
  ghost function CreateSpace(s: Vm, kernel: nat): (Vm, Option<nat>)
    requires kernel < |s.mem|
  {
    var r := AllocTable(s);
    match r.1
    case None => r
    case Some(f) =>
      if f < |s.mem| then
        (r.0.(mem := r.0.mem[f := KernelHalf(r.0.mem[kernel])], nodes := r.0.nodes[f := Node(0, f, 0)]), Some(f))
      else r
  }

  // ---------------------------------------------------------------- growth

  /** s' extends s: no table moves, no present entry above the leaves changes, and every
      added entry points to a table that is new. */
  ghost predicate Grew(s: Vm, s': Vm) {
    && |s'.mem| == |s.mem| && s'.user == s.user && s'.heap.total == s.heap.total
    && s'.heap.free <= s.heap.free
    && (forall t :: t in s.nodes ==> t in s'.nodes && s'.nodes[t] == s.nodes[t])
    && (forall t, i :: t in s.nodes && 0 <= i < 512 ==> EntryKept(s, s', t, i))
    && (forall t, i :: t in s'.nodes && t !in s.nodes && 0 <= i < 512 ==> EntryNew(s, s', t, i))
  }

  ghost predicate EntryKept(s: Vm, s': Vm, t: nat, i: nat)
    requires t in s.nodes
  {
    var e, e' := Get(s.mem, t, i), Get(s'.mem, t, i);
    e' == e || (s.nodes[t].depth < 3 && !Present(e) && NewPointer(s, s', e'))
  }

  ghost predicate EntryNew(s: Vm, s': Vm, t: nat, i: nat)
    requires t in s'.nodes
  {
    var e' := Get(s'.mem, t, i);
    !Present(e') || (s'.nodes[t].depth < 3 && NewPointer(s, s', e'))
  }

  ghost predicate NewPointer(s: Vm, s': Vm, e: Word) {
    TablePointer(e) && HwFrame(e) in s'.nodes && HwFrame(e) !in s.nodes
  }

  lemma GrewTransitive(a: Vm, b: Vm, c: Vm)
    requires Grew(a, b) && Grew(b, c)
    ensures Grew(a, c)
  {
    forall t, i | t in a.nodes && 0 <= i < 512 ensures EntryKept(a, c, t, i) {
      assert EntryKept(a, b, t, i) && EntryKept(b, c, t, i);
    }
    forall t, i | t in c.nodes && t !in a.nodes && 0 <= i < 512 ensures EntryNew(a, c, t, i) {
      if t in b.nodes {
        assert EntryNew(a, b, t, i) && EntryKept(b, c, t, i);
      } else {
        assert EntryNew(b, c, t, i);
      }
    }
  }

  /** Growth changes no walk, from any table, and nothing is mapped through a new one. */
  lemma {:induction false} GrewKeepsWalk(s: Vm, s': Vm, t: nat, va: nat, d: nat)
    requires Wf(s) && Wf(s') && Grew(s, s') && d < 4
    requires t in s'.nodes && s'.nodes[t].depth == d
    ensures t in s.nodes ==> WalkFrom(s'.mem, t, va, d) == WalkFrom(s.mem, t, va, d)
    ensures t in s.nodes && CleanFrom(s.mem, t, va, d) ==> CleanFrom(s'.mem, t, va, d)
    ensures t in s.nodes && ReachFrom(s.mem, t, va, d).Some?
            ==> ReachFrom(s'.mem, t, va, d) == ReachFrom(s.mem, t, va, d)
    ensures t !in s.nodes ==> WalkFrom(s'.mem, t, va, d) == Absent && CleanFrom(s'.mem, t, va, d)
    decreases 4 - d
  {
    var i := Idx(va, d);
    var e' := Get(s'.mem, t, i);
    assert Linked(s', t, i);
    if t in s.nodes {
      assert EntryKept(s, s', t, i) && Linked(s, t, i);
    } else {
      assert EntryNew(s, s', t, i);
    }
    if d < 3 && Follows(d, e') {
      GrewKeepsWalk(s, s', HwFrame(e'), va, d + 1);
    }
  }
}
