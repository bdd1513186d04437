/** Device memory mapping (kernel/mm/mmio.c) on top of the virtual memory manager. */
module Mmio {
  import opened Words
  import opened Pte
  import opened PageTables
  import opened TableLemmas
  import opened Spaces
  import opened MmioRange
  import Vmm

  /** mmio_opts_t; its cache and nx members are not looked at. */
  datatype Opts = Opts(writable: bool, global: bool)

  const DEFAULT_OPTS := Opts(true, true)

  function When(b: bool, w: Word): Word { if b then w else Zero() }

  function Flags(o: Opts): Word {
    Or(Or(Or(Bit(PTE_P), When(o.writable, Bit(PTE_W))), When(o.global, Bit(PTE_G))), Or(Bit(PTE_PCD), Bit(PTE_PWT)))
  }

  function EffectiveOpts(opts: Option<Opts>): Opts {
    match opts
    case None => DEFAULT_OPTS
    case Some(o) => o
  }

  /** Pages from the one that holds the first byte to the one that holds the last. */
  function PageCount(phys: nat, size: nat): nat { (AlignUp(phys + size) - AlignDown(phys)) / PAGE_SIZE }

  /** The direct-map window for the range is canonical and in the upper half, and sums fit. */
  predicate Window(hhdm: nat, phys: nat, size: nat) {
    && hhdm % PAGE_SIZE == 0 && 0xffff_8000_0000_0000 <= hhdm
    && AlignUp(phys + size) + hhdm <= U64_MAX + 1
  }

  lemma WindowRange(hhdm: nat, phys: nat, size: nat)
    requires Window(hhdm, phys, size) && size > 0
    ensures PageRange(AlignDown(phys) + hhdm, PageCount(phys, size)) && 0 < PageCount(phys, size) <= VPNS
    ensures AlignUp(phys + size) == AlignDown(phys) + PageCount(phys, size) * PAGE_SIZE
    ensures 0 <= AlignDown(phys) <= phys && AlignDown(phys) % PAGE_SIZE == 0
  {
    AlignedParts(phys);
    AlignedParts(phys + size);
    assert hhdm == hhdm / PAGE_SIZE * PAGE_SIZE;
  }

  /** The end of the loop of mmio_unmap, its sums taken modulo 2^64. */
  function UnmapEnd(virt: nat, size: nat): nat { AlignDown((virt + size + PAGE_SIZE - 1) % (U64_MAX + 1)) }

  /** How many pages that loop unmaps. */
  function UnmapCount(virt: nat, size: nat): nat {
    if UnmapEnd(virt, size) > AlignDown(virt) then (UnmapEnd(virt, size) - AlignDown(virt)) / PAGE_SIZE else 0
  }

  /** The window for the range ends where the 64-bit addresses end. */
  predicate AtTop(hhdm: nat, phys: nat, size: nat) { AlignUp(phys + size) + hhdm == U64_MAX + 1 }

  /** The result of mmio_map, handed to mmio_unmap, stands for the same pages; for none if
      they are the last ones, whose end is 0. */
  lemma WindowReturn(hhdm: nat, phys: nat, size: nat)
    requires Window(hhdm, phys, size) && size > 0
    ensures AlignDown(phys + hhdm) == AlignDown(phys) + hhdm
    ensures UnmapCount(phys + hhdm, size) == if AtTop(hhdm, phys, size) then 0 else PageCount(phys, size)
  {
    var x := phys + size + PAGE_SIZE - 1;
    assert hhdm == hhdm / PAGE_SIZE * PAGE_SIZE;
    ShiftByPages(phys, hhdm / PAGE_SIZE);
    ShiftByPages(x, hhdm / PAGE_SIZE);
    WindowRange(hhdm, phys, size);
    hide AlignDown, AlignUp, PageCount;
    assert AlignDown(x + hhdm) == AlignUp(phys + size) + hhdm by { AlignUpIs(phys + size); }
    assert phys + hhdm + size + PAGE_SIZE - 1 == x + hhdm;
    WrappedEnd(x + hhdm);
  }

  lemma AlignUpIs(x: nat)
    ensures AlignUp(x) == AlignDown(x + PAGE_SIZE - 1)
  {
  }

  lemma WrappedEnd(x: nat)
    requires AlignDown(x) <= U64_MAX + 1
    ensures AlignDown(x % (U64_MAX + 1)) == if AlignDown(x) == U64_MAX + 1 then 0 else AlignDown(x)
  {
    if AlignDown(x) == U64_MAX + 1 {
      assert x % (U64_MAX + 1) == x % PAGE_SIZE;
    } else {
      assert x <= U64_MAX;
    }
  }

  lemma AlignedParts(x: nat)
    ensures AlignDown(x) == x / PAGE_SIZE * PAGE_SIZE <= x && AlignDown(x) + x % PAGE_SIZE == x
    ensures AlignUp(x) == (x + PAGE_SIZE - 1) / PAGE_SIZE * PAGE_SIZE >= x
  {
  }

  lemma ShiftByPages(x: nat, k: nat)
    ensures AlignDown(x + k * PAGE_SIZE) == AlignDown(x) + k * PAGE_SIZE
  {
    assert (x + k * PAGE_SIZE) / PAGE_SIZE == x / PAGE_SIZE + k;
  }

  /** A page is in the window exactly when it holds one of the bytes. */
  lemma WindowPages(phys: nat, size: nat, p: nat)
    requires size > 0
    ensures phys / 4096 <= p < phys / 4096 + PageCount(phys, size)
       <==> exists i: nat :: i < size && HoldsByte(p, phys, i)
  {
    AlignedParts(phys);
    AlignedParts(phys + size);
    var q := (phys + size + PAGE_SIZE - 1) / PAGE_SIZE;
    assert PageCount(phys, size) == q - phys / PAGE_SIZE;
    if phys / 4096 <= p < q {
      var i: nat := if p == phys / 4096 then 0 else p * 4096 - phys;
      assert HoldsByte(p, phys, i) && i < size;
    }
  }

  ghost predicate HoldsByte(p: nat, phys: nat, i: nat) { (phys + i) / 4096 == p }

  /** How many pages mmio_unmap's loop takes: those that hold one of the bytes; none when
      the rounded end reaches 2^64 (one, for a size that wraps round to its own page, unless
      that is the last one). */
  lemma UnmapPagesOf(virt: nat, size: nat)
    requires virt <= U64_MAX && 0 < size <= U64_MAX
    ensures UnmapCount(virt, size) ==
              if virt + size + 4095 <= U64_MAX then (virt + size - 1) / 4096 - virt / 4096 + 1
              else if virt % 4096 + size > U64_MAX + 1 && virt + 4096 <= U64_MAX then 1 else 0
  {
    var x := (virt + size + PAGE_SIZE - 1) % (U64_MAX + 1);
    AlignedParts(virt);
    AlignedParts(x);
    UnmapWindow(virt, size);
    var q0, q1 := virt / 4096, x / 4096;
    assert UnmapEnd(virt, size) == q1 * 4096 && AlignDown(virt) == q0 * 4096;
    if virt + size + 4095 <= U64_MAX {
      assert q1 == (virt + size - 1) / 4096 + 1;
    } else {
      WrappedSum(virt, size, x);
    }
  }

  lemma WrappedSum(virt: nat, size: nat, x: nat)
    requires virt <= U64_MAX && 0 < size <= U64_MAX && virt + size + 4095 > U64_MAX
    requires x == (virt + size + 4095) % (U64_MAX + 1)
    ensures var q0, q1 := virt / 4096, x / 4096;
            if virt % 4096 + size > U64_MAX + 1 && virt + 4096 <= U64_MAX then q1 == q0 + 1 else q1 <= q0
  {
    var q0, o := virt / 4096, virt % 4096;
    assert virt == q0 * 4096 + o;
    if virt + size + 4095 <= 2 * U64_MAX + 1 {
      assert x == q0 * 4096 + (o + size + 4095 - (U64_MAX + 1));
    } else {
      assert x == virt + size + 4095 - 2 * (U64_MAX + 1) < 4096;
    }
  }

  /** mmio_map: the virtual address of the first byte, or 0. */
  method MmioMap(mmu: Vmm.Mmu, hhdm: nat, phys: nat, size: nat, opts: Option<Opts>) returns (va: nat)
    requires mmu.Valid() && mmu.CoherentExcept(None) && Window(hhdm, phys, size)
    requires size > 0 ==>
      CleanRange(mmu.State().mem, mmu.cr3 / PAGE_SIZE, AlignDown(phys) + hhdm, PageCount(phys, size))
    modifies mmu.mem, mmu.pmm`freeBytes, mmu.pmm.bitmap, mmu`nodes, mmu`tlb
    ensures mmu.Valid() && mmu.CoherentExcept(None)
    ensures size == 0 ==> va == 0 && mmu.State() == old(mmu.State())
    ensures size > 0 ==>
      var n := PageCount(phys, size);
      var root, flags := mmu.cr3 / PAGE_SIZE, Flags(EffectiveOpts(opts));
      var m := MapRange(old(mmu.State()), root, AlignDown(phys) + hhdm, AlignDown(phys), n, flags);
      && mmu.State() == m.0
      && va == if m.1 == n then phys + hhdm else 0
  {
    if size == 0 { return 0; }
    WindowRange(hhdm, phys, size);
    hide Vmm.Mmu.Valid, Vmm.Mmu.CoherentExcept, Vmm.Mmu.State, Flags, PageRange, CleanRange, MapRange,
      AlignUp, PageCount, EffectiveOpts;
    var p0 := AlignDown(phys);
    var ok := MapPages(mmu, p0 + hhdm, p0, AlignUp(phys + size), PageCount(phys, size), Flags(EffectiveOpts(opts)));
    va := if ok then p0 + hhdm + (phys - p0) else 0;
  }

  /** The loop of mmio_map, from p0 to p1 and from v0 on. */
  method MapPages(mmu: Vmm.Mmu, v0: nat, p0: nat, p1: nat, ghost n: nat, flags: Word) returns (ok: bool)
    requires mmu.Valid() && mmu.CoherentExcept(None)
    requires PageRange(v0, n) && p0 % PAGE_SIZE == 0 && p1 == p0 + n * PAGE_SIZE
    requires CleanRange(mmu.State().mem, mmu.cr3 / PAGE_SIZE, v0, n)
    modifies mmu.mem, mmu.pmm`freeBytes, mmu.pmm.bitmap, mmu`nodes, mmu`tlb
    ensures mmu.Valid() && mmu.CoherentExcept(None)
    ensures var m := MapRange(old(mmu.State()), mmu.cr3 / PAGE_SIZE, v0, p0, n, flags);
            mmu.State() == m.0 && (ok <==> m.1 == n)
  {
    hide Vmm.Mmu.Valid, Vmm.Mmu.CoherentExcept, Vmm.Mmu.State, MapPage, Clean, Wf, IsRoot, MapRange, MapTurn,
      AlignDown, PageRange, CleanRange;
    var p, v := p0, v0;
    ghost var left: nat := n;
    ghost var s, root := mmu.State(), mmu.cr3 / PAGE_SIZE;
    ghost var s0 := s;
    MapTurnStart(s0, v0, p0, n, root, flags);
    while p < p1
      invariant p1 == p + left * PAGE_SIZE && p % PAGE_SIZE == 0 && p >= 0 && v >= 0
      invariant mmu.Valid() && mmu.CoherentExcept(None) && mmu.State() == s
      invariant MapTurn(s0, v0, p0, n, s, v, p, left, root, flags)
      decreases left
    {
      PageStep(s0, v0, p0, n, s, v, p, left, root, flags);
      var rc := mmu.MapPageMmio(v, p, flags);
      s := mmu.State();
      if rc != 0 { return false; }
      p, v := p + PAGE_SIZE, v + PAGE_SIZE;
      left := left - 1;
    }
    MapTurnEnd(s0, v0, p0, n, s, v, p, root, flags);
    ok := true;
  }

  /** Where mmio_map's loop stands with n pages left. */
  ghost predicate MapTurn(s0: Vm, v0: nat, p0: nat, n0: nat, s: Vm, v: nat, p: nat, n: nat, r: nat, flags: Word) {
    PageRange(v, n) && CleanRange(s.mem, r, v, n) && MapProgress(s0, v0, p0, n0, s, v, p, n, r, flags)
  }

  lemma PageStep(s0: Vm, v0: nat, p0: nat, n0: nat, s: Vm, v: nat, p: nat, n: nat, r: nat, flags: Word)
    requires Wf(s) && IsRoot(s, r) && n > 0 && p % PAGE_SIZE == 0
    requires MapTurn(s0, v0, p0, n0, s, v, p, n, r, flags)
    ensures Clean(s.mem, r, v) && AlignDown(v) == v && AlignDown(p) == p
    ensures var m := MapPage(s, r, v, p, flags);
            && (m.1 ==> MapTurn(s0, v0, p0, n0, m.0, v + PAGE_SIZE, p + PAGE_SIZE, n - 1, r, flags))
            && (!m.1 ==> MapRange(s0, r, v0, p0, n0, flags).0 == m.0 && MapRange(s0, r, v0, p0, n0, flags).1 < n0)
  {
    hide Wf, Preserves, MapPage, MapRange, Walk, Clean, CleanRange, SetsPage;
    RangeStarts(s.mem, r, v, n);
    MapPageEffect(s, r, v, p, flags);
    CleanLater(s, MapPage(s, r, v, p, flags).0, r, v, n);
    MapProgressStep(s0, v0, p0, n0, s, v, p, n, r, flags);
  }

  lemma UnmapStep(goal: Vm, s: Vm, v: nat, n: nat, r: nat)
    requires Wf(s) && IsRoot(s, r) && n > 0 && UnmapTurn(goal, s, v, n, r)
    ensures Clean(s.mem, r, v) && AlignDown(v) == v
    ensures UnmapTurn(goal, UnmapPage(s, r, v).0, v + PAGE_SIZE, n - 1, r)
  {
    hide Wf, Preserves, UnmapPage, Walk, Clean, CleanRange, SetsPage;
    RangeStarts(s.mem, r, v, n);
    UnmapPageEffect(s, r, v);
    CleanLater(s, UnmapPage(s, r, v).0, r, v, n);
  }

  /** mmio_unmap, for any address and size. */
  method MmioUnmap(mmu: Vmm.Mmu, virt: nat, size: nat)
    requires mmu.Valid() && mmu.CoherentExcept(None) && virt <= U64_MAX && size <= U64_MAX
    requires size > 0 ==> CleanRange(mmu.State().mem, mmu.cr3 / PAGE_SIZE, AlignDown(virt), UnmapCount(virt, size))
    modifies mmu.mem, mmu`tlb
    ensures mmu.Valid() && mmu.CoherentExcept(None)
    ensures var root, n := mmu.cr3 / PAGE_SIZE, UnmapCount(virt, size);
            mmu.State() == if size == 0 then old(mmu.State())
                           else UnmapRange(old(mmu.State()), root, AlignDown(virt), n)
  {
    if size == 0 { return; }
    UnmapWindow(virt, size);
    UnmapPages(mmu, AlignDown(virt), UnmapEnd(virt, size), UnmapCount(virt, size));
  }

  /** The loop of mmio_unmap, from v0 to v1. */
  method UnmapPages(mmu: Vmm.Mmu, v0: nat, v1: nat, ghost n: nat)
    requires mmu.Valid() && mmu.CoherentExcept(None)
    requires PageRange(v0, n) && if n > 0 then v1 == v0 + n * PAGE_SIZE else v1 <= v0
    requires CleanRange(mmu.State().mem, mmu.cr3 / PAGE_SIZE, v0, n)
    modifies mmu.mem, mmu`tlb
    ensures mmu.Valid() && mmu.CoherentExcept(None)
    ensures mmu.State() == UnmapRange(old(mmu.State()), mmu.cr3 / PAGE_SIZE, v0, n)
  {
    hide Vmm.Mmu.Valid, Vmm.Mmu.CoherentExcept, Vmm.Mmu.State, UnmapPage, UnmapRange, Clean, Wf, IsRoot,
      AlignDown, UnmapTurn;
    var v := v0;
    ghost var left: nat := n;
    ghost var s, root := mmu.State(), mmu.cr3 / PAGE_SIZE;
    ghost var goal := UnmapRange(s, root, v0, n);
    UnmapTurnStart(s, v, n, root);
    while v < v1
      invariant (if left > 0 then v1 == v + left * PAGE_SIZE else v1 <= v) && v >= 0
      invariant mmu.Valid() && mmu.CoherentExcept(None) && mmu.State() == s
      invariant UnmapTurn(goal, s, v, left, root)
      decreases left
    {
      UnmapStep(goal, s, v, left, root);
      var _ := mmu.UnmapPageCurrent(v);
      s := mmu.State();
      v := v + PAGE_SIZE;
      left := left - 1;
    }
    UnmapTurnEnd(goal, s, v, root);
  }

  /** Where mmio_unmap's loop stands with n pages left. */
  ghost predicate UnmapTurn(goal: Vm, s: Vm, v: nat, n: nat, r: nat) {
    PageRange(v, n) && CleanRange(s.mem, r, v, n) && UnmapRange(s, r, v, n) == goal
  }

  lemma UnmapTurnStart(s: Vm, v: nat, n: nat, r: nat)
    requires PageRange(v, n) && CleanRange(s.mem, r, v, n)
    ensures UnmapTurn(UnmapRange(s, r, v, n), s, v, n, r)
  {
  }

  lemma UnmapTurnEnd(goal: Vm, s: Vm, v: nat, r: nat)
    requires UnmapTurn(goal, s, v, 0, r)
    ensures goal == s
  {
  }

  lemma UnmapWindow(virt: nat, size: nat)
    requires virt <= U64_MAX && size <= U64_MAX
    ensures PageRange(AlignDown(virt), UnmapCount(virt, size))
    ensures UnmapCount(virt, size) > 0 ==> UnmapEnd(virt, size) == AlignDown(virt) + UnmapCount(virt, size) * PAGE_SIZE
    ensures UnmapCount(virt, size) == 0 ==> UnmapEnd(virt, size) <= AlignDown(virt)
  {
    var x := (virt + size + PAGE_SIZE - 1) % (U64_MAX + 1);
    AlignedParts(virt);
    AlignedParts(x);
    hide AlignDown;
    var q0, q1 := virt / PAGE_SIZE, x / PAGE_SIZE;
    assert AlignDown(virt) == q0 * PAGE_SIZE && UnmapEnd(virt, size) == q1 * PAGE_SIZE;
    assert q1 > q0 ==> UnmapCount(virt, size) == q1 - q0;
  }

  lemma MapTurnStart(s: Vm, v: nat, p: nat, n: nat, r: nat, flags: Word)
    requires PageRange(v, n) && CleanRange(s.mem, r, v, n)
    ensures MapTurn(s, v, p, n, s, v, p, n, r, flags)
  {
  }

  lemma MapTurnEnd(s0: Vm, v0: nat, p0: nat, n0: nat, s: Vm, v: nat, p: nat, r: nat, flags: Word)
    requires MapTurn(s0, v0, p0, n0, s, v, p, 0, r, flags)
    ensures MapRange(s0, r, v0, p0, n0, flags).0 == s && MapRange(s0, r, v0, p0, n0, flags).1 == n0
  {
  }

  // ---------------------------------------------------------------- what it means

  lemma FlagBits(o: Opts, i: nat)
    requires i < 64
    ensures Flags(o)[i] <==> i == PTE_P || i == PTE_PCD || i == PTE_PWT
                             || (i == PTE_W && o.writable) || (i == PTE_G && o.global)
  {
  }

  /** What the caller of mmio_map asks for: without options, writable and global. */
  predicate AsksWritable(opts: Option<Opts>) { opts.None? || opts.value.writable }

  predicate AsksGlobal(opts: Option<Opts>) { opts.None? || opts.value.global }

  /** The leaf maps the byte at va to the byte at phys, uncached (PCD and PWT, bits 4 and 3)
      and for the kernel only, with W and G as asked. */
  ghost predicate DeviceByte(tr: Translation, va: nat, phys: nat, opts: Option<Opts>) {
    && tr.Page? && tr.leaf[0] && tr.leaf[3] && tr.leaf[4]
    && (tr.leaf[1] <==> AsksWritable(opts)) && (tr.leaf[8] <==> AsksGlobal(opts))
    && !tr.leaf[2] && !tr.leaf[63]
    && HwFrame(tr.leaf) * PAGE_SIZE + va % PAGE_SIZE == phys
  }

  lemma DeviceFlags(o: Opts, i: nat)
    requires 12 <= i < 52
    ensures !Flags(o)[i]
  {
    FlagBits(o, i);
  }

  lemma DeviceBit(phys: nat, o: Opts, i: nat)
    requires phys / PAGE_SIZE < 0x100_0000_0000 && (i < 12 || 52 <= i < 64)
    ensures Leaf(phys, Flags(o))[i] <==> i == PTE_P || i == PTE_PCD || i == PTE_PWT
                                          || (i == PTE_W && o.writable) || (i == PTE_G && o.global)
  {
    AddressBits(phys);
    FlagBits(o, i);
    LeafBits(phys, Flags(o), i);
  }

  lemma DeviceLeaf(phys: nat, va: nat, opts: Option<Opts>)
    requires phys / PAGE_SIZE < 0x100_0000_0000 && va % PAGE_SIZE == phys % PAGE_SIZE
    ensures DeviceByte(Page(Leaf(AlignDown(phys), Flags(EffectiveOpts(opts)))), va, phys, opts)
  {
    hide Leaf, Flags, Address, HwFrame;
    var a, o := AlignDown(phys), EffectiveOpts(opts);
    assert a / PAGE_SIZE == phys / PAGE_SIZE;
    assert o.writable == AsksWritable(opts) && o.global == AsksGlobal(opts);
    LeafFrame(a, Flags(o));
    forall i | 12 <= i < 52 ensures !Flags(o)[i] { DeviceFlags(o, i); }
    DeviceBit(a, o, 0);
    DeviceBit(a, o, 1);
    DeviceBit(a, o, 2);
    DeviceBit(a, o, 3);
    DeviceBit(a, o, 4);
    DeviceBit(a, o, 8);
    DeviceBit(a, o, 63);
  }

  /** Byte i of a mapped range, as a page of the range. */
  lemma BytePage(hhdm: nat, phys: nat, size: nat, i: nat)
    requires Window(hhdm, phys, size) && i < size
    ensures var v, va := AlignDown(phys) + hhdm, phys + hhdm + i;
            && InRange(va, v, PageCount(phys, size))
            && AlignDown(phys) + Offset(va, v) * PAGE_SIZE == AlignDown(phys + i)
            && va % PAGE_SIZE == (phys + i) % PAGE_SIZE
  {
    var j := (phys + i) / PAGE_SIZE - phys / PAGE_SIZE;
    var v, va := AlignDown(phys) + hhdm, phys + hhdm + i;
    ByteParts(hhdm, phys, size, i);
    WindowRange(hhdm, phys, size);
    hide AlignDown, AlignUp, PageCount, Vpn;
    RangePages(v, j);
    AlignDownKeepsPage(va);
    AlignDownKeepsPage(v + j * PAGE_SIZE);
    assert Vpn(va) == (Vpn(v) + j) % VPNS;
    OffsetIs(va, v, j);
  }

  lemma ByteParts(hhdm: nat, phys: nat, size: nat, i: nat)
    requires Window(hhdm, phys, size) && i < size
    ensures var j := (phys + i) / PAGE_SIZE - phys / PAGE_SIZE;
            && 0 <= j < PageCount(phys, size) && AlignDown(phys + i) == AlignDown(phys) + j * PAGE_SIZE
            && AlignDown(phys + hhdm + i) == AlignDown(phys) + hhdm + j * PAGE_SIZE
            && (phys + hhdm + i) % PAGE_SIZE == (phys + i) % PAGE_SIZE
  {
    AlignedParts(phys);
    AlignedParts(phys + i);
    PagesUpTo(phys, size, i);
    ShiftByPages(phys + i, hhdm / PAGE_SIZE);
    hide AlignDown, AlignUp, PageCount;
    assert hhdm == hhdm / PAGE_SIZE * PAGE_SIZE;
    assert phys + hhdm + i == phys + i + hhdm;
  }

  lemma PagesUpTo(phys: nat, size: nat, i: nat)
    requires i < size
    ensures phys / PAGE_SIZE <= (phys + i) / PAGE_SIZE
    ensures (phys + i) / PAGE_SIZE - phys / PAGE_SIZE < PageCount(phys, size)
  {
    AlignedParts(phys);
    AlignedParts(phys + size);
    var q := (phys + size + PAGE_SIZE - 1) / PAGE_SIZE;
    assert PageCount(phys, size) == q - phys / PAGE_SIZE;
    assert (phys + i) / PAGE_SIZE < q;
  }

  lemma OffsetIs(va: nat, v: nat, j: nat)
    requires j < VPNS && Vpn(va) == (Vpn(v) + j) % VPNS
    ensures Offset(va, v) == j
  {
    hide Vpn;
  }

  /** Byte phys + i is reached, uncached, at i bytes past the result of mmio_map. */
  ghost predicate ByteMapped(m: Mem, r: nat, hhdm: nat, phys: nat, opts: Option<Opts>, i: nat) {
    DeviceByte(Walk(m, r, phys + hhdm + i), phys + hhdm + i, phys + i, opts)
  }

  lemma MappedByte(s: Vm, s': Vm, r: nat, hhdm: nat, phys: nat, size: nat, opts: Option<Opts>, i: nat)
    requires IsRoot(s, r) && Window(hhdm, phys, size) && i < size && phys + size <= 0x10_0000_0000_0000
    requires var frames := Frames(AlignDown(phys), Flags(EffectiveOpts(opts)));
             SetsRange(s, s', r, AlignDown(phys) + hhdm, PageCount(phys, size), frames)
    ensures ByteMapped(s'.mem, r, hhdm, phys, opts, i)
  {
    hide DeviceByte, Walk, Flags, Leaf, EffectiveOpts;
    BytePage(hhdm, phys, size, i);
    var frames := Frames(AlignDown(phys), Flags(EffectiveOpts(opts)));
    assert RangeWalk(s, s', r, AlignDown(phys) + hhdm, PageCount(phys, size), frames, r, phys + hhdm + i);
    DeviceLeaf(phys + i, phys + hhdm + i, opts);
  }

  /** mmio_map: when it succeeds, byte phys + i is reached at result + i for each i < size,
      uncached, with W and G as its caller asks; when it fails, only a prefix of the range
      has changed. Either way nothing outside the range changes, in any space. */
  lemma MmioMapMeaning(s: Vm, r: nat, hhdm: nat, phys: nat, size: nat, opts: Option<Opts>)
    requires Wf(s) && IsRoot(s, r) && Window(hhdm, phys, size) && size > 0 && phys + size <= 0x10_0000_0000_0000
    requires CleanRange(s.mem, r, AlignDown(phys) + hhdm, PageCount(phys, size))
    ensures var v, n := AlignDown(phys) + hhdm, PageCount(phys, size);
            var m := MapRange(s, r, v, AlignDown(phys), n, Flags(EffectiveOpts(opts)));
            && Preserves(s, m.0) && m.1 <= n
            && SetsRange(s, m.0, r, v, m.1, Frames(AlignDown(phys), Flags(EffectiveOpts(opts))))
            && (m.1 == n ==> forall i :: 0 <= i < size ==> ByteMapped(m.0.mem, r, hhdm, phys, opts, i))
  {
    hide Preserves, SetsRange, Walk, ByteMapped, MapRange, Wf, CleanRange, PageRange;
    WindowRange(hhdm, phys, size);
    var v, n := AlignDown(phys) + hhdm, PageCount(phys, size);
    MapRangeEffect(s, r, v, AlignDown(phys), n, Flags(EffectiveOpts(opts)));
    var m := MapRange(s, r, v, AlignDown(phys), n, Flags(EffectiveOpts(opts)));
    if m.1 == n {
      forall i | 0 <= i < size ensures ByteMapped(m.0.mem, r, hhdm, phys, opts, i) {
        MappedByte(s, m.0, r, hhdm, phys, size, opts, i);
      }
    }
  }

  /** mmio_unmap(result, size) after mmio_map(phys, size): exactly the pages of the range
      translate to nothing, and every other translation is what it was before the map. It
      holds for every window but one that ends at the last address: there nothing at all is
      unmapped. */
  lemma MapThenUnmap(s: Vm, r: nat, hhdm: nat, phys: nat, size: nat, o: Opts, r': nat, va: nat)
    requires Wf(s) && IsRoot(s, r) && IsRoot(s, r') && Window(hhdm, phys, size) && size > 0
    requires CleanRange(s.mem, r, AlignDown(phys) + hhdm, PageCount(phys, size))
    ensures var result := phys + hhdm;
            var v, n := AlignDown(phys) + hhdm, PageCount(phys, size);
            var m := MapRange(s, r, v, AlignDown(phys), n, Flags(o)).0;
            var u := UnmapRange(m, r, AlignDown(result), UnmapCount(result, size));
            && AlignDown(result) == v
            && (if AtTop(hhdm, phys, size) then u == m
                else Walk(u.mem, r', va) ==
                       if InRange(va, v, n) && Shares(s.mem, r, r', Idx(va, 0)) then Absent else Walk(s.mem, r', va))
  {
    hide Preserves, Walk, MapRange, Wf, CleanRange, Flags, Leaf, Offset, PageCount, UnmapCount, UnmapPage;
    WindowRange(hhdm, phys, size);
    var v, n := AlignDown(phys) + hhdm, PageCount(phys, size);
    WindowReturn(hhdm, phys, size);
    var m := MapRange(s, r, v, AlignDown(phys), n, Flags(o));
    if AtTop(hhdm, phys, size) {
      assert UnmapRange(m.0, r, v, 0) == m.0;
    } else {
      hide UnmapRange;
      MapRangeEffect(s, r, v, AlignDown(phys), n, Flags(o));
      CleanKept(s, m.0, r, v, n);
      UnmapRangeEffect(m.0, r, v, n);
      var u := UnmapRange(m.0, r, v, n);
      StillShares(s, m.0, r, r', va);
      assert RangeWalk(s, m.0, r, v, m.1, Frames(AlignDown(phys), Flags(o)), r', va);
      assert RangeWalk(m.0, u, r, v, n, Nothing, r', va);
    }
  }

  /** Page j of a range. */
  ghost predicate PageGone(m: Mem, r: nat, v: nat, j: nat) { Walk(m, r, v + j * PAGE_SIZE) == Absent }

  ghost predicate AllGone(m: Mem, r: nat, v: nat, n: nat) { forall j: nat :: j < n ==> PageGone(m, r, v, j) }

  ghost predicate NoneGone(m: Mem, r: nat, v: nat, n: nat) { forall j: nat :: j < n ==> !PageGone(m, r, v, j) }

  lemma AllOrNone(m: Mem, r: nat, v: nat, n: nat, gone: bool)
    requires n > 0 && forall j: nat :: j < n ==> (PageGone(m, r, v, j) <==> gone)
    ensures (AllGone(m, r, v, n) <==> gone) && (NoneGone(m, r, v, n) <==> !gone)
  {
    hide PageGone;
    assert PageGone(m, r, v, 0) <==> gone;
  }

  /** After a successful mmio_map, mmio_unmap of its result removes the pages exactly when
      the window does not end at the last address; there, every one of them stays. */
  lemma UnmapRemovesIff(s: Vm, r: nat, hhdm: nat, phys: nat, size: nat, o: Opts)
    requires Wf(s) && IsRoot(s, r) && Window(hhdm, phys, size) && size > 0
    requires CleanRange(s.mem, r, AlignDown(phys) + hhdm, PageCount(phys, size))
    requires var n := PageCount(phys, size); MapRange(s, r, AlignDown(phys) + hhdm, AlignDown(phys), n, Flags(o)).1 == n
    ensures var v, n := AlignDown(phys) + hhdm, PageCount(phys, size);
            var m := MapRange(s, r, v, AlignDown(phys), n, Flags(o)).0;
            var u := UnmapRange(m, r, AlignDown(phys + hhdm), UnmapCount(phys + hhdm, size)).mem;
            (AllGone(u, r, v, n) <==> !AtTop(hhdm, phys, size)) && (NoneGone(u, r, v, n) <==> AtTop(hhdm, phys, size))
  {
    hide Preserves, Walk, MapRange, UnmapRange, Wf, CleanRange, Flags, Leaf, Offset, PageCount, UnmapCount, Shares;
    WindowRange(hhdm, phys, size);
    var v, n := AlignDown(phys) + hhdm, PageCount(phys, size);
    var m := MapRange(s, r, v, AlignDown(phys), n, Flags(o));
    var u := UnmapRange(m.0, r, AlignDown(phys + hhdm), UnmapCount(phys + hhdm, size));
    MapRangeEffect(s, r, v, AlignDown(phys), n, Flags(o));
    forall j: nat | j < n ensures PageGone(u.mem, r, v, j) <==> !AtTop(hhdm, phys, size) {
      var va := v + j * PAGE_SIZE;
      MapThenUnmap(s, r, hhdm, phys, size, o, r, va);
      RangePages(v, j);
      OffsetIs(va, v, j);
      ItsOwnSlot(s.mem, r, va);
      assert RangeWalk(s, m.0, r, v, n, Frames(AlignDown(phys), Flags(o)), r, va);
    }
    AllOrNone(u.mem, r, v, n, !AtTop(hhdm, phys, size));
  }

  lemma ItsOwnSlot(m: Mem, r: nat, va: nat)
    ensures Shares(m, r, r, Idx(va, 0))
  {
  }

  /** There are such windows. */
  lemma TopWindow()
    ensures Window(0xffff_8000_0000_0000, 0x7fff_ffff_f000, 4096)
    ensures AtTop(0xffff_8000_0000_0000, 0x7fff_ffff_f000, 4096)
    ensures UnmapCount(0x7fff_ffff_f000 + 0xffff_8000_0000_0000, 4096) == 0
  {
  }

  lemma CleanKept(s: Vm, s': Vm, r: nat, v: nat, n: nat)
    requires IsRoot(s, r) && Preserves(s, s') && CleanRange(s.mem, r, v, n)
    ensures CleanRange(s'.mem, r, v, n) && Wf(s') && IsRoot(s', r)
  {
    forall j | 0 <= j < n ensures Clean(s'.mem, r, v + j * PAGE_SIZE) {
      assert Clean(s.mem, r, v + j * PAGE_SIZE);
    }
  }
}
