/** From the boot loader's memory map and page tables to the memory core's invariant. */
module Boot {
  import opened Words
  import opened PageHeap
  import opened PageTables
  import Pmm
  import Vmm

  /** The loader's page tables: they lie outside usable memory and hang together as Wf
      asks of tables. Page 0 is not usable. */
  ghost predicate LoaderTables(mm: seq<Pmm.Region>, mem: Mem, nodes: map<nat, Node>) {
    && !Pmm.TouchesUsable(mm, |mm|, 0)
    && (forall t :: t in nodes ==> 0 < t < |mem| && nodes[t].depth <= 3 && !Pmm.TouchesUsable(mm, |mm|, t))
    && (forall t, i :: t in nodes && 0 <= i < 512 ==> Linked(Vm(mem, Heap(0, {}, 0), nodes, {}), t, i))
  }

  /** Usable memory ends within the memory there is, and below 2^52. */
  predicate WithinMemory(mm: seq<Pmm.Region>, frames: nat) {
    forall i :: 0 <= i < |mm| && mm[i].usable ==>
      mm[i].base + mm[i].length <= frames * PAGE_SIZE && mm[i].base + mm[i].length <= 0x10_0000_0000_0000
  }

  /** What pmm_init leaves, beside the loader's tables, meets the ownership invariant, and
      the allocator's, with nothing handed out. */
  lemma BootOwns(mm: seq<Pmm.Region>, mem: Mem, h: Heap, nodes: map<nat, Node>, m: nat, k0: nat, k1: nat, bmp: nat)
    requires LoaderTables(mm, mem, nodes) && WithinMemory(mm, |mem|) && k0 <= k1
    requires Counted(h) && Pmm.IsMaxPhys(mm, m) && h.total == AlignUp(m) / PAGE_SIZE
    requires forall p: nat :: p in h.free <==> Pmm.BootFree(mm, p, h.total, k0, k1, bmp)
    ensures Wf(Vm(mem, h, nodes, {})) && LedgerOk(Ledger(h, map[]))
  {
    var s := Vm(mem, h, nodes, {});
    assert h.total <= |mem| && h.total <= 0x100_0000_0000;
    forall t, i | t in s.nodes && 0 <= i < 512 ensures Linked(s, t, i) {
      assert Linked(Vm(mem, Heap(0, {}, 0), nodes, {}), t, i);
    }
    assert LivePages(map[]) == {};
  }

  /** The first region that takes a bitmap for so many pages gives it a place other than 0. */
  ghost predicate Placeable(mm: seq<Pmm.Region>, total: nat, k0: nat, k1: nat) {
    var bytes := Pmm.BitmapBytes(total);
    exists i: nat :: Pmm.IsFirstAccepting(mm, bytes, k0, k1, i) && Pmm.BitmapStart(mm[i], bytes) > 0
  }

  /** pmm_init and vmm_init as kmain calls them; null stands for the machine that pmm_init
      stops because the bitmap has no place. */
  method BringUp(mm: seq<Pmm.Region>, k0: nat, k1: nat, mem: array2<Word>, cr3: nat, ghost nodes: map<nat, Node>)
    returns (mmu: Vmm.Mmu?, bmp: nat)
    requires mem.Length1 == 512 && Pmm.NoOverflow(mm) && k0 <= k1 && k1 + PAGE_SIZE <= U64_MAX + 1
    requires LoaderTables(mm, Vmm.Contents(mem), nodes) && WithinMemory(mm, mem.Length0)
    requires cr3 / PAGE_SIZE in nodes && nodes[cr3 / PAGE_SIZE].depth == 0
    ensures mmu != null ==>
      && mmu.Valid() && mmu.CoherentExcept(None) && mmu.mem == mem && mmu.cr3 == cr3 && mmu.kernelCr3 == AlignDown(cr3)
      && mmu.nodes == nodes && mmu.user == {} && Vmm.Contents(mem) == old(Vmm.Contents(mem))
      && forall p: nat :: p in mmu.State().heap.free <==> Pmm.BootFree(mm, p, mmu.State().heap.total, k0, k1, bmp)
    ensures exists m :: Pmm.IsMaxPhys(mm, m) && (mmu != null <==> Placeable(mm, AlignUp(m) / PAGE_SIZE, k0, k1))
  {
    var pmm := new Pmm.Allocator();
    var ok;
    ok, bmp := pmm.Init(mm, k0, k1);
    ghost var m :| Pmm.IsMaxPhys(mm, m) && pmm.totalPages == AlignUp(m) / PAGE_SIZE;
    assert ok <==> Placeable(mm, AlignUp(m) / PAGE_SIZE, k0, k1);
    if !ok { return null, 0; }
    BootOwns(mm, Vmm.Contents(mem), pmm.View(), nodes, m, k0, k1, bmp);
    mmu := new Vmm.Mmu(pmm, mem, cr3, nodes, {});
  }
}
