/** The physical page allocator (kernel/mm/pmm.c): a bitmap with one bit per page, set
    for a page in use, placed by pmm_init inside the memory it describes. */
module Pmm {
  import opened Words
  import Bitmap
  import opened PageHeap

  /** A boot memory-map entry; usable stands for LIMINE_MEMMAP_USABLE. */
  datatype Region = Region(base: nat, length: nat, usable: bool)

  /** Page numbers touched by the bytes base .. base+len, rounded outwards to pages. */
  ghost predicate Touches(p: nat, base: nat, len: nat) {
    base / PAGE_SIZE <= p < (base + len + PAGE_SIZE - 1) / PAGE_SIZE
  }

  ghost predicate TouchesUsable(mm: seq<Region>, k: nat, p: nat)
    requires k <= |mm|
  {
    exists i :: 0 <= i < k && mm[i].usable && Touches(p, mm[i].base, mm[i].length)
  }

  /** m is the highest usable address, or 0 when nothing is usable. */
  ghost predicate IsMaxPhys(mm: seq<Region>, m: nat) {
    && (forall i :: 0 <= i < |mm| && mm[i].usable ==> mm[i].base + mm[i].length <= m)
    && (m == 0 || exists i :: 0 <= i < |mm| && mm[i].usable && mm[i].base + mm[i].length == m)
  }

  predicate RangesOverlap(a0: nat, a1: nat, b0: nat, b1: nat) { a0 < b1 && b0 < a1 }

  /** Page p is free once the range has been marked. */
  ghost predicate Marked(p: nat, base: nat, len: nat, used: bool, total: nat, free: set<nat>) {
    p < total && if Touches(p, base, len) then !used else p in free
  }

  ghost predicate Between(p: nat, first: nat, last: nat) { first <= p < last }

  ghost function Covered(first: nat, last: nat, total: nat): set<nat> {
    set p: nat | p < total && Between(p, first, last)
  }

  function BitmapStart(r: Region, bytes: nat): int {
    var e := AlignDown(r.base + r.length) - bytes;
    e - e % PAGE_SIZE
  }

  /** The bitmap goes to the top of this region. */
  predicate Accepts(r: Region, bytes: nat, k0: nat, k1: nat) {
    && r.usable
    && AlignUp(r.base) < AlignDown(r.base + r.length)
    && bytes <= AlignDown(r.base + r.length) - AlignUp(r.base)
    && BitmapStart(r, bytes) >= 0
    && !RangesOverlap(BitmapStart(r, bytes), BitmapStart(r, bytes) + bytes, k0, k1)
  }

  ghost predicate IsFirstAccepting(mm: seq<Region>, bytes: nat, k0: nat, k1: nat, i: nat) {
    && i < |mm| && Accepts(mm[i], bytes, k0, k1)
    && forall j :: 0 <= j < i ==> !Accepts(mm[j], bytes, k0, k1)
  }

  /** Sums of an entry, rounded up to a page, fit in 64 bits. */
  predicate NoOverflow(mm: seq<Region>) {
    forall i :: 0 <= i < |mm| ==> mm[i].base + mm[i].length + PAGE_SIZE <= U64_MAX + 1
  }

  /** The pages wholly inside r, from first to last, have room for so many bytes. */
  predicate HasRoom(r: Region, bytes: nat) {
    var first, last := (r.base + 4095) / 4096 * 4096, (r.base + r.length) / 4096 * 4096;
    first < last && bytes <= last - first
  }

  /** b is the greatest multiple of the page size from which bytes fit below the last page
      boundary of r. */
  ghost predicate TopPlace(r: Region, bytes: nat, b: nat) {
    var last := (r.base + r.length) / 4096 * 4096;
    && b % 4096 == 0 && b + bytes <= last
    && forall c: nat :: c % 4096 == 0 && c + bytes <= last ==> c <= b
  }

  /** The bitmap can be placed at b, the top of the usable entry r, clear of the kernel. */
  ghost predicate Suits(r: Region, bytes: nat, k0: nat, k1: nat, b: nat) {
    r.usable && HasRoom(r, bytes) && TopPlace(r, bytes, b) && (b + bytes <= k0 || k1 <= b)
  }

  lemma AcceptsIsSuits(r: Region, bytes: nat, k0: nat, k1: nat)
    ensures Accepts(r, bytes, k0, k1) <==> exists b: nat :: Suits(r, bytes, k0, k1, b)
    ensures forall b: nat :: Suits(r, bytes, k0, k1, b) ==> b == BitmapStart(r, bytes)
    ensures Accepts(r, bytes, k0, k1) ==> Suits(r, bytes, k0, k1, BitmapStart(r, bytes))
  {
    var last := (r.base + r.length) / 4096 * 4096;
    assert AlignDown(r.base + r.length) == last && AlignUp(r.base) == (r.base + 4095) / 4096 * 4096;
    if HasRoom(r, bytes) {
      FittingStartsInRegion(r, bytes);
      TopIsStart(r, bytes);
      var b: nat := BitmapStart(r, bytes);
      assert Accepts(r, bytes, k0, k1) <==> Suits(r, bytes, k0, k1, b);
    }
  }

  lemma TopIsStart(r: Region, bytes: nat)
    requires BitmapStart(r, bytes) >= 0
    ensures TopPlace(r, bytes, BitmapStart(r, bytes))
    ensures forall b: nat :: TopPlace(r, bytes, b) ==> b == BitmapStart(r, bytes)
  {
    var last, b := (r.base + r.length) / 4096 * 4096, BitmapStart(r, bytes);
    assert AlignDown(r.base + r.length) == last;
    assert b % 4096 == 0 && b + bytes <= last < b + bytes + 4096;
    forall c: nat | c % 4096 == 0 && c + bytes <= last ensures c <= b {
      assert c < b + 4096;
    }
  }

  /** The bitmap goes to the first entry that suits, and there to the top. */
  lemma PlacementMeaning(mm: seq<Region>, bytes: nat, k0: nat, k1: nat, i: nat, b: nat)
    ensures IsFirstAccepting(mm, bytes, k0, k1, i) && b == BitmapStart(mm[i], bytes)
       <==> i < |mm| && Suits(mm[i], bytes, k0, k1, b)
            && forall j, c: nat :: 0 <= j < i ==> !Suits(mm[j], bytes, k0, k1, c)
  {
    forall j | 0 <= j < |mm|
      ensures Accepts(mm[j], bytes, k0, k1) <==> exists c: nat :: Suits(mm[j], bytes, k0, k1, c)
    {
      AcceptsIsSuits(mm[j], bytes, k0, k1);
    }
    if i < |mm| { AcceptsIsSuits(mm[i], bytes, k0, k1); }
  }

  /** An accepted bitmap lies wholly in its region, which is usable, and has no byte in
      common with the kernel. */
  lemma AcceptedPlacement(r: Region, bytes: nat, k0: nat, k1: nat)
    requires Accepts(r, bytes, k0, k1) && k0 < k1 && bytes > 0
    ensures var b := BitmapStart(r, bytes);
            && r.usable && r.base <= b && b + bytes <= r.base + r.length && b % PAGE_SIZE == 0
            && (b + bytes <= k0 || k1 <= b)
  {
  }

  lemma FittingStartsInRegion(r: Region, bytes: nat)
    requires AlignUp(r.base) < AlignDown(r.base + r.length)
    requires bytes <= AlignDown(r.base + r.length) - AlignUp(r.base)
    ensures AlignUp(r.base) <= BitmapStart(r, bytes)
  {
  }

  method FindMaxPhys(mm: seq<Region>) returns (maxp: nat)
    ensures IsMaxPhys(mm, maxp)
  {
    maxp := 0;
    for i := 0 to |mm|
      invariant forall j :: 0 <= j < i && mm[j].usable ==> mm[j].base + mm[j].length <= maxp
      invariant maxp == 0 || exists j :: 0 <= j < i && mm[j].usable && mm[j].base + mm[j].length == maxp
    {
      if mm[i].usable {
        var end := mm[i].base + mm[i].length;
        if end > maxp {
          maxp := end;
        }
      }
    }
  }

  /** The start for the bitmap, 0 standing for "no region takes it". */
  method PlaceBitmapPhys(mm: seq<Region>, bytes: nat, k0: nat, k1: nat) returns (start: nat)
    ensures (exists i: nat :: IsFirstAccepting(mm, bytes, k0, k1, i) && start == BitmapStart(mm[i], bytes))
            || (start == 0 && forall i :: 0 <= i < |mm| ==> !Accepts(mm[i], bytes, k0, k1))
  {
    for i := 0 to |mm|
      invariant forall j :: 0 <= j < i ==> !Accepts(mm[j], bytes, k0, k1)
    {
      if mm[i].usable {
        var regionStart, regionEnd := AlignUp(mm[i].base), AlignDown(mm[i].base + mm[i].length);
        if regionStart < regionEnd && bytes <= regionEnd - regionStart {
          FittingStartsInRegion(mm[i], bytes);
          var bmpStart := BitmapStart(mm[i], bytes);
          if !RangesOverlap(bmpStart, bmpStart + bytes, k0, k1) {
            assert IsFirstAccepting(mm, bytes, k0, k1, i);
            return bmpStart;
          }
        }
      }
    }
    return 0;
  }

  class Allocator {
    var bitmap: array<bv8>
    var totalPages: nat
    var totalBytes: nat
    var freeBytes: nat

    ghost predicate Valid()
      reads this`totalPages, this`bitmap
    {
      totalPages <= 8 * bitmap.Length && totalPages < 0x10_0000_0000_0000
    }

    /** bitmap_test */
    predicate Used(i: nat)
      requires i / 8 < bitmap.Length
      reads this`bitmap, bitmap
    {
      Bitmap.Test(bitmap[i / 8], i % 8)
    }

    ghost function Free(): set<nat>
      requires Valid()
      reads this`totalPages, this`bitmap, bitmap
    {
      set i: nat | i < totalPages && !Used(i)
    }

    ghost function View(): (h: Heap)
      requires Valid()
      reads this, bitmap
      ensures PageHeap.Valid(h)
    {
      Heap(totalPages, Free(), freeBytes)
    }

    /** The globals before pmm_init. */
    constructor ()
      ensures Valid() && totalPages == 0 && fresh(bitmap)
    {
      bitmap := new bv8[0];
      totalPages, totalBytes, freeBytes := 0, 0, 0;
    }

    method BitmapSet(i: nat)
      requires Valid() && i < totalPages
      modifies bitmap
      ensures Free() == old(Free()) - {i}
    {
      ghost var b := bitmap[i / 8];
      bitmap[i / 8] := bitmap[i / 8] | Bitmap.One(i % 8);
      forall j: nat | j < totalPages
        ensures Used(j) <==> old(Used(j)) || j == i
      {
        Bitmap.SetBit(b, i % 8, j % 8);
      }
    }

    method BitmapClear(i: nat)
      requires Valid() && i < totalPages
      modifies bitmap
      ensures Free() == old(Free()) + {i}
    {
      ghost var b := bitmap[i / 8];
      bitmap[i / 8] := bitmap[i / 8] & !Bitmap.One(i % 8);
      forall j: nat | j < totalPages
        ensures Used(j) <==> old(Used(j)) && j != i
      {
        Bitmap.ClearBit(b, i % 8, j % 8);
      }
    }

    /** Marks every covered page that the byte range touches. */
    method MarkRange(base: nat, len: nat, used: bool)
      requires Valid()
      modifies bitmap
      ensures forall p: nat :: p in Free() <==> Marked(p, base, len, used, totalPages, old(Free()))
      ensures forall p: nat :: (p in Free() <==>
        p < totalPages && if AlignDown(base) <= p * PAGE_SIZE < AlignUp(base + len) then !used else p in old(Free()))
    {
      var p, end := AlignDown(base), AlignUp(base + len);
      ghost var first, last := base / PAGE_SIZE, (base + len + PAGE_SIZE - 1) / PAGE_SIZE;
      assert p == first * PAGE_SIZE && end == last * PAGE_SIZE;
      while p < end
        invariant p % PAGE_SIZE == 0 && first <= p / PAGE_SIZE
        invariant p / PAGE_SIZE <= last || p / PAGE_SIZE == first
        invariant Free() == if used then old(Free()) - Covered(first, p / PAGE_SIZE, totalPages)
                            else old(Free()) + Covered(first, p / PAGE_SIZE, totalPages)
      {
        var i := p / PAGE_SIZE;
        if i >= totalPages {
          break;
        }
        if used { BitmapSet(i); } else { BitmapClear(i); }
        assert Covered(first, i + 1, totalPages) == Covered(first, i, totalPages) + {i};
        p := p + PAGE_SIZE;
      }
    }

    method SetBlock(start: nat, n: nat)
      requires Valid() && start + n <= totalPages
      modifies bitmap
      ensures Free() == old(Free()) - Block(start, n)
    {
      for j := 0 to n
        invariant Free() == old(Free()) - Block(start, j)
      {
        BitmapSet(start + j);
        assert Block(start, j + 1) == Block(start, j) + {start + j};
      }
    }

    /** pmm_alloc_pages: the address of the first run of n free pages, now used, or 0. */
    method AllocPages(n: nat) returns (phys: nat)
      requires Valid()
      modifies this`freeBytes, bitmap
      ensures (View(), phys) == PageHeap.AllocPages(old(View()), n)
    {
      hide FirstFitFrom;
      if n == 0 { return 0; }
      FirstFitStarts(Free(), totalPages, n);
      ghost var free := Free();
      var run, runStart := 0, 0;
      for i := 0 to totalPages
        invariant Free() == free && freeBytes == old(freeBytes)
        invariant run <= i && run < n
        invariant run > 0 ==> runStart == i - run
        invariant forall j :: i - run <= j < i ==> j in free
        invariant FirstFit(free, totalPages, n) == FirstFitFrom(free, totalPages, n, i - run)
      {
        if !Used(i) {
          if run == 0 { runStart := i; }
          run := run + 1;
          if run == n {
            assert Block(runStart, n) <= free;
            FirstFitHere(free, totalPages, n, runStart);
            SetBlock(runStart, n);
            freeBytes := (freeBytes - n * PAGE_SIZE) % (U64_MAX + 1);
            return runStart * PAGE_SIZE;
          }
        } else {
          assert i !in free;
          SkipUsed(free, totalPages, n, i - run, i);
          run := 0;
        }
      }
      FirstFitEnds(free, totalPages, n, totalPages - run);
      return 0;
    }

    /** pmm_free_pages: clears the covered pages of the range, whose page numbers wrap at
        2^64, and credits all of it. */
    method FreePages(phys: nat, pages: nat)
      requires Valid() && phys <= U64_MAX && pages <= U64_MAX
      modifies this`freeBytes, bitmap
      ensures View() == PageHeap.FreePages(old(View()), phys, pages)
    {
      if phys == 0 || pages == 0 { return; }
      var start := phys / PAGE_SIZE;
      for i := 0 to pages
        invariant freeBytes == old(freeBytes)
        invariant Free() == old(Free()) + Freed(totalPages, start, i)
      {
        var idx := (start + i) % (U64_MAX + 1);
        FreedOneMore(totalPages, start, i, idx);
        if idx < totalPages { BitmapClear(idx); }
      }
      freeBytes := (freeBytes + pages * PAGE_SIZE) % (U64_MAX + 1);
    }

    method FillUsed()
      requires Valid()
      modifies bitmap
      ensures Free() == {}
    {
      for i := 0 to bitmap.Length
        invariant forall j :: 0 <= j < i ==> bitmap[j] == 0xff
      {
        bitmap[i] := 0xff;
      }
      forall p: nat | p < totalPages ensures Used(p) { Bitmap.AllSet(p % 8); }
    }

    method CountFree() returns (n: nat)
      requires Valid()
      ensures n == |Free()|
    {
      n := 0;
      for i := 0 to totalPages
        invariant n == |set j | j in Free() && j < i|
      {
        if !Used(i) {
          assert (set j | j in Free() && j < i + 1) == (set j | j in Free() && j < i) + {i};
          n := n + 1;
        } else {
          assert (set j | j in Free() && j < i + 1) == (set j | j in Free() && j < i);
        }
      }
      assert Free() == (set j | j in Free() && j < totalPages);
    }

    /** The second half of pmm_init, once the bitmap has its place. */
    method Populate(mm: seq<Region>, k0: nat, k1: nat, bmp: nat)
      requires Valid() && k0 <= k1 && bitmap.Length == BitmapBytes(totalPages)
      modifies this`totalBytes, this`freeBytes, bitmap
      ensures Counted(View()) && totalBytes == totalPages * PAGE_SIZE
      ensures forall p: nat :: p in Free() <==> BootFree(mm, p, totalPages, k0, k1, bmp)
    {
      FillUsed();
      for i := 0 to |mm|
        invariant forall p: nat :: p in Free() <==> p < totalPages && TouchesUsable(mm, i, p)
      {
        if mm[i].usable { MarkRange(mm[i].base, mm[i].length, false); }
      }
      MarkRange(k0, k1 - k0, true);
      MarkRange(bmp, bitmap.Length, true);
      totalBytes := totalPages * PAGE_SIZE;
      var freePages := CountFree();
      freeBytes := freePages * PAGE_SIZE;
    }

    /** pmm_init on a boot memory map and the kernel's physical range. The source stops
        the machine when the bitmap cannot be placed; here that is ok == false. */
    method Init(mm: seq<Region>, k0: nat, k1: nat) returns (ok: bool, bmp: nat)
      requires NoOverflow(mm) && k0 <= k1 && k1 + PAGE_SIZE <= U64_MAX + 1
      modifies this, bitmap
      ensures exists m :: IsMaxPhys(mm, m) && totalPages == AlignUp(m) / PAGE_SIZE
      ensures ok <==> exists i: nat :: IsFirstAccepting(mm, BitmapBytes(totalPages), k0, k1, i)
                                  && BitmapStart(mm[i], BitmapBytes(totalPages)) > 0
      ensures ok ==> exists i: nat :: IsFirstAccepting(mm, BitmapBytes(totalPages), k0, k1, i)
                                 && bmp == BitmapStart(mm[i], BitmapBytes(totalPages))
      ensures ok ==> Valid() && bitmap.Length == BitmapBytes(totalPages) && Counted(View())
      ensures ok ==> totalBytes == totalPages * PAGE_SIZE
      ensures ok ==> forall p: nat :: p in Free() <==> BootFree(mm, p, totalPages, k0, k1, bmp)
    {
      var maxPhys := FindMaxPhys(mm);
      totalPages := AlignUp(maxPhys) / PAGE_SIZE;
      var bytes := BitmapBytes(totalPages);
      bmp := PlaceBitmapPhys(mm, bytes, k0, k1);
      if bmp == 0 { return false, 0; }
      ok := true;
      bitmap := new bv8[bytes];
      Populate(mm, k0, k1, bmp);
    }
  }

  lemma FreedOneMore(total: nat, start: nat, i: nat, idx: nat)
    requires start < 0x10_0000_0000_0000 && i < U64_MAX && total < 0x10_0000_0000_0000
    requires idx == (start + i) % (U64_MAX + 1)
    ensures Freed(total, start, i + 1) == if idx < total then Freed(total, start, i) + {idx} else Freed(total, start, i)
  {
    forall p: nat | p < total ensures HitBy(p, start, i + 1) <==> HitBy(p, start, i) || p == idx {
    }
  }

  /** Page p is free after pmm_init: in a usable entry, outside the kernel and the bitmap. */
  ghost predicate BootFree(mm: seq<Region>, p: nat, total: nat, k0: nat, k1: nat, bmp: nat)
    requires k0 <= k1
  {
    && p < total && TouchesUsable(mm, |mm|, p)
    && !Touches(p, k0, k1 - k0) && !Touches(p, bmp, BitmapBytes(total))
  }

  /** One bit per page, rounded up to bytes. */
  function BitmapBytes(pages: nat): (bytes: nat)
    ensures pages <= 8 * bytes < pages + 8
  {
    (pages + 7) / 8
  }

  /** Usable entries are 4 KiB aligned, as the boot protocol guarantees. */
  predicate Aligned(mm: seq<Region>) {
    forall i :: 0 <= i < |mm| && mm[i].usable ==> mm[i].base % PAGE_SIZE == 0 && mm[i].length % PAGE_SIZE == 0
  }

  ghost predicate PageInside(p: nat, base: nat, len: nat) {
    base <= p * PAGE_SIZE && (p + 1) * PAGE_SIZE <= base + len
  }

  ghost predicate PageOutside(p: nat, base: nat, len: nat) {
    (p + 1) * PAGE_SIZE <= base || base + len <= p * PAGE_SIZE
  }

  /** In an aligned map, a page is free after pmm_init exactly when it lies wholly in one
      usable entry and has no byte in common with the kernel or the bitmap. */
  lemma FreePageMeaning(mm: seq<Region>, p: nat, total: nat, m: nat, k0: nat, k1: nat, bmp: nat)
    requires Aligned(mm) && k0 < k1 && IsMaxPhys(mm, m) && total == AlignUp(m) / PAGE_SIZE && total > 0
    ensures BootFree(mm, p, total, k0, k1, bmp)
       <==> (exists i :: 0 <= i < |mm| && mm[i].usable && PageInside(p, mm[i].base, mm[i].length))
            && PageOutside(p, k0, k1 - k0) && PageOutside(p, bmp, BitmapBytes(total))
  {
    forall i | 0 <= i < |mm| && mm[i].usable
      ensures Touches(p, mm[i].base, mm[i].length) <==> PageInside(p, mm[i].base, mm[i].length)
    {
      AlignedTouch(p, mm[i].base, mm[i].length);
    }
    OutsideIsUntouched(p, k0, k1 - k0);
    OutsideIsUntouched(p, bmp, BitmapBytes(total));
  }

  lemma AlignedTouch(p: nat, base: nat, len: nat)
    requires base % PAGE_SIZE == 0 && len % PAGE_SIZE == 0
    ensures Touches(p, base, len) <==> PageInside(p, base, len)
  {
  }

  lemma OutsideIsUntouched(p: nat, base: nat, len: nat)
    requires len > 0
    ensures Touches(p, base, len) <==> !PageOutside(p, base, len)
  {
  }
}
