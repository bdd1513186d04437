/** What the physical page allocator implements: a set of free page numbers, served
    first-fit, and a byte counter. */
module PageHeap {
  import opened Words

  /** total: pages the bitmap covers; free: the page numbers marked free. */
  datatype Heap = Heap(total: nat, free: set<nat>, freeBytes: nat)

  ghost predicate Valid(h: Heap) {
    && h.total < 0x10_0000_0000_0000
    && forall i :: i in h.free ==> i < h.total
  }

  /** The counter is right: one page size per free page. */
  ghost predicate Counted(h: Heap) {
    Valid(h) && h.freeBytes == |h.free| * PAGE_SIZE
  }

  ghost predicate InBlock(i: nat, s: nat, n: nat) { s <= i < s + n }

  /** The n page numbers from s on. */
  ghost function Block(s: nat, n: nat): set<nat> { set i: nat | i < s + n && InBlock(i, s, n) }

  lemma {:induction false} BlockSize(s: nat, n: nat)
    ensures |Block(s, n)| == n
  {
    if n == 0 {
      assert Block(s, n) == {};
    } else {
      BlockSize(s, n - 1);
      assert Block(s, n) == Block(s, n - 1) + {s + n - 1};
    }
  }

  // ---------------------------------------------------------------- first fit

  ghost function FirstFitFrom(free: set<nat>, total: nat, n: nat, s: nat): Option<nat>
    decreases total - s
  {
    if s + n > total || s >= total then None
    else if Block(s, n) <= free then Some(s)
    else FirstFitFrom(free, total, n, s + 1)
  }

  /** The first block of n free pages. */
  ghost function FirstFit(free: set<nat>, total: nat, n: nat): Option<nat> {
    if n == 0 then None else FirstFitFrom(free, total, n, 0)
  }

  lemma {:induction false} FirstFitFromLeast(free: set<nat>, total: nat, n: nat, s: nat)
    requires n > 0
    ensures match FirstFitFrom(free, total, n, s)
            case None => forall t :: s <= t && t + n <= total ==> !(Block(t, n) <= free)
            case Some(r) => s <= r && r + n <= total && Block(r, n) <= free
                            && forall t :: s <= t < r ==> !(Block(t, n) <= free)
    decreases total - s
  {
    if s + n <= total && !(Block(s, n) <= free) {
      FirstFitFromLeast(free, total, n, s + 1);
    }
  }

  /** FirstFit is exactly the least start of n consecutive free pages. */
  lemma FirstFitIsLeast(free: set<nat>, total: nat, n: nat, s: nat)
    ensures FirstFit(free, total, n) == Some(s)
       <==> n > 0 && s + n <= total && Block(s, n) <= free
            && forall t :: 0 <= t < s ==> !(Block(t, n) <= free)
    ensures FirstFit(free, total, n) == None
       <==> n == 0 || forall t :: 0 <= t && t + n <= total ==> !(Block(t, n) <= free)
  {
    if n > 0 {
      FirstFitFromLeast(free, total, n, 0);
    }
  }

  lemma {:induction false} SkipUsed(free: set<nat>, total: nat, n: nat, s: nat, i: nat)
    requires s <= i < s + n && i !in free
    ensures FirstFitFrom(free, total, n, s) == FirstFitFrom(free, total, n, i + 1)
    decreases i - s
  {
    assert i in Block(s, n);
    if s < i {
      SkipUsed(free, total, n, s + 1, i);
    }
  }

  lemma FirstFitStarts(free: set<nat>, total: nat, n: nat)
    ensures n > 0 ==> FirstFit(free, total, n) == FirstFitFrom(free, total, n, 0)
  {
  }

  lemma FirstFitHere(free: set<nat>, total: nat, n: nat, s: nat)
    requires n > 0 && s + n <= total && Block(s, n) <= free
    ensures FirstFitFrom(free, total, n, s) == Some(s)
  {
  }

  lemma FirstFitEnds(free: set<nat>, total: nat, n: nat, s: nat)
    requires s + n > total
    ensures FirstFitFrom(free, total, n, s) == None
  {
  }

  // ---------------------------------------------------------------- operations

  ghost function AllocPages(h: Heap, n: nat): (Heap, nat) {
    match FirstFit(h.free, h.total, n)
    case None => (h, 0)
    case Some(s) => (Heap(h.total, h.free - Block(s, n), (h.freeBytes - n * PAGE_SIZE) % (U64_MAX + 1)),
                     s * PAGE_SIZE)
  }

  /** Page i is one of the n pages from start on, counted modulo 2^64. */
  ghost predicate HitBy(i: nat, start: nat, n: nat) {
    InBlock(i, start, n) || InBlock(i + U64_MAX + 1, start, n)
  }

  /** The covered pages that freeing n pages from start on clears. */
  ghost function Freed(total: nat, start: nat, n: nat): set<nat> {
    set i: nat | i < total && HitBy(i, start, n)
  }

  ghost function FreePages(h: Heap, phys: nat, pages: nat): Heap {
    if phys == 0 || pages == 0 then h
    else Heap(h.total, h.free + Freed(h.total, phys / PAGE_SIZE, pages),
              (h.freeBytes + pages * PAGE_SIZE) % (U64_MAX + 1))
  }

  lemma FreedBlock(total: nat, start: nat, n: nat)
    requires start + n <= U64_MAX + 1
    ensures Freed(total, start, n) == set i | i in Block(start, n) && i < total
    ensures start + n <= total ==> Freed(total, start, n) == Block(start, n)
  {
  }

  /** The returned address 0 means "no such run" except for one case: a run at page 0. */
  lemma AllocReturnsZero(h: Heap, n: nat)
    requires Valid(h)
    ensures AllocPages(h, n).1 == 0
       <==> n == 0 || (forall t :: 0 <= t && t + n <= h.total ==> !(Block(t, n) <= h.free))
            || (n <= h.total && Block(0, n) <= h.free)
  {
    FirstFitIsLeast(h.free, h.total, n, 0);
  }

  /** As when page 0 is free: the run there is taken and 0 returned all the same. */
  lemma PageZeroIsLost()
    ensures var r := AllocPages(Heap(2, {0, 1}, 2 * PAGE_SIZE), 1);
            r.1 == 0 && r.0 == Heap(2, {1}, PAGE_SIZE)
  {
    var h := Heap(2, {0, 1}, 2 * PAGE_SIZE);
    assert Block(0, 1) == {0} by { assert InBlock(0, 0, 1); }
    assert FirstFit(h.free, h.total, 1) == Some(0);
  }

  /** What an allocation does, when a run of n free pages starts at s and none before. */
  lemma AllocTakesFirstRun(h: Heap, n: nat, s: nat)
    requires n > 0 && s + n <= h.total && Block(s, n) <= h.free
    requires forall t :: 0 <= t < s ==> !(Block(t, n) <= h.free)
    ensures AllocPages(h, n).1 == s * PAGE_SIZE
    ensures AllocPages(h, n).0 == Heap(h.total, h.free - Block(s, n), (h.freeBytes - n * PAGE_SIZE) % (U64_MAX + 1))
  {
    FirstFitIsLeast(h.free, h.total, n, s);
  }

  /** What it does otherwise: nothing. */
  lemma AllocWithoutRun(h: Heap, n: nat)
    requires n == 0 || forall t :: 0 <= t && t + n <= h.total ==> !(Block(t, n) <= h.free)
    ensures AllocPages(h, n) == (h, 0)
  {
    FirstFitIsLeast(h.free, h.total, n, 0);
  }

  /** The address returned is s * 4096, for s > 0, exactly when n consecutive free pages
      start at s and at no smaller number. */
  lemma AllocIsFirstFit(h: Heap, n: nat, s: nat)
    requires s > 0
    ensures AllocPages(h, n).1 == s * PAGE_SIZE
       <==> n > 0 && s + n <= h.total && Block(s, n) <= h.free
            && forall t :: 0 <= t < s ==> !(Block(t, n) <= h.free)
  {
    match FirstFit(h.free, h.total, n) {
      case None => FirstFitIsLeast(h.free, h.total, n, s);
      case Some(f) =>
        FirstFitIsLeast(h.free, h.total, n, f);
        FirstFitIsLeast(h.free, h.total, n, s);
        assert f * PAGE_SIZE == s * PAGE_SIZE ==> f == s;
    }
  }

  lemma SubsetSize(a: set<nat>, b: set<nat>)
    requires a <= b
    ensures |a| <= |b| && |b - a| == |b| - |a|
  {
    assert b == a + (b - a);
  }

  /** A successful allocation hands out exactly n free pages and keeps the counter right. */
  lemma AllocKeepsCount(h: Heap, n: nat)
    requires Counted(h)
    ensures Counted(AllocPages(h, n).0)
    ensures FirstFit(h.free, h.total, n).Some? ==> AllocPages(h, n).0.freeBytes == h.freeBytes - n * PAGE_SIZE
  {
    FreeBelowTotal(h);
    match FirstFit(h.free, h.total, n) {
      case None =>
      case Some(s) =>
        FirstFitIsLeast(h.free, h.total, n, s);
        BlockSize(s, n);
        SubsetSize(Block(s, n), h.free);
    }
  }

  lemma FreeBelowTotal(h: Heap)
    requires Valid(h)
    ensures |h.free| <= h.total
  {
    BlockSize(0, h.total);
    SubsetSize(h.free, Block(0, h.total));
  }

  /** Freeing what was just allocated restores the allocator. */
  lemma AllocThenFree(h: Heap, n: nat)
    requires Counted(h) && AllocPages(h, n).1 != 0
    ensures var (h', phys) := AllocPages(h, n); FreePages(h', phys, n) == h
  {
    AllocKeepsCount(h, n);
    FreeBelowTotal(h);
    var s := FirstFit(h.free, h.total, n).value;
    FirstFitIsLeast(h.free, h.total, n, s);
    var (h', phys) := AllocPages(h, n);
    assert phys / PAGE_SIZE == s;
    FreedBlock(h.total, s, n);
    assert FreePages(h', phys, n).free == h.free;
  }

  /** The byte counter after a credit of p pages, when the free pages grew by n. */
  lemma CreditedPages(f: nat, p: nat, n: nat)
    requires f + n < 0x10_0000_0000_0000
    ensures (f * PAGE_SIZE + p * PAGE_SIZE) % (U64_MAX + 1) == (f + n) * PAGE_SIZE <==> p % 0x10_0000_0000_0000 == n
  {
    var k, m := (f + p) / 0x10_0000_0000_0000, (f + p) % 0x10_0000_0000_0000;
    assert f * PAGE_SIZE + p * PAGE_SIZE == k * (U64_MAX + 1) + m * PAGE_SIZE;
    assert (f * PAGE_SIZE + p * PAGE_SIZE) % (U64_MAX + 1) == m * PAGE_SIZE;
  }

  lemma NewlyFreed(h: Heap, start: nat, n: nat)
    requires Valid(h)
    ensures var newly := Freed(h.total, start, n) - h.free;
            && h.free + Freed(h.total, start, n) == h.free + newly && |h.free + newly| == |h.free| + |newly|
            && (forall i :: i in h.free + newly ==> i < h.total)
  {
  }

  /** Every page of the block is covered by the bitmap and in use. */
  ghost predicate InUse(h: Heap, start: nat, n: nat) {
    forall i :: i in Block(start, n) ==> i < h.total && i !in h.free
  }

  lemma WholeBlockFreed(h: Heap, start: nat, n: nat)
    requires Valid(h) && start + n <= U64_MAX + 1
    ensures |Freed(h.total, start, n) - h.free| == n <==> InUse(h, start, n)
  {
    var b, newly := Block(start, n), Freed(h.total, start, n) - h.free;
    BlockSize(start, n);
    FreedBlock(h.total, start, n);
    SubsetSize(newly, b);
    if |newly| == n {
      assert b - newly == {};
    }
    if InUse(h, start, n) {
      assert newly == b;
    }
  }

  /** The j-th page number from start on, in 64 bits. */
  function PageAfter(start: nat, j: nat): nat { (start + j) % (U64_MAX + 1) }

  /** Page i is one of the n pages from start on. */
  ghost predicate Numbered(i: nat, start: nat, n: nat) {
    exists j: nat :: j < n && PageAfter(start, j) == i
  }

  /** What pmm_free_pages does to the bitmap and the counter. */
  lemma FreeMeaning(h: Heap, phys: nat, pages: nat, i: nat)
    requires Valid(h) && phys <= U64_MAX && pages <= U64_MAX
    ensures var h' := FreePages(h, phys, pages);
            && (i in h'.free <==> i in h.free || (phys != 0 && i < h.total && Numbered(i, phys / PAGE_SIZE, pages)))
            && h'.total == h.total
            && h'.freeBytes % (U64_MAX + 1)
               == (h.freeBytes + (if phys == 0 then 0 else pages * PAGE_SIZE)) % (U64_MAX + 1)
  {
    var start := phys / PAGE_SIZE;
    if i < h.total {
      NumberedIsHit(i, start, pages);
    }
  }

  lemma NumberedIsHit(i: nat, start: nat, n: nat)
    requires i < 0x10_0000_0000_0000 && start < 0x10_0000_0000_0000 && n <= U64_MAX
    ensures Numbered(i, start, n) <==> HitBy(i, start, n)
  {
    if Numbered(i, start, n) {
      var j: nat :| j < n && PageAfter(start, j) == i;
      assert start + j == i || start + j == i + U64_MAX + 1;
    }
    if InBlock(i, start, n) {
      assert PageAfter(start, i - start) == i;
    } else if InBlock(i + U64_MAX + 1, start, n) {
      assert PageAfter(start, i + U64_MAX + 1 - start) == i;
    }
  }

  /** The source credits bytes without looking at the pages. The counter, kept modulo 2^64,
      stays right exactly when the credit is the number of pages newly freed. For any count
      below 2^52 that is: every page of a non-null free is covered by the bitmap and in use;
      a double or out-of-range free is what breaks it. */
  lemma FreeKeepsCountIff(h: Heap, phys: nat, pages: nat)
    requires Counted(h) && phys <= U64_MAX && pages <= U64_MAX
    ensures Counted(FreePages(h, phys, pages))
       <==> phys == 0 || pages % 0x10_0000_0000_0000 == |Freed(h.total, phys / PAGE_SIZE, pages) - h.free|
    ensures pages < 0x10_0000_0000_0000 ==>
      (Counted(FreePages(h, phys, pages)) <==> phys == 0 || InUse(h, phys / PAGE_SIZE, pages))
  {
    hide Freed, Block, InUse;
    if phys == 0 {
      assert FreePages(h, phys, pages) == h;
    } else {
      CounterAfterFree(h, phys, pages);
      if pages < 0x10_0000_0000_0000 {
        PageBelow(phys, pages);
        WholeBlockFreed(h, phys / PAGE_SIZE, pages);
        hide FreePages, Counted, Valid;
        assert pages % 0x10_0000_0000_0000 == pages;
      }
    }
  }

  /** As when a free page is freed again, or a page beyond the bitmap. */
  lemma DoubleFreeMiscounts()
    ensures Counted(Heap(4, {1}, PAGE_SIZE))
    ensures !Counted(FreePages(Heap(4, {1}, PAGE_SIZE), 1 * PAGE_SIZE, 1))
    ensures !Counted(FreePages(Heap(4, {1}, PAGE_SIZE), 4 * PAGE_SIZE, 1))
  {
    var h := Heap(4, {1}, PAGE_SIZE);
    FreeKeepsCountIff(h, 1 * PAGE_SIZE, 1);
    FreeKeepsCountIff(h, 4 * PAGE_SIZE, 1);
    assert InBlock(1, 1, 1) && InBlock(4, 4, 1);
    assert 1 in Block(1, 1) && 4 in Block(4, 1);
  }

  lemma PageBelow(phys: nat, pages: nat)
    requires phys <= U64_MAX && pages < 0x10_0000_0000_0000
    ensures phys / PAGE_SIZE + pages <= U64_MAX + 1
  {
  }

  lemma CounterAfterFree(h: Heap, phys: nat, pages: nat)
    requires Counted(h) && 0 < phys <= U64_MAX
    ensures Counted(FreePages(h, phys, pages))
       <==> pages % 0x10_0000_0000_0000 == |Freed(h.total, phys / PAGE_SIZE, pages) - h.free|
  {
    var h' := FreePages(h, phys, pages);
    NothingFreed(h.total, phys / PAGE_SIZE);
    NewlyFreed(h, phys / PAGE_SIZE, pages);
    hide Freed;
    FreeBelowTotal(h');
    CreditedPages(|h.free|, pages, |Freed(h.total, phys / PAGE_SIZE, pages) - h.free|);
    assert Valid(h') && h'.total == h.total;
    assert h'.free == h.free + Freed(h.total, phys / PAGE_SIZE, pages);
    assert h'.freeBytes == (|h.free| * PAGE_SIZE + pages * PAGE_SIZE) % (U64_MAX + 1);
  }

  lemma NothingFreed(total: nat, start: nat)
    ensures Freed(total, start, 0) == {}
  {
  }

  // ---------------------------------------------------------------- runs

  /** An allocator and the blocks its callers hold: start page -> page count. */
  datatype Ledger = Ledger(heap: Heap, live: map<nat, nat>)

  datatype Call = Alloc(n: nat) | Free(start: nat)

  ghost function LivePages(live: map<nat, nat>): set<nat> {
    set s, i | s in live && i in Block(s, live[s]) :: i
  }

  /** Callers free only blocks they hold, whole. */
  ghost function Step(l: Ledger, c: Call): Ledger {
    match c
    case Alloc(n) =>
      var r := AllocPages(l.heap, n);
      if r.1 == 0 then l.(heap := r.0) else Ledger(r.0, l.live[r.1 / PAGE_SIZE := n])
    case Free(start) =>
      if start in l.live then
        Ledger(FreePages(l.heap, start * PAGE_SIZE, l.live[start]), l.live - {start})
      else l
  }

  ghost function Run(l: Ledger, cs: seq<Call>): Ledger
    decreases |cs|
  {
    if cs == [] then l else Run(Step(l, cs[0]), cs[1..])
  }

  /** Non-empty blocks, pairwise disjoint. */
  ghost predicate Separate(live: map<nat, nat>) {
    && (forall s :: s in live ==> 0 < s && 0 < live[s])
    && (forall s, t :: s in live && t in live && s != t ==> Block(s, live[s]) !! Block(t, live[t]))
  }

  ghost predicate LedgerOk(l: Ledger) {
    && Counted(l.heap) && 0 !in l.heap.free
    && Separate(l.live)
    && LivePages(l.live) !! l.heap.free
    && forall i :: i in LivePages(l.live) ==> i < l.heap.total
  }

  lemma LiveBlock(live: map<nat, nat>, s: nat)
    requires s in live
    ensures Block(s, live[s]) <= LivePages(live)
  {
  }

  lemma AddLive(live: map<nat, nat>, s: nat, n: nat)
    requires Separate(live) && 0 < s && 0 < n && Block(s, n) !! LivePages(live)
    ensures Separate(live[s := n])
    ensures LivePages(live[s := n]) == LivePages(live) + Block(s, n)
  {
    var live' := live[s := n];
    assert s in Block(s, n);
    if s in live {
      assert s in Block(s, live[s]);
      LiveBlock(live, s);
    }
    forall t | t in live ensures Block(t, live[t]) !! Block(s, n) { LiveBlock(live, t); }
    LiveBlock(live', s);
    forall i | i in LivePages(live) ensures i in LivePages(live') {
      var t :| t in live && i in Block(t, live[t]);
      LiveBlock(live', t);
    }
  }

  lemma DropLive(live: map<nat, nat>, s: nat)
    requires Separate(live) && s in live
    ensures Separate(live - {s})
    ensures LivePages(live - {s}) == LivePages(live) - Block(s, live[s])
    ensures Block(s, live[s]) <= LivePages(live)
  {
    var live' := live - {s};
    forall i | i in LivePages(live) && i !in Block(s, live[s]) ensures i in LivePages(live') {
      var t :| t in live && i in Block(t, live[t]);
      LiveBlock(live', t);
    }
    LiveBlock(live, s);
  }

  /** Every page the allocator or one of its callers owns. */
  ghost function Pages(l: Ledger): set<nat> { l.heap.free + LivePages(l.live) }

  /** What an allocation that succeeds returns. */
  lemma AllocSucceeds(h: Heap, n: nat)
    requires Counted(h) && AllocPages(h, n).1 != 0
    ensures var s := AllocPages(h, n).1 / PAGE_SIZE;
            0 < s && 0 < n && s + n <= h.total && Block(s, n) <= h.free
            && AllocPages(h, n).1 == s * PAGE_SIZE && AllocPages(h, n).0.free == h.free - Block(s, n)
  {
    var s := FirstFit(h.free, h.total, n).value;
    FirstFitIsLeast(h.free, h.total, n, s);
  }

  /** An allocation that returns 0 changes nothing, page 0 not being free. */
  lemma AllocFails(h: Heap, n: nat)
    requires Counted(h) && AllocPages(h, n).1 == 0 && 0 !in h.free
    ensures AllocPages(h, n).0 == h
  {
    FirstFitIsLeast(h.free, h.total, n, 0);
    assert n > 0 ==> InBlock(0, 0, n);
    assert n > 0 ==> 0 in Block(0, n);
  }

  lemma HandedOut(l: Ledger, h: Heap, s: nat, n: nat)
    requires LedgerOk(l) && 0 < s && 0 < n && s + n <= l.heap.total && Block(s, n) <= l.heap.free
    requires Counted(h) && h.total == l.heap.total && h.free == l.heap.free - Block(s, n)
    ensures LedgerOk(Ledger(h, l.live[s := n]))
    ensures Pages(Ledger(h, l.live[s := n])) == Pages(l)
  {
    var f, p, b := l.heap.free, LivePages(l.live), Block(s, n);
    MoveOver(f, p, b);
    AddLive(l.live, s, n);
    BelowTotal(b, p, s, n, l.heap.total);
  }

  lemma MoveOver(f: set<nat>, p: set<nat>, b: set<nat>)
    requires p !! f && b <= f
    ensures b !! p && p + b !! f - b && (f - b) + (p + b) == f + p
  {
  }

  lemma BelowTotal(b: set<nat>, p: set<nat>, s: nat, n: nat, total: nat)
    requires b == Block(s, n) && s + n <= total && forall i :: i in p ==> i < total
    ensures forall i :: i in p + b ==> i < total
  {
  }

  lemma AllocStepConserves(l: Ledger, n: nat)
    requires LedgerOk(l)
    ensures LedgerOk(Step(l, Alloc(n)))
    ensures Pages(Step(l, Alloc(n))) == Pages(l)
  {
    var r := AllocPages(l.heap, n);
    AllocKeepsCount(l.heap, n);
    if r.1 == 0 {
      AllocFails(l.heap, n);
    } else {
      AllocSucceeds(l.heap, n);
      HandedOut(l, r.0, r.1 / PAGE_SIZE, n);
      assert Step(l, Alloc(n)) == Ledger(r.0, l.live[r.1 / PAGE_SIZE := n]);
    }
  }

  lemma FreeStepConserves(l: Ledger, start: nat)
    requires LedgerOk(l)
    ensures LedgerOk(Step(l, Free(start)))
    ensures Pages(Step(l, Free(start))) == Pages(l)
  {
    if start in l.live {
      var n := l.live[start];
      DropLive(l.live, start);
      assert start + n - 1 in Block(start, n);
      FreeCounts(l.heap, start, n);
    }
  }

  lemma FreeCounts(h: Heap, s: nat, n: nat)
    requires Counted(h) && 0 < s && 0 < n && s + n <= h.total && Block(s, n) !! h.free
    ensures Counted(FreePages(h, s * PAGE_SIZE, n))
    ensures FreePages(h, s * PAGE_SIZE, n).free == h.free + Block(s, n)
  {
    var h' := FreePages(h, s * PAGE_SIZE, n);
    assert s * PAGE_SIZE / PAGE_SIZE == s;
    FreedBlock(h.total, s, n);
    assert h'.free == h.free + Block(s, n);
    BlockSize(s, n);
    FreeBelowTotal(h');
  }

  /** Over any run of allocations and legal frees: live blocks stay pairwise disjoint and
      used, the counter stays right, and no page is gained or lost. */
  lemma {:induction false} RunConserves(l: Ledger, cs: seq<Call>)
    requires LedgerOk(l)
    ensures LedgerOk(Run(l, cs))
    ensures Pages(Run(l, cs)) == Pages(l)
    decreases |cs|
  {
    if cs != [] {
      match cs[0] {
        case Alloc(n) => AllocStepConserves(l, n);
        case Free(s) => FreeStepConserves(l, s);
      }
      RunConserves(Step(l, cs[0]), cs[1..]);
    }
  }
}
