/** Mapping and unmapping a range of pages one by one, as mmio_map and mmio_unmap do. */
module MmioRange {
  import opened Words
  import opened Pte
  import opened PageTables
  import opened TableLemmas
  import opened Spaces
  import opened SimpleSpaces

  /** Maps n pages in order and stops at the first failure; the number of pages mapped. */
  ghost function MapRange(s: Vm, r: nat, v: nat, p: nat, n: nat, flags: Word): (Vm, nat)
    decreases n
  {
    if n == 0 then (s, 0)
    else
      var m := MapPage(s, r, v, p, flags);
      if !m.1 then (m.0, 0)
      else
        var rest := MapRange(m.0, r, v + PAGE_SIZE, p + PAGE_SIZE, n - 1, flags);
        (rest.0, rest.1 + 1)
  }

  /** n0 - n pages of a range are mapped and n are left. */
  ghost predicate MapProgress(s0: Vm, v0: nat, p0: nat, n0: nat, s: Vm, v: nat, p: nat, n: nat, r: nat, flags: Word) {
    && n <= n0
    && MapRange(s0, r, v0, p0, n0, flags).0 == MapRange(s, r, v, p, n, flags).0
    && MapRange(s0, r, v0, p0, n0, flags).1 == n0 - n + MapRange(s, r, v, p, n, flags).1
  }

  lemma MapProgressStep(s0: Vm, v0: nat, p0: nat, n0: nat, s: Vm, v: nat, p: nat, n: nat, r: nat, flags: Word)
    requires n > 0 && MapProgress(s0, v0, p0, n0, s, v, p, n, r, flags)
    ensures var m := MapPage(s, r, v, p, flags);
            && (m.1 ==> MapProgress(s0, v0, p0, n0, m.0, v + PAGE_SIZE, p + PAGE_SIZE, n - 1, r, flags))
            && (!m.1 ==> MapRange(s0, r, v0, p0, n0, flags).0 == m.0 && MapRange(s0, r, v0, p0, n0, flags).1 == n0 - n)
  {
    hide MapRange, MapPage;
    MapRangeUnfolds(s, v, p, n, r, flags);
  }

  lemma MapRangeUnfolds(s: Vm, v: nat, p: nat, n: nat, r: nat, flags: Word)
    requires n > 0
    ensures var m := MapPage(s, r, v, p, flags);
            && (!m.1 ==> MapRange(s, r, v, p, n, flags).0 == m.0 && MapRange(s, r, v, p, n, flags).1 == 0)
            && (m.1 ==> var rest := MapRange(m.0, r, v + PAGE_SIZE, p + PAGE_SIZE, n - 1, flags);
                        MapRange(s, r, v, p, n, flags).0 == rest.0 && MapRange(s, r, v, p, n, flags).1 == rest.1 + 1)
  {
    hide MapPage;
  }

  /** Unmaps n pages in order, whether or not each was mapped. */
  ghost function UnmapRange(s: Vm, r: nat, v: nat, n: nat): Vm
    decreases n
  {
    if n == 0 then s else UnmapRange(UnmapPage(s, r, v).0, r, v + PAGE_SIZE, n - 1)
  }

  /** n pages from v on, within the 64-bit addresses. */
  predicate PageRange(v: nat, n: nat) {
    v % PAGE_SIZE == 0 && v + n * PAGE_SIZE <= U64_MAX + 1
  }

  /** Page numbers go round at 2^36: the walk ignores an address's upper 16 bits. */
  const VPNS: nat := 0x10_0000_0000

  ghost predicate CleanRange(m: Mem, r: nat, v: nat, n: nat) {
    forall j :: 0 <= j < n ==> Clean(m, r, v + j * PAGE_SIZE)
  }

  /** How many pages after v the page of va is. */
  function Offset(va: nat, v: nat): (o: nat)
    ensures o < VPNS
  {
    (Vpn(va) - Vpn(v)) % VPNS
  }

  /** The page of va is one of k pages from v on. */
  predicate InRange(va: nat, v: nat, k: nat) { Offset(va, v) < k }

  lemma RangePages(v: nat, j: nat)
    requires v % PAGE_SIZE == 0
    ensures Vpn(v + j * PAGE_SIZE) == (Vpn(v) + j) % VPNS
  {
    assert (v + j * PAGE_SIZE) / PAGE_SIZE == v / PAGE_SIZE + j;
  }

  /** What page j of a range translates to: nothing, or frame p/PAGE_SIZE + j with flags. */
  datatype Target = Nothing | Frames(p: nat, flags: Word)

  function At(x: Target, j: nat): Translation {
    match x
    case Nothing => Absent
    case Frames(p, flags) => Page(Leaf(p + j * PAGE_SIZE, flags))
  }

  function Next(x: Target): Target {
    match x
    case Nothing => Nothing
    case Frames(p, flags) => Frames(p + PAGE_SIZE, flags)
  }

  /** Exactly the first k pages of the range now translate as given, in r and the spaces
      that share their slot with it; no other translation in any space changes. */
  ghost predicate SetsRange(s: Vm, s': Vm, r: nat, v: nat, k: nat, x: Target) {
    forall r', va: nat :: IsRoot(s, r') ==> RangeWalk(s, s', r, v, k, x, r', va)
  }

  ghost predicate RangeWalk(s: Vm, s': Vm, r: nat, v: nat, k: nat, x: Target, r': nat, va: nat) {
    Walk(s'.mem, r', va) ==
      if InRange(va, v, k) && Shares(s.mem, r, r', Idx(va, 0)) then At(x, Offset(va, v)) else Walk(s.mem, r', va)
  }

  lemma PreservesTransitive(a: Vm, b: Vm, c: Vm)
    requires Preserves(a, b) && Preserves(b, c)
    ensures Preserves(a, c)
  {
  }

  lemma CleanLater(s: Vm, s': Vm, r: nat, v: nat, n: nat)
    requires n > 0 && IsRoot(s, r) && Preserves(s, s') && CleanRange(s.mem, r, v, n)
    ensures Wf(s') && IsRoot(s', r) && CleanRange(s'.mem, r, v + PAGE_SIZE, n - 1)
  {
    forall j | 0 <= j < n - 1 ensures Clean(s'.mem, r, v + PAGE_SIZE + j * PAGE_SIZE) {
      assert v + PAGE_SIZE + j * PAGE_SIZE == v + (j + 1) * PAGE_SIZE;
      assert Clean(s.mem, r, v + (j + 1) * PAGE_SIZE);
    }
  }

  /** The first page and then the rest make the range, if it does not come round to the
      first page again (where that would matter). */
  lemma FirstThenRest(s: Vm, a: Vm, s': Vm, r: nat, v: nat, k: nat, x: Target)
    requires v % PAGE_SIZE == 0 && (x.Nothing? || k < VPNS) && IsRoot(s, r) && Preserves(s, a)
    requires SetsPage(s, a, r, v, At(x, 0)) && SetsRange(a, s', r, v + PAGE_SIZE, k, Next(x))
    ensures SetsRange(s, s', r, v, k + 1, x)
  {
    hide Preserves, Walk, Shares, Offset;
    var k1 := k + 1;
    forall r', va: nat | IsRoot(s, r') ensures RangeWalk(s, s', r, v, k1, x, r', va) {
      StillShares(s, a, r, r', va);
      assert RangeWalk(a, s', r, v + PAGE_SIZE, k, Next(x), r', va);
      RangeCases(va, v, k);
      IndicesArePageNumber(va, v);
      if Offset(va, v) > 0 {
        NextAt(x, Offset(va, v));
      }
    }
  }

  lemma StillShares(s: Vm, a: Vm, r: nat, r': nat, va: nat)
    requires IsRoot(s, r) && IsRoot(s, r') && Preserves(s, a)
    ensures IsRoot(a, r') && (Shares(a.mem, r, r', Idx(va, 0)) <==> Shares(s.mem, r, r', Idx(va, 0)))
  {
  }

  lemma NextAt(x: Target, j: nat)
    requires j > 0
    ensures At(Next(x), j - 1) == At(x, j)
  {
    hide Leaf;
    assert j * PAGE_SIZE == PAGE_SIZE + (j - 1) * PAGE_SIZE;
  }

  lemma RangeCases(va: nat, v: nat, k: nat)
    requires v % PAGE_SIZE == 0
    ensures InRange(va, v, k + 1) <==> Vpn(va) == Vpn(v) || InRange(va, v + PAGE_SIZE, k)
    ensures Offset(va, v) == 0 <==> Vpn(va) == Vpn(v)
    ensures Offset(va, v + PAGE_SIZE) == if Vpn(va) == Vpn(v) then VPNS - 1 else Offset(va, v) - 1
  {
    RangePages(v, 1);
  }

  /** mmio_map's loop: on success every page of the range, on failure exactly a prefix of
      it, translates to its frame with the given flags; nothing else changes anywhere. */
  lemma {:induction false} MapRangeEffect(s: Vm, r: nat, v: nat, p: nat, n: nat, flags: Word)
    requires Wf(s) && IsRoot(s, r) && PageRange(v, n) && n <= VPNS && CleanRange(s.mem, r, v, n)
    ensures var m := MapRange(s, r, v, p, n, flags);
            && m.1 <= n && Preserves(s, m.0) && SetsRange(s, m.0, r, v, m.1, Frames(p, flags))
    decreases n
  {
    hide Wf, Preserves, MapPage, Walk, Clean, SetsRange, SameWalks, SetsPage;
    if n == 0 {
      SamePreserves(s);
      NoPages(s, s, r, v, Frames(p, flags));
    } else {
      RangeStarts(s.mem, r, v, n);
      MapPageEffect(s, r, v, p, flags);
      var a := MapPage(s, r, v, p, flags);
      if a.1 {
        CleanLater(s, a.0, r, v, n);
        MapRangeEffect(a.0, r, v + PAGE_SIZE, p + PAGE_SIZE, n - 1, flags);
        var m := MapRange(a.0, r, v + PAGE_SIZE, p + PAGE_SIZE, n - 1, flags);
        PreservesTransitive(s, a.0, m.0);
        FirstThenRest(s, a.0, m.0, r, v, m.1, Frames(p, flags));
      } else {
        NoPages(s, a.0, r, v, Frames(p, flags));
      }
    }
  }

  /** The loop stops before its end only when no page is free and the path to the first page
      not mapped still lacks a table. */
  lemma {:induction false} MapRangeStops(s: Vm, r: nat, v: nat, p: nat, n: nat, flags: Word)
    requires Wf(s) && IsRoot(s, r) && PageRange(v, n) && CleanRange(s.mem, r, v, n)
    requires MapRange(s, r, v, p, n, flags).1 < n
    ensures var m := MapRange(s, r, v, p, n, flags);
            m.0.heap.free == {} && Missing(m.0.mem, r, v + m.1 * PAGE_SIZE, 0) > 0
    decreases n
  {
    hide Wf, Preserves, MapPage, Clean, SameWalks, SetsPage, Missing;
    RangeStarts(s.mem, r, v, n);
    MapPageEffect(s, r, v, p, flags);
    var a := MapPage(s, r, v, p, flags);
    if a.1 {
      CleanLater(s, a.0, r, v, n);
      MapRangeStops(a.0, r, v + PAGE_SIZE, p + PAGE_SIZE, n - 1, flags);
      var k := MapRange(a.0, r, v + PAGE_SIZE, p + PAGE_SIZE, n - 1, flags).1;
      assert v + PAGE_SIZE + k * PAGE_SIZE == v + (k + 1) * PAGE_SIZE;
    } else {
      MapFailsEmpty(s, r, v, p, flags);
      assert v + 0 * PAGE_SIZE == v;
    }
  }

  lemma SamePreserves(s: Vm)
    requires Wf(s)
    ensures Preserves(s, s) && SameWalks(s, s)
  {
  }

  lemma NoPages(s: Vm, s': Vm, r: nat, v: nat, x: Target)
    requires SameWalks(s, s')
    ensures SetsRange(s, s', r, v, 0, x)
  {
  }

  lemma RangeStarts(m: Mem, r: nat, v: nat, n: nat)
    requires n > 0 && CleanRange(m, r, v, n) && PageRange(v, n)
    ensures Clean(m, r, v) && PageRange(v + PAGE_SIZE, n - 1)
  {
    NextRange(v, n);
    hide PageRange, Clean;
    assert v + 0 * PAGE_SIZE == v;
    assert Clean(m, r, v + 0 * PAGE_SIZE);
  }

  lemma NextRange(v: nat, n: nat)
    requires n > 0 && PageRange(v, n)
    ensures PageRange(v + PAGE_SIZE, n - 1)
  {
  }

  /** mmio_unmap's loop removes exactly the pages of the range. */
  lemma {:induction false} UnmapRangeEffect(s: Vm, r: nat, v: nat, n: nat)
    requires Wf(s) && IsRoot(s, r) && PageRange(v, n) && CleanRange(s.mem, r, v, n)
    ensures Preserves(s, UnmapRange(s, r, v, n)) && SetsRange(s, UnmapRange(s, r, v, n), r, v, n, Nothing)
    decreases n
  {
    hide Wf, Preserves, UnmapPage, Walk, Clean, SetsRange, SameWalks, SetsPage;
    if n == 0 {
      SamePreserves(s);
      NoPages(s, s, r, v, Nothing);
    } else {
      RangeStarts(s.mem, r, v, n);
      UnmapPageEffect(s, r, v);
      var a := UnmapPage(s, r, v).0;
      CleanLater(s, a, r, v, n);
      UnmapRangeEffect(a, r, v + PAGE_SIZE, n - 1);
      var s' := UnmapRange(a, r, v + PAGE_SIZE, n - 1);
      PreservesTransitive(s, a, s');
      FirstThenRest(s, a, s', r, v, n - 1, Nothing);
    }
  }
}
