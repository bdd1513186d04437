/** Address spaces as partial maps: what mapping, unmapping and creating a space mean for
    the processor's walk in every space, one call and any run of calls. */
module Spaces {
  import opened Words
  import opened Pte
  import opened PageHeap
  import opened PageTables
  import opened TableLemmas

  // ---------------------------------------------------------------- one call

  /** In every space, for every address, the walk gives the same translation. */
  ghost predicate SameWalks(s: Vm, s': Vm) {
    forall r, va: nat :: IsRoot(s, r) ==> Walk(s'.mem, r, va) == Walk(s.mem, r, va)
  }

  /** The page of va now translates to tr in space r and in the spaces that share its PML4
      slot with r; no other translation in any space changes. */
  ghost predicate SetsPage(s: Vm, s': Vm, r: nat, va: nat, tr: Translation) {
    forall r', va': nat :: IsRoot(s, r') ==>
      Walk(s'.mem, r', va') ==
        if Vpn(va') == Vpn(va) && Shares(s.mem, r, r', Idx(va, 0)) then tr else Walk(s.mem, r', va')
  }

  /** Which spaces share which PML4 slots. */
  ghost predicate SameSharing(s: Vm, s': Vm) {
    forall r, r', i :: IsRoot(s, r) && IsRoot(s, r') && 0 <= i < 512 ==>
      (Shares(s'.mem, r, r', i) <==> Shares(s.mem, r, r', i))
  }

  /** What every call keeps: the invariant, the spaces and what they share, and the paths
      the kernel can follow. */
  ghost predicate Preserves(s: Vm, s': Vm) {
    && Wf(s') && |s'.mem| == |s.mem| && s'.heap.total == s.heap.total
    && (forall t :: t in s.nodes ==> t in s'.nodes && s'.nodes[t] == s.nodes[t])
    && SameSharing(s, s')
    && (forall r, va: nat :: IsRoot(s, r) && Clean(s.mem, r, va) ==> Clean(s'.mem, r, va))
  }

  lemma GrewPreserves(s: Vm, s': Vm, t: nat)
    requires Wf(s) && Wf(s') && Grew(s, s') && UpperKept(s, s', t, 0)
    ensures Preserves(s, s') && SameWalks(s, s')
  {
    forall r, va: nat | IsRoot(s, r)
      ensures Walk(s'.mem, r, va) == Walk(s.mem, r, va)
      ensures Clean(s.mem, r, va) ==> Clean(s'.mem, r, va)
    {
      GrewKeepsWalk(s, s', r, va, 0);
    }
    forall r, r', i | IsRoot(s, r) && IsRoot(s, r') && 0 <= i < 512
      ensures Shares(s'.mem, r, r', i) <==> Shares(s.mem, r, r', i)
    {
      SharingUnchanged(s, s', t, r, r', i);
    }
  }

  /** A table created under one PML4 is shared with no other space. */
  lemma SharingUnchanged(s: Vm, a: Vm, t: nat, r: nat, r': nat, i: nat)
    requires Wf(s) && Wf(a) && Grew(s, a) && IsRoot(s, r) && IsRoot(s, r') && i < 512
    requires UpperKept(s, a, t, 0)
    ensures Shares(a.mem, r, r', i) <==> Shares(s.mem, r, r', i)
  {
    if r != r' {
      assert EntryKept(s, a, r, i) && EntryKept(s, a, r', i);
      assert r != t ==> a.mem[r] == s.mem[r];
      assert r' != t ==> a.mem[r'] == s.mem[r'];
      assert Linked(s, r, i) && Linked(s, r', i);
    }
  }

  /** Writing the leaf slot that the walk of va in space r arrives at. */
  lemma LeafWrite(s: Vm, s': Vm, r: nat, va: nat, l: nat, e: Word)
    requires Wf(s) && IsRoot(s, r) && Arrives(s, r, va, 0, l)
    requires s' == s.(mem := Put(s.mem, l, Idx(va, 3), e))
    ensures Preserves(s, s') && SetsPage(s, s', r, va, LeafTranslation(e))
  {
    SetLeafWf(s, l, Idx(va, 3), e);
    forall r', va': nat | IsRoot(s, r')
      ensures Walk(s'.mem, r', va') ==
                if Vpn(va') == Vpn(va) && Shares(s.mem, r, r', Idx(va, 0)) then LeafTranslation(e)
                else Walk(s.mem, r', va')
      ensures Clean(s.mem, r', va') ==> Clean(s'.mem, r', va')
    {
      SetLeafWalk(s, l, Idx(va, 3), e, r', va', 0);
      SameLeafSlot(s, r, va, r', va', l);
    }
  }

  /** Growth and then a change of one page is a change of that page; what is shared is
      judged before the growth. */
  lemma GrowThenSet(s: Vm, a: Vm, s': Vm, r: nat, va: nat, tr: Translation)
    requires Wf(s) && Wf(a) && Grew(s, a) && IsRoot(s, r)
    requires UpperKept(s, a, r, 0)
    requires Preserves(a, s') && SetsPage(a, s', r, va, tr)
    ensures Preserves(s, s') && SetsPage(s, s', r, va, tr)
  {
    GrewPreserves(s, a, r);
    var i := Idx(va, 0);
    forall r', va': nat | IsRoot(s, r')
      ensures Walk(s'.mem, r', va') ==
                if Vpn(va') == Vpn(va) && Shares(s.mem, r, r', i) then tr else Walk(s.mem, r', va')
    {
      assert IsRoot(a, r');
    }
  }

  /** vmm_map_page_cr3 and vmm_map_page_mmio, for any flags word: success exactly when the
      free pages cover the missing tables. Success sets exactly that page, to exactly that
      leaf; failure changes no translation in any space. */
  lemma MapPageEffect(s: Vm, r: nat, va: nat, phys: nat, flags: Word)
    requires Wf(s) && IsRoot(s, r) && Clean(s.mem, r, va)
    ensures var m := MapPage(s, r, va, phys, flags);
            && Preserves(s, m.0)
            && (m.1 <==> Missing(s.mem, r, va, 0) <= |s.heap.free|)
            && (if m.1 then SetsPage(s, m.0, r, va, Page(Leaf(phys, flags))) else SameWalks(s, m.0))
  {
    EnsureFromGrows(s, r, va, 0, flags);
    var e := EnsurePt(s, r, va, flags);
    GrewPreserves(s, e.0, r);
    if e.1.Some? {
      LeafBits(phys, flags, PTE_P);
      var m := MapPage(s, r, va, phys, flags);
      LeafWrite(e.0, m.0, r, va, e.1.value, Leaf(phys, flags));
      GrowThenSet(s, e.0, m.0, r, va, Page(Leaf(phys, flags)));
    }
  }

  /** On a clean path the kernel's masking takes the processor's steps. */
  lemma SwReachIsReach(s: Vm, r: nat, va: nat)
    requires Wf(s) && IsRoot(s, r) && Clean(s.mem, r, va)
    ensures SwReach(s.mem, r, va) == ReachFrom(s.mem, r, va, 0)
    ensures SwReach(s.mem, r, va).None? ==> Walk(s.mem, r, va) == Absent
  {
    var e4 := Get(s.mem, r, Idx(va, 0));
    if Present(e4) {
      SwIsHw(e4);
      var e3 := Get(s.mem, HwFrame(e4), Idx(va, 1));
      if Present(e3) {
        SwIsHw(e3);
        var e2 := Get(s.mem, HwFrame(e3), Idx(va, 2));
        if Present(e2) {
          SwIsHw(e2);
        }
      }
    }
  }

  /** vmm_unmap_page_cr3: afterwards that page, and no other, translates to nothing. */
  lemma UnmapPageEffect(s: Vm, r: nat, va: nat)
    requires Wf(s) && IsRoot(s, r) && Clean(s.mem, r, va)
    ensures var u := UnmapPage(s, r, va);
            && Preserves(s, u.0) && SetsPage(s, u.0, r, va, Absent)
            && (u.1 <==> Missing(s.mem, r, va, 0) == 0)
  {
    SwReachIsReach(s, r, va);
    match SwReach(s.mem, r, va) {
      case None =>
        forall r', va': nat | IsRoot(s, r') && Vpn(va') == Vpn(va) && Shares(s.mem, r, r', Idx(va, 0))
          ensures Walk(s.mem, r', va') == Absent
        {
          SharedWalk(s.mem, r, r', va);
          WalkByPage(s.mem, r', va, va');
        }
      case Some(l) =>
        SameLeafSlot(s, r, va, r, va, l);
        LeafWrite(s, UnmapPage(s, r, va).0, r, va, l, Zero());
    }
    MissingIsUnreached(s.mem, r, va, 0);
  }

  lemma {:induction false} MissingIsUnreached(m: Mem, t: nat, va: nat, d: nat)
    requires d < 4
    ensures Missing(m, t, va, d) == 0 <==> ReachFrom(m, t, va, d).Some?
    decreases 4 - d
  {
    if d < 3 {
      MissingIsUnreached(m, HwFrame(Get(m, t, Idx(va, d))), va, d + 1);
    }
  }

  /** Under a shared PML4 slot, both spaces see the same translation. */
  lemma SharedWalk(m: Mem, r: nat, r': nat, va: nat)
    requires Shares(m, r, r', Idx(va, 0))
    ensures Walk(m, r', va) == Walk(m, r, va)
  {
  }

  /** f is a space with an empty lower half and the kernel's upper half. */
  ghost predicate KernelCopy(s: Vm, s': Vm, kernel: nat, f: nat) {
    && IsRoot(s', f) && f !in s.nodes
    && (forall va: nat :: Idx(va, 0) < 256 ==> Walk(s'.mem, f, va) == Absent && Clean(s'.mem, f, va))
    && (forall va: nat :: Idx(va, 0) >= 256 ==> Walk(s'.mem, f, va) == Walk(s.mem, kernel, va))
    && (forall va: nat :: Idx(va, 0) >= 256 && Clean(s.mem, kernel, va) ==> Clean(s'.mem, f, va))
    && (forall i :: 256 <= i < 512 && Present(Get(s.mem, kernel, i)) ==> Shares(s'.mem, kernel, f, i))
  }

  /** vmm_create_space: the new space starts with an empty lower half and the kernel's
      upper half, sharing each upper slot that is present; nothing else changes. It fails
      exactly when no page is free. */
  lemma CreateSpaceEffect(s: Vm, kernel: nat)
    requires Wf(s) && IsRoot(s, kernel)
    ensures var c := CreateSpace(s, kernel);
            && Preserves(s, c.0) && SameWalks(s, c.0)
            && (c.1.None? <==> s.heap.free == {})
            && (c.1.Some? ==> KernelCopy(s, c.0, kernel, c.1.value))
  {
    AllocTableFresh(s);
    var c := CreateSpace(s, kernel);
    if c.1.Some? {
      NewRootEffect(s, c.0, kernel, c.1.value);
    }
  }

  lemma NewRootEffect(s: Vm, s': Vm, kernel: nat, f: nat)
    requires Wf(s) && IsRoot(s, kernel) && NewRoot(s, s', kernel, f)
    ensures Preserves(s, s') && SameWalks(s, s') && KernelCopy(s, s', kernel, f)
  {
    TablesKept(s, s');
    NewRootWf(s, s', kernel, f);
    forall va: nat
      ensures Idx(va, 0) < 256 ==> Walk(s'.mem, f, va) == Absent && Clean(s'.mem, f, va)
      ensures Idx(va, 0) >= 256 ==> Walk(s'.mem, f, va) == Walk(s.mem, kernel, va)
      ensures Idx(va, 0) >= 256 && Clean(s.mem, kernel, va) ==> Clean(s'.mem, f, va)
    {
      NewRootWalk(s, s', kernel, f, va);
    }
  }

  /** Entry by entry, the table in f is a new PML4 with the kernel's upper half. */
  ghost predicate NewRoot(s: Vm, s': Vm, kernel: nat, f: nat) {
    && f in s.heap.free && f < |s.mem| == |s'.mem| && s'.user == s.user
    && s'.nodes == s.nodes[f := Node(0, f, 0)]
    && Counted(s'.heap) && s'.heap.total == s.heap.total && s'.heap.free == s.heap.free - {f}
    && (forall t :: 0 <= t < |s.mem| && t != f ==> s'.mem[t] == s.mem[t])
    && (forall i :: 0 <= i < 256 ==> !Present(Get(s'.mem, f, i)))
    && (forall i :: 256 <= i < 512 ==> Get(s'.mem, f, i) == Get(s.mem, kernel, i))
  }

  lemma NewRootWf(s: Vm, s': Vm, kernel: nat, f: nat)
    requires Wf(s) && IsRoot(s, kernel) && NewRoot(s, s', kernel, f)
    ensures Wf(s')
  {
    forall t, i | t in s'.nodes && 0 <= i < 512 ensures Linked(s', t, i) {
      if t in s.nodes {
        assert Linked(s, t, i);
      } else {
        assert Linked(s, kernel, i);
      }
    }
  }

  lemma {:induction false} SameTablesWalk(s: Vm, m: Mem, t: nat, va: nat, d: nat)
    requires Wf(s) && d < 4 && t in s.nodes && s.nodes[t].depth == d
    requires |m| == |s.mem| && forall u :: u in s.nodes ==> m[u] == s.mem[u]
    ensures WalkFrom(m, t, va, d) == WalkFrom(s.mem, t, va, d)
    ensures CleanFrom(m, t, va, d) == CleanFrom(s.mem, t, va, d)
    decreases 4 - d
  {
    assert Linked(s, t, Idx(va, d));
    var e := Get(s.mem, t, Idx(va, d));
    if d < 3 && Follows(d, e) {
      SameTablesWalk(s, m, HwFrame(e), va, d + 1);
    }
  }

  /** Memory that is no table can be written freely. */
  lemma TablesKept(s: Vm, s': Vm)
    requires Wf(s) && |s'.mem| == |s.mem| && forall u :: u in s.nodes ==> s'.mem[u] == s.mem[u]
    ensures SameWalks(s, s')
    ensures forall r, va: nat :: IsRoot(s, r) ==> Clean(s'.mem, r, va) == Clean(s.mem, r, va)
  {
    forall r, va: nat | IsRoot(s, r)
      ensures Walk(s'.mem, r, va) == Walk(s.mem, r, va) && Clean(s'.mem, r, va) == Clean(s.mem, r, va)
    {
      SameTablesWalk(s, s'.mem, r, va, 0);
    }
  }

  lemma NewRootWalk(s: Vm, s': Vm, kernel: nat, f: nat, va: nat)
    requires Wf(s) && IsRoot(s, kernel) && NewRoot(s, s', kernel, f)
    ensures Idx(va, 0) < 256 ==> Walk(s'.mem, f, va) == Absent && Clean(s'.mem, f, va)
    ensures Idx(va, 0) >= 256 ==> Walk(s'.mem, f, va) == Walk(s.mem, kernel, va)
    ensures Idx(va, 0) >= 256 && Clean(s.mem, kernel, va) ==> Clean(s'.mem, f, va)
  {
    var e := Get(s.mem, kernel, Idx(va, 0));
    assert Linked(s, kernel, Idx(va, 0));
    if Present(e) {
      SameTablesWalk(s, s'.mem, HwFrame(e), va, 1);
    }
  }
}
