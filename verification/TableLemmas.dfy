/** What each page-table operation does to every walk in every address space. */
module TableLemmas {
  import opened Words
  import opened Pte
  import opened PageHeap
  import opened PageTables

  // ---------------------------------------------------------------- creating tables

  /** A table page comes from the free pages, so it is no table and no user page yet; the
      allocation fails exactly when no page is free. */
  lemma AllocTableFresh(s: Vm)
    requires Wf(s)
    ensures match AllocTable(s).1
            case None => AllocTable(s).0 == s && s.heap.free == {}
            case Some(f) =>
              && f in s.heap.free && 0 < f < s.heap.total && f !in s.nodes && f !in s.user
              && AllocTable(s).0 == s.(mem := s.mem[f := EmptyTable()], heap := AllocTable(s).0.heap)
              && Counted(AllocTable(s).0.heap) && AllocTable(s).0.heap.total == s.heap.total
              && AllocTable(s).0.heap.free == s.heap.free - {f}
  {
    AllocKeepsCount(s.heap, 1);
    if AllocTable(s).1 == None {
      AllocFails(s.heap, 1);
      FirstFitIsLeast(s.heap.free, s.heap.total, 1, 0);
      if f :| f in s.heap.free {
        OnePage(f);
      }
    } else {
      AllocSucceeds(s.heap, 1);
      var f := AllocTable(s).1.value;
      OnePage(f);
    }
  }

  lemma OnePage(f: nat)
    ensures Block(f, 1) == {f}
  {
    assert InBlock(f, f, 1);
  }

  /** Hanging an empty table f in an absent slot. */
  lemma AttachGrows(s: Vm, s': Vm, t: nat, i: nat, f: nat, e: Word)
    requires Wf(s) && t in s.nodes && i < 512 && s.nodes[t].depth < 3
    requires !Present(Get(s.mem, t, i))
    requires f in s.heap.free && f < |s.mem| && TablePointer(e) && HwFrame(e) == f
    requires Counted(s'.heap) && s'.heap.total == s.heap.total && s'.heap.free == s.heap.free - {f}
    requires s'.mem == Put(s.mem[f := EmptyTable()], t, i, e) && s'.user == s.user
    requires s'.nodes == s.nodes[f := Node(s.nodes[t].depth + 1, t, i)]
    ensures Wf(s') && Grew(s, s')
  {
    assert f != t;
    forall t', j | t' in s.nodes && 0 <= j < 512
      ensures Get(s'.mem, t', j) == if t' == t && j == i then e else Get(s.mem, t', j)
    {
    }
    forall j | 0 <= j < 512 ensures !Present(Get(s'.mem, f, j)) {
    }
    forall t', j | t' in s'.nodes && 0 <= j < 512 ensures Linked(s', t', j) {
      if t' in s.nodes { assert Linked(s, t', j); }
    }
    forall t', j | t' in s.nodes && 0 <= j < 512 ensures EntryKept(s, s', t', j) {
    }
    forall t', j | t' in s'.nodes && t' !in s.nodes && 0 <= j < 512 ensures EntryNew(s, s', t', j) {
    }
  }

  /** What ensure_pt knows after one level. */
  ghost predicate LevelDone(s: Vm, s': Vm, t: nat, va: nat, d: nat, c: Option<nat>)
    requires d < 3
  {
    var i := Idx(va, d);
    var e, e' := Get(s.mem, t, i), Get(s'.mem, t, i);
    match c
    case None => s' == s && !Present(e) && s.heap.free == {}
    case Some(c) =>
      && TablePointer(e') && HwFrame(e') == c
      && c in s'.nodes && s'.nodes[c].depth == d + 1
      && (if Present(e) then s' == s
          else s.heap.free != {} && |s'.heap.free| == |s.heap.free| - 1
               && forall j :: 0 <= j < 512 ==> !Present(Get(s'.mem, c, j)))
  }

  ghost predicate LevelEnsured(s: Vm, s': Vm, t: nat, va: nat, d: nat, c: Option<nat>)
    requires d < 3
  {
    && Wf(s') && Grew(s, s') && LevelDone(s, s', t, va, d, c)
    && forall u :: u in s.nodes && u != t && u < |s.mem| && u < |s'.mem| ==> s'.mem[u] == s.mem[u]
  }

  lemma GrewReflexive(s: Vm)
    ensures Grew(s, s)
  {
  }

  lemma EnsureLevelGrows(s: Vm, t: nat, va: nat, d: nat, flags: Word)
    requires Wf(s) && t in s.nodes && d < 3 && s.nodes[t].depth == d
    requires Present(Get(s.mem, t, Idx(va, d))) ==> TablePointer(Get(s.mem, t, Idx(va, d)))
    ensures LevelEnsured(s, EnsureLevel(s, t, va, d, flags).0, t, va, d, EnsureLevel(s, t, va, d, flags).1)
  {
    var i := Idx(va, d);
    if Present(Get(s.mem, t, i)) {
      GrewReflexive(s);
      SwIsHw(Get(s.mem, t, i));
      assert Linked(s, t, i);
    } else {
      AllocTableFresh(s);
      var a := AllocTable(s);
      if a.1.None? {
        GrewReflexive(s);
      } else {
        var f := a.1.value;
        TableEntryReadsBack(f, flags);
        var r := EnsureLevel(s, t, va, d, flags);
        AttachGrows(s, r.0, t, i, f, TableEntry(f, flags));
        AttachedIsEmpty(s, r.0, t, i, f, TableEntry(f, flags));
      }
    }
  }

  lemma AttachedIsEmpty(s: Vm, s': Vm, t: nat, i: nat, f: nat, e: Word)
    requires t < |s.mem| && f < |s.mem| && f != t && i < 512
    requires s'.mem == Put(s.mem[f := EmptyTable()], t, i, e)
    ensures Get(s'.mem, t, i) == e
    ensures forall j :: 0 <= j < 512 ==> !Present(Get(s'.mem, f, j))
    ensures forall u :: 0 <= u < |s.mem| && u != t && u != f ==> s'.mem[u] == s.mem[u]
  {
  }

  /** How many of the three upper levels on the path to va are missing. */
  function Missing(m: Mem, t: nat, va: nat, d: nat): nat
    requires d < 4
    decreases 4 - d
  {
    if d == 3 then 0
    else
      var e := Get(m, t, Idx(va, d));
      if Follows(d, e) then Missing(m, HwFrame(e), va, d + 1) else 3 - d
  }

  /** Tables at depth d or above, except t, are not written. */
  ghost predicate UpperKept(s: Vm, s': Vm, t: nat, d: nat) {
    forall u :: (u in s.nodes && s.nodes[u].depth <= d && u != t && 0 <= u < |s.mem| && u < |s'.mem|
                 ==> s'.mem[u] == s.mem[u])
  }

  /** The walk of va from t reaches the lowest-level table l, by pointers that kernel and
      processor read alike. */
  ghost predicate Arrives(s: Vm, t: nat, va: nat, d: nat, l: nat)
    requires d < 4
  {
    && CleanFrom(s.mem, t, va, d) && ReachFrom(s.mem, t, va, d) == Some(l)
    && l in s.nodes && s.nodes[l].depth == 3
  }

  ghost predicate Ensured(s: Vm, s': Vm, t: nat, va: nat, d: nat, l: Option<nat>)
    requires d < 4
  {
    && Wf(s') && Grew(s, s') && UpperKept(s, s', t, d)
    && (l.Some? <==> Missing(s.mem, t, va, d) <= |s.heap.free|)
    && (l.Some? ==> Arrives(s', t, va, d, l.value))
  }

  /** ensure_pt: nothing but growth, and it succeeds exactly when the free pages cover the
      missing tables. */
  lemma {:induction false} EnsureFromGrows(s: Vm, t: nat, va: nat, d: nat, flags: Word)
    requires Wf(s) && d < 4 && t in s.nodes && s.nodes[t].depth == d && CleanFrom(s.mem, t, va, d)
    ensures Ensured(s, EnsureFrom(s, t, va, d, flags).0, t, va, d, EnsureFrom(s, t, va, d, flags).1)
    decreases 4 - d
  {
    hide LevelEnsured, Ensured, EnsureLevel, Wf;
    if d == 3 {
      NothingToEnsure(s, t, va);
    } else {
      EnsureLevelGrows(s, t, va, d, flags);
      var a := EnsureLevel(s, t, va, d, flags);
      match a.1 {
        case None => LevelFailed(s, a.0, t, va, d);
        case Some(c) =>
          ChildIsClean(s, a.0, t, va, d, c);
          EnsureFromGrows(a.0, c, va, d + 1, flags);
          var r := EnsureFrom(a.0, c, va, d + 1, flags);
          LevelThenRest(s, a.0, r.0, t, va, d, c, r.1);
      }
    }
  }

  lemma NothingToEnsure(s: Vm, t: nat, va: nat)
    requires Wf(s) && t in s.nodes && s.nodes[t].depth == 3
    ensures Ensured(s, s, t, va, 3, Some(t))
  {
    GrewReflexive(s);
  }

  lemma LevelFailed(s: Vm, a: Vm, t: nat, va: nat, d: nat)
    requires Wf(s) && d < 3 && LevelEnsured(s, a, t, va, d, None)
    ensures Ensured(s, a, t, va, d, None)
  {
    GrewReflexive(s);
  }

  lemma ChildIsClean(s: Vm, a: Vm, t: nat, va: nat, d: nat, c: nat)
    requires Wf(s) && d < 3 && t in s.nodes && s.nodes[t].depth == d && CleanFrom(s.mem, t, va, d)
    requires LevelEnsured(s, a, t, va, d, Some(c))
    ensures Wf(a) && c in a.nodes && a.nodes[c].depth == d + 1 && CleanFrom(a.mem, c, va, d + 1)
  {
    GrewKeepsWalk(s, a, t, va, d);
  }

  lemma LevelThenRest(s: Vm, a: Vm, s': Vm, t: nat, va: nat, d: nat, c: nat, l: Option<nat>)
    requires Wf(s) && Wf(a) && d < 3 && t in s.nodes && s.nodes[t].depth == d && CleanFrom(s.mem, t, va, d)
    requires LevelEnsured(s, a, t, va, d, Some(c))
    requires Ensured(a, s', c, va, d + 1, l)
    ensures Ensured(s, s', t, va, d, l)
  {
    GrewTransitive(s, a, s');
    LevelMissing(s, a, t, va, d, c);
    KeptThroughChild(s, a, s', t, d, c);
    var i := Idx(va, d);
    assert Get(s'.mem, t, i) == Get(a.mem, t, i);
  }

  lemma KeptThroughChild(s: Vm, a: Vm, s': Vm, t: nat, d: nat, c: nat)
    requires Wf(s) && Wf(a) && Grew(s, a) && Grew(a, s')
    requires t in s.nodes && s.nodes[t].depth == d
    requires c in a.nodes && a.nodes[c].depth == d + 1
    requires forall u :: u in s.nodes && u != t ==> a.mem[u] == s.mem[u]
    requires UpperKept(a, s', c, d + 1)
    ensures UpperKept(s, s', t, d) && s'.mem[t] == a.mem[t]
  {
    forall u | u in s.nodes && s.nodes[u].depth <= d && u != t
      ensures s'.mem[u] == s.mem[u]
    {
      assert u in a.nodes && a.nodes[u] == s.nodes[u];
    }
    assert t in a.nodes && a.nodes[t] == s.nodes[t];
  }

  lemma LevelMissing(s: Vm, s': Vm, t: nat, va: nat, d: nat, c: nat)
    requires d < 3 && LevelDone(s, s', t, va, d, Some(c))
    requires Present(Get(s.mem, t, Idx(va, d))) ==> TablePointer(Get(s.mem, t, Idx(va, d)))
    ensures Missing(s.mem, t, va, d) <= |s.heap.free| <==> Missing(s'.mem, c, va, d + 1) <= |s'.heap.free|
  {
    if !Present(Get(s.mem, t, Idx(va, d))) {
      assert d < 2 ==> !Present(Get(s'.mem, c, Idx(va, d + 1)));
    }
  }

  // ---------------------------------------------------------------- writing a leaf

  function LeafTranslation(e: Word): Translation {
    if Present(e) then Page(e) else Absent
  }

  /** Writing slot i of the lowest-level table l changes exactly the walks that arrive at l
      and select i. */
  lemma {:induction false} SetLeafWalk(s: Vm, l: nat, i: nat, e: Word, t: nat, va: nat, d: nat)
    requires Wf(s) && l in s.nodes && s.nodes[l].depth == 3 && i < 512
    requires t in s.nodes && d < 4 && s.nodes[t].depth == d
    ensures var m' := Put(s.mem, l, i, e);
            && WalkFrom(m', t, va, d) == (if ReachFrom(s.mem, t, va, d) == Some(l) && Idx(va, 3) == i
                                          then LeafTranslation(e) else WalkFrom(s.mem, t, va, d))
            && ReachFrom(m', t, va, d) == ReachFrom(s.mem, t, va, d)
            && CleanFrom(m', t, va, d) == CleanFrom(s.mem, t, va, d)
    decreases 4 - d
  {
    if d < 3 {
      var e' := Get(s.mem, t, Idx(va, d));
      assert Get(Put(s.mem, l, i, e), t, Idx(va, d)) == e';
      assert Linked(s, t, Idx(va, d));
      if Follows(d, e') {
        SetLeafWalk(s, l, i, e, HwFrame(e'), va, d + 1);
      }
    }
  }

  lemma SetLeafWf(s: Vm, l: nat, i: nat, e: Word)
    requires Wf(s) && l in s.nodes && s.nodes[l].depth == 3
    ensures Wf(s.(mem := Put(s.mem, l, i, e)))
  {
    var s' := s.(mem := Put(s.mem, l, i, e));
    forall t, j | t in s'.nodes && 0 <= j < 512 ensures Linked(s', t, j) {
      assert Linked(s, t, j);
    }
  }

  // ---------------------------------------------------------------- distinct paths

  /** Below the PML4, two walks that arrive at one table came the same way. */
  lemma {:induction false} SameTail(s: Vm, a: nat, va: nat, b: nat, vb: nat, d: nat)
    requires Wf(s) && 0 < d < 4 && a in s.nodes && b in s.nodes && s.nodes[a].depth == d == s.nodes[b].depth
    requires ReachFrom(s.mem, a, va, d).Some? && ReachFrom(s.mem, b, vb, d) == ReachFrom(s.mem, a, va, d)
    ensures a == b && forall k :: d <= k < 3 ==> Idx(va, k) == Idx(vb, k)
    ensures ReachFrom(s.mem, a, va, d).value in s.nodes && s.nodes[ReachFrom(s.mem, a, va, d).value].depth == 3
    decreases 4 - d
  {
    if d < 3 {
      assert Linked(s, a, Idx(va, d)) && Linked(s, b, Idx(vb, d));
      SameTail(s, HwFrame(Get(s.mem, a, Idx(va, d))), va, HwFrame(Get(s.mem, b, Idx(vb, d))), vb, d + 1);
    }
  }

  /** Slot i of both PML4s leads to the same table. */
  predicate Shares(m: Mem, r: nat, r': nat, i: nat) {
    r == r' ||
    (Follows(0, Get(m, r, i)) && Follows(0, Get(m, r', i)) && HwFrame(Get(m, r, i)) == HwFrame(Get(m, r', i)))
  }

  lemma {:induction false} ReachByIndices(m: Mem, t: nat, va: nat, vb: nat, d: nat)
    requires d < 4 && forall k :: d <= k < 4 ==> Idx(va, k) == Idx(vb, k)
    ensures ReachFrom(m, t, va, d) == ReachFrom(m, t, vb, d)
    ensures WalkFrom(m, t, va, d) == WalkFrom(m, t, vb, d)
    ensures CleanFrom(m, t, va, d) == CleanFrom(m, t, vb, d)
    decreases 4 - d
  {
    if d < 3 {
      ReachByIndices(m, HwFrame(Get(m, t, Idx(va, d))), va, vb, d + 1);
    }
  }

  /** Walk, reach and cleanness depend on the page number only. */
  lemma WalkByPage(m: Mem, t: nat, va: nat, vb: nat)
    requires Vpn(va) == Vpn(vb)
    ensures ReachFrom(m, t, va, 0) == ReachFrom(m, t, vb, 0)
    ensures Walk(m, t, va) == Walk(m, t, vb)
    ensures Clean(m, t, va) == Clean(m, t, vb)
  {
    IndicesArePageNumber(va, vb);
    ReachByIndices(m, t, va, vb, 0);
  }

  /** Two walks arrive at the same leaf slot exactly when they are for the same page and
      their PML4s share the table for it; and tables in the lower half are never shared. */
  lemma SameLeafSlot(s: Vm, r: nat, va: nat, r': nat, vb: nat, l: nat)
    requires Wf(s) && IsRoot(s, r) && IsRoot(s, r') && ReachFrom(s.mem, r, va, 0) == Some(l)
    ensures ReachFrom(s.mem, r', vb, 0) == Some(l) && Idx(vb, 3) == Idx(va, 3)
       <==> Vpn(va) == Vpn(vb) && Shares(s.mem, r, r', Idx(va, 0))
    ensures l in s.nodes && s.nodes[l].depth == 3
    ensures Shares(s.mem, r, r', Idx(va, 0)) && Idx(va, 0) < 256 ==> r == r'
  {
    var i, j := Idx(va, 0), Idx(vb, 0);
    assert Linked(s, r, i) && Linked(s, r', j) && Linked(s, r', i);
    IndicesArePageNumber(va, vb);
    SameTail(s, HwFrame(Get(s.mem, r, i)), va, HwFrame(Get(s.mem, r, i)), va, 1);
    if ReachFrom(s.mem, r', vb, 0) == Some(l) {
      SameTail(s, HwFrame(Get(s.mem, r, i)), va, HwFrame(Get(s.mem, r', j)), vb, 1);
    }
    if Vpn(va) == Vpn(vb) && Shares(s.mem, r, r', i) {
      ReachByIndices(s.mem, r', va, vb, 0);
    }
  }
}
