/** Which words of memory each page-table operation writes, and with what: the access bits
    of new tables, the leaf, the copied upper half, and nothing else. */
module Writes {
  import opened Words
  import opened Pte
  import opened PageTables
  import opened TableLemmas
  import opened Spaces

  /** Outside the address field, exactly present, writable, and user if the flags ask. */
  predicate AccessBits(e: Word, flags: Word) {
    forall i :: 0 <= i < 64 && (i < 12 || 52 <= i) ==> (e[i] <==> i == 0 || i == 1 || (i == 2 && flags[2]))
  }

  lemma TableEntryAccess(frame: nat, flags: Word)
    requires frame < 0x100_0000_0000
    ensures AccessBits(TableEntry(frame, flags), flags) && HwFrame(TableEntry(frame, flags)) == frame
  {
    TableEntryReadsBack(frame, flags);
    forall i | 0 <= i < 64 && (i < 12 || 52 <= i)
      ensures TableEntry(frame, flags)[i] <==> i == 0 || i == 1 || (i == 2 && flags[2])
    {
      TableEntryBits(frame, flags, i);
    }
  }

  /** e is the pointer that ensure_pt puts into a table at depth d on the path to va: in the
      slot of va, to a table that is new. */
  ghost predicate PathPointer(s: Vm, s': Vm, va: nat, flags: Word, d: nat, i: nat, e: Word) {
    && d < 3 && i == Idx(va, d) && AccessBits(e, flags)
    && HwFrame(e) in s'.nodes && HwFrame(e) !in s.nodes
  }

  /** What ensure_pt leaves in word i of frame f: in a new table the pointer on the path or
      0; elsewhere the word that was there, or the pointer in place of an absent one. */
  ghost predicate WordAfter(s: Vm, s': Vm, va: nat, flags: Word, f: nat, i: nat) {
    var e, e' := Get(s.mem, f, i), Get(s'.mem, f, i);
    if f in s'.nodes && f !in s.nodes then
      e' == Zero() || PathPointer(s, s', va, flags, s'.nodes[f].depth, i, e')
    else
      e' == e || (f in s.nodes && !Present(e) && PathPointer(s, s', va, flags, s.nodes[f].depth, i, e'))
  }

  ghost predicate OnlyPath(s: Vm, s': Vm, va: nat, flags: Word) {
    forall f, i: nat :: i < 512 ==> WordAfter(s, s', va, flags, f, i)
  }

  lemma NothingWritten(s: Vm, va: nat, flags: Word)
    ensures OnlyPath(s, s, va, flags)
  {
  }

  lemma LevelOnlyPath(s: Vm, t: nat, va: nat, d: nat, flags: Word)
    requires Wf(s) && d < 3 && t in s.nodes && s.nodes[t].depth == d && CleanFrom(s.mem, t, va, d)
    ensures OnlyPath(s, EnsureLevel(s, t, va, d, flags).0, va, flags)
  {
    AllocTableFresh(s);
    var a := AllocTable(s);
    if Present(Get(s.mem, t, Idx(va, d))) || a.1.None? {
      NothingWritten(s, va, flags);
    } else {
      TableEntryAccess(a.1.value, flags);
      LevelWords(s, EnsureLevel(s, t, va, d, flags).0, t, va, d, flags, a.1.value);
    }
  }

  lemma LevelWords(s: Vm, s': Vm, t: nat, va: nat, d: nat, flags: Word, n: nat)
    requires Wf(s) && d < 3 && t in s.nodes && s.nodes[t].depth == d && !Present(Get(s.mem, t, Idx(va, d)))
    requires n < |s.mem| && n !in s.nodes && n != t
    requires s'.mem == Put(s.mem[n := EmptyTable()], t, Idx(va, d), TableEntry(n, flags))
    requires s'.nodes == s.nodes[n := Node(d + 1, t, Idx(va, d))]
    requires AccessBits(TableEntry(n, flags), flags) && HwFrame(TableEntry(n, flags)) == n
    ensures OnlyPath(s, s', va, flags)
  {
    hide AccessBits, HwFrame, TableEntry, Wf;
    assert t < |s.mem| by { TableInMemory(s, t); }
    forall f, i: nat | i < 512 ensures WordAfter(s, s', va, flags, f, i) {
      if f == t && i == Idx(va, d) {
        assert Get(s'.mem, f, i) == TableEntry(n, flags);
      } else if f == n {
        assert Get(s'.mem, f, i) == Zero();
      } else {
        assert Get(s'.mem, f, i) == Get(s.mem, f, i);
      }
    }
  }

  lemma TableInMemory(s: Vm, t: nat)
    requires Wf(s) && t in s.nodes
    ensures 0 < t < |s.mem|
  {
  }

  lemma OnlyPathTransitive(a: Vm, b: Vm, c: Vm, va: nat, flags: Word)
    requires Grew(a, b) && Grew(b, c) && OnlyPath(a, b, va, flags) && OnlyPath(b, c, va, flags)
    ensures OnlyPath(a, c, va, flags)
  {
    hide AccessBits, HwFrame, EntryKept, EntryNew;
    forall f, i: nat | i < 512 ensures WordAfter(a, c, va, flags, f, i) {
      assert WordAfter(a, b, va, flags, f, i) && WordAfter(b, c, va, flags, f, i);
      assert !Present(Zero());
    }
  }

  /** ensure_pt writes new tables and the pointers to them on the path to va, and nothing
      else: a present entry stays, an added one has W, and U exactly if the flags have. */
  lemma {:induction false} EnsureWrites(s: Vm, t: nat, va: nat, d: nat, flags: Word)
    requires Wf(s) && d < 4 && t in s.nodes && s.nodes[t].depth == d && CleanFrom(s.mem, t, va, d)
    ensures OnlyPath(s, EnsureFrom(s, t, va, d, flags).0, va, flags)
    decreases 4 - d
  {
    hide OnlyPath, LevelEnsured, Ensured, EnsureLevel, Wf;
    if d == 3 {
      NothingWritten(s, va, flags);
    } else {
      EnsureLevelGrows(s, t, va, d, flags);
      LevelOnlyPath(s, t, va, d, flags);
      var a := EnsureLevel(s, t, va, d, flags);
      if a.1.Some? {
        var c := a.1.value;
        ChildIsClean(s, a.0, t, va, d, c);
        EnsureWrites(a.0, c, va, d + 1, flags);
        EnsureFromGrows(a.0, c, va, d + 1, flags);
        var rest := EnsureFrom(a.0, c, va, d + 1, flags);
        LevelThenPath(s, a.0, rest.0, t, va, d, c, rest.1, flags);
      }
    }
  }

  lemma LevelThenPath(s: Vm, a: Vm, s': Vm, t: nat, va: nat, d: nat, c: nat, l: Option<nat>, flags: Word)
    requires d < 3 && LevelEnsured(s, a, t, va, d, Some(c)) && Ensured(a, s', c, va, d + 1, l)
    requires OnlyPath(s, a, va, flags) && OnlyPath(a, s', va, flags)
    ensures OnlyPath(s, s', va, flags)
  {
    OnlyPathTransitive(s, a, s', va, flags);
  }

  // ---------------------------------------------------------------- map, unmap, create

  /** Map: the leaf goes into the slot the walk of va arrives at; beside it only the path
      is written, and on failure nothing beside the path. */
  lemma MapWrites(s: Vm, r: nat, va: nat, phys: nat, flags: Word)
    requires Wf(s) && IsRoot(s, r) && Clean(s.mem, r, va)
    ensures var m := MapPage(s, r, va, phys, flags);
            if m.1 then
              var l := ReachFrom(m.0.mem, r, va, 0);
              && l.Some? && Get(m.0.mem, l.value, Idx(va, 3)) == Leaf(phys, flags)
              && forall f, i: nat :: (i < 512 && !(f == l.value && i == Idx(va, 3))
                                      ==> WordAfter(s, m.0, va, flags, f, i))
            else OnlyPath(s, m.0, va, flags)
  {
    EnsureWrites(s, r, va, 0, flags);
    EnsureFromGrows(s, r, va, 0, flags);
    var e := EnsurePt(s, r, va, flags);
    if e.1.Some? {
      var l, m := e.1.value, MapPage(s, r, va, phys, flags).0;
      SetLeafWalk(e.0, l, Idx(va, 3), Leaf(phys, flags), r, va, 0);
      TableInMemory(e.0, l);
      hide Leaf, AccessBits, HwFrame, Wf;
      forall f, i: nat | i < 512 && !(f == l && i == Idx(va, 3)) ensures WordAfter(s, m, va, flags, f, i) {
        assert WordAfter(s, e.0, va, flags, f, i);
        assert Get(m.mem, f, i) == Get(e.0.mem, f, i);
      }
    }
  }

  /** Unmap: the slot the walk of va arrives at becomes 0, whole; nothing else is written. */
  lemma UnmapWrites(s: Vm, r: nat, va: nat, f: nat, i: nat)
    requires Wf(s) && IsRoot(s, r) && Clean(s.mem, r, va) && i < 512
    ensures var u := UnmapPage(s, r, va);
            && Get(u.0.mem, f, i) == (if ReachFrom(s.mem, r, va, 0) == Some(f) && i == Idx(va, 3) then Zero()
                                      else Get(s.mem, f, i))
            && u.0 == s.(mem := u.0.mem) && |u.0.mem| == |s.mem|
  {
    SwReachIsReach(s, r, va);
    if SwReach(s.mem, r, va).Some? {
      SameLeafSlot(s, r, va, r, va, SwReach(s.mem, r, va).value);
    }
  }

  /** Create: a free frame gets the kernel's entries 256 to 511, bit for bit, over zeros; no
      other word is written. */
  lemma CreateWrites(s: Vm, kernel: nat, f: nat, i: nat)
    requires Wf(s) && IsRoot(s, kernel) && i < 512
    ensures var c := CreateSpace(s, kernel);
            && (c.1.Some? ==> c.1.value in s.heap.free)
            && Get(c.0.mem, f, i) == (if c.1 == Some(f) then (if i >= 256 then Get(s.mem, kernel, i) else Zero())
                                      else Get(s.mem, f, i))
            && |c.0.mem| == |s.mem|
  {
    AllocTableFresh(s);
  }

  // ---------------------------------------------------------------- effective access

  /** Every present upper entry on the path to va has U. */
  predicate UpperUser(m: Mem, t: nat, va: nat, d: nat)
    requires d < 4
    decreases 4 - d
  {
    d == 3 ||
    var e := Get(m, t, Idx(va, d));
    Present(e) ==> e[2] && UpperUser(m, HwFrame(e), va, d + 1)
  }

  /** User code may go down the path to va: all upper entries are present and have U. */
  predicate UserPath(m: Mem, t: nat, va: nat, d: nat)
    requires d < 4
    decreases 4 - d
  {
    d == 3 ||
    var e := Get(m, t, Idx(va, d));
    Present(e) && e[2] && UserPath(m, HwFrame(e), va, d + 1)
  }

  lemma {:induction false} PathHasUser(s: Vm, s': Vm, va: nat, flags: Word, t: nat, d: nat, l: nat)
    requires Wf(s) && Wf(s') && Grew(s, s') && d < 4 && t in s'.nodes && s'.nodes[t].depth == d
    requires OnlyPath(s, s', va, flags) && flags[2] && ReachFrom(s'.mem, t, va, d) == Some(l)
    requires t in s.nodes ==> UpperUser(s.mem, t, va, d)
    ensures UserPath(s'.mem, t, va, d)
    decreases 4 - d
  {
    if d < 3 {
      var i := Idx(va, d);
      var e' := Get(s'.mem, t, i);
      assert WordAfter(s, s', va, flags, t, i) && Linked(s', t, i);
      if t in s.nodes { assert Linked(s, t, i); }
      PathHasUser(s, s', va, flags, HwFrame(e'), d + 1, l);
    }
  }

  /** A successful map with U lets user code reach the page, if every upper entry that was
      on the path before had U. */
  lemma MapReachesUser(s: Vm, r: nat, va: nat, phys: nat, flags: Word)
    requires Wf(s) && IsRoot(s, r) && Clean(s.mem, r, va) && flags[2] && UpperUser(s.mem, r, va, 0)
    ensures var m := MapPage(s, r, va, phys, flags);
            m.1 ==> UserPath(m.0.mem, r, va, 0)
                    && Walk(m.0.mem, r, va) == Page(Leaf(phys, flags)) && Leaf(phys, flags)[2]
  {
    var e, m := EnsurePt(s, r, va, flags), MapPage(s, r, va, phys, flags);
    if m.1 {
      EnsureFromGrows(s, r, va, 0, flags);
      EnsureWrites(s, r, va, 0, flags);
      PathHasUser(s, e.0, va, flags, r, 0, e.1.value);
      LeafKeepsUpper(e.0, e.1.value, Idx(va, 3), Leaf(phys, flags), r, va, 0);
      MapPageEffect(s, r, va, phys, flags);
      LeafBits(phys, flags, 2);
    }
  }

  lemma {:induction false} LeafKeepsUpper(s: Vm, l: nat, i: nat, e: Word, t: nat, va: nat, d: nat)
    requires Wf(s) && l in s.nodes && s.nodes[l].depth == 3
    requires d < 4 && t in s.nodes && s.nodes[t].depth == d && ReachFrom(s.mem, t, va, d).Some?
    ensures UserPath(Put(s.mem, l, i, e), t, va, d) == UserPath(s.mem, t, va, d)
    decreases 4 - d
  {
    if d < 3 {
      assert Linked(s, t, Idx(va, d));
      var e' := Get(s.mem, t, Idx(va, d));
      assert Get(Put(s.mem, l, i, e), t, Idx(va, d)) == e';
      LeafKeepsUpper(s, l, i, e, HwFrame(e'), va, d + 1);
    }
  }
}
