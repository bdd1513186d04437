/** Whole runs of the memory core: any interleaving of mapping, unmapping, creating
    spaces, page allocation for other uses, frees of such pages, and stores to memory that
    holds no table. */
module SpaceRuns {
  import opened Words
  import opened Pte
  import opened PageHeap
  import opened PageTables
  import opened TableLemmas
  import opened Spaces

  datatype Op =
    | Map(root: nat, va: nat, phys: nat, flags: Word)
    | Unmap(root: nat, va: nat)
    | NewSpace
    | TakePages(n: nat)
    | GivePages(start: nat, n: nat)
    | Store(frame: nat, i: nat, w: Word)

  /** What the source demands of its callers: a space that exists and a path it can follow,
      frees of pages taken before, and no stray stores into tables. */
  ghost predicate MayDo(s: Vm, op: Op) {
    match op
    case Map(r, va, _, _) => IsRoot(s, r) && Clean(s.mem, r, va)
    case Unmap(r, va) => IsRoot(s, r) && Clean(s.mem, r, va)
    case GivePages(start, n) => 0 < start && 0 < n && Block(start, n) <= s.user
    case Store(f, _, _) => f !in s.nodes
    case _ => true
  }

  ghost function Do(s: Vm, kernel: nat, op: Op): Vm
    requires kernel < |s.mem|
  {
    match op
    case Map(r, va, phys, flags) => MapPage(s, r, va, phys, flags).0
    case Unmap(r, va) => UnmapPage(s, r, va).0
    case NewSpace => CreateSpace(s, kernel).0
    case TakePages(n) =>
      var a := AllocPages(s.heap, n);
      if a.1 == 0 then s.(heap := a.0) else s.(heap := a.0, user := s.user + Block(a.1 / PAGE_SIZE, n))
    case GivePages(start, n) =>
      s.(heap := FreePages(s.heap, start * PAGE_SIZE, n), user := s.user - Block(start, n))
    case Store(f, i, w) => s.(mem := Put(s.mem, f, i, w))
  }

  /** The page that op changes in space r, and what it then translates to. */
  ghost function Effect(s: Vm, r: nat, op: Op): Option<(nat, Translation)> {
    match op
    case Map(r0, va, phys, flags) =>
      if MapPage(s, r0, va, phys, flags).1 && Shares(s.mem, r0, r, Idx(va, 0))
      then Some((Vpn(va), Page(Leaf(phys, flags)))) else None
    case Unmap(r0, va) => if Shares(s.mem, r0, r, Idx(va, 0)) then Some((Vpn(va), Absent)) else None
    case _ => None
  }

  /** A space as a map from page numbers to translations. */
  ghost function View(s: Vm, r: nat): imap<nat, Translation> {
    imap v: nat | v < 0x10_0000_0000 :: Walk(s.mem, r, v * PAGE_SIZE)
  }

  ghost function Apply(m: imap<nat, Translation>, e: Option<(nat, Translation)>): imap<nat, Translation> {
    match e
    case None => m
    case Some(c) => m[c.0 := c.1]
  }

  lemma ViewAfterSet(s: Vm, s': Vm, r0: nat, va: nat, tr: Translation, r: nat)
    requires IsRoot(s, r) && SetsPage(s, s', r0, va, tr)
    ensures View(s', r) == if Shares(s.mem, r0, r, Idx(va, 0)) then View(s, r)[Vpn(va) := tr] else View(s, r)
  {
    forall v: nat | v < 0x10_0000_0000
      ensures View(s', r)[v] == if Shares(s.mem, r0, r, Idx(va, 0)) && v == Vpn(va) then tr else View(s, r)[v]
    {
      VpnOfPage(v);
    }
  }

  lemma ViewUnchanged(s: Vm, s': Vm, r: nat)
    requires IsRoot(s, r) && SameWalks(s, s')
    ensures View(s', r) == View(s, r)
  {
  }

  lemma TakePagesKeeps(s: Vm, kernel: nat, n: nat)
    requires Wf(s) && kernel < |s.mem|
    ensures Preserves(s, Do(s, kernel, TakePages(n))) && SameWalks(s, Do(s, kernel, TakePages(n)))
  {
    var a := AllocPages(s.heap, n);
    AllocKeepsCount(s.heap, n);
    if a.1 == 0 { AllocFails(s.heap, n); } else { AllocSucceeds(s.heap, n); }
    SameMemory(s, Do(s, kernel, TakePages(n)));
  }

  lemma GivePagesKeeps(s: Vm, kernel: nat, start: nat, n: nat)
    requires Wf(s) && kernel < |s.mem| && MayDo(s, GivePages(start, n))
    ensures Preserves(s, Do(s, kernel, GivePages(start, n))) && SameWalks(s, Do(s, kernel, GivePages(start, n)))
  {
    assert InBlock(start + n - 1, start, n);
    assert start + n - 1 in Block(start, n);
    FreeCounts(s.heap, start, n);
    SameMemory(s, Do(s, kernel, GivePages(start, n)));
  }

  /** Moving pages between the allocator and its users leaves the tables alone. */
  lemma SameMemory(s: Vm, s': Vm)
    requires Wf(s) && s'.mem == s.mem && s'.nodes == s.nodes && s'.heap.total == s.heap.total
    requires Counted(s'.heap) && s'.heap.free !! s'.user && 0 !in s'.heap.free
    requires s'.heap.free + s'.user == s.heap.free + s.user && 0 !in s'.user
    requires forall f :: f in s'.user ==> f < s.heap.total
    ensures Preserves(s, s') && SameWalks(s, s')
  {
    forall t | t in s'.nodes ensures t !in s'.heap.free && t !in s'.user {
      assert t !in s.heap.free + s.user;
    }
    forall t, i | t in s'.nodes && 0 <= i < 512 ensures Linked(s', t, i) {
      assert Linked(s, t, i);
    }
  }

  lemma StoreKeeps(s: Vm, kernel: nat, f: nat, i: nat, w: Word)
    requires Wf(s) && kernel < |s.mem| && f !in s.nodes
    ensures Preserves(s, Do(s, kernel, Store(f, i, w))) && SameWalks(s, Do(s, kernel, Store(f, i, w)))
  {
    var s' := Do(s, kernel, Store(f, i, w));
    TablesKept(s, s');
    forall t, j | t in s'.nodes && 0 <= j < 512 ensures Linked(s', t, j) {
      assert Linked(s, t, j);
    }
  }

  /** One call: the invariant is kept, and every space changes as its map does. */
  lemma StepRefines(s: Vm, kernel: nat, op: Op, r: nat)
    requires Wf(s) && IsRoot(s, kernel) && IsRoot(s, r) && MayDo(s, op)
    ensures Preserves(s, Do(s, kernel, op))
    ensures View(Do(s, kernel, op), r) == Apply(View(s, r), Effect(s, r, op))
  {
    var s' := Do(s, kernel, op);
    match op {
      case Map(r0, va, phys, flags) =>
        MapPageEffect(s, r0, va, phys, flags);
        if MapPage(s, r0, va, phys, flags).1 {
          ViewAfterSet(s, s', r0, va, Page(Leaf(phys, flags)), r);
        } else {
          ViewUnchanged(s, s', r);
        }
      case Unmap(r0, va) =>
        UnmapPageEffect(s, r0, va);
        ViewAfterSet(s, s', r0, va, Absent, r);
      case NewSpace =>
        CreateSpaceEffect(s, kernel);
        ViewUnchanged(s, s', r);
      case TakePages(n) =>
        TakePagesKeeps(s, kernel, n);
        ViewUnchanged(s, s', r);
      case GivePages(start, n) =>
        GivePagesKeeps(s, kernel, start, n);
        ViewUnchanged(s, s', r);
      case Store(f, i, w) =>
        StoreKeeps(s, kernel, f, i, w);
        ViewUnchanged(s, s', r);
    }
  }

  // ---------------------------------------------------------------- runs

  ghost predicate Legal(s: Vm, kernel: nat, ops: seq<Op>)
    decreases |ops|
  {
    ops == [] || (kernel < |s.mem| && MayDo(s, ops[0]) && Legal(Do(s, kernel, ops[0]), kernel, ops[1..]))
  }

  ghost function Run(s: Vm, kernel: nat, ops: seq<Op>): Vm
    requires Legal(s, kernel, ops)
    decreases |ops|
  {
    if ops == [] then s else Run(Do(s, kernel, ops[0]), kernel, ops[1..])
  }

  /** Over any run, the ownership invariant holds throughout, and a path the kernel can
      follow stays one. */
  lemma {:induction false} RunKeeps(s: Vm, kernel: nat, ops: seq<Op>, r: nat)
    requires Wf(s) && IsRoot(s, kernel) && IsRoot(s, r) && Legal(s, kernel, ops)
    ensures Wf(Run(s, kernel, ops)) && IsRoot(Run(s, kernel, ops), r)
    ensures forall va: nat :: Clean(s.mem, r, va) ==> Clean(Run(s, kernel, ops).mem, r, va)
    decreases |ops|
  {
    if ops != [] {
      StepRefines(s, kernel, ops[0], r);
      RunKeeps(Do(s, kernel, ops[0]), kernel, ops[1..], r);
    }
  }

  /** Two spaces that share an upper slot see the same translations there ever after. */
  lemma {:induction false} SharedForever(s: Vm, kernel: nat, ops: seq<Op>, r: nat, r': nat, va: nat)
    requires Wf(s) && IsRoot(s, kernel) && IsRoot(s, r) && IsRoot(s, r') && Legal(s, kernel, ops)
    requires Shares(s.mem, r, r', Idx(va, 0))
    ensures Walk(Run(s, kernel, ops).mem, r', va) == Walk(Run(s, kernel, ops).mem, r, va)
    decreases |ops|
  {
    if ops == [] {
      SharedWalk(s.mem, r, r', va);
    } else {
      StepRefines(s, kernel, ops[0], r);
      SharedForever(Do(s, kernel, ops[0]), kernel, ops[1..], r, r', va);
    }
  }

  predicate Targets(op: Op, r: nat) { (op.Map? || op.Unmap?) && op.root == r }

  /** Low-half isolation: whatever is done in other spaces, a space's lower half is its
      own. */
  lemma {:induction false} LowHalfIsolated(s: Vm, kernel: nat, ops: seq<Op>, r: nat, va: nat)
    requires Wf(s) && IsRoot(s, kernel) && IsRoot(s, r) && Legal(s, kernel, ops)
    requires Idx(va, 0) < 256 && forall k :: 0 <= k < |ops| ==> !Targets(ops[k], r)
    ensures Walk(Run(s, kernel, ops).mem, r, va) == Walk(s.mem, r, va)
    decreases |ops|
  {
    if ops != [] {
      StepRefines(s, kernel, ops[0], r);
      LowHalfStep(s, kernel, ops[0], r, va);
      LowHalfIsolated(Do(s, kernel, ops[0]), kernel, ops[1..], r, va);
    }
  }

  lemma LowHalfStep(s: Vm, kernel: nat, op: Op, r: nat, va: nat)
    requires kernel < |s.mem| && Wf(s) && IsRoot(s, kernel) && IsRoot(s, r) && MayDo(s, op)
    requires Idx(va, 0) < 256 && !Targets(op, r)
    ensures Walk(Do(s, kernel, op).mem, r, va) == Walk(s.mem, r, va)
  {
    StepRefines(s, kernel, op, r);
    hide Do, View, Effect, Wf;
    ViewAt(s, r, va);
    ViewAt(Do(s, kernel, op), r, va);
    LowEffect(s, op, r, va);
  }

  lemma ViewAt(s: Vm, r: nat, va: nat)
    ensures Vpn(va) in View(s, r) && View(s, r)[Vpn(va)] == Walk(s.mem, r, va)
  {
    VpnOfPage(Vpn(va));
    WalkByPage(s.mem, r, va, Vpn(va) * PAGE_SIZE);
  }

  lemma LowEffect(s: Vm, op: Op, r: nat, va: nat)
    requires Wf(s) && IsRoot(s, r) && MayDo(s, op) && Idx(va, 0) < 256 && !Targets(op, r)
    ensures Effect(s, r, op).Some? ==> Effect(s, r, op).value.0 != Vpn(va)
  {
    match op {
      case Map(r0, va0, _, _) => LowSlotNotShared(s, r0, r, va0, va);
      case Unmap(r0, va0) => LowSlotNotShared(s, r0, r, va0, va);
      case _ =>
    }
  }

  lemma LowSlotNotShared(s: Vm, r0: nat, r: nat, va0: nat, va: nat)
    requires Wf(s) && IsRoot(s, r0) && IsRoot(s, r) && r0 != r && Idx(va, 0) < 256
    ensures Vpn(va0) == Vpn(va) ==> !Shares(s.mem, r0, r, Idx(va0, 0))
  {
    if Vpn(va0) == Vpn(va) {
      IndicesArePageNumber(va0, va);
      assert Linked(s, r0, Idx(va, 0)) && Linked(s, r, Idx(va, 0));
    }
  }

  // ---------------------------------------------------------------- tables and the allocator

  /** The tables that the processor's walk of va reads, from table t at depth d on. */
  function VisitedFrom(m: Mem, t: nat, va: nat, d: nat): set<nat>
    requires d < 4
    decreases 4 - d
  {
    var e := Get(m, t, Idx(va, d));
    {t} + if d < 3 && Follows(d, e) then VisitedFrom(m, HwFrame(e), va, d + 1) else {}
  }

  lemma {:induction false} VisitedAreTables(s: Vm, t: nat, va: nat, d: nat)
    requires Wf(s) && d < 4 && t in s.nodes && s.nodes[t].depth == d
    ensures VisitedFrom(s.mem, t, va, d) <= s.nodes.Keys
    decreases 4 - d
  {
    var e := Get(s.mem, t, Idx(va, d));
    assert Linked(s, t, Idx(va, d));
    if d < 3 && Follows(d, e) {
      VisitedAreTables(s, HwFrame(e), va, d + 1);
    }
  }

  /** In every reachable state, every page a walk reads is a table, marked used, and no
      page that the allocator has handed out for another use. */
  lemma RunTablesInUse(s: Vm, kernel: nat, ops: seq<Op>, r: nat, va: nat)
    requires Wf(s) && IsRoot(s, kernel) && IsRoot(s, r) && Legal(s, kernel, ops)
    ensures var s' := Run(s, kernel, ops);
            VisitedFrom(s'.mem, r, va, 0) !! s'.heap.free + s'.user
  {
    RunKeeps(s, kernel, ops, r);
    VisitedAreTables(Run(s, kernel, ops), r, va, 0);
  }

  /** An allocation never hands out a page that is a table or already taken. */
  lemma AllocAvoidsTables(s: Vm, n: nat)
    requires Wf(s) && AllocPages(s.heap, n).1 != 0
    ensures Block(AllocPages(s.heap, n).1 / PAGE_SIZE, n) !! s.nodes.Keys + s.user
  {
    AllocSucceeds(s.heap, n);
  }

  /** A table hangs in one slot: two pointers to it are the same slot of the same table,
      or the same upper slot of two PML4s. */
  lemma OneParent(s: Vm, t: nat, i: nat, t': nat, i': nat)
    requires Wf(s) && t in s.nodes && t' in s.nodes && i < 512 && i' < 512
    requires s.nodes[t].depth < 3 && Follows(s.nodes[t].depth, Get(s.mem, t, i))
    requires s.nodes[t'].depth < 3 && Follows(s.nodes[t'].depth, Get(s.mem, t', i'))
    requires HwFrame(Get(s.mem, t, i)) == HwFrame(Get(s.mem, t', i'))
    ensures i == i' && (t == t' || (IsRoot(s, t) && IsRoot(s, t') && i >= 256))
    ensures HwFrame(Get(s.mem, t, i)) in s.nodes && HwFrame(Get(s.mem, t, i)) !in s.heap.free
  {
    assert Linked(s, t, i) && Linked(s, t', i');
  }
}
