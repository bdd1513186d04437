# Verification of the kernel's memory core and scheduler

This project models two connected subsystems of an x86_64 kernel in Dafny and proves what they are for.

**Memory core** (`kernel/mm`). A page allocator keeps one bit per 4 KiB page in a bitmap that it places inside
the memory it describes. A page-table manager builds four-level tables out of those pages, maps and unmaps
leaves, and creates address spaces that share the kernel half by copying 256 top-level entries. A device mapper
maps byte ranges page by page on top. What these implement is simple: a set of free pages, and for each address
space one partial map from page numbers to leaves. What makes the claim hard is that the tables of all spaces lie
in one memory, share subtrees, are created in the middle of a call, and are read by the processor through bit
fields. The proof rests on an ownership invariant (`PageTables.Wf`): every table knows its depth and the one slot
it hangs in, only upper slots of top-level tables may share, and no table page is free or handed out.

**Scheduler and clock** (`kernel/core/sched.c`, `kernel/core/timerq.c`, `kernel/arch/x86_64/cpu/timer.c`). A ring
of threads is scanned for the next READY one; a sorted list of timed callbacks and a lazily renewed slice end
decide the next deadline; nanoseconds become timer ticks by a rounded 32.32 scale and come back by a 128/64
division. Ring shape, saved contexts, fairness, slice expiry and rounding error all meet in `sched_on_tick`.

## Structure

The code that works in place is modelled in place: `Pmm.Allocator` (bitmap array), `Vmm.Mmu` (physical memory as
an array of words, CR3 and a TLB), `Mmio.MmioMap` and `Mmio.MmioUnmap` (loops over an `Mmu`),
`TimerQueue.Queue` (linked list), `Timer.TimerDevice` and `Scheduler.Core` (threads linked in a circle). Each
method is proved equal to a function on an abstract state; the theorems are about those functions, for one call
and for whole runs.

| part | files |
|---|---|
| words, table entries, bitmap bytes | `Words`, `Pte`, `Bitmap` |
| page allocator | `PageHeap` (free set, runs), `Pmm` (the class) |
| start-up | `Boot` (allocator and page tables together) |
| page tables | `PageTables` (the processor's walk, Intel SDM Vol. 3A section 4.5, operations, invariant), `TableLemmas`, `Spaces` (one call), `SpaceRuns` (runs), `SimpleSpaces` (the simple machine that runs follow), `Writes` (which words each operation writes), `Vmm` (the class, and a TLB invalidated as in section 4.10.4.1) |
| device ranges | `MmioRange`, `Mmio` |
| clock and timer | `Clock`, `Timer` |
| timer queue | `Events`, `TimerQueue` |
| scheduler | `SchedModel`, `SchedRuns`, `Fairness`, `Slices`, `SliceExpiry`, `SliceRace`, `Scheduler` (the class) |

A word that the kernel takes apart bit by bit (a table entry, a flags argument) is the sequence of its 64 bits;
an address, page number or clock value is a number, with wrap-around, truncation and saturation written out where
the code has them.

## Where the code does not do what one would expect

* `pmm_free_pages` credits bytes without looking at the pages: the counter stays right exactly when the credit is the
  number of pages newly freed, that is, when every page freed is covered and in use (`PageHeap.FreeKeepsCountIff`;
  `PageHeap.DoubleFreeMiscounts` shows two frees that break it).
* `pmm_alloc_pages` returns 0 for failure and for a run that starts at page 0 (`PageHeap.AllocReturnsZero`), which it
  takes all the same (`PageHeap.PageZeroIsLost`).
* The leaf is built from the flags argument without masking its address bits: the requested frame is mapped
  exactly when the flags set no address bit that the address leaves clear (`Pte.LeafFrame`, `Pte.FlagsChangeFrame`).
* `mmio_unmap` computes the end of its range modulo 2^64. For a window that ends at the last address the end is 0 and
  nothing is unmapped; for every other window exactly the range is (`Mmio.MapThenUnmap`, `Mmio.UnmapRemovesIff`;
  `Mmio.TopWindow` is such a window).
* A wait shorter than a tick is rounded up to one: a wait is never late exactly when it is at least a tick long
  (`Clock.WaitIsNotLate`), and at 100 MHz a wait of 1 ns is late by 9 ns (`Clock.SubTickWaits`).
* `sched_on_tick` and `sched_arm_timer` read the clock separately. A slice whose end falls between the two reads
  is renewed instead of ended (`SliceRace.RenewedIffRace`). With a 2.9 GHz counter and a 5 ms quantum, punctual fires
  can leave a READY thread waiting for up to 10^12 slices (`SliceRace.RacesStarve`), from kmain's start-up on
  (`SliceRace.StartedCanStarve`). Without such a race a slice ends within three fires, and three more for each event
  due before its end (`SliceExpiry.FreshSliceEndsInThree`, `SliceExpiry.SliceEndsInFires`). And a race takes a timer
  started within two ticks of the clock read: otherwise the first fire is not short of the slice end, or of the event
  that is due before it (`SliceExpiry.SpacedReadsFireOnce`).
* `sched_set_quantum_ns(0)` stops the timer but keeps the end of the slice that is running. No interrupt is to come
  then, and whatever starts the timer again drops the slice, so preemption is off
  (`SliceRace.QuantumZeroStopsPreemption`). An interrupt that was already due at the call still finds the slice: it
  hands over unless no slice was running or no other thread is READY or BLOCKED (`SliceRace.LatchedTickPreempts`,
  `SliceRace.StartedStillPreempts`).
* The comment at `kernel/arch/x86_64/cpu/timer.c:28-30` calls the scale ticks per nanosecond for both sources; for
  the LAPIC source line 183 makes it a thousandth of that. The model follows the code; theorems about real time
  are stated for the TSC-deadline source.

## Model

| member | source | states |
|---|---|---|
| `Bitmap.SetBit` | kernel/mm/pmm.c:29-31 | setting a bit of a bitmap byte by mask makes exactly that bit read as set and leaves the other seven as they were |
| `Bitmap.ClearBit` | kernel/mm/pmm.c:32-38 | clearing by mask makes exactly that bit read as clear, as seen by the shift-and-mask test |
| `Pmm.Allocator.BitmapSet` | kernel/mm/pmm.c:29-31 | over the whole byte array, setting bit i takes exactly page i out of the free set |
| `Pmm.Allocator.BitmapClear` | kernel/mm/pmm.c:32-34 | clearing bit i adds exactly page i to the free set |
| `Pmm.Allocator.MarkRange` | kernel/mm/pmm.c:42-54 | every covered page whose address lies from the start rounded down to the end rounded up is marked as asked; every other page keeps its mark |
| `Pmm.FindMaxPhys` | kernel/mm/pmm.c:81-94 | the highest end of a usable entry: an upper bound that is attained, or 0 with nothing usable |
| `Pmm.PlaceBitmapPhys` | kernel/mm/pmm.c:96-122 | the loop returns the start in the first accepting entry, or 0 when none accepts |
| `Pmm.PlacementMeaning` | kernel/mm/pmm.c:96-122 | in arithmetic on the map: an entry is chosen iff it is the first that is usable, has room in whole pages and whose top place is clear of the kernel; the bitmap then starts at the greatest page boundary from which it fits below the entry's last one |
| `Pmm.AcceptedPlacement` | kernel/mm/pmm.c:101-119 | an accepted bitmap is page aligned, lies wholly in its region, which is usable, and has no byte in common with the kernel |
| `Pmm.Allocator.Init` | kernel/mm/pmm.c:124-164 | one bit per page below the highest usable address; success exactly when the first accepting region gives a non-zero start; then a page is free iff a usable entry touches it and neither kernel nor bitmap does, and the byte counter is right |
| `Pmm.FreePageMeaning` | kernel/mm/pmm.c:143-154 | for any aligned memory map, free after boot means: wholly inside one usable entry and sharing no byte with the kernel or the bitmap |
| `Pmm.BitmapBytes` | kernel/mm/pmm.c:134 | the least number of bytes with a bit for every page |
| `Pmm.Allocator.CountFree` | kernel/mm/pmm.c:158-163 | the boot-time count is the number of clear bits |
| `Boot.BootOwns` | kernel/mm/pmm.c:124-164 | what pmm_init leaves, beside loader tables outside usable memory, meets the ownership invariant and the allocator's ledger invariant |
| `Boot.BringUp` | kernel/core/kmain.c:121-124 | pmm_init and vmm_init end in an owned, coherent machine whose free pages are the boot-time ones, exactly when the bitmap has a place |
| `Pmm.Allocator.AllocPages` | kernel/mm/pmm.c:166-189 | the single scan with a run counter does and returns, on the byte-level bitmap, what the abstract allocation does |
| `PageHeap.AllocIsFirstFit` | kernel/mm/pmm.c:170-188 | for s > 0, the address returned is s * 4096 iff n consecutive free pages start at s and at no smaller number |
| `PageHeap.AllocTakesFirstRun` | kernel/mm/pmm.c:178-183 | when the first such run is at s, exactly its n pages become used, 4096 * n bytes are debited and its address is returned |
| `PageHeap.AllocWithoutRun` | kernel/mm/pmm.c:167-188 | for count 0 or without such a run nothing changes and 0 is returned |
| `PageHeap.FirstFitIsLeast` | kernel/mm/pmm.c:170-188 | the search finds s iff s starts n consecutive free pages and no smaller start does; it finds none iff no such run exists |
| `PageHeap.AllocReturnsZero` | kernel/mm/pmm.c:167-188 | exactly when 0 is returned: a zero count, no run, or a run at page 0 |
| `PageHeap.PageZeroIsLost` | kernel/mm/pmm.c:178-188 | with page 0 free, an allocation takes it and returns 0 all the same |
| `PageHeap.AllocKeepsCount` | kernel/mm/pmm.c:178-183 | the byte counter stays 4096 times the number of clear bits and does not wrap |
| `Pmm.Allocator.FreePages` | kernel/mm/pmm.c:191-203 | clears exactly the covered pages of the range, page numbers wrapping at 2^64, and credits all of it modulo 2^64 |
| `PageHeap.FreeMeaning` | kernel/mm/pmm.c:191-203 | page i is free afterwards iff it was, or it is covered and is (start + j) modulo 2^64 for some j < pages of a non-null free; the counter gains pages * 4096 modulo 2^64 |
| `PageHeap.FreeKeepsCountIff` | kernel/mm/pmm.c:191-203 | the counter stays right iff the address is null or the credit, modulo 2^52 pages, is the number of pages newly freed; below 2^52 pages that is: iff every page freed is covered by the bitmap and in use |
| `PageHeap.DoubleFreeMiscounts` | kernel/mm/pmm.c:197-202 | freeing a free page, or one beyond the bitmap, leaves the counter wrong |
| `PageHeap.AllocThenFree` | kernel/mm/pmm.c:166-203 | allocating and freeing the same block restores bitmap and counter |
| `PageHeap.RunConserves` | kernel/mm/pmm.c:158-203 | over any run of allocations and frees of held blocks: live blocks are pairwise disjoint and used, the counter is right, free plus live pages never change |
| `PageTables.IndicesArePageNumber` | kernel/mm/vmm.c:36-39 | the four index fields of two addresses agree iff their bits 47:12 do |
| `PageTables.VpnSplit` | kernel/mm/vmm.c:36-39 | bits 47:12 are the four index fields in order, nine bits each, the PML4 index uppermost |
| `Pte.SwFrameIsMaskedAddress` | kernel/mm/vmm.c:75-95 | masking the low 12 bits of an entry gives the page address of the frame number it is read as |
| `Pte.TableEntryReadsBack` | kernel/mm/vmm.c:72-75 | an entry written for a new table leads kernel and processor to that table, with W set and U as in the flags |
| `Pte.TableEntryBits` | kernel/mm/vmm.c:72 | every bit of a new table entry: P, W, U iff asked for, the frame, and nothing else |
| `Pte.SwIsHw` | kernel/mm/vmm.c:75-95 | on entries without PS and high bits the kernel's mask and the processor's address field name one frame |
| `Pte.MappedLeafBits` | kernel/mm/vmm.c:103-114 | every bit of a stored leaf: requested flags without PCD and PWT, plus P, plus the 40 address bits |
| `Pte.LeafFrame` | kernel/mm/vmm.c:112-114 | the leaf maps the requested frame iff the flags set no address bit that the address leaves clear |
| `Pte.FlagsChangeFrame` | kernel/mm/vmm.c:112-114 | with bit 12 in the flags, asking for frame 2 maps another frame |
| `TableLemmas.AllocTableFresh` | kernel/mm/vmm.c:52-62 | a new table page was free, so it is neither a table nor a user page; none is returned exactly when no page is free |
| `TableLemmas.EnsureFromGrows` | kernel/mm/vmm.c:64-96 | ensure_pt only adds tables in absent slots, reaches the lowest table for the address, and succeeds iff the free pages cover the missing tables |
| `Writes.EnsureWrites` | kernel/mm/vmm.c:64-96 | word by word: a present entry stays; an entry added, on the path only, has P and W, and U iff the flags have it, and points to a new table; new tables are 0 elsewhere; no other memory is written |
| `Writes.MapWrites` | kernel/mm/vmm.c:98-118 | the leaf goes into the slot that the walk arrives at; beside it only the path is written, and on failure nothing beside the path |
| `Writes.MapReachesUser` | kernel/mm/vmm.c:64-118 | a successful map with U leaves every upper entry on the path present with U, if those present before had it |
| `Writes.UnmapWrites` | kernel/mm/vmm.c:120-144 | the word the walk arrives at becomes 0, whole; no other word is written |
| `Writes.CreateWrites` | kernel/mm/vmm.c:206-217 | a free frame gets the kernel's entries 256 to 511 bit for bit over zeros; no other word is written |
| `PageTables.GrewKeepsWalk` | kernel/mm/vmm.c:68-95 | attaching new tables changes no walk from any table, and nothing is mapped through a new table |
| `TableLemmas.SetLeafWalk` | kernel/mm/vmm.c:112-114 | writing one leaf slot changes exactly the walks that arrive at that table and select that slot |
| `TableLemmas.SameLeafSlot` | kernel/mm/vmm.c:64-144 | two walks, in any two spaces, meet in a leaf slot iff they are for one page and the spaces share its top-level slot; lower-half slots are never shared |
| `Spaces.MapPageEffect` | kernel/mm/vmm.c:98-118 | success iff the free pages cover the missing tables; success sets exactly that page (in the spaces sharing the slot) to the requested leaf; failure changes no walk in any space; both keep the invariant |
| `Spaces.UnmapPageEffect` | kernel/mm/vmm.c:120-144 | afterwards exactly that page is absent and no other walk has changed; 0 is returned iff no upper level was missing |
| `Spaces.CreateSpaceEffect` | kernel/mm/vmm.c:206-217 | a new space has an empty lower half and the kernel's upper-half walk, sharing every present upper slot; no existing walk changes; it fails iff no page is free |
| `SpaceRuns.StepRefines` | kernel/mm/vmm.c:64-217 | any call, in any space, changes each space as one update of its partial map and keeps the ownership invariant |
| `SimpleSpaces.EnsureBuilds` | kernel/mm/vmm.c:64-96 | for every space and address, how many tables are missing after ensure_pt: the common part of the path is built as far as the free pages go, nothing else; the allocator has lost exactly those pages |
| `SimpleSpaces.AbstractionSim` | kernel/mm/vmm.c:64-217 | every owned memory has a state of the simple machine (slot owners, missing counts, one page per address) that agrees with it |
| `SimpleSpaces.StepSim` | kernel/mm/vmm.c:64-217 | each call does and returns what the simple machine, which has no page tables, does and returns |
| `SimpleSpaces.RunSimulates` | kernel/mm/vmm.c:64-217 | over any run of maps, unmaps, new spaces, allocations, frees and stores outside tables, the code and the simple machine agree on every page, all sharing, every free page and every result, success and failure included |
| `SimpleSpaces.RunRefines` | kernel/mm/vmm.c:64-217 | so the four-level walk of every space, for every address, is the page that the simple machine holds under the slot's owner |
| `SpaceRuns.RunKeeps` | kernel/mm/vmm.c:64-217 | any run keeps the ownership invariant, the spaces and the paths the kernel can follow |
| `SpaceRuns.SharedForever` | kernel/mm/vmm.c:213-214 | spaces that share an upper slot see the same translations under it after any run |
| `SpaceRuns.LowHalfIsolated` | kernel/mm/vmm.c:206-217 | no run of calls on other spaces alters any lower-half translation of a space |
| `SpaceRuns.RunTablesInUse` | kernel/mm/vmm.c:52-96 | in every reachable state each page that a walk reads is marked used and is no page handed out for another use |
| `SpaceRuns.AllocAvoidsTables` | kernel/mm/pmm.c:166-189 | an allocation of any size never returns a page that is a table or already taken |
| `SpaceRuns.OneParent` | kernel/mm/vmm.c:68-95 | two pointers to one table are one slot, or one upper slot of two top-level tables; the table is not free |
| `Vmm.Mmu.AllocPtPage` | kernel/mm/vmm.c:52-62 | on the real arrays: takes the first free page and zeroes exactly its 512 words, or changes nothing |
| `Vmm.Mmu.EnsureLevel` | kernel/mm/vmm.c:68-75 | one level: returns the present table or attaches a fresh one, keeping invariant and TLB agreement |
| `Vmm.Mmu.EnsurePt` | kernel/mm/vmm.c:64-96 | all three levels in order, stopping at the first failed allocation |
| `Vmm.Mmu.MapPageCurrent` | kernel/mm/vmm.c:98-149 | performs the abstract map on the current space without the cache bits and leaves the TLB agreeing |
| `Vmm.Mmu.StoreLeaf` | kernel/mm/vmm.c:109-116 | both stores of the leaf and the invalidation end in the requested leaf, with only that page's cached entry ever stale |
| `Vmm.Mmu.UnmapPageCurrent` | kernel/mm/vmm.c:120-157 | performs the abstract unmap on the current space and leaves the TLB agreeing |
| `Vmm.Mmu.MapPageSpace` | kernel/mm/vmm.c:159-169 | maps in the target space, restores the caller's CR3 base, and leaves the TLB agreeing with the caller's walk; a null space is refused |
| `Vmm.Mmu.UnmapPageSpace` | kernel/mm/vmm.c:171-180 | the same for unmapping |
| `Vmm.Mmu.MapPageMmio` | kernel/mm/vmm.c:182-200 | as a map, keeping PCD and PWT |
| `Vmm.Mmu.constructor` | kernel/mm/vmm.c:201-204 | the kernel's CR3 base is the current one and the empty TLB agrees |
| `Vmm.Mmu.CreateSpace` | kernel/mm/vmm.c:206-217 | on the real arrays: a zeroed page with entries 256 to 511 copied, or the null space |
| `Vmm.Mmu.SwitchSpace` | kernel/mm/vmm.c:219-223 | loads the space and leaves every non-global cached entry agreeing with the new walk; a null space changes nothing |
| `Vmm.LeafIsCoherent` | kernel/mm/vmm.c:112-116 | a leaf store makes at most the cached translation of its own page stale |
| `Vmm.LevelIsCoherent` | kernel/mm/vmm.c:68-95 | creating a table needs no invalidation: every cached translation stays right |
| `MmioRange.MapRangeEffect` | kernel/mm/mmio.c:48-66 | exactly a prefix of the range is mapped, the whole range on success, each page to its own frame; nothing else changes in any space |
| `MmioRange.MapRangeStops` | kernel/mm/mmio.c:64-65 | the loop stops early only when no page is free and the next page's path still lacks a table |
| `MmioRange.UnmapRangeEffect` | kernel/mm/mmio.c:77-79 | exactly the pages of the range are absent afterwards, mapped before or not |
| `Mmio.MmioMap` | kernel/mm/mmio.c:21-69 | runs that loop over the direct-map window and returns the address of the first byte, or 0 on failure or size 0 |
| `Mmio.MmioMapMeaning` | kernel/mm/mmio.c:21-69 | from the caller's options: on success byte phys+i is reached at result+i for all i < size through kernel-only leaves with PCD and PWT, with W iff options are absent or writable and G iff they are absent or global; on failure only a prefix changed |
| `Mmio.WindowPages` | kernel/mm/mmio.c:34-48 | the pages of the range are exactly those that hold one of its bytes |
| `Mmio.MmioUnmap` | kernel/mm/mmio.c:71-80 | for any address and size: runs the unmap loop up to the page-rounded end, whose sums wrap at 2^64 |
| `Mmio.UnmapPagesOf` | kernel/mm/mmio.c:74-77 | the pages unmapped are those that hold one of the bytes; none when the rounded end reaches 2^64, save for sizes that wrap round to their own page |
| `Mmio.MapThenUnmap` | kernel/mm/mmio.c:21-80 | unmapping the result of a map removes exactly the pages of that map, and every other translation is the one before it; unless the window ends at 2^64, where nothing is unmapped |
| `Mmio.UnmapRemovesIff` | kernel/mm/mmio.c:21-80 | after a successful map, unmapping its result removes the pages iff the window does not end at 2^64; there every page stays mapped |
| `Mmio.TopWindow` | kernel/mm/mmio.c:71-79 | a concrete window that ends at 2^64, for which the unmap loop has no turn |
| `Clock.Divide` | kernel/arch/x86_64/cpu/timer.c:61-67 | the machine division: called only with hi < d, where it cannot fault, and exact |
| `Clock.MulU64DivU64` | kernel/arch/x86_64/cpu/timer.c:44-71 | min(floor(a*b/d), 2^64-1), 0 for d = 0, through that division |
| `Clock.ComputeTicks` | kernel/arch/x86_64/cpu/timer.c:78-92 | joining the halves of the 128-bit product gives floor(ns*scale/2^32) modulo 2^64 |
| `Clock.ScaleBounds` | kernel/arch/x86_64/cpu/timer.c:73-76 | the scale is the true ratio times 2^32, rounded down by less than one |
| `Clock.TicksBounds` | kernel/arch/x86_64/cpu/timer.c:73-92 | ns*num/den >= ticks > ns*num/den - ns/2^32 - 1 whenever nothing saturates |
| `Clock.ClockReaches` | kernel/arch/x86_64/cpu/timer.c:232-237 | the clock shows at least s iff the counter is at least s*num/den ticks |
| `Clock.ClockMonotone` | kernel/arch/x86_64/cpu/timer.c:232-237 | the clock never goes back as the counter advances, saturation included |
| `Clock.WaitIsNotLate` | kernel/arch/x86_64/cpu/timer.c:194-209 | a wait of ns is over by start + ns on the clock, whenever it starts, iff ns is at least as long as a tick (den <= ns*num) |
| `Clock.SubTickWaits` | kernel/arch/x86_64/cpu/timer.c:194-209 | at 100 MHz a wait of 1 ns takes the clock 10 ns on; one of 10 ns, computed as 0 ticks too, is never late |
| `Clock.WaitBound` | kernel/arch/x86_64/cpu/timer.c:194-209 | no wait is late by more than the one tick it is rounded up to |
| `Clock.SliceRounding` | kernel/arch/x86_64/cpu/timer.c:194-209 | a programmed wait below 2^32 ns falls short by less than two ticks |
| `Timer.TimerDevice.SetScale` | kernel/arch/x86_64/cpu/timer.c:73-76 | the stored scale is the saturated num*2^32/den |
| `Timer.TimerDevice.Init` | kernel/arch/x86_64/cpu/timer.c:145-189 | exactly when initialisation succeeds; then the source, the exact rate and a masked, disarmed timer ready to be started; on failure the vector alone is stored, or the one-shot mode is set for vector 0 |
| `Timer.TimerDevice.OneshotNs` | kernel/arch/x86_64/cpu/timer.c:194-217 | programs now + max(ticks, 1) modulo 2^64, or the count clamped to 32 bits, per source; nothing before initialisation |
| `Timer.LastCallDecides` | kernel/arch/x86_64/cpu/timer.c:194-230 | a stop leaves the timer masked and disarmed; a start leaves it unmasked and max(floor(ns*scale/2^32) mod 2^64, 1) ticks away, for the LAPIC at most 2^32-1; each leaves nothing of the starts and stops before it |
| `Timer.UninitialisedIsInert` | kernel/arch/x86_64/cpu/timer.c:194-230 | without a source, a rate or a scale nothing is programmed |
| `Timer.LapicCount` | kernel/arch/x86_64/cpu/timer.c:211-214 | the LAPIC count is between 1 and 2^32-1 and, as far as those allow, within a tick and ns/2^32 below the wait |
| `Timer.TimerDevice.Now` | kernel/arch/x86_64/cpu/timer.c:232-237 | the saturated counter*den/num, 0 before initialisation |
| `TimerQueue.Queue.FindPlace` | kernel/core/timerq.c:7-9 | stops after exactly the events due no later, between the right two list nodes |
| `TimerQueue.Queue.InsertEvent` | kernel/core/timerq.c:6-12 | splicing the node into the list is the abstract insertion; the list stays acyclic with distinct nodes |
| `TimerQueue.Queue.NextDeadline` | kernel/core/timerq.c:14 | the first event's deadline, 0 for an empty list |
| `TimerQueue.Queue.RunDue` | kernel/core/timerq.c:16-24 | terminates although callbacks insert into the list that is being run, and fires and leaves what the abstract run does |
| `Events.InsertIsStable` | kernel/core/timerq.c:6-12 | insertion keeps every other event, and the new one is last among those of its deadline |
| `Events.InsertAllIsStableSort` | kernel/core/timerq.c:6-12 | a queue built by insertions is the one stable sort by deadline of what was inserted |
| `Events.RunExpiredFires` | kernel/core/timerq.c:16-24 | exactly the events due when the run starts fire, once each, in order; left are the others and everything the callbacks inserted |
| `Events.InsertedNext` | kernel/core/timerq.c:21-22 | the callbacks of a run insert in firing order: the n-th adds its own events after those before it |
| `Events.RunExpiredFiresAllDue` | kernel/core/timerq.c:16-24 | every event due at or before now fires once in deadline order with first-in first-out ties, and the sorted queue left is wholly after now |
| `Scheduler.Core.PickNext` | kernel/core/sched.c:19-24 | terminates on the circle and returns its first READY thread after the current one, else the current one |
| `Scheduler.Core.NextDeadlineNs` | kernel/core/sched.c:26-39 | the slice end it leaves and the deadline it returns are those of the abstract state |
| `Scheduler.Core.ArmTimer` | kernel/core/sched.c:41-57 | slice end and device are those of the abstract arming, before the first thread too while the quantum is 0; threads and ring are untouched |
| `Scheduler.Core.InitWith` | kernel/core/sched.c:76-80 | the first thread alone forms the circle, RUNNING |
| `Scheduler.Core.SetQuantumNs` | kernel/core/sched.c:82-88 | the quantum is kept modulo 2^32; the timer is stopped for argument 0 and armed otherwise |
| `Scheduler.Core.AddThread` | kernel/core/sched.c:90-101 | the new thread is linked right after the current one into one circle, the slice is dropped and the timer armed |
| `Scheduler.Core.Activate` | kernel/core/sched.c:126-133 | the circle, read from the new thread on, is the old one rotated; both kernel stack pointers and the returned frame are the new thread's |
| `Scheduler.Core.Tick` | kernel/core/sched.c:105-138 | on the linked objects, list and device, a tick does exactly the abstract tick |
| `SchedRuns.InitEstablishes` | kernel/core/kmain.c:193-197 | the first thread establishes the scheduler's invariant iff both kernel stack pointers are already its own; its record is otherwise kept |
| `SchedRuns.TickHandsOver` | kernel/core/sched.c:105-138 | a tick switches iff cs has privilege 3, a slice end is set and not after the first clock read, and a thread is READY or BLOCKED and just woken; then to the first such one in ring order; exactly the events due leave the queue and the callbacks' insertions join the rest |
| `SchedRuns.KernelTick` | kernel/core/sched.c:112-115 | a tick that interrupts kernel code keeps the current thread, the live and all stored frames and both stack pointers |
| `SchedRuns.TickFrames` | kernel/core/sched.c:112-122 | a tick stores the interrupted frame in the current thread iff it ends the slice, and writes no other stored frame |
| `SchedRuns.TickArms` | kernel/core/sched.c:109-137 | the slice end and the timer that a tick leaves, from its second clock read and the threads and events it leaves |
| `SchedRuns.TickBeforeThreads` | kernel/core/sched.c:106-107 | before the first thread a tick does nothing |
| `SchedRuns.TickStatuses` | kernel/core/sched.c:124-128 | which statuses a tick changes: the two threads of a switch and the BLOCKED ones woken, no others |
| `SchedRuns.TickKeeps` | kernel/core/sched.c:105-138 | a tick keeps the ring invariant, one RUNNING thread, the right kernel stack, and every thread's context |
| `SchedRuns.AddKeeps` | kernel/core/sched.c:90-101 | adding keeps the invariant, all contexts, statuses and the new thread's record, puts it at ring distance one, and starts a whole slice if one is due, else none |
| `SchedRuns.AddFirst` | kernel/core/sched.c:91-94 | the first thread added becomes current and RUNNING with its record as it was; nothing else changes |
| `SchedRuns.QuantumOutcome` | kernel/core/sched.c:82-88 | the quantum is kept modulo 2^32; argument 0 stops the timer and keeps the slice end, any other arms with the quantum as kept |
| `SchedRuns.ArmOutcome` | kernel/core/sched.c:26-57 | arming through all its helpers: the slice is kept while ahead, else renewed, while the quantum is on and another thread READY, else dropped unless nothing is set at all; the timer waits for the earlier of that end and the first event, at least 1 ns |
| `SchedRuns.PreemptibleIsContended` | kernel/core/sched.c:19-29 | the scan finds another thread iff one other than the current is READY |
| `SchedRuns.RunConservesContexts` | kernel/core/sched.c:76-138 | over any interleaving of execution, ticks and calls: the ring holds every added thread once, and each thread's context is what that thread itself left or was created with |
| `SchedRuns.NewThreadStartsAtEntry` | kernel/core/sched.c:58-74 | whenever a thread made by thread_init_user and added first becomes current, after any run, its frame is exactly: its entry and stack, the user code and data selectors, interrupts enabled and no other settable flag, all else zero; both stack pointers are its own |
| `Fairness.EventDistance` | kernel/core/sched.c:19-24 | each event brings a waiting READY thread closer by at least one per switch, and farther by at most one per added thread |
| `Fairness.RoundRobin` | kernel/core/sched.c:19-24 | a READY thread at ring distance d runs by the d-th switch, plus one per thread added meanwhile, in any run |
| `Slices.ArmedIff` | kernel/core/sched.c:41-57 | an interrupt is to come iff an event is queued or the quantum is on and another thread READY |
| `Slices.ArmedInTime` | kernel/core/sched.c:26-57 | it is armed for the earliest of the queued events and the slice end, and when the two reads coincide fires no later on the clock than max(that, now+1) if the wait is at least a tick, else after one tick |
| `Slices.RunSlice` | kernel/core/sched.c:26-39 | over any run with an unchanged quantum, after every arming the slice end is non-zero iff preemption is possible and then lies in (now, now+quantum] |
| `SliceExpiry.ArmedSlice` | kernel/core/sched.c:26-57 | any arming while another thread is READY, whatever is queued, programs the timer less than two ticks short of its goal (the slice end, or an earlier event), and not short at all if it is started two ticks after the clock read |
| `SliceExpiry.TickEffect` | kernel/core/sched.c:105-138 | a user-mode tick while a slice runs, whatever is queued and however the timer is set: at or after the slice end another thread takes over; before it the slice goes on with its end kept, or renewed when the two clock reads raced |
| `SliceExpiry.FireEffect` | kernel/core/sched.c:26-57 | after every fire the timer is programmed for the goal again; a fire that comes before the goal leaves the same goal at least one tick less short, so one that was not short does not |
| `SliceExpiry.SliceEndsInFires` | kernel/core/sched.c:26-138 | without a race, 3 * (n + m + 1) fires always end a slice with a switch, n events being queued that are due before its end and m such inserted by callbacks meanwhile |
| `SliceExpiry.FreshSliceEndsInThree` | kernel/core/sched.c:105-138 | without a race, three fires always end a slice with a switch if no event is due before its end, whatever is queued for its end or later |
| `SliceExpiry.SpacedReadsFireOnce` | kernel/core/sched.c:41-57 | if the timer is started two or more ticks after the clock was read, the first fire, race or no race, ends the slice if no event is due before its end, and otherwise finds the first event due |
| `SliceExpiry.ServedWithin` | kernel/core/sched.c:19-138 | rounding, arming, events and ring order together: without a race, a READY thread at ring distance d runs within 3 * (d + n) fires, n being the events queued or inserted meanwhile |
| `SliceRace.RenewedIffRace` | kernel/core/sched.c:109-119 | a user-mode tick leaves the current thread on a renewed slice iff its two clock reads fall on both sides of the slice end, whatever is queued |
| `SliceRace.StartedIsPending` | kernel/core/kmain.c:193-218 | whatever the counter values at the reads of sched_set_quantum_ns and sched_start, kmain's sequence leaves a pending slice, its end and its timer, and a READY thread waiting |
| `SliceRace.RacesStarve` | kernel/core/sched.c:30-47 | a concrete rate and quantum where punctual fires make no switch, up to 10^12 slices: the three-fire bound needs its condition |
| `SliceRace.StartedCanStarve` | kernel/core/kmain.c:193-218 | kmain's sequence can lead to the state from which that happens |
| `SliceRace.QuantumZeroStopsPreemption` | kernel/core/sched.c:82-88 | after a quantum argument that is 0 in its 32 bits, the current thread stays on in every run whose ticks the timer can bring about, until a call turns the quantum on again |
| `SliceRace.LatchedTickPreempts` | kernel/core/sched.c:82-88 | if the timer's interrupt was already due at the call and is taken after it, the current thread stays on in every such run iff no slice was running or every other thread is neither READY nor BLOCKED |
| `SliceRace.StartedStillPreempts` | kernel/core/sched.c:82-88 | a run from kmain's start-up in which the quantum is turned off as the interrupt becomes due, and the interrupt, taken one tick later, hands over |

## Left out

What a member's contract assumes or leaves unsaid:

- SliceExpiry.SliceEndsInFires: assumes that the handler's two clock reads do not fall on both sides of the slice end, because the bound is false otherwise (see RacesStarve).
- SliceExpiry.FreshSliceEndsInThree: the same, and that no event is due before the slice end, because it would take the timer; SliceEndsInFires counts such events.
- SliceExpiry.SpacedReadsFireOnce: says that the slice ends only if no event is due before its end.
- SliceExpiry.ServedWithin: assumes that no handler's two clock reads race.
- SliceExpiry.FireEffect: assumes that user code is interrupted, and that queued events have deadlines other than 0.
- Slices.ArmedInTime: the counter is read once for the clock and once more to program the timer; the bound includes the time between the two reads.
- Slices.RunSlice: runs that call `sched_set_quantum_ns` are excluded, since a smaller quantum does not shorten a running slice.
- Spaces.MapPageEffect: requires a path whose present entries have no PS bit and no bits above 51, because the code masks only the low 12 bits and never looks for a large page.
- SliceRace.QuantumZeroStopsPreemption: an interrupt that was due before the call is the subject of LatchedTickPreempts; a callback that calls the scheduler from inside a tick is not modelled.
- SliceRace.LatchedTickPreempts: at most one interrupt is pending at the call, and the clock can still reach the slice end.
- SimpleSpaces.RunSimulates: callers pass spaces that exist and paths the kernel can follow, free pages they took, and store into no table; the simple machine does not check this for them.
- Boot.BringUp: the loader's page tables lie outside usable memory and are well formed, and page 0 is not usable.
- Timer.TimerDevice.Init: the LAPIC is mapped, and its calibration gives at least 1, as the code makes sure.
- PageHeap.RunConserves: callers free whole blocks they hold; FreeKeepsCountIff says what other frees do.
- Events.RunExpiredFiresAllDue: callbacks insert events due after now only, since an event inserted as already due would be run in the same loop.
- TimerQueue.Queue.InsertEvent: the event is not in the queue, since a second insertion would tie the list into a knot.
- Scheduler.Core.Tick: a callback is modelled by what it inserts and which BLOCKED threads it wakes, and calls nothing else of the scheduler; the wakes of one tick are applied together after the expired events have run.
- Scheduler.Core.AddThread: the thread is not in the ring; adding one twice would break the circle.
- Scheduler.Core.SetQuantumNs: a quantum that is not 0 in its 32 bits is set only after the first thread exists, as in kmain; `pick_next` would otherwise read through a null pointer.
- Vmm.Mmu.MapPageSpace: translations cached with the global bit are outside the agreement, since loading CR3 does not drop them.
- Mmio.MmioMapMeaning: the direct-map window is page aligned, canonical and in the upper half, and the range lies below 2^52.

Outside the model:

- Inline assembly, MSR, CPUID, port, LAPIC and PIT register access: CR3, the TLB, the time-stamp counter, the deadline register and the calibration results are plain state or parameters.
- The LAPIC one-shot source's relation to real time; its device state is modelled.
- Sums of addresses, clock values and deadlines beyond 64 bits are excluded by requirements or taken as unbounded (`now + quantum`); the byte counter and the deadline register do wrap.
- The next pointer of an event that has fired, which the code clears: the model's contracts speak of queued events.
- The byte loop of `zero_thread`: a new thread's fields are zero in one step.
- Frames of the allocator lie below 2^40 pages, and page 0 is neither free nor a table, since the allocator uses 0 as failure.
- A mapping with U under an existing upper entry without U: the code leaves that entry alone, so user code does not reach the page (MapReachesUser names the condition).
- Large pages, 5-level paging, PCID, reclamation of page tables, several processors, and paging-structure caches beside the TLB.
- The cache and nx options of `mmio_map`, which the code ignores.
- The bitmap's bytes and the page tables are separate arrays: that the bitmap itself lies in pages marked used is proved, that a stray store would hit it is not modelled.
- `kernel_phys_range`: the kernel's physical range is a parameter.
- A deadline of 0 on a queued event, which the code takes for "no deadline".
- `kernel/boot/boot_info.c`, `kernel/core/print.c`, `kernel/core/panic.c`, `kernel/arch/x86_64/boot/limine.c`, `gdt.c`, `idt.c`, `irq.c`, `syscall.c`, the assembly stubs, `kernel/core/string.c` and the rest of `kernel/core/kmain.c`: data copying, packing and dispatch that would add only easy members.
- `rdtsc` calibration (`tsc_hz_from_cpuid`, `tsc_hz_calibrate_pit`) and the accessors `timer_source`, `timer_vector`, `pmm_total_bytes`, `pmm_free_bytes`, `hhdm_offset`.
