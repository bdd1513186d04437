/** Whole runs of the scheduler: the ring and its one running thread, what a tick does, and
    the conservation of every thread's context. */
module SchedRuns {
  import opened Clock
  import opened Words
  import opened Timer
  import opened Events
  import opened SchedModel

  /** One cycle of distinct threads from the current one on; exactly the current one is
      RUNNING, and both kernel stack pointers are its own. */
  ghost predicate Ok<T, E>(s: Sched<T, E>) {
    && Known(s) && s.ring != []
    && (forall i, j :: 0 <= i < j < |s.ring| ==> s.ring[i] != s.ring[j])
    && (forall i :: 0 <= i < |s.ring| ==> (StatusAt(s, i) == RUNNING <==> i == 0))
    && s.cpuRsp == s.threads[s.ring[0]].kstack && s.tssRsp == s.cpuRsp
  }

  /** The context of thread t: live if it is the current one, else as saved. */
  function Context<T, E>(s: Sched<T, E>, t: T): Frame
    requires Known(s) && t in s.ring
  {
    if t == s.ring[0] then s.live else s.threads[t].frame
  }

  /** What the scheduler does next: the current thread executes an instruction, in user or
      kernel mode; a timer tick; or one of the scheduler's entry points is called. */
  datatype Event<T, E> =
    | Execute(frame: Frame)
    | Tick(input: TickInput<T, E>)
    | AddThread(t: T, th: Thread, tb: nat, tc: nat)
    | Quantum(ns: nat, tb: nat, tc: nat)
    | Start(tb: nat, tc: nat)
    | Enqueue(e: Ev<E>)

  /** What callers owe: a thread is added once and not already running, and callbacks
      insert only events due after the tick. */
  ghost predicate May<T, E>(s: Sched<T, E>, e: Event<T, E>) {
    match e
    case Tick(t) => AllLater(t.cbs, NowNs(t.ta, s.timer.rate))
    case AddThread(t, th, _, _) => t !in s.ring && th.status != RUNNING
    case _ => true
  }

  ghost function Do<T, E>(s: Sched<T, E>, e: Event<T, E>): Sched<T, E>
    requires Known(s) && May(s, e)
  {
    match e
    case Execute(f) => s.(live := f)
    case Tick(t) => OnTick(s, t)
    case AddThread(t, th, tb, tc) => Add(s, t, th, tb, tc)
    case Quantum(ns, tb, tc) => SchedModel.SetQuantum(s, ns, tb, tc)
    case Start(tb, tc) => Arm(s, tb, tc)
    case Enqueue(e) => s.(queue := Insert(s.queue, e))
  }

  // ---------------------------------------------------------------- one event

  /** The part of the state that arming the timer does not touch. */
  predicate SameThreads<T, E>(s: Sched<T, E>, s': Sched<T, E>) {
    s'.ring == s.ring && s'.threads == s.threads && s'.live == s.live && s'.cpuRsp == s.cpuRsp && s'.tssRsp == s.tssRsp
    && s'.timer.rate == s.timer.rate
  }

  lemma ArmKeepsThreads<T, E>(s: Sched<T, E>, tb: nat, tc: nat)
    requires Known(s)
    ensures SameThreads(s, Arm(s, tb, tc))
    ensures Ok(s) ==> Ok(Arm(s, tb, tc))
    ensures forall i :: 0 <= i < |s.ring| ==> StatusAt(Arm(s, tb, tc), i) == StatusAt(s, i)
    ensures forall x :: x in s.ring ==> Context(Arm(s, tb, tc), x) == Context(s, x)
  {
    var s' := Arm(s, tb, tc);
    assert SameThreads(s, s');
    forall i | 0 <= i < |s.ring| ensures s'.ring[i] in s'.threads && s'.threads[s'.ring[i]].status == StatusAt(s, i) {
    }
  }

  lemma WakeStatus<T, E>(s: Sched<T, E>, wake: set<T>, i: nat)
    requires Known(s) && i < |s.ring|
    ensures var w := s.(threads := Wake(s.threads, wake));
            && Known(w) && w.threads.Keys == s.threads.Keys
            && (StatusAt(w, i) == RUNNING <==> StatusAt(s, i) == RUNNING)
            && (StatusAt(s, i) == READY ==> StatusAt(w, i) == READY)
            && w.threads[s.ring[i]].frame == s.threads[s.ring[i]].frame
            && w.threads[s.ring[i]].kstack == s.threads[s.ring[i]].kstack
  {
  }

  /** Ring position after the ring is read from position k on. */
  function Rotated(i: nat, k: nat, n: nat): nat
    requires i < n && k < n
  {
    if i >= k then i - k else i + n - k
  }

  lemma RotateAt<T>(ring: seq<T>, k: nat, i: nat)
    requires k < |ring| && i < |ring|
    ensures (ring[k..] + ring[..k])[Rotated(i, k, |ring|)] == ring[i]
    ensures |ring[k..] + ring[..k]| == |ring|
  {
  }

  lemma RotateFrom<T>(ring: seq<T>, k: nat, j: nat)
    requires k < |ring| && j < |ring|
    ensures (ring[k..] + ring[..k])[j] == if j + k < |ring| then ring[j + k] else ring[j + k - |ring|]
  {
  }

  lemma RotateDistinct<T>(ring: seq<T>, k: nat)
    requires k < |ring| && forall i, j :: 0 <= i < j < |ring| ==> ring[i] != ring[j]
    ensures var r := ring[k..] + ring[..k]; forall i, j :: 0 <= i < j < |r| ==> r[i] != r[j]
  {
    var r := ring[k..] + ring[..k];
    forall i, j | 0 <= i < j < |r| ensures r[i] != r[j] {
      RotateFrom(ring, k, i);
      RotateFrom(ring, k, j);
    }
  }

  lemma SwitchOk<T, E>(s: Sched<T, E>, k: nat)
    requires Ok(s) && 0 < k < |s.ring| && StatusAt(s, k) == READY
    ensures Ok(SwitchTo(s, k)) && SwitchTo(s, k).ring[0] == s.ring[k]
    ensures forall x :: x in SwitchTo(s, k).ring ==> x in s.ring
  {
    var s' := SwitchTo(s, k);
    RotateDistinct(s.ring, k);
    forall j | 0 <= j < |s'.ring|
      ensures s'.ring[j] in s'.threads && (s'.threads[s'.ring[j]].status == RUNNING <==> j == 0)
    {
      RotateFrom(s.ring, k, j);
      var i := if j + k < |s.ring| then j + k else j + k - |s.ring|;
      assert StatusAt(s, i) == RUNNING <==> i == 0;
      assert i != k ==> s.ring[i] != s.ring[k];
      assert i != 0 ==> s.ring[i] != s.ring[0];
    }
  }

  lemma SaveKeeps<T, E>(s: Sched<T, E>)
    requires Ok(s)
    ensures Ok(Save(s)) && Save(s).threads[s.ring[0]].frame == s.live
    ensures forall x :: x in s.ring ==> Context(Save(s), x) == Context(s, x)
    ensures forall i :: 0 <= i < |s.ring| ==> StatusAt(Save(s), i) == StatusAt(s, i)
  {
    var s' := Save(s);
    forall i | 0 <= i < |s.ring| ensures s.ring[i] in s'.threads && s'.threads[s.ring[i]].status == StatusAt(s, i) {
      assert i != 0 ==> s.ring[i] != s.ring[0];
    }
  }

  /** Saving and switching moves no context: what was live is saved, what was saved is
      live. */
  lemma SwitchKeepsContexts<T, E>(s: Sched<T, E>, k: nat, t: T)
    requires Ok(s) && 0 < k < |s.ring| && StatusAt(s, k) == READY && t in s.ring
    requires s.threads[s.ring[0]].frame == s.live
    ensures Known(SwitchTo(s, k)) && t in SwitchTo(s, k).ring && Context(SwitchTo(s, k), t) == Context(s, t)
  {
    SwitchOk(s, k);
    var i :| 0 <= i < |s.ring| && s.ring[i] == t;
    RotateAt(s.ring, k, i);
    assert s.ring[0] != s.ring[k];
  }

  ghost predicate StepKeeps<T, E>(s: Sched<T, E>, s': Sched<T, E>)
    requires Ok(s)
  {
    && Ok(s') && s'.timer.rate == s.timer.rate
    && (forall t :: t in s.ring ==> t in s'.ring && Context(s', t) == Context(s, t))
    && (forall t :: t in s'.ring ==> t in s.ring)
  }

  /** sched_on_tick keeps the invariant and every thread's context, whether it switches or
      not; what it leaves in place is the context of the current thread. */
  lemma TickKeeps<T, E>(s: Sched<T, E>, t: TickInput<T, E>)
    requires Ok(s) && AllLater(t.cbs, NowNs(t.ta, s.timer.rate))
    ensures StepKeeps(s, OnTick(s, t)) && |OnTick(s, t).ring| == |s.ring|
  {
    var s1 := Expired(s, t);
    WakeKeeps(s, s1, t.wake);
    if !SliceOver(s1, NowNs(t.ta, s.timer.rate)) {
      ArmKeepsThreads(s1, t.tb, t.tc);
    } else {
      PreemptKeeps(s1);
      ArmKeepsThreads(Preempt(s1), t.tb, t.tc);
    }
  }

  lemma PreemptKeeps<T, E>(s: Sched<T, E>)
    requires Ok(s)
    ensures StepKeeps(s, Preempt(s)) && |Preempt(s).ring| == |s.ring|
  {
    var s2 := Save(s);
    SaveKeeps(s);
    if Pick(s2) != 0 {
      SwitchOk(s2, Pick(s2));
      forall x | x in s.ring
        ensures x in SwitchTo(s2, Pick(s2)).ring && Context(SwitchTo(s2, Pick(s2)), x) == Context(s, x)
      {
        SwitchKeepsContexts(s2, Pick(s2), x);
      }
      DropSlice(SwitchTo(s2, Pick(s2)));
    } else {
      DropSlice(s2);
    }
  }

  lemma DropSlice<T, E>(s: Sched<T, E>)
    requires Ok(s)
    ensures Ok(s.(sliceEnd := 0)) && forall x :: x in s.ring ==> Context(s.(sliceEnd := 0), x) == Context(s, x)
  {
    var s' := s.(sliceEnd := 0);
    assert forall i :: 0 <= i < |s.ring| ==> s'.ring[i] in s'.threads;
    assert forall i :: 0 <= i < |s.ring| ==> StatusAt(s', i) == StatusAt(s, i);
  }

  /** The status a tick gives thread x. */
  function StatusAfter<T, E>(s: Sched<T, E>, t: TickInput<T, E>, s': Sched<T, E>, x: T): Status
    requires Known(s) && x in s.threads && s.ring != [] && s'.ring != []
  {
    if s'.ring[0] != s.ring[0] && x == s'.ring[0] then RUNNING
    else if s'.ring[0] != s.ring[0] && x == s.ring[0] then READY
    else if x in t.wake && s.threads[x].status == BLOCKED then READY
    else s.threads[x].status
  }

  /** k is the first READY ring position after the current thread. */
  predicate FirstReady<T, E>(s: Sched<T, E>, k: nat)
    requires Known(s)
  {
    1 <= k < |s.ring| && StatusAt(s, k) == READY && forall i :: 1 <= i < k ==> StatusAt(s, i) != READY
  }

  /** The ring of s' is that of s read from its first READY position on. */
  ghost predicate HandedOver<T, E>(s: Sched<T, E>, s': Sched<T, E>)
    requires Known(s)
  {
    exists k: nat :: FirstReady(s, k) && s'.ring == s.ring[k..] + s.ring[..k]
  }

  predicate NoneReady<T, E>(s: Sched<T, E>)
    requires Known(s)
  {
    forall i :: 1 <= i < |s.ring| ==> StatusAt(s, i) != READY
  }

  /** The interrupted code is user code, and its slice has ended by the tick's first read. */
  predicate EndsSlice<T, E>(s: Sched<T, E>, t: TickInput<T, E>) {
    s.live.cs % 4 == 3 && s.sliceEnd != 0 && s.sliceEnd <= NowNs(t.ta, s.timer.rate)
  }

  /** The thread at position i is READY, or BLOCKED and woken by this tick's callbacks. */
  predicate Eligible<T, E>(s: Sched<T, E>, t: TickInput<T, E>, i: nat)
    requires Known(s) && i < |s.ring|
  {
    StatusAt(s, i) == READY || (StatusAt(s, i) == BLOCKED && s.ring[i] in t.wake)
  }

  /** The ring of s' is that of s read from its first eligible position after the current. */
  ghost predicate ToFirstEligible<T, E>(s: Sched<T, E>, t: TickInput<T, E>, s': Sched<T, E>)
    requires Known(s)
  {
    exists k: nat :: k < |s.ring| && s'.ring == s.ring[k..] + s.ring[..k] && FirstEligible(s, t, k)
  }

  predicate FirstEligible<T, E>(s: Sched<T, E>, t: TickInput<T, E>, k: nat)
    requires Known(s) && k < |s.ring|
  {
    k > 0 && Eligible(s, t, k) && forall i :: 1 <= i < k ==> !Eligible(s, t, i)
  }

  predicate NobodyEligible<T, E>(s: Sched<T, E>, t: TickInput<T, E>)
    requires Known(s)
  {
    forall i :: 1 <= i < |s.ring| ==> !Eligible(s, t, i)
  }

  /** Whether and to whom a tick hands over: exactly when user code was interrupted at or
      after the end of its slice and a thread is READY or has just been woken, and then to
      the first such one in ring order; otherwise the ring stays. Exactly the events due
      leave the queue, and what their callbacks insert joins the others. */
  lemma TickHandsOver<T, E>(s: Sched<T, E>, t: TickInput<T, E>)
    requires Ok(s) && AllLater(t.cbs, NowNs(t.ta, s.timer.rate))
    ensures var s', now := OnTick(s, t), NowNs(t.ta, s.timer.rate);
            && (EndsSlice(s, t) && !NobodyEligible(s, t) ==> s'.ring[..1] != s.ring[..1] && ToFirstEligible(s, t, s'))
            && (!EndsSlice(s, t) || NobodyEligible(s, t) ==> s'.ring == s.ring)
            && s'.queue == InsertAll(DropDue(s.queue, now), Inserted(t.cbs, |TakeDue(s.queue, now)|))
  {
    hide OnTick, Expired, EndsSlice, NobodyEligible, ToFirstEligible, InsertAll, Inserted, DropDue, TakeDue, NowNs;
    TickQueue(s, t);
    TickRing(s, t);
  }

  lemma TickQueue<T, E>(s: Sched<T, E>, t: TickInput<T, E>)
    requires Ok(s) && AllLater(t.cbs, NowNs(t.ta, s.timer.rate))
    ensures var now := NowNs(t.ta, s.timer.rate);
            OnTick(s, t).queue == InsertAll(DropDue(s.queue, now), Inserted(t.cbs, |TakeDue(s.queue, now)|))
  {
    hide Wake, Pick, NextDeadline, Oneshot, Stop, InsertAll, Inserted, DropDue, TakeDue, NowNs;
    RunExpiredFires(s.queue, NowNs(t.ta, s.timer.rate), t.cbs);
  }

  lemma TickRing<T, E>(s: Sched<T, E>, t: TickInput<T, E>)
    requires Ok(s) && AllLater(t.cbs, NowNs(t.ta, s.timer.rate))
    ensures var s' := OnTick(s, t);
            && (EndsSlice(s, t) && !NobodyEligible(s, t) ==> s'.ring[..1] != s.ring[..1] && ToFirstEligible(s, t, s'))
            && (!EndsSlice(s, t) || NobodyEligible(s, t) ==> s'.ring == s.ring)
  {
    hide OnTick, NowNs, Preempt, ToFirstEligible, NobodyEligible, NoneReady, HandedOver, Wake, RunExpired;
    var s1 := Expired(s, t);
    WakeKeeps(s, s1, t.wake);
    RingAfter(s, t);
    ReadyIsEligible(s, t);
    PreemptHandsOver(s1);
    if EndsSlice(s, t) && !NoneReady(s1) {
      WokenAreEligible(s, t);
      FirstReadyIsEligible(s, t, s1, Preempt(s1));
      SameToFirst(s, t, Preempt(s1), OnTick(s, t));
    }
  }

  lemma RingAfter<T, E>(s: Sched<T, E>, t: TickInput<T, E>)
    requires Ok(s) && AllLater(t.cbs, NowNs(t.ta, s.timer.rate))
    ensures OnTick(s, t).ring == if EndsSlice(s, t) then Preempt(Expired(s, t)).ring else s.ring
  {
    hide Preempt, Wake, RunExpired, Pick, NextDeadline, Oneshot, Stop, NowNs;
  }

  lemma SameToFirst<T, E>(s: Sched<T, E>, t: TickInput<T, E>, a: Sched<T, E>, b: Sched<T, E>)
    requires Known(s) && a.ring == b.ring && ToFirstEligible(s, t, a)
    ensures ToFirstEligible(s, t, b)
  {
  }

  lemma ReadyIsEligible<T, E>(s: Sched<T, E>, t: TickInput<T, E>)
    requires Known(s) && AllLater(t.cbs, NowNs(t.ta, s.timer.rate))
    ensures NoneReady(Expired(s, t)) <==> NobodyEligible(s, t)
  {
    WokenAreEligible(s, t);
    hide StatusAt, Eligible;
  }

  lemma FirstReadyIsEligible<T, E>(s: Sched<T, E>, t: TickInput<T, E>, s1: Sched<T, E>, s2: Sched<T, E>)
    requires Known(s) && Known(s1) && s1.ring == s.ring && HandedOver(s1, s2)
    requires forall i :: 0 <= i < |s.ring| ==> (StatusAt(s1, i) == READY <==> Eligible(s, t, i))
    ensures ToFirstEligible(s, t, s2)
  {
    var k: nat :| FirstReady(s1, k) && s2.ring == s1.ring[k..] + s1.ring[..k];
    assert FirstEligible(s, t, k);
  }

  /** After the callbacks have run, the READY threads are the eligible ones. */
  lemma WokenAreEligible<T, E>(s: Sched<T, E>, t: TickInput<T, E>)
    requires Known(s) && AllLater(t.cbs, NowNs(t.ta, s.timer.rate))
    ensures forall i :: 0 <= i < |s.ring| ==> (StatusAt(Expired(s, t), i) == READY <==> Eligible(s, t, i))
  {
    hide RunExpired;
  }

  /** A tick that interrupts kernel code preempts nothing: current thread, live and stored
      frames and both stack pointers stay, and so does every thread but the woken ones. */
  lemma KernelTick<T, E>(s: Sched<T, E>, t: TickInput<T, E>)
    requires Ok(s) && AllLater(t.cbs, NowNs(t.ta, s.timer.rate)) && s.live.cs % 4 != 3
    ensures var s' := OnTick(s, t);
            && s'.ring == s.ring && s'.live == s.live && s'.cpuRsp == s.cpuRsp && s'.tssRsp == s.tssRsp
            && s'.threads == Wake(s.threads, t.wake)
    ensures forall x :: x in s.ring ==>
      x in OnTick(s, t).threads && OnTick(s, t).threads[x].frame == s.threads[x].frame
  {
    hide RunExpired, NextDeadline, Oneshot, Stop, Preempt;
    var s1 := Expired(s, t);
    WakeKeeps(s, s1, t.wake);
    ArmKeepsThreads(s1, t.tb, t.tc);
  }

  /** Which stored frames a tick writes: the current thread's, with the interrupted context,
      when it ends the slice; no other. */
  lemma TickFrames<T, E>(s: Sched<T, E>, t: TickInput<T, E>, x: T)
    requires Ok(s) && AllLater(t.cbs, NowNs(t.ta, s.timer.rate)) && x in s.ring
    ensures var s' := OnTick(s, t);
            x in s'.threads && s'.threads[x].frame ==
              if x == s.ring[0] && EndsSlice(s, t) then s.live else s.threads[x].frame
  {
    hide NextDeadline, Oneshot, Stop, NowNs, RunExpired, PickFrom;
    var s1 := Expired(s, t);
    WakeKeeps(s, s1, t.wake);
    if SliceOver(s1, NowNs(t.ta, s.timer.rate)) {
      SaveKeeps(s1);
    }
  }

  /** Before the first thread a tick does nothing at all. */
  lemma TickBeforeThreads<T, E>(s: Sched<T, E>, t: TickInput<T, E>)
    requires s.ring == [] && AllLater(t.cbs, NowNs(t.ta, s.timer.rate))
    ensures OnTick(s, t) == s
  {
  }

  // ---------------------------------------------------------------- arming

  /** The quantum is on and a thread other than the current one is READY. */
  predicate Contended<T, E>(s: Sched<T, E>)
    requires Known(s)
  {
    s.quantum != 0 && !NoneReady(s)
  }

  lemma PreemptibleIsContended<T, E>(s: Sched<T, E>)
    requires Known(s)
    ensures Preemptible(s) <==> Contended(s)
  {
    if Pick(s) != 0 { assert StatusAt(s, Pick(s)) == READY; }
  }

  /** What arming leaves of the slice: its end if that is still ahead, else one a quantum
      away, while contended; none otherwise, save that nothing is touched when there is
      neither a quantum nor an event. */
  function SliceAfter<T, E>(s: Sched<T, E>, now: nat): nat
    requires Known(s)
  {
    if Contended(s) then (if s.sliceEnd > now then s.sliceEnd else now + s.quantum)
    else if s.quantum == 0 && (s.queue == [] || s.queue[0].deadline == 0) then s.sliceEnd
    else 0
  }

  /** What arming makes the timer wait for: the first event or the slice end, whichever is
      earlier; 0 for nothing. */
  function WaitFor<T, E>(s: Sched<T, E>, now: nat): nat
    requires Known(s)
  {
    if s.queue == [] || s.queue[0].deadline == 0 then (if Contended(s) then SliceAfter(s, now) else 0)
    else if Contended(s) then Min(s.queue[0].deadline, SliceAfter(s, now))
    else s.queue[0].deadline
  }

  /** The timer stopped for goal 0, or started for what is left, at least a nanosecond. */
  function TimerFor(d: Device, goal: nat, now: nat, tc: nat): Device {
    if goal == 0 then Stop(d) else Oneshot(d, Left(goal, now), tc)
  }

  function Left(goal: nat, now: nat): nat { if goal > now then goal - now else 1 }

  /** Arming as a whole: the slice end, and the timer stopped, or started for what is left
      of the wait, at least a nanosecond. Nothing else changes. */
  lemma ArmOutcome<T, E>(s: Sched<T, E>, tb: nat, tc: nat)
    requires Known(s)
    ensures var s', now := Arm(s, tb, tc), NowNs(tb, s.timer.rate);
            var goal := WaitFor(s, now);
            && s' == s.(sliceEnd := SliceAfter(s, now), timer := s'.timer)
            && s'.timer == TimerFor(s.timer, goal, now, tc)
  {
    PreemptibleIsContended(s);
    hide Pick, NoneReady, Oneshot, Stop, NowNs;
  }

  lemma PreemptHandsOver<T, E>(s: Sched<T, E>)
    requires Ok(s)
    ensures var s' := Preempt(s);
            && s'.queue == s.queue
            && (NoneReady(s) ==> s'.ring == s.ring)
            && (!NoneReady(s) ==> s'.ring[..1] != s.ring[..1] && HandedOver(s, s'))
  {
    var s2 := Save(s);
    SaveKeeps(s);
    var k := Pick(s2);
    assert forall i :: 1 <= i < |s.ring| ==> StatusAt(s2, i) == StatusAt(s, i);
    if k != 0 {
      assert StatusAt(s, k) == READY;
      assert FirstReady(s, k);
      assert Preempt(s).ring[..1] == [s.ring[k]] && s.ring[..1] == [s.ring[0]];
    }
  }

  /** Which statuses a tick changes: those of the threads it hands over from and to, and of
      the BLOCKED threads it wakes. */
  lemma TickStatuses<T, E>(s: Sched<T, E>, t: TickInput<T, E>, x: T)
    requires Ok(s) && AllLater(t.cbs, NowNs(t.ta, s.timer.rate)) && x in s.ring
    ensures var s' := OnTick(s, t);
            s'.ring != [] && x in s'.threads && s'.threads[x].status == StatusAfter(s, t, s', x)
  {
    hide NextDeadline, Oneshot, Stop, NowNs, RunExpired, PickFrom;
    var now, s1 := NowNs(t.ta, s.timer.rate), Expired(s, t);
    WakeKeeps(s, s1, t.wake);
    if SliceOver(s1, now) {
      SaveKeeps(s1);
    }
  }

  lemma WakeKeeps<T, E>(s: Sched<T, E>, s1: Sched<T, E>, wake: set<T>)
    requires Ok(s) && s1 == s.(queue := s1.queue, threads := Wake(s.threads, wake))
    ensures Ok(s1) && forall x :: x in s.ring ==> Context(s1, x) == Context(s, x)
    ensures forall i :: 0 <= i < |s.ring| && StatusAt(s, i) == READY ==> StatusAt(s1, i) == READY
  {
    forall i | 0 <= i < |s.ring|
      ensures s.ring[i] in s1.threads && (s1.threads[s.ring[i]].status == RUNNING <==> i == 0)
      ensures s1.threads[s.ring[i]].frame == s.threads[s.ring[i]].frame
      ensures s1.threads[s.ring[i]].kstack == s.threads[s.ring[i]].kstack
    {
      WakeStatus(s, wake, i);
      assert StatusAt(s, i) == s.threads[s.ring[i]].status;
    }
  }

  /** How a tick leaves the slice and the timer: armed, from the clock's second read, for the
      threads and events that the tick leaves, the slice counting as dropped if it ended. */
  lemma TickArms<T, E>(s: Sched<T, E>, t: TickInput<T, E>)
    requires Ok(s) && AllLater(t.cbs, NowNs(t.ta, s.timer.rate))
    ensures var s', now := OnTick(s, t), NowNs(t.tb, s.timer.rate);
            var b := s'.(sliceEnd := if EndsSlice(s, t) then 0 else s.sliceEnd);
            && Known(s') && s'.quantum == s.quantum
            && s'.sliceEnd == SliceAfter(b, now) && s'.timer == TimerFor(s.timer, WaitFor(b, now), now, t.tc)
  {
    var s1, now := Expired(s, t), NowNs(t.tb, s.timer.rate);
    var a := if EndsSlice(s, t) then Preempt(s1) else s1;
    ArmOutcome(a, t.tb, t.tc);
    var b := OnTick(s, t).(sliceEnd := if EndsSlice(s, t) then 0 else s.sliceEnd);
    assert OnTick(s, t) == Arm(a, t.tb, t.tc);
    assert a.timer == s.timer && a.quantum == s.quantum && a.sliceEnd == b.sliceEnd;
    hide Arm, OnTick, Preempt, Expired, TimerFor, EndsSlice, NowNs;
    SameGoal(a, b, now);
  }

  lemma SameGoal<T, E>(a: Sched<T, E>, b: Sched<T, E>, now: nat)
    requires Known(a) && Known(b) && b.ring == a.ring && b.threads == a.threads && b.queue == a.queue
    requires b.quantum == a.quantum && b.sliceEnd == a.sliceEnd
    ensures SliceAfter(b, now) == SliceAfter(a, now) && WaitFor(b, now) == WaitFor(a, now)
  {
    SameContention(a, b);
    hide Contended;
  }

  lemma AddKeeps<T, E>(s: Sched<T, E>, t: T, th: Thread, tb: nat, tc: nat)
    requires Ok(s) && t !in s.ring && th.status != RUNNING
    ensures var s' := Add(s, t, th, tb, tc);
            && Ok(s') && s'.timer.rate == s.timer.rate && s'.ring == [s.ring[0], t] + s.ring[1..]
            && Context(s', t) == th.frame
            && (forall x :: x in s.ring ==> x in s'.ring && Context(s', x) == Context(s, x))
            && (forall i :: 1 <= i < |s.ring| ==> StatusAt(s', i + 1) == StatusAt(s, i))
            && t in s'.threads && s'.threads[t] == th && s'.quantum == s.quantum && s'.queue == s.queue
            && s'.sliceEnd == (if Contended(s') then NowNs(tb, s.timer.rate) + s.quantum else 0)
            && s'.timer == StartedFresh(s.timer, s', tb, tc)
  {
    var a := s.(ring := [s.ring[0], t] + s.ring[1..], threads := s.threads[t := th], sliceEnd := 0);
    forall i | 0 <= i < |a.ring|
      ensures a.ring[i] in a.threads && (a.threads[a.ring[i]].status == RUNNING <==> i == 0)
    {
      if i != 1 {
        var j := if i == 0 then 0 else i - 1;
        assert a.ring[i] == s.ring[j] && (StatusAt(s, j) == RUNNING <==> j == 0);
      }
    }
    forall x | x in s.ring ensures x in a.ring && Context(a, x) == Context(s, x) {
      var i :| 0 <= i < |s.ring| && s.ring[i] == x;
      assert a.ring[if i == 0 then 0 else i + 1] == x;
    }
    forall i | 1 <= i < |s.ring| ensures StatusAt(a, i + 1) == StatusAt(s, i) {
      assert a.ring[i + 1] == s.ring[i];
    }
    assert a.ring[1] == t;
    ArmKeepsThreads(a, tb, tc);
    SliceFromZero(a, tb, tc);
  }

  /** Armed without a slice, the scheduler starts a whole one, or none. */
  lemma SliceFromZero<T, E>(s: Sched<T, E>, tb: nat, tc: nat)
    requires Known(s) && s.sliceEnd == 0
    ensures var s' := Arm(s, tb, tc);
            && s'.quantum == s.quantum && s'.queue == s.queue
            && s'.sliceEnd == (if Contended(s') then NowNs(tb, s.timer.rate) + s.quantum else 0)
            && s'.timer == StartedFresh(s.timer, s', tb, tc)
  {
    ArmKeepsThreads(s, tb, tc);
    ArmOutcome(s, tb, tc);
    SameContention(s, Arm(s, tb, tc));
    SameGoal(s, Arm(s, tb, tc).(sliceEnd := 0), NowNs(tb, s.timer.rate));
    hide Arm, Contended, WaitFor, TimerFor, NowNs;
  }

  /** The timer d after an arming that found no slice and left s. */
  function StartedFresh<T, E>(d: Device, s: Sched<T, E>, tb: nat, tc: nat): Device
    requires Known(s)
  {
    var now := NowNs(tb, d.rate);
    TimerFor(d, WaitFor(s.(sliceEnd := 0), now), now, tc)
  }

  lemma SameContention<T, E>(s: Sched<T, E>, s': Sched<T, E>)
    requires Known(s) && Known(s') && s'.ring == s.ring && s'.threads == s.threads && s'.quantum == s.quantum
    ensures Contended(s') <==> Contended(s)
  {
    assert forall i :: 0 <= i < |s.ring| ==> StatusAt(s', i) == StatusAt(s, i);
  }

  /** The first thread added becomes the current one, as sched_init makes it: RUNNING, its
      record otherwise as it was; nothing else changes and no timer is started. */
  lemma AddFirst<T, E>(s: Sched<T, E>, t: T, th: Thread, tb: nat, tc: nat)
    requires s.ring == []
    ensures var s' := Add(s, t, th, tb, tc);
            && s' == SchedModel.Init(s, t, th) && s' == s.(ring := [t], threads := s'.threads)
            && s'.threads == s.threads[t := Thread(th.frame, th.kstack, RUNNING)]
  {
  }

  /** Setting the quantum: it is kept in 32 bits. 0 stops the timer and keeps the slice end;
      anything else arms the timer with the quantum as kept. */
  lemma QuantumOutcome<T, E>(s: Sched<T, E>, ns: nat, tb: nat, tc: nat)
    requires Known(s)
    ensures var s', q := SchedModel.SetQuantum(s, ns, tb, tc), s.(quantum := ns % 0x1_0000_0000);
            var now := NowNs(tb, s.timer.rate);
            && s' == q.(sliceEnd := s'.sliceEnd, timer := s'.timer)
            && (ns == 0 ==> s'.sliceEnd == s.sliceEnd && s'.timer == Stop(s.timer))
            && (ns != 0 ==> s'.sliceEnd == SliceAfter(q, now))
            && (ns != 0 ==> s'.timer == TimerFor(s.timer, WaitFor(q, now), now, tc))
  {
    ArmOutcome(s.(quantum := ns % 0x1_0000_0000), tb, tc);
    hide Arm, SliceAfter, WaitFor, Oneshot, Stop, NowNs;
  }

  // ---------------------------------------------------------------- any run

  ghost predicate Legal<T, E>(s: Sched<T, E>, es: seq<Event<T, E>>)
    requires Known(s)
    decreases |es|
  {
    es == [] || (May(s, es[0]) && Known(Do(s, es[0])) && Legal(Do(s, es[0]), es[1..]))
  }

  ghost function Run<T, E>(s: Sched<T, E>, es: seq<Event<T, E>>): Sched<T, E>
    requires Known(s) && Legal(s, es)
    decreases |es|
  {
    if es == [] then s else Run(Do(s, es[0]), es[1..])
  }

  /** The simple machine: every thread has a context of its own, and only the thread that
      executes changes its own. */
  ghost function OwnStep<T, E>(m: map<T, Frame>, current: T, e: Event<T, E>): map<T, Frame> {
    match e
    case Execute(f) => m[current := f]
    case AddThread(t, th, _, _) => m[t := th.frame]
    case _ => m
  }

  ghost function OwnRun<T, E>(s: Sched<T, E>, m: map<T, Frame>, es: seq<Event<T, E>>): map<T, Frame>
    requires Known(s) && s.ring != [] && Legal(s, es) && Ok(s)
    decreases |es|
  {
    if es == [] then m
    else
      EventKeeps(s, es[0]);
      OwnRun(Do(s, es[0]), OwnStep(m, s.ring[0], es[0]), es[1..])
  }

  /** m holds every thread's context. */
  ghost predicate Holds<T, E>(m: map<T, Frame>, s: Sched<T, E>)
    requires Known(s)
  {
    forall x :: x in s.ring ==> x in m && m[x] == Context(s, x)
  }

  lemma EventKeeps<T, E>(s: Sched<T, E>, e: Event<T, E>)
    requires Ok(s) && May(s, e)
    ensures var s' := Do(s, e);
            && Ok(s') && s'.timer.rate == s.timer.rate
            && (forall x :: x in s'.ring <==> x in s.ring || (e.AddThread? && x == e.t))
            && |s'.ring| == |s.ring| + (if e.AddThread? then 1 else 0)
  {
    match e {
      case Execute(f) => ExecuteKeeps(s, f);
      case Tick(t) => TickKeeps(s, t);
      case AddThread(t, th, tb, tc) => AddKeeps(s, t, th, tb, tc);
      case Quantum(ns, tb, tc) => QuantumKeeps(s, ns, tb, tc);
      case Start(tb, tc) => ArmKeepsThreads(s, tb, tc);
      case Enqueue(ev) => SameRing(s, s.(queue := Insert(s.queue, ev)));
    }
  }

  /** sched_init establishes the invariant exactly when both kernel stack pointers have
      been set to the first thread's stack, as kmain does; later switches keep them right. */
  lemma InitEstablishes<T, E>(s: Sched<T, E>, t: T, th: Thread)
    requires s.ring == []
    ensures Ok(SchedModel.Init(s, t, th)) <==> s.cpuRsp == th.kstack && s.tssRsp == th.kstack
    ensures var s' := SchedModel.Init(s, t, th);
            && s' == s.(ring := [t], threads := s'.threads)
            && s'.threads == s.threads[t := Thread(th.frame, th.kstack, RUNNING)]
  {
    var s' := SchedModel.Init(s, t, th);
    assert s'.ring[0] == t && Known(s') && StatusAt(s', 0) == RUNNING;
  }

  lemma SameRing<T, E>(s: Sched<T, E>, s': Sched<T, E>)
    requires Ok(s) && s'.ring == s.ring && s'.threads == s.threads && s'.cpuRsp == s.cpuRsp && s'.tssRsp == s.tssRsp
    ensures Ok(s') && forall i :: 0 <= i < |s.ring| ==> StatusAt(s', i) == StatusAt(s, i)
    ensures s'.live == s.live ==> forall x :: x in s.ring ==> Context(s', x) == Context(s, x)
  {
    assert forall i :: 0 <= i < |s.ring| ==> s'.ring[i] in s'.threads;
    assert forall i :: 0 <= i < |s.ring| ==> StatusAt(s', i) == StatusAt(s, i);
  }

  lemma ExecuteKeeps<T, E>(s: Sched<T, E>, f: Frame)
    requires Ok(s)
    ensures var s' := s.(live := f);
            Ok(s') && forall x :: x in s.ring ==> Context(s', x) == if x == s.ring[0] then f else Context(s, x)
  {
    SameRing(s, s.(live := f));
  }

  lemma QuantumKeeps<T, E>(s: Sched<T, E>, ns: nat, tb: nat, tc: nat)
    requires Ok(s)
    ensures var s' := SchedModel.SetQuantum(s, ns, tb, tc);
            Ok(s') && SameThreads(s, s') && forall x :: x in s.ring ==> Context(s', x) == Context(s, x)
  {
    var s1 := s.(quantum := ns % TWO32);
    SameRing(s, s1);
    if ns == 0 {
      SameRing(s1, s1.(timer := Stop(s1.timer)));
    } else {
      ArmKeepsThreads(s1, tb, tc);
    }
  }

  lemma EventHolds<T, E>(s: Sched<T, E>, e: Event<T, E>, m: map<T, Frame>)
    requires Ok(s) && May(s, e) && Holds(m, s)
    ensures Ok(Do(s, e)) && Holds(OwnStep(m, s.ring[0], e), Do(s, e))
  {
    EventKeeps(s, e);
    match e {
      case Execute(f) => ExecuteKeeps(s, f);
      case Tick(t) => TickKeeps(s, t);
      case AddThread(t, th, tb, tc) => AddKeeps(s, t, th, tb, tc);
      case Quantum(ns, tb, tc) => QuantumKeeps(s, ns, tb, tc);
      case Start(tb, tc) => ArmKeepsThreads(s, tb, tc);
      case Enqueue(ev) => SameRing(s, s.(queue := Insert(s.queue, ev)));
    }
  }

  /** The threads added by a run. */
  ghost function Added<T, E>(es: seq<Event<T, E>>): seq<T> {
    if es == [] then [] else (if es[0].AddThread? then [es[0].t] else []) + Added(es[1..])
  }

  /** Context conservation over any run: the ring holds the initial and the added threads,
      with its invariant, and every thread's context (live for the current one, saved for
      the others) is what that thread itself left, or was created with; no tick, switch or
      call ever changes it. */
  lemma {:induction false} RunConservesContexts<T, E>(s: Sched<T, E>, es: seq<Event<T, E>>, m: map<T, Frame>)
    requires Ok(s) && Legal(s, es) && Holds(m, s)
    ensures Ok(Run(s, es)) && Holds(OwnRun(s, m, es), Run(s, es))
    ensures |Run(s, es).ring| == |s.ring| + |Added(es)|
    ensures forall x :: x in Run(s, es).ring <==> x in s.ring || x in Added(es)
    decreases |es|
  {
    if es != [] {
      EventHolds(s, es[0], m);
      EventKeeps(s, es[0]);
      RunConservesContexts(Do(s, es[0]), es[1..], OwnStep(m, s.ring[0], es[0]));
    }
  }

  // ---------------------------------------------------------------- a new thread

  lemma TickKeepsStacks<T, E>(s: Sched<T, E>, t: TickInput<T, E>, x: T)
    requires Ok(s) && AllLater(t.cbs, NowNs(t.ta, s.timer.rate)) && x in s.ring
    ensures x in OnTick(s, t).threads && OnTick(s, t).threads[x].kstack == s.threads[x].kstack
  {
    hide NextDeadline, Oneshot, Stop, NowNs, RunExpired, PickFrom;
    var s1 := Expired(s, t);
    WakeKeeps(s, s1, t.wake);
    if SliceOver(s1, NowNs(t.ta, s.timer.rate)) {
      SaveKeeps(s1);
    }
  }

  /** What happens to a thread while another one executes: its context and its kernel stack
      stay as they are. */
  lemma EventKeepsOthers<T, E>(s: Sched<T, E>, e: Event<T, E>, x: T)
    requires Ok(s) && May(s, e) && x in s.ring && x != s.ring[0]
    ensures var s' := Do(s, e);
            Ok(s') && x in s'.ring && Context(s', x) == Context(s, x) && s'.threads[x].kstack == s.threads[x].kstack
  {
    EventKeeps(s, e);
    match e {
      case Execute(f) => ExecuteKeeps(s, f);
      case Tick(t) => TickKeeps(s, t); TickKeepsStacks(s, t, x);
      case AddThread(t, th, tb, tc) => AddKeeps(s, t, th, tb, tc);
      case Quantum(ns, tb, tc) => QuantumKeeps(s, ns, tb, tc);
      case Start(tb, tc) => ArmKeepsThreads(s, tb, tc);
      case Enqueue(ev) => SameRing(s, s.(queue := Insert(s.queue, ev)));
    }
  }

  /** Before each event of the run, another thread than x is the current one. */
  ghost predicate NotYetRun<T, E>(s: Sched<T, E>, es: seq<Event<T, E>>, x: T)
    requires Ok(s) && Legal(s, es)
    decreases |es|
  {
    es == [] || (s.ring[0] != x && (EventKeeps(s, es[0]); NotYetRun(Do(s, es[0]), es[1..], x)))
  }

  lemma {:induction false} WaitsUnchanged<T, E>(s: Sched<T, E>, es: seq<Event<T, E>>, x: T)
    requires Ok(s) && Legal(s, es) && NotYetRun(s, es, x) && x in s.ring
    ensures var s' := Run(s, es);
            Ok(s') && x in s'.ring && Context(s', x) == Context(s, x) && s'.threads[x].kstack == s.threads[x].kstack
    decreases |es|
  {
    if es != [] {
      hide Do;
      EventKeepsOthers(s, es[0], x);
      WaitsUnchanged(Do(s, es[0]), es[1..], x);
    }
  }

  /** Ready to execute user code at entry on the given stack: the user code selector (4, at
      privilege 3) and the user data selector (3, at privilege 3), interrupts enabled and no
      other flag but the one that is always set, and no register left over. */
  predicate UserEntry(f: Frame, entry: nat, userStack: nat) {
    && f.rip == entry && f.rsp == userStack && f.cs == 4 * 8 + 3 && f.ss == 3 * 8 + 3 && f.rflags == 0x200 + 0x2
    && f.vector == 0 && f.error == 0
    && |f.gpr| == 15 && forall i :: 0 <= i < 15 ==> f.gpr[i] == 0
  }

  /** thread_init_user and sched_add: whenever the new thread first becomes the current
      one, however much later, it starts in user mode at its entry with its own stacks. */
  lemma NewThreadStartsAtEntry<T, E>(s: Sched<T, E>, x: T, entry: nat, userStack: nat, kstack: nat,
                                     tb: nat, tc: nat, es: seq<Event<T, E>>)
    requires Ok(s) && x !in s.ring
    requires var s1 := Add(s, x, InitUser(entry, userStack, kstack), tb, tc);
             Ok(s1) && Legal(s1, es) && NotYetRun(s1, es, x) && Ok(Run(s1, es)) && Run(s1, es).ring[0] == x
    ensures var s' := Run(Add(s, x, InitUser(entry, userStack, kstack), tb, tc), es);
            UserEntry(s'.live, entry, userStack) && s'.cpuRsp == s'.tssRsp == kstack
  {
    var th := InitUser(entry, userStack, kstack);
    hide Add, Legal, NotYetRun, Run, UserEntry;
    InitEntry(entry, userStack, kstack);
    JustAdded(s, x, th, tb, tc);
    FirstRun(Add(s, x, th, tb, tc), x, th, es);
  }

  lemma InitEntry(entry: nat, userStack: nat, kstack: nat)
    ensures UserEntry(InitUser(entry, userStack, kstack).frame, entry, userStack)
    ensures InitUser(entry, userStack, kstack).status == READY && InitUser(entry, userStack, kstack).kstack == kstack
  {
  }

  lemma FirstRun<T, E>(s: Sched<T, E>, x: T, th: Thread, es: seq<Event<T, E>>)
    requires Ok(s) && x in s.ring && Context(s, x) == th.frame && s.threads[x].kstack == th.kstack
    requires Legal(s, es) && NotYetRun(s, es, x) && Ok(Run(s, es)) && Run(s, es).ring[0] == x
    ensures var s' := Run(s, es); s'.live == th.frame && s'.cpuRsp == s'.tssRsp == th.kstack
  {
    hide Legal, NotYetRun, Run;
    WaitsUnchanged(s, es, x);
  }

  lemma JustAdded<T, E>(s: Sched<T, E>, x: T, th: Thread, tb: nat, tc: nat)
    requires Ok(s) && x !in s.ring && th.status != RUNNING
    ensures var s1 := Add(s, x, th, tb, tc);
            Ok(s1) && x in s1.ring && Context(s1, x) == th.frame && s1.threads[x].kstack == th.kstack
  {
    AddKeeps(s, x, th, tb, tc);
    assert Add(s, x, th, tb, tc).ring[1] == x;
  }
}
