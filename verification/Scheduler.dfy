/** The scheduler's own data (kernel/core/sched.c): thread objects linked in a circle, and
    g_current, g_quantum_ns, g_slice_end_ns, the kernel stack pointers, the timer queue and
    the timer. */
module Scheduler {
  import opened Words
  import opened Clock
  import opened Timer
  import opened Events
  import opened SchedModel
  import TimerQueue

  /** thread_t */
  class ThreadObj {
    var frame: Frame
    var kstack: nat
    var status: Status
    var next: ThreadObj?

    /** thread_init_user */
    constructor (entry: nat, userStack: nat, kstackTop: nat)
      ensures Record(this) == InitUser(entry, userStack, kstackTop) && next == null
    {
      frame := Frame(seq(15, _ => 0), 0, 0, entry, USER_CS, 0x202, userStack, USER_DS);
      kstack, status, next := kstackTop, READY, null;
    }
  }

  ghost function Record(t: ThreadObj): Thread
    reads t`frame, t`kstack, t`status
  {
    Thread(t.frame, t.kstack, t.status)
  }

  ghost function Records(ring: seq<ThreadObj>): map<ThreadObj, Thread>
    reads ring`frame, ring`kstack, ring`status
  {
    map t | t in ring :: Record(t)
  }

  function Following(ring: seq<ThreadObj>, i: nat): ThreadObj
    requires i < |ring|
  {
    if i + 1 < |ring| then ring[i + 1] else ring[0]
  }

  /** The next pointers run once around the ring. */
  ghost predicate Circle(ring: seq<ThreadObj>)
    reads ring`next
  {
    && (forall i :: 0 <= i < |ring| ==> ring[i].next == Following(ring, i))
    && (forall i, j :: 0 <= i < j < |ring| ==> ring[i] != ring[j])
  }

  /** Methods that only relate the abstract states before and after take the former as the
      ghost argument s. */
  class Core {
    var current: ThreadObj?
    var quantum: nat
    var sliceEnd: nat
    var cpuRsp: nat
    var tssRsp: nat
    const queue: TimerQueue.Queue
    const timer: TimerDevice
    ghost var ring: seq<ThreadObj>

    /** The globals before the first thread. */
    constructor (queue: TimerQueue.Queue, timer: TimerDevice)
      requires queue.Valid() && timer.Valid()
      ensures Valid() && ring == [] && quantum == 0 && sliceEnd == 0
      ensures this.queue == queue && this.timer == timer
    {
      this.queue, this.timer := queue, timer;
      current, quantum, sliceEnd, cpuRsp, tssRsp, ring := null, 0, 0, 0, 0, [];
    }

    ghost predicate Valid()
      reads this`current, this`ring, ring`next, queue, queue.list, timer`num, timer`den, timer`scale
      ensures Valid() ==> queue.Valid() && timer.Valid()
      ensures Valid() ==> (ring == [] <==> current == null) && (ring != [] ==> current == ring[0])
    {
      && queue.Valid() && timer.Valid()
      && Circle(ring)
      && (if ring == [] then current == null else current == ring[0])
    }

    ghost function View(live: Frame): (s: Sched<ThreadObj, TimerQueue.TimerEvent>)
      reads this, ring, queue, queue.list, timer
      ensures Known(s) && s.ring == ring && s.live == live && s.sliceEnd == sliceEnd
      ensures s.timer.rate == timer.View().rate
    {
      Sched(ring, Records(ring), quantum, sliceEnd, queue.View(), timer.View(), live, cpuRsp, tssRsp)
    }

    /** pick_next */
    method PickNext(ghost live: Frame) returns (t: ThreadObj, ghost k: nat)
      requires Valid() && ring != []
      ensures k == Pick(View(live)) && k < |ring| && t == ring[k] && (t == current <==> k == 0)
    {
      ghost var s := View(live);
      t := current.next;
      ghost var i: nat := 1;
      while t != current && t.status != READY
        invariant 1 <= i <= |ring| && t == (if i < |ring| then ring[i] else ring[0])
        invariant PickFrom(s, 1) == PickFrom(s, i)
        decreases |ring| - i
      {
        assert StatusAt(s, i) == ring[i].status;
        t := t.next;
        i := i + 1;
      }
      if i < |ring| { assert StatusAt(s, i) == ring[i].status; }
      if t.status == READY && t != current { k := i; } else { t, k := current, 0; }
    }

    /** g_quantum_ns && pick_next() != g_current: without a quantum no thread is looked at,
        so there need not be one. */
    method CanPreempt(ghost live: Frame) returns (b: bool)
      requires Valid() && (ring != [] || quantum == 0)
      ensures b == Preemptible(View(live))
    {
      hide Circle, Records, PickFrom;
      if quantum == 0 { return false; }
      var next, k := PickNext(live);
      b := next != current;
    }

    /** sched_next_deadline */
    method NextDeadlineNs(now: nat, ghost live: Frame) returns (deadline: nat)
      requires Valid() && (ring != [] || quantum == 0)
      modifies this`sliceEnd
      ensures (sliceEnd, deadline) == NextDeadline(old(View(live)), now)
    {
      hide Valid, Circle, Records, PickFrom, Pick, Preemptible, TimerQueue.Queue.Valid, TimerDevice.View, FirstDeadline;
      ghost var s := View(live);
      deadline := queue.NextDeadline();
      var preemptible := CanPreempt(live);
      if preemptible {
        if sliceEnd == 0 || sliceEnd <= now {
          sliceEnd := now + quantum;
        }
        if deadline == 0 || sliceEnd < deadline {
          deadline := sliceEnd;
        }
      } else {
        sliceEnd := 0;
      }
    }

    /** Starts the timer for a deadline, or stops it for 0. */
    method StartTimer(deadline: nat, now: nat, tc: nat)
      modifies timer`deadline, timer`count, timer`lvt, timer`lapicVector
      ensures timer.View() == if deadline == 0 then Stop(old(timer.View()))
                              else Oneshot(old(timer.View()), Delay(deadline, now), tc)
    {
      if deadline == 0 {
        timer.StopTimer();
      } else {
        timer.OneshotNs(if deadline > now then deadline - now else 1, tc);
      }
    }

    /** sched_arm_timer, and sched_start */
    method ArmTimer(tb: nat, tc: nat, ghost live: Frame)
      requires Valid() && (ring != [] || quantum == 0) && tb <= U64_MAX
      modifies this`sliceEnd, timer`deadline, timer`count, timer`lvt, timer`lapicVector
      ensures Valid() && View(live) == Arm(old(View(live)), tb, tc)
    {
      ghost var s := View(live);
      hide Valid, Circle, Records, NextDeadline, Oneshot, Stop, Delay, TimerQueue.Queue.Valid, FirstDeadline,
        TimerQueue.Queue.View, TimerDevice.View;
      var first := queue.NextDeadline();
      if quantum == 0 && first == 0 {
        StartTimer(0, 0, tc);
        return;
      }
      var now := timer.Now(tb);
      var deadline := NextDeadlineNs(now, live);
      StartTimer(deadline, now, tc);
    }

    /** sched_init; the kernel stack pointers are the caller's business. */
    method InitWith(t: ThreadObj, ghost live: Frame)
      requires Valid() && ring == []
      modifies this`current, this`ring, t`status, t`next
      ensures Valid() && View(live) == SchedModel.Init(old(View(live)), t, old(Record(t)))
    {
      current, t.status, t.next := t, RUNNING, t;
      ring := [t];
    }

    /** sched_add: links t after the current thread. */
    method AddThread(t: ThreadObj, tb: nat, tc: nat, ghost live: Frame)
      requires Valid() && t !in ring && tb <= U64_MAX
      modifies this, timer`deadline, timer`count, timer`lvt, timer`lapicVector, t`status, t`next, ring
      ensures Valid() && View(live) == SchedModel.Add(old(View(live)), t, old(Record(t)), tb, tc)
    {
      if current == null {
        InitWith(t, live);
        return;
      }
      LinkNew(t, live);
      hide Valid, View;
      ArmTimer(tb, tc, live);
    }

    method LinkNew(t: ThreadObj, ghost live: Frame)
      requires Valid() && ring != [] && t !in ring
      modifies this`ring, this`sliceEnd, t`next, current`next
      ensures Valid() && ring != []
      ensures var s := old(View(live));
              View(live) == s.(ring := [s.ring[0], t] + s.ring[1..], sliceEnd := 0,
                               threads := s.threads[t := old(Record(t))])
    {
      hide TimerQueue.Queue.Valid, TimerQueue.Queue.View, TimerDevice.Valid, TimerDevice.View, Circle, Records, Record;
      LinkAfterCurrent(t);
      sliceEnd := 0;
    }

    method LinkAfterCurrent(t: ThreadObj)
      requires Valid() && ring != [] && t !in ring
      modifies this`ring, t`next, current`next
      ensures Valid() && ring == [old(ring)[0], t] + old(ring)[1..]
      ensures Records(ring) == old(Records(ring))[t := old(Record(t))]
    {
      hide TimerQueue.Queue.Valid, TimerQueue.Queue.View, TimerDevice.Valid, TimerDevice.View;
      hide Circle, Records, Record;
      ghost var r := ring;
      CircleNext(r);
      t.next := current.next;
      current.next := t;
      ring := [r[0], t] + r[1..];
      InsertedCircle(r, t);
      InsertedRecords(r, t);
    }

    /** sched_set_quantum_ns: the argument is cut to 32 bits when stored, not when tested. */
    method SetQuantumNs(ns: nat, tb: nat, tc: nat, ghost live: Frame)
      requires Valid() && (ring != [] || ns % TWO32 == 0) && tb <= U64_MAX
      modifies this`quantum, this`sliceEnd, timer`deadline, timer`count, timer`lvt, timer`lapicVector
      ensures Valid() && View(live) == SchedModel.SetQuantum(old(View(live)), ns, tb, tc)
    {
      hide TimerQueue.Queue.Valid, TimerQueue.Queue.View, TimerDevice.Valid, TimerDevice.View;
      hide Circle, Arm, Valid, Records;
      ghost var s := View(live);
      quantum := ns % TWO32;
      assert View(live) == s.(quantum := ns % TWO32);
      if ns == 0 {
        StartTimer(0, 0, tc);
      } else {
        ArmTimer(tb, tc, live);
      }
    }

    /** Saves the interrupted context in the current thread. */
    method SaveFrame(live: Frame)
      requires Valid() && ring != []
      modifies current`frame
      ensures Valid() && View(live) == Save(old(View(live)))
    {
      hide TimerQueue.Queue.Valid, TimerQueue.Queue.View, TimerDevice.Valid, TimerDevice.View, Circle;
      ghost var m := Records(ring);
      current.frame := live;
      assert Records(ring) == m[current := m[current].(frame := live)];
    }

    /** Makes ring[k] the current thread and hands back its context. */
    method SwitchToThread(next: ThreadObj, ghost k: nat, live: Frame,
                          ghost s: Sched<ThreadObj, TimerQueue.TimerEvent>)
      returns (live': Frame)
      requires Valid() && 0 < k < |ring| && next == ring[k] && next != current && s == View(live)
      modifies this`current, this`ring, this`cpuRsp, this`tssRsp, current`status, next`status
      ensures Valid() && View(live') == SwitchTo(s, k)
    {
      hide Valid, Known, Records, Record, SwitchTo, TimerQueue.Queue.View, TimerDevice.View;
      live' := Activate(next, k);
      SwitchIs(s, k, View(live'));
    }

    method Activate(next: ThreadObj, ghost k: nat) returns (frame: Frame)
      requires Valid() && 0 < k < |ring| && next == ring[k] && next != current
      modifies this`current, this`ring, this`cpuRsp, this`tssRsp, current`status, next`status
      ensures Valid() && ring == old(ring)[k..] + old(ring)[..k]
      ensures Records(ring) == WithStatus(WithStatus(old(Records(ring)), old(current), READY), next, RUNNING)
      ensures frame == Records(ring)[next].frame && cpuRsp == tssRsp == Records(ring)[next].kstack
    {
      hide TimerQueue.Queue.Valid, TimerDevice.Valid, Circle, WithStatus, Records, Record;
      HandOver(next);
      cpuRsp := next.kstack;
      tssRsp := next.kstack;
      frame := next.frame;
      ReadFrom(k);
    }

    /** The ring is read from the thread at position k on. */
    ghost method ReadFrom(k: nat)
      requires queue.Valid() && timer.Valid() && Circle(ring) && k < |ring| && current == ring[k]
      modifies this`ring
      ensures Valid() && ring == old(ring)[k..] + old(ring)[..k] && Records(ring) == old(Records(ring))
    {
      hide TimerQueue.Queue.Valid, TimerDevice.Valid, Circle, Records, Record;
      RotatedCircle(ring, k);
      RotatedRecords(ring, k);
      ring := ring[k..] + ring[..k];
    }

    method HandOver(next: ThreadObj)
      requires current != null && current in ring && next in ring && next != current
      modifies this`current, current`status, next`status
      ensures current == next
      ensures Records(ring) == WithStatus(WithStatus(old(Records(ring)), old(current), READY), next, RUNNING)
      ensures next.frame == Records(ring)[next].frame && next.kstack == Records(ring)[next].kstack
    {
      ghost var m := Records(ring);
      current.status := READY;
      assert Records(ring) == WithStatus(m, current, READY);
      ghost var m1 := Records(ring);
      next.status := RUNNING;
      assert Records(ring) == WithStatus(m1, next, RUNNING);
      current := next;
    }

    /** What the callbacks of expired events do to threads: wake the BLOCKED ones. */
    method WakeThreads(wake: set<ThreadObj>)
      modifies wake`status
      ensures Records(ring) == Wake(old(Records(ring)), wake)
    {
      forall t | t in wake && t.status == BLOCKED {
        t.status := READY;
      }
    }

    /** Callbacks insert only later events, none of them queued already; pool holds the
        events that are or may be queued. */
    ghost predicate MayTick(i: TickInput<ThreadObj, TimerQueue.TimerEvent>, pool: set<TimerQueue.TimerEvent>)
      reads this, ring`next, queue, queue.list, timer
      ensures MayTick(i, pool) ==> Valid() && i.ta <= U64_MAX && i.tb <= U64_MAX
      ensures MayTick(i, pool) ==> AllLater(i.cbs, NowNs(i.ta, timer.View().rate))
    {
      && Valid() && i.ta <= U64_MAX && i.tb <= U64_MAX
      && AllLater(i.cbs, NowNs(i.ta, timer.View().rate))
      && TimerQueue.MayRun(queue.View(), NowNs(i.ta, timer.View().rate), i.cbs)
      && (forall x :: x in queue.list ==> x in pool)
      && (forall k :: 0 <= k < |i.cbs| ==> TimerQueue.InPool(i.cbs[k], pool))
    }

    /** timerq_run_expired at now, with what its callbacks do. */
    method RunEvents(now: nat, i: TickInput<ThreadObj, TimerQueue.TimerEvent>, ghost pool: set<TimerQueue.TimerEvent>,
                     ghost live: Frame, ghost s: Sched<ThreadObj, TimerQueue.TimerEvent>)
      requires MayTick(i, pool) && now == NowNs(i.ta, timer.View().rate) && s == View(live)
      modifies i.wake`status, queue, pool
      ensures Valid() && View(live) == Expired(s, i)
    {
      hide TimerQueue.Queue.Valid, TimerQueue.Queue.View, TimerDevice.Valid, TimerDevice.View;
      hide Circle, Records, RunExpired, Wake, TimerQueue.MayRun, AllLater;
      ghost var m, q := Records(ring), queue.View();
      ghost var fired := queue.RunDue(now, i.cbs, pool);
      assert Records(ring) == m;
      WakeThreads(i.wake);
    }

    /** sched_on_tick on the interrupted context; what it leaves in the frame. */
    method Tick(live: Frame, i: TickInput<ThreadObj, TimerQueue.TimerEvent>, ghost pool: set<TimerQueue.TimerEvent>,
                ghost s: Sched<ThreadObj, TimerQueue.TimerEvent>)
      returns (live': Frame)
      requires MayTick(i, pool) && s == View(live)
      modifies this, ring, i.wake`status, queue, pool, timer`deadline, timer`count, timer`lvt, timer`lapicVector
      ensures Valid() && View(live') == OnTick(s, i)
    {
      live' := live;
      if current == null { return; }
      hide Valid, View, Arm, Preempt, Expired, SliceOver, AllLater, MayTick, Known, NowNs;
      var now := timer.Now(i.ta);
      RunEvents(now, i, pool, live, s);
      live' := EndTick(live, now, i.tb, i.tc, View(live));
    }

    /** The rest of sched_on_tick, after the expired events have run. */
    method EndTick(live: Frame, now: nat, tb: nat, tc: nat, ghost s: Sched<ThreadObj, TimerQueue.TimerEvent>)
      returns (live': Frame)
      requires Valid() && ring != [] && tb <= U64_MAX && s == View(live)
      modifies this, ring, timer`deadline, timer`count, timer`lvt, timer`lapicVector
      ensures Valid()
      ensures View(live') == if SliceOver(s, now) then Arm(Preempt(s), tb, tc) else Arm(s, tb, tc)
    {
      hide Valid, View, Arm, Preempt;
      live' := live;
      if live.cs % 4 != 3 || sliceEnd == 0 || now < sliceEnd {
        ArmTimer(tb, tc, live);
        return;
      }
      live' := PreemptCurrent(live, s);
      ArmTimer(tb, tc, live');
    }

    method PreemptCurrent(live: Frame, ghost s: Sched<ThreadObj, TimerQueue.TimerEvent>) returns (live': Frame)
      requires Valid() && ring != [] && s == View(live)
      modifies this`current, this`ring, this`cpuRsp, this`tssRsp, this`sliceEnd, ring
      ensures Valid() && ring != [] && View(live') == Preempt(s)
    {
      hide TimerQueue.Queue.Valid, TimerQueue.Queue.View, TimerDevice.Valid, TimerDevice.View;
      hide Circle, Records, Save, SwitchTo, Pick, PickFrom;
      live' := live;
      SaveFrame(live);
      var next, k := PickNext(live);
      if next != current {
        live' := SwitchToThread(next, k, live, View(live));
      }
      sliceEnd := 0;
    }
  }

  /** The pointers of a circle, one by one. */
  lemma CircleNext(r: seq<ThreadObj>)
    requires r != [] && Circle(r)
    ensures forall i :: 0 <= i < |r| ==> r[i].next == Following(r, i)
    ensures forall i, j :: 0 <= i < j < |r| ==> r[i] != r[j]
  {
  }

  lemma InsertedCircle(r: seq<ThreadObj>, t: ThreadObj)
    requires r != [] && t !in r && forall i, j :: 0 <= i < j < |r| ==> r[i] != r[j]
    requires r[0].next == t && t.next == Following(r, 0)
    requires forall i :: 1 <= i < |r| ==> r[i].next == Following(r, i)
    ensures Circle([r[0], t] + r[1..])
  {
    var q := [r[0], t] + r[1..];
    forall i | 0 <= i < |q| ensures q[i].next == Following(q, i) {
      if i >= 2 { assert q[i] == r[i - 1] && r[i - 1].next == Following(r, i - 1); }
    }
  }

  lemma InsertedRecords(r: seq<ThreadObj>, t: ThreadObj)
    requires r != [] && t !in r
    ensures Records([r[0], t] + r[1..]) == Records(r)[t := Record(t)]
  {
    assert r == [r[0]] + r[1..];
    assert forall x :: x in [r[0], t] + r[1..] <==> x in r || x == t;
  }

  lemma RotatedCircle(r: seq<ThreadObj>, k: nat)
    requires k < |r| && Circle(r)
    ensures Circle(r[k..] + r[..k]) && (r[k..] + r[..k])[0] == r[k]
  {
    var q := r[k..] + r[..k];
    forall i | 0 <= i < |q| ensures q[i].next == Following(q, i) {
      var j := if i + k < |r| then i + k else i + k - |r|;
      assert q[i] == r[j] && r[j].next == Following(r, j);
    }
  }

  /** SwitchTo, part by part. */
  lemma SwitchIs<T, E>(s: Sched<T, E>, k: nat, s': Sched<T, E>)
    requires Known(s) && 0 < k < |s.ring|
    requires s'.ring == s.ring[k..] + s.ring[..k]
    requires s'.threads == WithStatus(WithStatus(s.threads, s.ring[0], READY), s.ring[k], RUNNING)
    requires s'.live == s'.threads[s.ring[k]].frame && s'.cpuRsp == s'.tssRsp == s'.threads[s.ring[k]].kstack
    requires s'.quantum == s.quantum && s'.sliceEnd == s.sliceEnd && s'.queue == s.queue && s'.timer == s.timer
    ensures s' == SwitchTo(s, k)
  {
  }

  lemma RotatedRecords(r: seq<ThreadObj>, k: nat)
    requires k < |r|
    ensures Records(r[k..] + r[..k]) == Records(r)
  {
    assert r == r[..k] + r[k..];
    assert forall t :: t in r[k..] + r[..k] <==> t in r;
  }
}
