/** The preemptive scheduler (kernel/core/sched.c) as functions on a state: the thread
    ring, the slice deadline, the timer queue and the one-shot timer. T names threads and
    E timed events. */
module SchedModel {
  import opened Clock
  import opened Timer
  import opened Events

  datatype Status = READY | RUNNING | BLOCKED | ZOMBIE

  /** isr_frame_t: gpr holds r15 .. r8, rdi, rsi, rbp, rbx, rdx, rcx, rax in that order. */
  datatype Frame = Frame(gpr: seq<nat>, vector: nat, error: nat, rip: nat, cs: nat, rflags: nat, rsp: nat, ss: nat)

  datatype Thread = Thread(frame: Frame, kstack: nat, status: Status)

  /** ring: the next-pointer cycle read from g_current on, [] before the first thread;
      live: the context the processor is executing, which a tick receives as its frame. */
  datatype Sched<T, E> = Sched(
    ring: seq<T>, threads: map<T, Thread>,
    quantum: nat, sliceEnd: nat,
    queue: seq<Ev<E>>, timer: Device,
    live: Frame, cpuRsp: nat, tssRsp: nat)

  predicate Known<T, E>(s: Sched<T, E>) {
    forall i :: 0 <= i < |s.ring| ==> s.ring[i] in s.threads
  }

  function StatusAt<T, E>(s: Sched<T, E>, i: nat): Status
    requires Known(s) && i < |s.ring|
  {
    s.threads[s.ring[i]].status
  }

  /** pick_next as a ring position: the first READY thread after the current one, or 0. */
  function PickFrom<T, E>(s: Sched<T, E>, i: nat): (k: nat)
    requires Known(s) && i > 0
    ensures k == 0 ==> forall j :: i <= j < |s.ring| ==> StatusAt(s, j) != READY
    ensures k > 0 ==> i <= k < |s.ring| && StatusAt(s, k) == READY && forall j :: i <= j < k ==> StatusAt(s, j) != READY
    decreases |s.ring| - i
  {
    if i >= |s.ring| then 0 else if StatusAt(s, i) == READY then i else PickFrom(s, i + 1)
  }

  function Pick<T, E>(s: Sched<T, E>): (k: nat)
    requires Known(s)
    ensures k == 0 ==> forall j :: 1 <= j < |s.ring| ==> StatusAt(s, j) != READY
    ensures k > 0 ==> k < |s.ring| && StatusAt(s, k) == READY && forall j :: 1 <= j < k ==> StatusAt(s, j) != READY
  {
    PickFrom(s, 1)
  }

  /** A slice runs: the quantum is on and another thread is READY. */
  predicate Preemptible<T, E>(s: Sched<T, E>)
    requires Known(s)
  {
    s.quantum != 0 && Pick(s) != 0
  }

  /** sched_next_deadline: the slice end it leaves, and the deadline it returns. */
  function NextDeadline<T, E>(s: Sched<T, E>, now: nat): (nat, nat)
    requires Known(s)
  {
    var d := FirstDeadline(s.queue);
    if Preemptible(s) then
      var e := if s.sliceEnd == 0 || s.sliceEnd <= now then now + s.quantum else s.sliceEnd;
      (e, if d == 0 || e < d then e else d)
    else (0, d)
  }

  /** sched_arm_timer; the clock is read at counter value tb, the timer started at tc. */
  function Arm<T, E>(s: Sched<T, E>, tb: nat, tc: nat): (s': Sched<T, E>)
    requires Known(s)
    ensures Known(s')
  {
    if s.quantum == 0 && FirstDeadline(s.queue) == 0 then s.(timer := Stop(s.timer))
    else
      var now := NowNs(tb, s.timer.rate);
      var r := NextDeadline(s, now);
      if r.1 == 0 then s.(sliceEnd := r.0, timer := Stop(s.timer))
      else s.(sliceEnd := r.0, timer := Oneshot(s.timer, Delay(r.1, now), tc))
  }

  /** How long to wait at now for a deadline. */
  function Delay(deadline: nat, now: nat): nat {
    if deadline > now then deadline - now else 1
  }

  /** A tick: the counter values at its three clock reads, what the expired events'
      callbacks insert, and the threads they wake. */
  datatype TickInput<T, E> = TickInput(ta: nat, tb: nat, tc: nat, cbs: Effects<E>, wake: set<T>)

  /** Callbacks move BLOCKED threads to READY. */
  function Wake<T>(threads: map<T, Thread>, wake: set<T>): map<T, Thread> {
    map t | t in threads ::
      if t in wake && threads[t].status == BLOCKED then threads[t].(status := READY) else threads[t]
  }

  /** Saves the live frame in the current thread. */
  function Save<T, E>(s: Sched<T, E>): (s': Sched<T, E>)
    requires Known(s) && s.ring != []
    ensures Known(s') && s'.ring == s.ring
  {
    var c := s.ring[0];
    s.(threads := s.threads[c := s.threads[c].(frame := s.live)])
  }

  function WithStatus<T>(m: map<T, Thread>, t: T, status: Status): map<T, Thread>
    requires t in m
  {
    m[t := m[t].(status := status)]
  }

  /** The thread at ring position k takes over; the ring is read from it on. */
  function SwitchTo<T, E>(s: Sched<T, E>, k: nat): (s': Sched<T, E>)
    requires Known(s) && 0 < k < |s.ring|
    ensures Known(s') && |s'.ring| == |s.ring|
  {
    var c, n := s.ring[0], s.ring[k];
    var threads' := WithStatus(WithStatus(s.threads, c, READY), n, RUNNING);
    s.(ring := s.ring[k..] + s.ring[..k], threads := threads',
       live := threads'[n].frame, cpuRsp := threads'[n].kstack, tssRsp := threads'[n].kstack)
  }

  /** After the expired events have run. */
  ghost function Expired<T, E>(s: Sched<T, E>, t: TickInput<T, E>): (s': Sched<T, E>)
    requires AllLater(t.cbs, NowNs(t.ta, s.timer.rate)) && Known(s)
    ensures Known(s') && s'.ring == s.ring
  {
    s.(queue := RunExpired(s.queue, NowNs(t.ta, s.timer.rate), t.cbs).1, threads := Wake(s.threads, t.wake))
  }

  /** A tick in user mode with a slice that has ended by now. */
  predicate SliceOver<T, E>(s: Sched<T, E>, now: nat) {
    s.live.cs % 4 == 3 && s.sliceEnd != 0 && s.sliceEnd <= now
  }

  /** Saves the current thread, hands over to the next READY one if any, ends the slice. */
  function Preempt<T, E>(s: Sched<T, E>): (s': Sched<T, E>)
    requires Known(s) && s.ring != []
    ensures Known(s') && |s'.ring| == |s.ring|
  {
    var s1 := Save(s);
    var s2 := if Pick(s1) == 0 then s1 else SwitchTo(s1, Pick(s1));
    s2.(sliceEnd := 0)
  }

  /** sched_on_tick */
  ghost function OnTick<T, E>(s: Sched<T, E>, t: TickInput<T, E>): Sched<T, E>
    requires Known(s) && AllLater(t.cbs, NowNs(t.ta, s.timer.rate))
  {
    if s.ring == [] then s
    else
      var s1 := Expired(s, t);
      if SliceOver(s1, NowNs(t.ta, s.timer.rate)) then Arm(Preempt(s1), t.tb, t.tc) else Arm(s1, t.tb, t.tc)
  }

  /** sched_init */
  function Init<T, E>(s: Sched<T, E>, t: T, th: Thread): Sched<T, E> {
    s.(ring := [t], threads := s.threads[t := th.(status := RUNNING)])
  }

  /** sched_add: right after the current thread. */
  function Add<T, E>(s: Sched<T, E>, t: T, th: Thread, tb: nat, tc: nat): Sched<T, E>
    requires Known(s)
  {
    if s.ring == [] then Init(s, t, th)
    else
      Arm(s.(ring := [s.ring[0], t] + s.ring[1..], threads := s.threads[t := th], sliceEnd := 0), tb, tc)
  }

  /** sched_set_quantum_ns; the quantum is kept in 32 bits. */
  function SetQuantum<T, E>(s: Sched<T, E>, ns: nat, tb: nat, tc: nat): Sched<T, E>
    requires Known(s)
  {
    var s1 := s.(quantum := ns % TWO32);
    if ns == 0 then s1.(timer := Stop(s1.timer)) else Arm(s1, tb, tc)
  }

  /** thread_init_user */
  const USER_CS: nat := 0x23
  const USER_DS: nat := 0x1b

  function InitUser(entry: nat, userStack: nat, kstack: nat): Thread {
    Thread(Frame(seq(15, _ => 0), 0, 0, entry, USER_CS, 0x202, userStack, USER_DS), kstack, READY)
  }
}
