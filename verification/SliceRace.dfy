/** Where the slice bounds end: sched_on_tick and sched_arm_timer read the clock separately,
    and a slice whose end falls between the two reads is renewed, not ended; and turning the
    quantum off leaves the slice that is running. */
module SliceRace {
  import opened Words
  import opened Clock
  import opened Timer
  import opened Events
  import opened SchedModel
  import opened SchedRuns
  import opened Slices
  import opened SliceExpiry
  import opened Fairness

  /** A user-mode tick leaves the current thread running on a renewed slice exactly when its
      two clock reads fall on both sides of the end of the slice, whatever is queued. */
  lemma RenewedIffRace<T, E>(s: Sched<T, E>, x: Fire<T, E>)
    requires Running(s) && UserTick(s, x)
    ensures Fired(s, x).ring == s.ring && Fired(s, x).sliceEnd > s.sliceEnd <==> Race(s, x)
  {
    TickEffect(s, x);
  }

  // ---------------------------------------------------------------- kmain's start-up

  /** timer_init's result on a processor with TSC-deadline mode. */
  function Initialised(vector: nat, hz: nat): Device {
    Device(TscDeadline, RateOf(hz, NS_PER_SEC), vector, vector, Lvt(vector, false, true), 0, 0)
  }

  /** The counter at the clock read and the timer start of sched_set_quantum_ns, and at
      those of sched_start. */
  datatype Reads = Reads(qb: nat, qc: nat, pb: nat, pc: nat)

  predicate InOrder(x: Reads) { x.qb <= x.qc <= x.pb <= x.pc }

  /** kmain: two threads, the first with its kernel stack loaded; then the timer, the
      quantum and sched_start; and then user code, with frame f. */
  function Started(vector: nat, hz: nat, quantum: nat, x: Reads, f: Frame): (s: Sched<nat, nat>)
    ensures Known(s)
  {
    var off := Device(NoSource, Rate(0, 1, 0), 0, 0, Lvt(0, false, true), 0, 0);
    var s0 := Sched([], map[], 0, 0, [], off, f, 0x9000, 0x9000);
    var s1 := SchedModel.Init(s0, 0, InitUser(0x1000, 0x2000, 0x9000));
    var s2 := Add(s1, 1, InitUser(0x3000, 0x4000, 0xb000), 0, 0);
    var s3 := SchedModel.SetQuantum(s2.(timer := Initialised(vector, hz)), quantum, x.qb, x.qc);
    Arm(s3, x.pb, x.pc)
  }

  /** The end of the first slice: counted from the quantum's clock read, or, if it is over
      by then, from sched_start's. */
  function FirstEnd(x: Reads, quantum: nat, r: Rate): nat {
    (if NowNs(x.pb, r) < NowNs(x.qb, r) + quantum then NowNs(x.qb, r) else NowNs(x.pb, r)) + quantum
  }

  /** The rate and the quantum are ones the conversions are exact for. */
  predicate Startable(vector: nat, hz: nat, quantum: nat, x: Reads) {
    && 0 < vector && 0 < hz <= U64_MAX && Exact(RateOf(hz, NS_PER_SEC)) && 0 < quantum < TWO32
    && InOrder(x) && Room(x.pc, quantum, RateOf(hz, NS_PER_SEC))
  }

  lemma TwoThreads(vector: nat, hz: nat, f: Frame)
    requires 0 < vector && Exact(RateOf(hz, NS_PER_SEC))
    ensures var off := Device(NoSource, Rate(0, 1, 0), 0, 0, Lvt(0, false, true), 0, 0);
            var s0 := Sched([], map[], 0, 0, [], off, f, 0x9000, 0x9000);
            var s1: Sched<nat, nat> := SchedModel.Init(s0, 0, InitUser(0x1000, 0x2000, 0x9000));
            var s2 := Add(s1, 1, InitUser(0x3000, 0x4000, 0xb000), 0, 0).(timer := Initialised(vector, hz));
            && Ok(s2) && s2.ring == [0, 1] && StatusAt(s2, 1) == READY && s2.sliceEnd == 0 && s2.queue == []
            && s2.threads.Keys == {0, 1}
  {
  }

  /** Whatever the counter values, start-up leaves a pending slice and a waiting thread. */
  lemma StartedIsPending(vector: nat, hz: nat, quantum: nat, x: Reads, f: Frame)
    requires Startable(vector, hz, quantum, x)
    ensures Pending(Started(vector, hz, quantum, x, f), Shortfall(x.pb, x.pc))
    ensures Waiting(Started(vector, hz, quantum, x, f), 1)
    ensures var s, r := Started(vector, hz, quantum, x, f), RateOf(hz, NS_PER_SEC);
            && s.ring == [0, 1] && StatusAt(s, 1) == READY && s.live == f && s.queue == [] && s.quantum == quantum
            && s.timer.src == TscDeadline && s.timer.rate == r && Ready(s.timer) && CanFire(s.timer)
            && s.sliceEnd == FirstEnd(x, quantum, r)
            && s.timer.deadline == x.pc + OneshotTicks(s.sliceEnd - NowNs(x.pb, r), r)
  {
    TwoThreads(vector, hz, f);
    hide Startable;
    var off := Device(NoSource, Rate(0, 1, 0), 0, 0, Lvt(0, false, true), 0, 0);
    var s0 := Sched([], map[], 0, 0, [], off, f, 0x9000, 0x9000);
    var s1: Sched<nat, nat> := SchedModel.Init(s0, 0, InitUser(0x1000, 0x2000, 0x9000));
    var s2 := Add(s1, 1, InitUser(0x3000, 0x4000, 0xb000), 0, 0).(timer := Initialised(vector, hz));
    StartFrom(s2, vector, hz, quantum, x);
  }

  lemma StartFrom(s: Sched<nat, nat>, vector: nat, hz: nat, quantum: nat, x: Reads)
    requires Startable(vector, hz, quantum, x)
    requires Ok(s) && s.ring == [0, 1] && StatusAt(s, 1) == READY && s.sliceEnd == 0 && s.queue == []
    requires s.timer == Initialised(vector, hz)
    ensures var s', r := Arm(SchedModel.SetQuantum(s, quantum, x.qb, x.qc), x.pb, x.pc), RateOf(hz, NS_PER_SEC);
            && Pending(s', Shortfall(x.pb, x.pc)) && Waiting(s', 1)
            && s'.ring == s.ring && StatusAt(s', 1) == READY
            && s'.live == s.live && s'.queue == [] && s'.quantum == quantum
            && s'.timer.src == TscDeadline && s'.timer.rate == r && Ready(s'.timer) && CanFire(s'.timer)
            && s'.sliceEnd == FirstEnd(x, quantum, r)
            && s'.timer.deadline == x.pc + OneshotTicks(s'.sliceEnd - NowNs(x.pb, r), r)
  {
    hide Arm, Preemptible, Ready, Exact, Room, NowNs;
    var q := s.(quantum := quantum);
    assert SchedModel.SetQuantum(s, quantum, x.qb, x.qc) == Arm(q, x.qb, x.qc);
    FirstArm(s, vector, hz, quantum, x.qb, x.qc);
    ClockMonotone(x.qb, x.pb, RateOf(hz, NS_PER_SEC));
    ArmAgain(Arm(q, x.qb, x.qc), x.pb, x.pc);
  }

  lemma FirstArm(s: Sched<nat, nat>, vector: nat, hz: nat, quantum: nat, tb: nat, tc: nat)
    requires 0 < vector && Exact(RateOf(hz, NS_PER_SEC)) && 0 < quantum
    requires Ok(s) && s.ring == [0, 1] && StatusAt(s, 1) == READY && s.sliceEnd == 0 && s.queue == []
    requires s.timer == Initialised(vector, hz)
    ensures var a := Arm(s.(quantum := quantum), tb, tc);
            && Ok(a) && TscTimer(a) && Preemptible(a) && a.ring == s.ring && a.queue == [] && a.live == s.live
            && a.quantum == quantum && a.timer.rate == RateOf(hz, NS_PER_SEC)
            && a.sliceEnd == NowNs(tb, RateOf(hz, NS_PER_SEC)) + quantum
  {
    var q := s.(quantum := quantum);
    SameRing(s, q);
    assert Pick(q) == 1;
    SliceEndAfter(q, tb, tc);
    ArmKeepsThreads(q, tb, tc);
    PickSame(q, Arm(q, tb, tc), 1);
    hide Ok, NowNs, PickFrom, Pick, TicksFromNs, MulDiv;
    LastCallDecides(q.timer, quantum, tc, 0, 0);
  }

  lemma ArmAgain(s: Sched<nat, nat>, tb: nat, tc: nat)
    requires Ok(s) && TscTimer(s) && Preemptible(s) && s.quantum < TWO32 && s.queue == [] && s.ring == [0, 1]
    requires tb <= tc && Room(tc, s.quantum, s.timer.rate) && s.sliceEnd <= NowNs(tb, s.timer.rate) + s.quantum
    ensures var s', now := Arm(s, tb, tc), NowNs(tb, s.timer.rate);
            && Pending(s', Shortfall(tb, tc)) && Waiting(s', 1)
            && s'.ring == s.ring && StatusAt(s', 1) == READY
            && s'.live == s.live && s'.queue == [] && s'.quantum == s.quantum && s'.timer.rate == s.timer.rate
            && s'.sliceEnd == (if s.sliceEnd > now then s.sliceEnd else now + s.quantum)
            && s'.timer.deadline == tc + OneshotTicks(s'.sliceEnd - now, s.timer.rate) && CanFire(s'.timer)
  {
    var now := NowNs(tb, s.timer.rate);
    SliceAhead(s, now);
    ShortWait(Delay(NextDeadline(s, now).1, now), s.quantum, tc, s.timer.rate);
    ArmedSlice(s, tb, tc);
    ArmsForGoal(s, tb, tc);
    ArmKeepsThreads(s, tb, tc);
    SliceEndAfter(s, tb, tc);
    assert StatusAt(s, 1) == READY;
  }

  // ---------------------------------------------------------------- consecutive races

  /** A 2.9 GHz counter and kmain's quantum of 5 ms; 29 ticks take 10 ns. */
  const TSC_HZ: nat := 2_900_000_000
  const QUANTUM: nat := 5_000_000
  const LAST: nat := 500_000_000_000_000_000

  lemma Rate29()
    ensures RateOf(TSC_HZ, NS_PER_SEC) == Rate(TSC_HZ, NS_PER_SEC, 12_455_405_158)
    ensures Exact(RateOf(TSC_HZ, NS_PER_SEC))
    ensures OneshotTicks(QUANTUM, RateOf(TSC_HZ, NS_PER_SEC)) == 14_499_999
  {
    assert TSC_HZ * TWO32 / NS_PER_SEC == 12_455_405_158;
    assert QUANTUM * 12_455_405_158 / TWO32 % TWO64 == 14_499_999;
  }

  /** A slice until 10 * c ns is running and the timer is programmed one tick before. */
  ghost predicate Starving<T, E>(s: Sched<T, E>, c: nat) {
    && Ok(s) && Preemptible(s) && s.live.cs % 4 == 3 && s.queue == [] && s.quantum == QUANTUM
    && s.timer.src == TscDeadline && s.timer.rate == RateOf(TSC_HZ, NS_PER_SEC)
    && 0 < c && s.sliceEnd == 10 * c && s.timer.deadline == 29 * c - 1
  }

  /** The timer fires exactly as programmed; the second clock read is one tick later, and
      the timer is started within the same tick. */
  function RacingTick<T, E>(c: nat): TickInput<T, E>
    requires c > 0
  {
    TickInput(29 * c - 1, 29 * c, 29 * c, [], {})
  }

  lemma RacingReads(c: nat)
    requires 0 < c <= LAST
    ensures var r := RateOf(TSC_HZ, NS_PER_SEC); NowNs(29 * c - 1, r) == 10 * c - 1 && NowNs(29 * c, r) == 10 * c
  {
    Rate29();
    assert (29 * c - 1) * NS_PER_SEC / TSC_HZ == 10 * c - 1;
    assert 29 * c * NS_PER_SEC / TSC_HZ == 10 * c;
  }

  lemma StarvingStep<T, E>(s: Sched<T, E>, c: nat)
    requires Starving(s, c) && c + 500_000 <= LAST
    ensures AllLater(RacingTick<T, E>(c).cbs, NowNs(RacingTick<T, E>(c).ta, s.timer.rate))
    ensures var s' := OnTick(s, RacingTick(c)); Starving(s', c + 500_000) && s'.ring == s.ring
  {
    var t := RacingTick<T, E>(c);
    RacingReads(c);
    Rate29();
    var s1 := Expired(s, t);
    WakePreemptible(s, s1, {});
    ArmKeepsThreads(s1, t.tb, t.tc);
    PickSame(s1, Arm(s1, t.tb, t.tc), 1);
  }

  /** The state after n consecutive racing ticks. */
  ghost function AfterRaces<T, E>(s: Sched<T, E>, c: nat, n: nat): Sched<T, E>
    requires Starving(s, c) && c + n * 500_000 <= LAST
    decreases n
  {
    if n == 0 then s
    else
      StarvingStep(s, c);
      AfterRaces(OnTick(s, RacingTick(c)), c + 500_000, n - 1)
  }

  /** No number of fires is enough: with another thread READY throughout and every fire
      exactly on time, consecutive races keep the current thread running, for as many
      slices as the 64-bit clock has room for. */
  lemma {:induction false} RacesStarve<T, E>(s: Sched<T, E>, c: nat, n: nat)
    requires Starving(s, c) && c + n * 500_000 <= LAST
    ensures Starving(AfterRaces(s, c, n), c + n * 500_000)
    ensures AfterRaces(s, c, n).ring == s.ring
    decreases n
  {
    hide OnTick, NowNs, RateOf, Pick, PickFrom, Preemptible;
    if n > 0 {
      StarvingStep(s, c);
      RacesStarve(OnTick(s, RacingTick(c)), c + 500_000, n - 1);
    }
  }

  const EXAMPLE_READS := Reads(2_900, 2_958, 29_000, 29_000)

  lemma ExampleReads()
    ensures Startable(1, TSC_HZ, QUANTUM, EXAMPLE_READS)
    ensures var r := RateOf(TSC_HZ, NS_PER_SEC);
            && FirstEnd(EXAMPLE_READS, QUANTUM, r) == 5_001_000
            && NowNs(29_000, r) == 10_000 && OneshotTicks(4_991_000, r) == 14_473_899
  {
    Rate29();
    var r := RateOf(TSC_HZ, NS_PER_SEC);
    assert QUANTUM * r.scale / TWO32 == 14_499_999;
    assert ExactTsc(29_000 + 14_499_999 + 1, r);
    assert NowNs(2_900, r) == 1_000;
  }

  lemma ExampleStart(f: Frame)
    ensures var s, r := Started(1, TSC_HZ, QUANTUM, EXAMPLE_READS, f), RateOf(TSC_HZ, NS_PER_SEC);
            && Ok(s) && Preemptible(s) && s.ring == [0, 1] && StatusAt(s, 1) == READY && s.timer.rate == r
            && s.live == f && s.queue == [] && s.quantum == QUANTUM && s.timer.src == TscDeadline
            && s.sliceEnd == 5_001_000 && s.timer.deadline == 29_000 + 14_473_899 && CanFire(s.timer)
  {
    ExampleReads();
    hide Startable, FirstEnd, NowNs, OneshotTicks, RateOf, Started;
    StartedIsPending(1, TSC_HZ, QUANTUM, EXAMPLE_READS, f);
  }

  /** Start-up can lead there. */
  lemma StartedCanStarve(f: Frame)
    requires f.cs % 4 == 3
    ensures Starving(Started(1, TSC_HZ, QUANTUM, EXAMPLE_READS, f), 500_100)
  {
    ExampleStart(f);
  }

  // ---------------------------------------------------------------- quantum 0

  /** The timer, as it is set, interrupts at counter value tsc or has done so before. */
  predicate InterruptDue(d: Device, tsc: nat) {
    CanFire(d) && (d.src == TscDeadline ==> d.deadline <= tsc)
  }

  /** No call in es turns the quantum on. */
  predicate KeepsOff<T, E>(es: seq<Event<T, E>>) {
    forall k :: 0 <= k < |es| ==> es[k].Quantum? ==> es[k].ns % TWO32 == 0
  }

  /** Every tick of the run comes from the timer as it is then. */
  ghost predicate TimerTicks<T, E>(s: Sched<T, E>, es: seq<Event<T, E>>)
    requires Known(s) && Legal(s, es)
    decreases |es|
  {
    es == [] || ((es[0].Tick? ==> InterruptDue(s.timer, es[0].input.ta)) && TimerTicks(Do(s, es[0]), es[1..]))
  }

  /** The quantum is off, and no slice is running or no interrupt is to come. */
  ghost predicate Silent<T, E>(s: Sched<T, E>) {
    Ok(s) && s.quantum == 0 && Ready(s.timer) && (s.sliceEnd == 0 || !CanFire(s.timer))
  }

  lemma ArmSilent<T, E>(s: Sched<T, E>, tb: nat, tc: nat)
    requires Ok(s) && s.quantum == 0 && Ready(s.timer)
    ensures Silent(Arm(s, tb, tc)) && Arm(s, tb, tc).ring == s.ring
  {
    ArmKeepsThreads(s, tb, tc);
    hide OneshotTicks, NowNs, Ok;
  }

  lemma OffSilent<T, E>(s: Sched<T, E>, ns: nat, tb: nat, tc: nat)
    requires Ok(s) && Ready(s.timer) && ns % TWO32 == 0
    ensures var z := SchedModel.SetQuantum(s, ns, tb, tc); Silent(z) && z.ring == s.ring
  {
    QuantumKeeps(s, ns, tb, tc);
    var s1 := s.(quantum := 0);
    SameRing(s, s1);
    if ns != 0 { ArmSilent(s1, tb, tc); }
  }

  lemma EventSilent<T, E>(s: Sched<T, E>, e: Event<T, E>)
    requires Silent(s) && May(s, e) && KeepsOff([e]) && (e.Tick? ==> InterruptDue(s.timer, e.input.ta))
    ensures Silent(Do(s, e)) && Do(s, e).ring[0] == s.ring[0]
  {
    assert [e][0] == e;
    match e {
      case Execute(f) => SameRing(s, s.(live := f));
      case Tick(t) => SilentTick(s, t);
      case AddThread(t, th, tb, tc) => SilentAdd(s, t, th, tb, tc);
      case Quantum(ns, tb, tc) => OffSilent(s, ns, tb, tc);
      case Start(tb, tc) => ArmSilent(s, tb, tc);
      case Enqueue(ev) => SameRing(s, s.(queue := Insert(s.queue, ev)));
    }
  }

  lemma SilentTick<T, E>(s: Sched<T, E>, t: TickInput<T, E>)
    requires Silent(s) && s.sliceEnd == 0 && AllLater(t.cbs, NowNs(t.ta, s.timer.rate))
    ensures Silent(OnTick(s, t)) && OnTick(s, t).ring == s.ring
  {
    var s1 := Expired(s, t);
    WakeKeeps(s, s1, t.wake);
    ArmSilent(s1, t.tb, t.tc);
  }

  lemma SilentAdd<T, E>(s: Sched<T, E>, t: T, th: Thread, tb: nat, tc: nat)
    requires Silent(s) && t !in s.ring && th.status != RUNNING
    ensures Silent(Add(s, t, th, tb, tc)) && Add(s, t, th, tb, tc).ring[0] == s.ring[0]
  {
    AddKeeps(s, t, th, tb, tc);
    hide OneshotTicks, NowNs;
  }

  /** sched_set_quantum_ns with an argument that is 0 in its 32 bits stops preemption: in any
      run of calls, execution and interrupts from the timer, the current thread stays on
      until a call turns the quantum on again. The slice that was running may still be
      there, but then no interrupt is to come, and whatever starts the timer drops it. */
  lemma QuantumZeroStopsPreemption<T, E>(s: Sched<T, E>, ns: nat, tb: nat, tc: nat, es: seq<Event<T, E>>)
    requires Ok(s) && Ready(s.timer) && ns % TWO32 == 0
    requires var z := SchedModel.SetQuantum(s, ns, tb, tc); Legal(z, es) && KeepsOff(es) && TimerTicks(z, es)
    ensures var s' := Run(SchedModel.SetQuantum(s, ns, tb, tc), es); Ok(s') && s'.ring[0] == s.ring[0]
  {
    OffSilent(s, ns, tb, tc);
    SilentStays(SchedModel.SetQuantum(s, ns, tb, tc), es);
  }

  lemma {:induction false} SilentStays<T, E>(s: Sched<T, E>, es: seq<Event<T, E>>)
    requires Silent(s) && Legal(s, es) && KeepsOff(es) && TimerTicks(s, es)
    ensures Ok(Run(s, es)) && Run(s, es).ring[0] == s.ring[0]
    decreases |es|
  {
    if es != [] {
      hide Do, InterruptDue;
      EventSilent(s, es[0]);
      SilentStays(Do(s, es[0]), es[1..]);
    }
  }

  // ---------------------------------------------------------------- a latched interrupt

  /** All ticks come from the timer as it is then but at most one, at counter value from or
      later: an interrupt that was already pending. */
  ghost predicate OneLatched<T, E>(s: Sched<T, E>, es: seq<Event<T, E>>, from: nat)
    requires Known(s) && Legal(s, es)
    decreases |es|
  {
    || es == []
    || (es[0].Tick? && from <= es[0].input.ta && TimerTicks(Do(s, es[0]), es[1..]))
    || ((es[0].Tick? ==> InterruptDue(s.timer, es[0].input.ta)) && OneLatched(Do(s, es[0]), es[1..], from))
  }

  /** No other thread can become the current one any more. */
  predicate OthersDone<T, E>(s: Sched<T, E>)
    requires Known(s)
  {
    forall i :: 1 <= i < |s.ring| ==> StatusAt(s, i) != READY && StatusAt(s, i) != BLOCKED
  }

  /** The quantum is off, and no slice is running or nobody could take over. */
  ghost predicate SwitchedOff<T, E>(s: Sched<T, E>) {
    Ok(s) && s.quantum == 0 && (s.sliceEnd == 0 || OthersDone(s))
  }

  lemma ArmOff<T, E>(s: Sched<T, E>, tb: nat, tc: nat)
    requires SwitchedOff(s)
    ensures SwitchedOff(Arm(s, tb, tc)) && Arm(s, tb, tc).ring == s.ring
  {
    var s' := Arm(s, tb, tc);
    ArmKeepsThreads(s, tb, tc);
    assert s'.quantum == 0 && (s'.sliceEnd == 0 || s'.sliceEnd == s.sliceEnd);
  }

  lemma TickOff<T, E>(s: Sched<T, E>, t: TickInput<T, E>)
    requires SwitchedOff(s) && AllLater(t.cbs, NowNs(t.ta, s.timer.rate))
    ensures SwitchedOff(OnTick(s, t)) && OnTick(s, t).ring[0] == s.ring[0]
  {
    var s1 := Expired(s, t);
    WakeKeeps(s, s1, t.wake);
    assert OthersDone(s) ==> OthersDone(s1);
    if SliceOver(s1, NowNs(t.ta, s.timer.rate)) {
      SaveKeeps(s1);
      assert Pick(Save(s1)) == 0 by {
        assert forall i :: 1 <= i < |s1.ring| ==> StatusAt(Save(s1), i) == StatusAt(s1, i);
      }
      PreemptKeeps(s1);
      ArmOff(Preempt(s1), t.tb, t.tc);
    } else {
      ArmOff(s1, t.tb, t.tc);
    }
  }

  lemma AddOff<T, E>(s: Sched<T, E>, t: T, th: Thread, tb: nat, tc: nat)
    requires SwitchedOff(s) && t !in s.ring && th.status != RUNNING
    ensures SwitchedOff(Add(s, t, th, tb, tc)) && Add(s, t, th, tb, tc).ring[0] == s.ring[0]
  {
    AddKeeps(s, t, th, tb, tc);
  }

  lemma QuantumOff<T, E>(s: Sched<T, E>, ns: nat, tb: nat, tc: nat)
    requires SwitchedOff(s) && ns % TWO32 == 0
    ensures var z := SchedModel.SetQuantum(s, ns, tb, tc); SwitchedOff(z) && z.ring == s.ring
  {
    var s1 := s.(quantum := 0);
    SameRing(s, s1);
    if ns == 0 {
      SameRing(s1, s1.(timer := Stop(s1.timer)));
    } else {
      ArmOff(s1, tb, tc);
    }
  }

  lemma EventOff<T, E>(s: Sched<T, E>, e: Event<T, E>)
    requires SwitchedOff(s) && May(s, e) && KeepsOff([e])
    ensures SwitchedOff(Do(s, e)) && Do(s, e).ring[0] == s.ring[0]
  {
    assert [e][0] == e;
    match e {
      case Execute(f) => SameRing(s, s.(live := f));
      case Tick(t) => TickOff(s, t);
      case AddThread(t, th, tb, tc) => AddOff(s, t, th, tb, tc);
      case Quantum(ns, tb, tc) => QuantumOff(s, ns, tb, tc);
      case Start(tb, tc) => ArmOff(s, tb, tc);
      case Enqueue(ev) => SameRing(s, s.(queue := Insert(s.queue, ev)));
    }
  }

  /** At the end of es, if that can happen with one interrupt latched and the quantum left
      off, the current thread is the same. Every run that begins es is such a run too, so it
      never was another. */
  ghost predicate Stays<T, E>(s: Sched<T, E>, es: seq<Event<T, E>>, from: nat)
    requires Known(s) && s.ring != []
  {
    Legal(s, es) && KeepsOff(es) && OneLatched(s, es, from) ==>
      var s' := Run(s, es); s'.ring != [] && s'.ring[0] == s.ring[0]
  }

  lemma {:induction false} OffStays<T, E>(s: Sched<T, E>, es: seq<Event<T, E>>)
    requires SwitchedOff(s) && Legal(s, es) && KeepsOff(es)
    ensures Ok(Run(s, es)) && Run(s, es).ring[0] == s.ring[0]
    decreases |es|
  {
    if es != [] {
      EventOff(s, es[0]);
      OffStays(Do(s, es[0]), es[1..]);
    }
  }

  /** The run that shows it: before interrupts are let in again an event is queued whose
      callback wakes the thread at ring position i; user code goes on; and the interrupt
      that was pending is taken at counter value ta. */
  ghost function LateRun<T, E>(s: Sched<T, E>, i: nat, e: E, ta: nat): seq<Event<T, E>>
    requires i < |s.ring|
  {
    [Enqueue(Ev(e, 1)), Execute(s.live.(cs := USER_CS)), Tick(TickInput(ta, ta, ta, [], {s.ring[i]}))]
  }

  lemma LatePreempts<T, E>(s: Sched<T, E>, i: nat, e: E, from: nat, ta: nat)
    requires Ok(s) && 1 <= i < |s.ring| && (StatusAt(s, i) == READY || StatusAt(s, i) == BLOCKED)
    requires from <= ta && 0 < s.sliceEnd <= NowNs(ta, s.timer.rate)
    ensures var es := LateRun(s, i, e, ta);
            KeepsOff(es) && Legal(s, es) && OneLatched(s, es, from) && !Stays(s, es, from)
  {
    hide OnTick, NowNs, Insert, Legal, Run, OneLatched, TimerTicks;
    var es := LateRun(s, i, e, ta);
    var s1 := Do(s, es[0]);
    SameRing(s, s1);
    var s2 := Do(s1, es[1]);
    SameRing(s1, s2);
    LateTick(s2, es[2].input, i);
    hide Ok;
    RunOfThree(s, es[0], es[1], es[2]);
    LatchedOfThree(s, es[0], es[1], es[2], from);
  }

  lemma LateTick<T, E>(s: Sched<T, E>, t: TickInput<T, E>, i: nat)
    requires Ok(s) && t.cbs == [] && 1 <= i < |s.ring| && s.ring[i] in t.wake && SliceOver(s, NowNs(t.ta, s.timer.rate))
    requires StatusAt(s, i) == READY || StatusAt(s, i) == BLOCKED
    ensures var s' := OnTick(s, t); Ok(s') && s'.ring[0] != s.ring[0]
  {
    TickKeeps(s, t);
    assert Eligible(s, t, i);
    TickHandsOver(s, t);
    var s' := OnTick(s, t);
    assert s'.ring[..1] == [s'.ring[0]] && s.ring[..1] == [s.ring[0]];
  }

  lemma RunOfThree<T, E>(s: Sched<T, E>, a: Event<T, E>, b: Event<T, E>, c: Event<T, E>)
    requires Known(s) && May(s, a) && Known(Do(s, a)) && May(Do(s, a), b) && Known(Do(Do(s, a), b))
    requires May(Do(Do(s, a), b), c) && Known(Do(Do(Do(s, a), b), c))
    ensures Legal(s, [a, b, c]) && Run(s, [a, b, c]) == Do(Do(Do(s, a), b), c)
  {
    hide Do, May;
    var s1, s2 := Do(s, a), Do(Do(s, a), b);
    var s3 := Do(s2, c);
    assert [a, b, c][1..] == [b, c] && [b, c][1..] == [c] && [c][1..] == [];
    assert Legal(s3, []) && Run(s3, []) == s3;
    assert Legal(s2, [c]) && Run(s2, [c]) == s3;
    assert Legal(s1, [b, c]) && Run(s1, [b, c]) == s3;
  }

  lemma LatchedOfThree<T, E>(s: Sched<T, E>, a: Event<T, E>, b: Event<T, E>, c: Event<T, E>, from: nat)
    requires Known(s) && Legal(s, [a, b, c]) && !a.Tick? && !b.Tick? && c.Tick? && from <= c.input.ta
    ensures OneLatched(s, [a, b, c], from)
  {
    hide Do, May, InterruptDue;
    var s1, s2 := Do(s, a), Do(Do(s, a), b);
    assert [a, b, c][1..] == [b, c] && [b, c][1..] == [c] && [c][1..] == [];
    assert Legal(s1, [b, c]) && Legal(s2, [c]);
    assert TimerTicks(Do(s2, c), []);
    assert OneLatched(s2, [c], from);
    assert OneLatched(s1, [b, c], from);
  }

  /** When sched_set_quantum_ns(0) is called at counter value tc with the timer's interrupt
      already due, that interrupt is still taken, and finds the slice that was running. The
      current thread then stays on in every run exactly when no slice was running, or every
      other thread is neither READY nor BLOCKED. (ta is any value from tc on at which the
      slice is over.) */
  lemma LatchedTickPreempts<T, E>(s: Sched<T, E>, tb: nat, tc: nat, e: E, ta: nat)
    requires Ok(s) && Ready(s.timer) && InterruptDue(s.timer, tc)
    requires tc <= ta && s.sliceEnd <= NowNs(ta, s.timer.rate)
    ensures var z := SchedModel.SetQuantum(s, 0, tb, tc);
            Ok(z) && ((forall es: seq<Event<T, E>> :: Stays(z, es, tc)) <==> s.sliceEnd == 0 || OthersDone(s))
  {
    var z := SchedModel.SetQuantum(s, 0, tb, tc);
    QuantumKeeps(s, 0, tb, tc);
    assert z.ring == s.ring && z.threads == s.threads && z.sliceEnd == s.sliceEnd && z.timer.rate == s.timer.rate;
    assert OthersDone(z) <==> OthersDone(s) by {
      assert forall i :: 0 <= i < |s.ring| ==> StatusAt(z, i) == StatusAt(s, i);
    }
    if s.sliceEnd == 0 || OthersDone(z) {
      forall es: seq<Event<T, E>> | Legal(z, es) && KeepsOff(es) ensures Stays(z, es, tc) {
        OffStays(z, es);
      }
    } else {
      var i :| 1 <= i < |z.ring| && (StatusAt(z, i) == READY || StatusAt(z, i) == BLOCKED);
      LatePreempts(z, i, e, tc, ta);
    }
  }

  /** For one, after start-up at 2.9 GHz: the quantum is turned off just as the timer's
      interrupt becomes due, and the interrupt, taken a tick later, hands over to the second
      thread. */
  lemma StartedStillPreempts(f: Frame)
    ensures var s := Started(1, TSC_HZ, QUANTUM, EXAMPLE_READS, f);
            var due := s.timer.deadline;
            var z, es := SchedModel.SetQuantum(s, 0, due, due), LateRun(s, 1, 0, due + 1);
            && due == 14_502_899 && InterruptDue(s.timer, due) && z.ring == [0, 1]
            && KeepsOff(es) && Legal(z, es) && OneLatched(z, es, due) && !Stays(z, es, due)
  {
    var s := Started(1, TSC_HZ, QUANTUM, EXAMPLE_READS, f);
    ExampleStart(f);
    assert NowNs(14_502_900, RateOf(TSC_HZ, NS_PER_SEC)) == 5_001_000;
    hide Started, NowNs;
    var due := s.timer.deadline;
    QuantumKeeps(s, 0, due, due);
    LatePreempts(SchedModel.SetQuantum(s, 0, due, due), 1, 0, due, due + 1);
  }
}
