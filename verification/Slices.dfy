/** The timer never loses a deadline, and a slice runs exactly while another thread could
    take over, for at most a quantum. */
module Slices {
  import opened Words
  import opened Clock
  import opened Timer
  import opened Events
  import opened SchedModel
  import opened SchedRuns

  // ---------------------------------------------------------------- what is armed

  /** An initialised TSC-deadline timer whose conversions are exact. */
  predicate TscTimer<T, E>(s: Sched<T, E>) {
    s.timer.src == TscDeadline && Ready(s.timer) && Exact(s.timer.rate)
  }

  /** Deadline 0 means "none" to the source, so no event has it. */
  ghost predicate Events0<T, E>(s: Sched<T, E>) {
    Sorted(s.queue) && forall i :: 0 <= i < |s.queue| ==> s.queue[i].deadline > 0
  }

  /** After sched_arm_timer an interrupt is to come exactly when an event is queued or the
      quantum is on and another thread READY. */
  lemma ArmedIff<T, E>(s: Sched<T, E>, tb: nat, tc: nat)
    requires Known(s) && TscTimer(s) && Events0(s)
    requires var now := NowNs(tb, s.timer.rate); tc + OneshotTicks(Left(WaitFor(s, now), now), s.timer.rate) <= U64_MAX
    ensures CanFire(Arm(s, tb, tc).timer) <==> s.queue != [] || Contended(s)
  {
    ArmOutcome(s, tb, tc);
    var now := NowNs(tb, s.timer.rate);
    EarliestGoal(s, now);
    hide Contended, NowNs, TicksFromNs, Exact;
  }

  /** And it is armed for the earliest of the queued events and the slice end. On the clock
      it fires no later than that deadline (or one nanosecond from now, if it has passed),
      save for the time between reading the clock and starting the timer, if the wait is at
      least as long as a tick; a shorter wait takes one tick. */
  lemma ArmedInTime<T, E>(s: Sched<T, E>, tb: nat, tc: nat)
    requires Known(s) && TscTimer(s) && Events0(s)
    requires s.queue != [] || Contended(s)
    requires var now := NowNs(tb, s.timer.rate);
             var w := Left(WaitFor(s, now), now);
             tc + OneshotTicks(w, s.timer.rate) <= U64_MAX && ExactTsc(tc + OneshotTicks(w, s.timer.rate), s.timer.rate)
    ensures var now, s', goal := NowNs(tb, s.timer.rate), Arm(s, tb, tc), WaitFor(s, NowNs(tb, s.timer.rate));
            var fires, w := NowNs(s'.timer.deadline, s.timer.rate), Left(goal, now);
            && (forall i :: 0 <= i < |s.queue| ==> goal <= s.queue[i].deadline)
            && (Contended(s) ==> goal <= s'.sliceEnd)
            && ((s.queue != [] && goal == s.queue[0].deadline) || (Contended(s) && goal == s'.sliceEnd))
            && fires <= NowNs(tc, s.timer.rate) + Max(w, TickNs(s.timer.rate))
            && (s.timer.rate.den <= w * s.timer.rate.num ==> fires <= NowNs(tc, s.timer.rate) + w)
            && (s.timer.rate.den <= w * s.timer.rate.num && tc == tb ==> fires <= Max(goal, now + 1))
  {
    var now := NowNs(tb, s.timer.rate);
    WaitBound(tc, Left(WaitFor(s, now), now), s.timer.rate);
    ProgrammedGoal(s, tb, tc);
    EarliestGoal(s, now);
    hide NowNs, OneshotTicks, ExactTsc, Exact, Configured, TickNs, Sorted, Arm, WaitFor, SliceAfter, Contended;
  }

  lemma ProgrammedGoal<T, E>(s: Sched<T, E>, tb: nat, tc: nat)
    requires Known(s) && TscTimer(s) && Events0(s) && (s.queue != [] || Contended(s))
    requires var now := NowNs(tb, s.timer.rate); tc + OneshotTicks(Left(WaitFor(s, now), now), s.timer.rate) <= U64_MAX
    ensures var s', now := Arm(s, tb, tc), NowNs(tb, s.timer.rate);
            && s'.sliceEnd == SliceAfter(s, now)
            && s'.timer.deadline == tc + OneshotTicks(Left(WaitFor(s, now), now), s.timer.rate)
  {
    ArmOutcome(s, tb, tc);
    EarliestGoal(s, NowNs(tb, s.timer.rate));
    hide Arm, WaitFor, SliceAfter, Contended, NowNs, OneshotTicks, Exact, Sorted;
  }

  /** The goal is the first event or the slice end, and no later than either. */
  lemma EarliestGoal<T, E>(s: Sched<T, E>, now: nat)
    requires Known(s) && Events0(s)
    ensures WaitFor(s, now) != 0 <==> s.queue != [] || Contended(s)
    ensures s.queue != [] || Contended(s) ==>
      var goal, e := WaitFor(s, now), SliceAfter(s, now);
      && (forall i :: 0 <= i < |s.queue| ==> goal <= s.queue[i].deadline)
      && (Contended(s) ==> goal <= e)
      && ((s.queue != [] && goal == s.queue[0].deadline) || (Contended(s) && goal == e))
  {
    hide NoneReady;
    if s.queue != [] { HeadFirst(s.queue); }
  }

  lemma {:induction false} HeadFirst<E>(q: seq<Ev<E>>)
    requires Sorted(q) && q != []
    ensures forall i :: 0 <= i < |q| ==> q[0].deadline <= q[i].deadline
  {
    if |q| > 1 {
      HeadFirst(q[1..]);
      assert forall i :: 1 <= i < |q| ==> q[i] == q[1..][i - 1];
    }
  }

  // ---------------------------------------------------------------- the slice window

  /** The slice ends within a quantum of counter value t, and there is none when the
      quantum is off. */
  predicate SliceBound<T, E>(s: Sched<T, E>, t: nat) {
    s.sliceEnd <= NowNs(t, s.timer.rate) + s.quantum && (s.quantum == 0 ==> s.sliceEnd == 0)
  }

  /** There is a slice exactly when another thread can be switched to, and it ends after
      now and within a quantum. */
  predicate SliceWindow<T, E>(s: Sched<T, E>, now: nat)
    requires Known(s)
  {
    && (s.sliceEnd != 0 <==> Contended(s))
    && (s.sliceEnd != 0 ==> now < s.sliceEnd <= now + s.quantum)
  }

  lemma ArmSlice<T, E>(s: Sched<T, E>, t: nat, tb: nat, tc: nat)
    requires Known(s) && SliceBound(s, t) && t <= tb <= tc
    ensures var s' := Arm(s, tb, tc);
            Known(s') && SliceWindow(s', NowNs(tb, s.timer.rate)) && SliceBound(s', tc)
  {
    ClockMonotone(t, tb, s.timer.rate);
    ClockMonotone(tb, tc, s.timer.rate);
    ArmOutcome(s, tb, tc);
    SameContention(s, Arm(s, tb, tc));
    hide NowNs, NoneReady;
  }

  lemma {:induction false} PickSame<T, E>(s: Sched<T, E>, s': Sched<T, E>, i: nat)
    requires Known(s) && Known(s') && s'.ring == s.ring && s'.threads == s.threads && i > 0
    ensures PickFrom(s', i) == PickFrom(s, i)
    decreases |s.ring| - i
  {
    if i < |s.ring| {
      assert StatusAt(s', i) == StatusAt(s, i);
      if StatusAt(s, i) != READY { PickSame(s, s', i + 1); }
    }
  }

  /** An event whose clock reads come in order, from t on, with the quantum left alone. */
  predicate Timely<T, E>(e: Event<T, E>, t: nat) {
    match e
    case Tick(i) => t <= i.ta <= i.tb <= i.tc
    case AddThread(_, _, tb, tc) => t <= tb <= tc
    case Start(tb, tc) => t <= tb <= tc
    case Quantum(_, _, _) => false
    case _ => true
  }

  function EndOf<T, E>(e: Event<T, E>, t: nat): nat {
    match e
    case Tick(i) => i.tc
    case AddThread(_, _, _, tc) => tc
    case Start(_, tc) => tc
    case _ => t
  }

  /** Counter value at which e reads the clock to arm the timer, if it does. */
  function ArmRead<T, E>(e: Event<T, E>): Option<nat> {
    match e
    case Tick(i) => Some(i.tb)
    case AddThread(_, _, tb, _) => Some(tb)
    case Start(tb, _) => Some(tb)
    case _ => None
  }

  lemma EventSlice<T, E>(s: Sched<T, E>, e: Event<T, E>, t: nat)
    requires Ok(s) && May(s, e) && SliceBound(s, t) && Timely(e, t)
    ensures var s' := Do(s, e);
            && Ok(s') && SliceBound(s', EndOf(e, t))
            && (ArmRead(e).Some? ==> SliceWindow(s', NowNs(ArmRead(e).value, s.timer.rate)))
  {
    EventKeeps(s, e);
    match e {
      case Tick(i) =>
        var s1 := Expired(s, i);
        WakeKeeps(s, s1, i.wake);
        if SliceOver(s1, NowNs(i.ta, s.timer.rate)) {
          PreemptKeeps(s1);
          ArmSlice(Preempt(s1), t, i.tb, i.tc);
        } else {
          ArmSlice(s1, t, i.tb, i.tc);
        }
      case AddThread(x, th, tb, tc) =>
        ArmSlice(s.(ring := [s.ring[0], x] + s.ring[1..], threads := s.threads[x := th], sliceEnd := 0), t, tb, tc);
      case Start(tb, tc) => ArmSlice(s, t, tb, tc);
      case _ =>
    }
  }

  ghost predicate TimelyRun<T, E>(es: seq<Event<T, E>>, t: nat) {
    es == [] || (Timely(es[0], t) && TimelyRun(es[1..], EndOf(es[0], t)))
  }

  /** Over any run with an unchanged quantum and a monotone clock, every arming leaves a
      slice exactly when preemption is possible, ending after now and within a quantum. */
  lemma {:induction false} RunSlice<T, E>(s: Sched<T, E>, es: seq<Event<T, E>>, e: Event<T, E>, t: nat)
    requires Ok(s) && Legal(s, es + [e]) && SliceBound(s, t) && TimelyRun(es + [e], t)
    requires ArmRead(e).Some?
    ensures Ok(Run(s, es + [e]))
    ensures SliceWindow(Run(s, es + [e]), NowNs(ArmRead(e).value, s.timer.rate))
    decreases |es|
  {
    var all := es + [e];
    EventSlice(s, all[0], t);
    EventKeeps(s, all[0]);
    if es == [] {
      assert all[1..] == [];
    } else {
      assert all[1..] == es[1..] + [e];
      RunSlice(Do(s, all[0]), es[1..], e, EndOf(all[0], t));
    }
  }
}
