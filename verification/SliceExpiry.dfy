/** How many timer fires a slice can take, when the timer fires at or after the programmed
    counter value and user code is interrupted. */
module SliceExpiry {
  import opened Clock
  import opened Events
  import opened SchedModel
  import opened SchedRuns
  import opened Fairness
  import opened Slices
  import opened Words

  /** A timer interrupt of user code in context f, with its three clock reads. */
  datatype Fire<T, E> = Fire(f: Frame, i: TickInput<T, E>)

  /** At tc, the clock and the counter have room for a wait of up to q ns. */
  predicate Room(tc: nat, q: nat, r: Rate) {
    r.num > 0 && tc + q * r.scale / TWO32 + 1 <= U64_MAX && ExactTsc(tc + q * r.scale / TWO32 + 1, r)
  }

  lemma ShortWait(ns: nat, q: nat, tc: nat, r: Rate)
    requires ns <= q && Room(tc, q, r)
    ensures ExactNs(ns, r) && 0 < OneshotTicks(ns, r) && tc + OneshotTicks(ns, r) <= U64_MAX
    ensures ExactTsc(tc + OneshotTicks(ns, r), r)
  {
    MulMono(ns, q, r.scale);
    DivMono(ns * r.scale, q * r.scale, TWO32);
    ExactEarlier(tc + OneshotTicks(ns, r), tc + q * r.scale / TWO32 + 1, r);
  }

  lemma ExactEarlier(a: nat, b: nat, r: Rate)
    requires a <= b && ExactTsc(b, r)
    ensures ExactTsc(a, r)
  {
    MulMono(a, b, r.den);
    DivMono(a * r.den, b * r.den, r.num);
  }

  /** What the timer is to wait for while a slice runs: its end, or an earlier event. */
  function Goal<T, E>(s: Sched<T, E>): nat {
    if s.queue == [] then s.sliceEnd else Min(s.queue[0].deadline, s.sliceEnd)
  }

  /** A slice is running. */
  ghost predicate Running<T, E>(s: Sched<T, E>) {
    Ok(s) && Preemptible(s) && s.sliceEnd != 0
  }

  /** The programmed counter value is less than k ticks short of the goal. */
  predicate ShortBy<T, E>(s: Sched<T, E>, k: nat) {
    Goal(s) * s.timer.rate.num < (s.timer.deadline + k) * s.timer.rate.den
  }

  /** A slice is running, with any events queued, and the timer is programmed for the end of
      the slice or the first event, whichever is earlier, less than k ticks short. */
  ghost predicate Pending<T, E>(s: Sched<T, E>, k: nat) {
    && Running(s) && TscTimer(s) && Events0(s) && s.quantum < TWO32
    && s.timer.deadline != 0 && ExactTsc(s.timer.deadline, s.timer.rate)
    && s.sliceEnd <= NowNs(s.timer.deadline, s.timer.rate) + s.quantum
    && ShortBy(s, k)
  }

  /** User code is interrupted, and the clock reads come in order. */
  ghost predicate UserTick<T, E>(s: Sched<T, E>, x: Fire<T, E>) {
    && x.f.cs % 4 == 3 && AllLater(x.i.cbs, NowNs(x.i.ta, s.timer.rate))
    && x.i.ta <= x.i.tb <= x.i.tc
  }

  /** At or after the programmed value, and the clock has room for another slice. What is
      queued and what callbacks do is free. */
  ghost predicate MayFire<T, E>(s: Sched<T, E>, x: Fire<T, E>) {
    UserTick(s, x) && s.timer.deadline <= x.i.ta && Room(x.i.tc, s.quantum, s.timer.rate)
  }

  ghost function Fired<T, E>(s: Sched<T, E>, x: Fire<T, E>): Sched<T, E>
    requires Known(s) && AllLater(x.i.cbs, NowNs(x.i.ta, s.timer.rate))
  {
    OnTick(s.(live := x.f), x.i)
  }

  /** The handler's first clock read is before the end of the slice, its second is not. A
      handler whose two reads agree cannot race. */
  predicate Race<T, E>(s: Sched<T, E>, x: Fire<T, E>) {
    NowNs(x.i.ta, s.timer.rate) < s.sliceEnd <= NowNs(x.i.tb, s.timer.rate)
  }

  /** By how many ticks the timer can be short when the clock is read at counter value tb
      and the timer started at tc: the conversions lose less than two ticks, and the time
      in between makes up for them. */
  function Shortfall(tb: nat, tc: nat): (k: nat)
    requires tb <= tc
    ensures k <= 2
  {
    if tc - tb >= 2 then 0 else 2 - (tc - tb)
  }

  // ---------------------------------------------------------------- starting the timer

  /** The state that sched_arm_timer leaves while another thread is READY. */
  lemma ArmsForGoal<T, E>(s: Sched<T, E>, tb: nat, tc: nat)
    requires Ok(s) && TscTimer(s) && Preemptible(s) && Events0(s)
    requires var now := NowNs(tb, s.timer.rate);
             tc + OneshotTicks(Delay(NextDeadline(s, now).1, now), s.timer.rate) <= U64_MAX
    ensures var s', now := Arm(s, tb, tc), NowNs(tb, s.timer.rate);
            && s' == s.(sliceEnd := NextDeadline(s, now).0, timer := s'.timer)
            && Running(s') && TscTimer(s') && s'.timer.rate == s.timer.rate
            && Goal(s') == NextDeadline(s, now).1 > 0
            && s'.timer.deadline == tc + OneshotTicks(Delay(Goal(s'), now), s.timer.rate)
  {
    ArmKeepsThreads(s, tb, tc);
    PickSame(s, Arm(s, tb, tc), 1);
    hide PickFrom, Pick, OneshotTicks, Ok;
  }

  /** Whatever slice sched_arm_timer starts, renews or keeps, and whatever is queued: the
      programmed counter value is less than two ticks short of the goal, and not short at
      all when the timer is started two or more ticks after the clock was read. */
  lemma ArmedSlice<T, E>(s: Sched<T, E>, tb: nat, tc: nat)
    requires Ok(s) && TscTimer(s) && Preemptible(s) && Events0(s) && s.quantum < TWO32
    requires tb <= tc && Room(tc, s.quantum, s.timer.rate)
    requires s.sliceEnd <= NowNs(tb, s.timer.rate) + s.quantum
    ensures Pending(Arm(s, tb, tc), Shortfall(tb, tc)) && Arm(s, tb, tc).timer.deadline > tc
    ensures Arm(s, tb, tc).sliceEnd == NextDeadline(s, NowNs(tb, s.timer.rate)).0
  {
    var r, now := s.timer.rate, NowNs(tb, s.timer.rate);
    var goal := NextDeadline(s, now).1;
    SliceAhead(s, now);
    ShortWait(Delay(goal, now), s.quantum, tc, r);
    ArmsForGoal(s, tb, tc);
    var s' := Arm(s, tb, tc);
    hide NextDeadline, Arm, Exact, Preemptible, Ok, Goal, Events0;
    ExactEarlier(tb, s'.timer.deadline, r);
    ClockMonotone(tb, s'.timer.deadline, r);
    ProgrammedFor(goal, tb, tc, s.quantum, r);
  }

  lemma SliceAhead<T, E>(s: Sched<T, E>, now: nat)
    requires Known(s) && Preemptible(s) && Events0(s) && s.sliceEnd <= now + s.quantum
    ensures var d := NextDeadline(s, now); now < d.0 <= now + s.quantum && 0 < d.1 <= d.0
    ensures Delay(NextDeadline(s, now).1, now) <= s.quantum
  {
  }

  /** The rounding of a wait for a goal, passed or ahead. */
  lemma ProgrammedFor(goal: nat, tb: nat, tc: nat, q: nat, r: Rate)
    requires Exact(r) && tb <= tc && Delay(goal, NowNs(tb, r)) <= q < TWO32 && Room(tc, q, r) && ExactTsc(tb, r)
    ensures var w := OneshotTicks(Delay(goal, NowNs(tb, r)), r);
            goal * r.num < (tc + w + Shortfall(tb, tc)) * r.den
  {
    var now, k := NowNs(tb, r), Shortfall(tb, tc);
    var ns := Delay(goal, now);
    var w := OneshotTicks(ns, r);
    ShortWait(ns, q, tc, r);
    if goal > now {
      SliceRounding(tb, ns, r);
      MulMono(tb + w + 2, tc + w + k, r.den);
    } else {
      ClockReaches(tb, goal, r);
      MulMono(tb + 1, tc + w + k, r.den);
      assert (tb + 1) * r.den == tb * r.den + r.den;
    }
  }

  /** A slice that starts at an arming ends a quantum after the clock read, whatever else
      is queued; one that has not ended is kept. */
  lemma SliceEndAfter<T, E>(s: Sched<T, E>, tb: nat, tc: nat)
    requires Known(s) && Preemptible(s)
    ensures var s', now := Arm(s, tb, tc), NowNs(tb, s.timer.rate);
            && s'.queue == s.queue && s'.quantum == s.quantum && s'.sliceEnd == NextDeadline(s, now).0
            && s'.sliceEnd == if s.sliceEnd > now then s.sliceEnd else now + s.quantum
  {
  }

  // ---------------------------------------------------------------- one fire

  lemma WakePreemptible<T, E>(s: Sched<T, E>, s1: Sched<T, E>, wake: set<T>)
    requires Ok(s) && Preemptible(s) && s1 == s.(queue := s1.queue, threads := Wake(s.threads, wake))
    ensures Ok(s1) && Preemptible(s1)
  {
    WakeKeeps(s, s1, wake);
    assert StatusAt(s, Pick(s)) == READY;
    assert StatusAt(s1, Pick(s)) == READY;
  }

  /** The state after the expired events, at a fire. */
  ghost function AtFire<T, E>(s: Sched<T, E>, x: Fire<T, E>): (s1: Sched<T, E>)
    requires Known(s) && AllLater(x.i.cbs, NowNs(x.i.ta, s.timer.rate))
    ensures Known(s1)
  {
    Expired(s.(live := x.f), x.i)
  }

  lemma FireStart<T, E>(s: Sched<T, E>, x: Fire<T, E>)
    requires Running(s) && UserTick(s, x)
    ensures var s1, now := AtFire(s, x), NowNs(x.i.ta, s.timer.rate);
            && Ok(s1) && Preemptible(s1)
            && s1 == s.(live := x.f, queue := s1.queue, threads := s1.threads)
            && s1.queue == RunExpired(s.queue, now, x.i.cbs).1
            && Fired(s, x) == (if now >= s.sliceEnd then Arm(Preempt(s1), x.i.tb, x.i.tc) else Arm(s1, x.i.tb, x.i.tc))
  {
    hide Arm, Preempt, Wake;
    var s0 := s.(live := x.f);
    SameRing(s, s0);
    PickSame(s, s0, 1);
    WakePreemptible(s0, AtFire(s, x), x.i.wake);
  }

  /** A user-mode tick while a slice runs, whatever is queued and however the timer is set:
      the slice is over and another thread runs, on a slice of its own; or the same slice
      goes on; or the two reads raced and it is renewed. */
  lemma TickEffect<T, E>(s: Sched<T, E>, x: Fire<T, E>)
    requires Running(s) && UserTick(s, x)
    ensures var s', now := Fired(s, x), NowNs(x.i.ta, s.timer.rate);
            && Running(s') && s'.timer.rate == s.timer.rate && s'.quantum == s.quantum
            && s'.queue == RunExpired(s.queue, now, x.i.cbs).1
            && (now >= s.sliceEnd ==> s'.ring[0] != s.ring[0])
            && (now < s.sliceEnd ==> s'.ring == s.ring)
            && (now < s.sliceEnd && !Race(s, x) ==> s'.sliceEnd == s.sliceEnd)
            && (now >= s.sliceEnd || Race(s, x) ==> s'.sliceEnd == NowNs(x.i.tb, s.timer.rate) + s.quantum)
  {
    FireStart(s, x);
    ClockMonotone(x.i.ta, x.i.tb, s.timer.rate);
    hide Preempt, Wake, Fired, Pick, AtFire, Preemptible;
    var s1 := AtFire(s, x);
    Handover(s1);
    var s2 := if NowNs(x.i.ta, s.timer.rate) >= s.sliceEnd then Preempt(s1) else s1;
    ArmKeepsThreads(s2, x.i.tb, x.i.tc);
    StillPreemptible(s2, x.i.tb, x.i.tc);
    SliceEndAfter(s2, x.i.tb, x.i.tc);
    hide Arm, NextDeadline;
  }

  lemma StillPreemptible<T, E>(s: Sched<T, E>, tb: nat, tc: nat)
    requires Known(s) && Preemptible(s)
    ensures Preemptible(Arm(s, tb, tc))
  {
    ArmKeepsThreads(s, tb, tc);
    PickSame(s, Arm(s, tb, tc), 1);
  }

  /** The next READY thread takes over, and the one it takes over from is READY. */
  lemma Handover<T, E>(s: Sched<T, E>)
    requires Ok(s) && Preemptible(s)
    ensures Ok(Preempt(s)) && Preemptible(Preempt(s)) && Preempt(s).ring[0] != s.ring[0]
    ensures Preempt(s).sliceEnd == 0 && Preempt(s).quantum == s.quantum
    ensures Preempt(s).queue == s.queue && Preempt(s).timer == s.timer
  {
    var s2 := Save(s);
    SaveKeeps(s);
    assert StatusAt(s2, Pick(s)) == READY by { assert StatusAt(s, Pick(s)) == READY; }
    var k := Pick(s2);
    PreemptKeeps(s);
    SwitchOk(s2, k);
    var s' := Preempt(s);
    RotateAt(s.ring, k, 0);
    assert s'.ring[|s.ring| - k] == s.ring[0];
    assert StatusAt(s', |s.ring| - k) == READY;
  }

  /** After any fire the timer is again programmed for the goal: anew, less than two ticks
      short; or, when the fire came before the goal, for the same goal and a tick less
      short. A fire that is not short of the goal finds events due, or the slice over. */
  lemma FireEffect<T, E>(s: Sched<T, E>, x: Fire<T, E>, k: nat)
    requires Pending(s, k) && MayFire(s, x)
    ensures var s', now := Fired(s, x), NowNs(x.i.ta, s.timer.rate);
            && Pending(s', Shortfall(x.i.tb, x.i.tc))
            && (now < Goal(s) ==> k > 0 && s'.queue == s.queue)
            && (now < Goal(s) && !Race(s, x) ==> s'.sliceEnd == s.sliceEnd && Pending(s', k - 1))
  {
    var now := NowNs(x.i.ta, s.timer.rate);
    TickEffect(s, x);
    FireAgain(s, x);
    FireInTime(s, x);
    ClockReaches(x.i.ta, Goal(s), s.timer.rate);
    if now < Goal(s) {
      if k == 0 { MulMono(s.timer.deadline, x.i.ta, s.timer.rate.den); }
      hide Pending;
      if !Race(s, x) { FireGoesOn(s, x, k); }
    }
  }

  lemma FireInTime<T, E>(s: Sched<T, E>, x: Fire<T, E>)
    requires MayFire(s, x)
    ensures ExactTsc(x.i.ta, s.timer.rate)
  {
    ExactEarlier(x.i.ta, x.i.tc + s.quantum * s.timer.rate.scale / TWO32 + 1, s.timer.rate);
  }

  lemma QueueAtFire<T, E>(s: Sched<T, E>, x: Fire<T, E>)
    requires Running(s) && UserTick(s, x) && Events0(s)
    ensures Events0(AtFire(s, x))
  {
    RunExpiredFiresAllDue(s.queue, NowNs(x.i.ta, s.timer.rate), x.i.cbs);
    FireStart(s, x);
  }

  lemma FireAgain<T, E>(s: Sched<T, E>, x: Fire<T, E>)
    requires Running(s) && TscTimer(s) && Events0(s) && s.quantum < TWO32 && MayFire(s, x)
    requires s.timer.deadline != 0 && s.sliceEnd <= NowNs(s.timer.deadline, s.timer.rate) + s.quantum
    ensures Pending(Fired(s, x), Shortfall(x.i.tb, x.i.tc)) && Fired(s, x).timer.deadline > x.i.tc
  {
    FireStart(s, x);
    QueueAtFire(s, x);
    ClockMonotone(s.timer.deadline, x.i.tb, s.timer.rate);
    hide Arm, Preempt, Wake, Fired, Pick, AtFire, Preemptible, Pending;
    var s1 := AtFire(s, x);
    Handover(s1);
    var s2 := if NowNs(x.i.ta, s.timer.rate) >= s.sliceEnd then Preempt(s1) else s1;
    ArmedSlice(s2, x.i.tb, x.i.tc);
  }

  /** The goal is the same one and the timer at least a tick later. */
  lemma FireGoesOn<T, E>(s: Sched<T, E>, x: Fire<T, E>, k: nat)
    requires Running(s) && UserTick(s, x) && s.timer.deadline <= x.i.ta && ShortBy(s, k) && k > 0
    requires NowNs(x.i.ta, s.timer.rate) < Goal(s) && !Race(s, x)
    requires Pending(Fired(s, x), Shortfall(x.i.tb, x.i.tc)) && Fired(s, x).timer.deadline > x.i.tc
    ensures Fired(s, x).queue == s.queue && Pending(Fired(s, x), k - 1)
  {
    TickEffect(s, x);
    var s' := Fired(s, x);
    hide Fired, Running;
    assert s'.queue == s.queue && Goal(s') == Goal(s);
    MulMono(s.timer.deadline + k, s'.timer.deadline + (k - 1), s.timer.rate.den);
  }

  // ---------------------------------------------------------------- runs of fires

  /** Fires that may happen one after the other, none of which races. */
  ghost predicate CalmFires<T, E>(s: Sched<T, E>, xs: seq<Fire<T, E>>)
    requires Known(s)
    decreases |xs|
  {
    xs == [] || (MayFire(s, xs[0]) && !Race(s, xs[0]) && Known(Fired(s, xs[0])) && CalmFires(Fired(s, xs[0]), xs[1..]))
  }

  /** The events that a fire's callbacks insert. */
  ghost function NewEvents<T, E>(s: Sched<T, E>, x: Fire<T, E>): seq<Ev<E>> {
    InsertedBy(s.queue, NowNs(x.i.ta, s.timer.rate), x.i.cbs)
  }

  /** How many events due before time e callbacks insert while the clock is before e. */
  ghost function InsertedBefore<T, E>(s: Sched<T, E>, xs: seq<Fire<T, E>>, e: nat): nat
    requires Known(s) && CalmFires(s, xs)
    decreases |xs|
  {
    if xs == [] || NowNs(xs[0].i.ta, s.timer.rate) >= e then 0
    else CountBefore(NewEvents(s, xs[0]), e) + InsertedBefore(Fired(s, xs[0]), xs[1..], e)
  }

  /** How many events callbacks insert in all. */
  ghost function InsertedInAll<T, E>(s: Sched<T, E>, xs: seq<Fire<T, E>>): nat
    requires Known(s) && CalmFires(s, xs)
    decreases |xs|
  {
    if xs == [] then 0 else |NewEvents(s, xs[0])| + InsertedInAll(Fired(s, xs[0]), xs[1..])
  }

  /** Thread t is the current one after one of the fires. */
  ghost predicate Reached<T, E>(s: Sched<T, E>, xs: seq<Fire<T, E>>, t: T)
    requires Known(s) && CalmFires(s, xs)
    decreases |xs|
  {
    xs != [] && (var s' := Fired(s, xs[0]); (s'.ring != [] && s'.ring[0] == t) || Reached(s', xs[1..], t))
  }

  /** The current thread has been preempted after one of the fires. */
  ghost predicate Preempted<T, E>(s: Sched<T, E>, xs: seq<Fire<T, E>>, c: T)
    requires Known(s) && CalmFires(s, xs)
    decreases |xs|
  {
    xs != [] && (var s' := Fired(s, xs[0]); (s'.ring != [] && s'.ring[0] != c) || Preempted(s', xs[1..], c))
  }

  /** How many fires a slice can still take: three for each event due before its end, and
      the ticks by which the timer is short. */
  ghost function FiresToEnd<T, E>(s: Sched<T, E>, k: nat): nat { 3 * CountBefore(s.queue, s.sliceEnd) + k }

  /** A fire that does not end the slice uses one of them up. */
  lemma SliceStep<T, E>(s: Sched<T, E>, x: Fire<T, E>, k: nat) returns (k': nat)
    requires Pending(s, k) && MayFire(s, x) && !Race(s, x) && NowNs(x.i.ta, s.timer.rate) < s.sliceEnd
    ensures var s' := Fired(s, x);
            && Pending(s', k') && s'.ring == s.ring && s'.sliceEnd == s.sliceEnd
            && FiresToEnd(s', k') + 1 <= FiresToEnd(s, k) + 3 * CountBefore(NewEvents(s, x), s.sliceEnd)
  {
    var now := NowNs(x.i.ta, s.timer.rate);
    FireEffect(s, x, k);
    TickEffect(s, x);
    RunExpiredCount(s.queue, now, x.i.cbs, s.sliceEnd);
    hide Pending, Fired, RunExpired, InsertedBy;
    k' := if now < Goal(s) then k - 1 else Shortfall(x.i.tb, x.i.tc);
  }

  /** A slice ends in a switch within so many fires, and three more for each earlier event
      that callbacks insert meanwhile. */
  lemma {:induction false} SliceEnds<T, E>(s: Sched<T, E>, xs: seq<Fire<T, E>>, k: nat)
    requires Pending(s, k) && CalmFires(s, xs)
    requires |xs| > FiresToEnd(s, k) + 3 * InsertedBefore(s, xs, s.sliceEnd)
    ensures Preempted(s, xs, s.ring[0])
    decreases |xs|
  {
    var x := xs[0];
    if NowNs(x.i.ta, s.timer.rate) < s.sliceEnd {
      var k' := SliceStep(s, x, k);
      hide Pending, Fired, MayFire, Race, FiresToEnd, CountBefore;
      SliceEnds(Fired(s, x), xs[1..], k');
    } else {
      hide CountBefore;
      TickEffect(s, x);
    }
  }

  /** From any arming: with n events queued that are due before the end of the slice, and m
      such inserted, 3 * (n + m + 1) fires end it. */
  lemma SliceEndsInFires<T, E>(s: Sched<T, E>, tb: nat, tc: nat, xs: seq<Fire<T, E>>)
    requires Ok(s) && TscTimer(s) && Preemptible(s) && Events0(s) && s.quantum < TWO32
    requires tb <= tc && Room(tc, s.quantum, s.timer.rate)
    requires s.sliceEnd <= NowNs(tb, s.timer.rate) + s.quantum
    requires Known(Arm(s, tb, tc)) && CalmFires(Arm(s, tb, tc), xs)
    requires var e := Arm(s, tb, tc).sliceEnd;
             |xs| >= 3 * (CountBefore(s.queue, e) + InsertedBefore(Arm(s, tb, tc), xs, e) + 1)
    ensures Preempted(Arm(s, tb, tc), xs, s.ring[0])
  {
    ArmedSlice(s, tb, tc);
    ArmKeepsThreads(s, tb, tc);
    SliceEndAfter(s, tb, tc);
    hide Arm, Pending, CountBefore, NextDeadline;
    SliceEnds(Arm(s, tb, tc), xs, Shortfall(tb, tc));
  }

  /** With no event due before the end of the slice nothing is inserted before it either. */
  lemma {:induction false} NothingInserted<T, E>(s: Sched<T, E>, xs: seq<Fire<T, E>>, k: nat)
    requires Pending(s, k) && CalmFires(s, xs) && CountBefore(s.queue, s.sliceEnd) == 0
    ensures InsertedBefore(s, xs, s.sliceEnd) == 0
    decreases |xs|
  {
    if xs != [] && NowNs(xs[0].i.ta, s.timer.rate) < s.sliceEnd {
      var k' := SliceStep(s, xs[0], k);
      RunExpiredCount(s.queue, NowNs(xs[0].i.ta, s.timer.rate), xs[0].i.cbs, s.sliceEnd);
      TickEffect(s, xs[0]);
      hide Pending, Fired, RunExpired, MayFire, Race;
      assert NewEvents(s, xs[0]) == [];
      NothingInserted(Fired(s, xs[0]), xs[1..], k');
    }
  }

  /** Three fires, if no event is due before the end of the slice: whatever is queued for
      its end or later, and whatever the fires' callbacks would insert. */
  lemma FreshSliceEndsInThree<T, E>(s: Sched<T, E>, tb: nat, tc: nat, xs: seq<Fire<T, E>>)
    requires Ok(s) && TscTimer(s) && Preemptible(s) && Events0(s) && s.quantum < TWO32
    requires tb <= tc && Room(tc, s.quantum, s.timer.rate)
    requires s.sliceEnd <= NowNs(tb, s.timer.rate) + s.quantum
    requires CountBefore(s.queue, NextDeadline(s, NowNs(tb, s.timer.rate)).0) == 0
    requires Known(Arm(s, tb, tc)) && CalmFires(Arm(s, tb, tc), xs) && |xs| >= 3
    ensures Preempted(Arm(s, tb, tc), xs, s.ring[0])
  {
    ArmedSlice(s, tb, tc);
    SliceEndAfter(s, tb, tc);
    hide Arm, Pending, CountBefore, NextDeadline;
    NothingInserted(Arm(s, tb, tc), xs, Shortfall(tb, tc));
    SliceEndsInFires(s, tb, tc, xs);
  }

  /** If the timer was started at least two ticks after the clock was read, the first fire
      does what it was programmed for, race or no race: it ends the slice, or finds due the
      event that comes before its end. */
  lemma SpacedReadsFireOnce<T, E>(s: Sched<T, E>, tb: nat, tc: nat, x: Fire<T, E>)
    requires Ok(s) && TscTimer(s) && Preemptible(s) && Events0(s) && s.quantum < TWO32
    requires tb + 2 <= tc && Room(tc, s.quantum, s.timer.rate)
    requires s.sliceEnd <= NowNs(tb, s.timer.rate) + s.quantum
    requires MayFire(Arm(s, tb, tc), x)
    ensures var s1 := Arm(s, tb, tc);
            && Ok(s1) && Ok(Fired(s1, x)) && NowNs(x.i.ta, s.timer.rate) >= Goal(s1)
            && (CountBefore(s.queue, s1.sliceEnd) == 0 ==> Fired(s1, x).ring[0] != s.ring[0])
            && (CountBefore(s.queue, s1.sliceEnd) > 0 ==> TakeDue(s.queue, NowNs(x.i.ta, s.timer.rate)) != [])
  {
    ArmedSlice(s, tb, tc);
    ArmKeepsThreads(s, tb, tc);
    SliceEndAfter(s, tb, tc);
    hide NextDeadline, Fired, MayFire, Arm;
    var s1 := Arm(s, tb, tc);
    FireEffect(s1, x, 0);
    UserOfFire(s1, x);
    TickEffect(s1, x);
    if s.queue != [] && s.queue[0].deadline >= s1.sliceEnd { NoneBefore(s.queue, s1.sliceEnd); }
  }

  lemma UserOfFire<T, E>(s: Sched<T, E>, x: Fire<T, E>)
    requires MayFire(s, x)
    ensures UserTick(s, x)
  {
  }

  // ---------------------------------------------------------------- bounded waiting

  lemma FireDistance<T, E>(s: Sched<T, E>, x: Fire<T, E>, t: T)
    requires Ok(s) && Waiting(s, t) && AllLater(x.i.cbs, NowNs(x.i.ta, s.timer.rate))
    ensures var s' := Fired(s, x);
            && Ok(s')
            && (s'.ring[0] == t || (Waiting(s', t) && Distance(s'.ring, t) <= Distance(s.ring, t)
                 && (s'.ring[0] != s.ring[0] ==> Distance(s'.ring, t) < Distance(s.ring, t))))
  {
    var s0 := s.(live := x.f);
    SameRing(s, s0);
    TickDistance(s0, x.i, t);
  }

  /** How many fires thread t can still have to wait: three for each queued event and each
      slice before its own, and the ticks by which the timer is short. */
  ghost function FiresLeft<T, E>(s: Sched<T, E>, k: nat, t: T): int
    requires t in s.ring
  {
    3 * (Distance(s.ring, t) - 1) + 3 * |s.queue| + k
  }

  /** A fire uses one of them up, or the thread runs. */
  lemma ServedStep<T, E>(s: Sched<T, E>, x: Fire<T, E>, k: nat, t: T) returns (k': nat)
    requires Pending(s, k) && k <= 2 && Waiting(s, t) && MayFire(s, x) && !Race(s, x)
    ensures var s' := Fired(s, x);
            && Ok(s')
            && (s'.ring[0] == t || (k' <= 2 && Waiting(s', t) && Pending(s', k')
                  && FiresLeft(s', k', t) + 1 <= FiresLeft(s, k, t) + 3 * |NewEvents(s, x)|))
  {
    var now := NowNs(x.i.ta, s.timer.rate);
    FireEffect(s, x, k);
    TickEffect(s, x);
    RunExpiredCount(s.queue, now, x.i.cbs, now + 1);
    FireDistance(s, x, t);
    hide Fired, Pending, RunExpired, InsertedBy, Distance, Running;
    k' := if now < Goal(s) then k - 1 else Shortfall(x.i.tb, x.i.tc);
  }

  /** Bounded waiting: with no race, a READY thread at ring distance d runs within
      3 * (d + n) timer fires, n being the number of timed events queued or inserted. */
  lemma {:induction false} ServedWithin<T, E>(s: Sched<T, E>, xs: seq<Fire<T, E>>, k: nat, t: T)
    requires Pending(s, k) && k <= 2 && CalmFires(s, xs) && Waiting(s, t)
    requires |xs| >= 3 * (Distance(s.ring, t) + |s.queue| + InsertedInAll(s, xs))
    ensures Reached(s, xs, t)
  {
    assert FiresLeft(s, k, t) + 1 <= 3 * (Distance(s.ring, t) + |s.queue|);
    ServedBy(s, xs, k, t);
  }

  lemma {:induction false} ServedBy<T, E>(s: Sched<T, E>, xs: seq<Fire<T, E>>, k: nat, t: T)
    requires Pending(s, k) && k <= 2 && CalmFires(s, xs) && Waiting(s, t)
    requires |xs| > FiresLeft(s, k, t) + 3 * InsertedInAll(s, xs)
    ensures Reached(s, xs, t)
    decreases |xs|
  {
    hide Fired, Pending, Race, Waiting, Room;
    StillWaits(s, k, t);
    var k' := ServedStep(s, xs[0], k, t);
    if Fired(s, xs[0]).ring[0] != t {
      ServedBy(Fired(s, xs[0]), xs[1..], k', t);
    }
  }

  lemma StillWaits<T, E>(s: Sched<T, E>, k: nat, t: T)
    requires Pending(s, k) && Waiting(s, t)
    ensures Known(s) && FiresLeft(s, k, t) >= 0
  {
  }
}
