/** Round-robin fairness: how many switches a READY thread can wait. */
module Fairness {
  import opened Clock
  import opened SchedModel
  import opened SchedRuns

  /** Ring distance from the current thread. */
  ghost function Distance<T>(ring: seq<T>, t: T): (d: nat)
    requires t in ring
    ensures d < |ring| && ring[d] == t
  {
    var d :| 0 <= d < |ring| && ring[d] == t;
    d
  }

  lemma DistanceIs<T>(ring: seq<T>, t: T, d: nat)
    requires d < |ring| && ring[d] == t && forall i, j :: 0 <= i < j < |ring| ==> ring[i] != ring[j]
    ensures Distance(ring, t) == d
  {
  }

  ghost predicate Waiting<T, E>(s: Sched<T, E>, t: T)
    requires Ok(s)
  {
    t in s.ring && t != s.ring[0] && s.threads[t].status == READY
  }

  ghost predicate Switches<T, E>(s: Sched<T, E>, e: Event<T, E>)
    requires Ok(s) && May(s, e)
  {
    EventKeeps(s, e);
    Do(s, e).ring[0] != s.ring[0]
  }

  function Count(b: bool): nat { if b then 1 else 0 }

  lemma PreemptDistance<T, E>(s: Sched<T, E>, t: T)
    requires Ok(s) && Waiting(s, t)
    ensures var s' := Preempt(s);
            && Ok(s') && s'.ring[0] != s.ring[0]
            && (s'.ring[0] == t || (Waiting(s', t) && Distance(s'.ring, t) < Distance(s.ring, t)))
  {
    var d := Distance(s.ring, t);
    var s2 := Save(s);
    SaveKeeps(s);
    PreemptKeeps(s);
    assert StatusAt(s2, d) == READY by { assert StatusAt(s, d) == READY; }
    var k := Pick(s2);
    assert 0 < k <= d;
    SwitchOk(s2, k);
    RotateFrom(s.ring, k, 0);
    RotateAt(s.ring, k, d);
    if k < d {
      var s' := Preempt(s);
      assert s'.ring == s.ring[k..] + s.ring[..k];
      RotateDistinct(s.ring, k);
      DistanceIs(s'.ring, t, d - k);
      assert s.ring[0] != t && s.ring[k] != t;
    }
  }

  lemma TickDistance<T, E>(s: Sched<T, E>, i: TickInput<T, E>, t: T)
    requires Ok(s) && May(s, Tick(i)) && Waiting(s, t)
    ensures var s' := Do(s, Tick(i));
            && Ok(s')
            && (s'.ring[0] == t || (Waiting(s', t)
                 && Distance(s'.ring, t) + Count(Switches(s, Tick(i))) <= Distance(s.ring, t)))
  {
    var s1 := Expired(s, i);
    WakeKeeps(s, s1, i.wake);
    assert StatusAt(s, Distance(s.ring, t)) == READY;
    assert StatusAt(s1, Distance(s.ring, t)) == READY;
    if SliceOver(s1, NowNs(i.ta, s.timer.rate)) {
      PreemptDistance(s1, t);
      ArmKeepsThreads(Preempt(s1), i.tb, i.tc);
    } else {
      ArmKeepsThreads(s1, i.tb, i.tc);
    }
  }

  /** Each event: the thread runs, or it still waits, and its distance has fallen by at
      least one for a switch and grown by at most one for an added thread. */
  lemma EventDistance<T, E>(s: Sched<T, E>, e: Event<T, E>, t: T)
    requires Ok(s) && May(s, e) && Waiting(s, t)
    ensures var s' := Do(s, e);
            && Ok(s')
            && (s'.ring[0] == t || (Waiting(s', t)
                 && Distance(s'.ring, t) + Count(Switches(s, e)) <= Distance(s.ring, t) + Count(e.AddThread?)))
  {
    EventKeeps(s, e);
    var d := Distance(s.ring, t);
    match e {
      case Tick(i) => TickDistance(s, i, t);
      case AddThread(x, th, tb, tc) =>
        AddKeeps(s, x, th, tb, tc);
        var s' := Do(s, e);
        DistanceIs(s'.ring, t, d + 1);
        assert StatusAt(s', d + 1) == StatusAt(s, d);
      case Execute(f) =>
      case Quantum(ns, tb, tc) => QuantumKeeps(s, ns, tb, tc);
      case Start(tb, tc) => ArmKeepsThreads(s, tb, tc);
      case Enqueue(ev) =>
    }
  }

  /** How many switches a run makes. */
  ghost function SwitchCount<T, E>(s: Sched<T, E>, es: seq<Event<T, E>>): nat
    requires Ok(s) && Legal(s, es)
    decreases |es|
  {
    if es == [] then 0
    else
      EventKeeps(s, es[0]);
      Count(Switches(s, es[0])) + SwitchCount(Do(s, es[0]), es[1..])
  }

  /** Thread t is the current one at some point of the run after its start. */
  ghost predicate Runs<T, E>(s: Sched<T, E>, es: seq<Event<T, E>>, t: T)
    requires Ok(s) && Legal(s, es)
    decreases |es|
  {
    es != [] && (EventKeeps(s, es[0]); Do(s, es[0]).ring[0] == t || Runs(Do(s, es[0]), es[1..], t))
  }

  /** Round robin: a READY thread at ring distance d that has not run has seen fewer than d
      switches, plus one for each thread added meanwhile; and it is still READY. */
  lemma {:induction false} RoundRobin<T, E>(s: Sched<T, E>, es: seq<Event<T, E>>, t: T)
    requires Ok(s) && Legal(s, es) && Waiting(s, t)
    ensures Runs(s, es, t) || (Ok(Run(s, es)) && Waiting(Run(s, es), t)
              && Distance(Run(s, es).ring, t) + SwitchCount(s, es) <= Distance(s.ring, t) + |Added(es)|)
    ensures SwitchCount(s, es) >= Distance(s.ring, t) + |Added(es)| ==> Runs(s, es, t)
    decreases |es|
  {
    if es != [] {
      EventDistance(s, es[0], t);
      EventKeeps(s, es[0]);
      if Do(s, es[0]).ring[0] != t {
        RoundRobin(Do(s, es[0]), es[1..], t);
      }
    }
  }
}
