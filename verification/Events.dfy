/** The timer queue as a sequence of events: insertion in deadline order, and running the
    expired ones while their callbacks insert further events. */
module Events {

  /** A queued event: which one, and when it is due. */
  datatype Ev<E> = Ev(id: E, deadline: nat)

  ghost predicate Sorted<E>(q: seq<Ev<E>>) {
    |q| < 2 || (q[0].deadline <= q[1].deadline && Sorted(q[1..]))
  }

  /** timerq_insert: after every event that is not due later. */
  function Insert<E>(q: seq<Ev<E>>, e: Ev<E>): (r: seq<Ev<E>>)
    ensures |r| == |q| + 1
  {
    if q == [] || q[0].deadline > e.deadline then [e] + q else [q[0]] + Insert(q[1..], e)
  }

  function InsertAll<E>(q: seq<Ev<E>>, es: seq<Ev<E>>): seq<Ev<E>>
    decreases |es|
  {
    if es == [] then q else InsertAll(Insert(q, es[0]), es[1..])
  }

  /** The events that are due at deadline d, in queue order. */
  ghost function At<E>(q: seq<Ev<E>>, d: nat): seq<Ev<E>> {
    if q == [] then [] else (if q[0].deadline == d then [q[0]] else []) + At(q[1..], d)
  }

  lemma ConsTail<E>(x: Ev<E>, q: seq<Ev<E>>)
    ensures ([x] + q)[0] == x && ([x] + q)[1..] == q
  {
  }

  lemma {:induction false} InsertKeepsSorted<E>(q: seq<Ev<E>>, e: Ev<E>)
    requires Sorted(q)
    ensures Sorted(Insert(q, e))
    ensures Insert(q, e)[0] == e || (q != [] && Insert(q, e)[0] == q[0])
  {
    if q == [] || q[0].deadline > e.deadline {
      ConsTail(e, q);
    } else {
      InsertKeepsSorted(q[1..], e);
      ConsTail(q[0], Insert(q[1..], e));
    }
  }

  /** Insertion keeps the other events; among events of one deadline the new one is last. */
  lemma {:induction false} InsertIsStable<E>(q: seq<Ev<E>>, e: Ev<E>, d: nat)
    requires Sorted(q)
    ensures At(Insert(q, e), d) == At(q, d) + (if e.deadline == d then [e] else [])
  {
    if q == [] || q[0].deadline > e.deadline {
      ConsTail(e, q);
      if e.deadline == d { NoneAt(q, d); }
    } else {
      InsertIsStable(q[1..], e, d);
      var t, h := Insert(q[1..], e), if q[0].deadline == d then [q[0]] else [];
      ConsTail(q[0], t);
      assert At([q[0]] + t, d) == h + At(t, d);
    }
  }

  lemma {:induction false} NoneAt<E>(q: seq<Ev<E>>, d: nat)
    requires Sorted(q) && (q == [] || q[0].deadline > d)
    ensures At(q, d) == []
  {
    if q != [] {
      NoneAt(q[1..], d);
    }
  }

  /** Inserting events one by one keeps each deadline's events in insertion order. */
  lemma {:induction false} InsertAllIsStable<E>(q: seq<Ev<E>>, es: seq<Ev<E>>, d: nat)
    requires Sorted(q)
    ensures Sorted(InsertAll(q, es))
    ensures At(InsertAll(q, es), d) == At(q, d) + At(es, d)
    decreases |es|
  {
    if es != [] {
      InsertKeepsSorted(q, es[0]);
      InsertIsStable(q, es[0], d);
      InsertAllIsStable(Insert(q, es[0]), es[1..], d);
    }
  }

  /** Deadline order and the order within each deadline determine the queue. */
  lemma {:induction false} StableSortUnique<E>(p: seq<Ev<E>>, q: seq<Ev<E>>)
    requires Sorted(p) && Sorted(q) && forall d: nat :: At(p, d) == At(q, d)
    ensures p == q
  {
    assert p != [] ==> At(p, p[0].deadline) == At(q, p[0].deadline);
    assert q != [] ==> At(p, q[0].deadline) == At(q, q[0].deadline);
    if p != [] && q != [] {
      HeadIsEarliest(p, q);
      HeadIsEarliest(q, p);
      var d0 := p[0].deadline;
      assert At(p, d0) == [p[0]] + At(p[1..], d0);
      assert At(q, d0) == [q[0]] + At(q[1..], d0);
      assert ([p[0]] + At(p[1..], d0))[0] == p[0] && ([q[0]] + At(q[1..], d0))[0] == q[0];
      forall d: nat ensures At(p[1..], d) == At(q[1..], d) {
        TailAt(p, q, d);
      }
      StableSortUnique(p[1..], q[1..]);
      assert p == [p[0]] + p[1..] && q == [q[0]] + q[1..];
    }
  }

  lemma TailAt<E>(p: seq<Ev<E>>, q: seq<Ev<E>>, d: nat)
    requires p != [] && q != [] && p[0] == q[0] && At(p, d) == At(q, d)
    ensures At(p[1..], d) == At(q[1..], d)
  {
    var h := if p[0].deadline == d then [p[0]] else [];
    assert At(p[1..], d) == At(p, d)[|h|..];
    assert At(q[1..], d) == At(q, d)[|h|..];
  }

  lemma HeadIsEarliest<E>(p: seq<Ev<E>>, q: seq<Ev<E>>)
    requires p != [] && q != [] && Sorted(q) && At(p, p[0].deadline) == At(q, p[0].deadline)
    ensures q[0].deadline <= p[0].deadline
  {
    var d := p[0].deadline;
    if q[0].deadline > d {
      NoneAt(q, d);
    }
  }

  /** q holds the events es in deadline order, those of one deadline in their order in es. */
  ghost predicate IsStableSort<E>(q: seq<Ev<E>>, es: seq<Ev<E>>) {
    Sorted(q) && forall d: nat :: At(q, d) == At(es, d)
  }

  /** A queue built by insertions is the one stable sort of what was inserted. */
  lemma InsertAllIsStableSort<E>(es: seq<Ev<E>>, q: seq<Ev<E>>)
    ensures q == InsertAll([], es) <==> IsStableSort(q, es)
  {
    var r := InsertAll([], es);
    InsertAllIsStable([], es, 0);
    forall d: nat ensures At(r, d) == At(es, d) {
      InsertAllIsStable([], es, d);
    }
    assert IsStableSort(r, es);
    if IsStableSort(q, es) {
      forall d: nat ensures At(q, d) == At(r, d) {
        assert At(q, d) == At(es, d) == At(r, d);
      }
      StableSortUnique(q, r);
    }
  }

  /** timerq_next_deadline; 0 when nothing is queued. */
  function FirstDeadline<E>(q: seq<Ev<E>>): nat {
    if q == [] then 0 else q[0].deadline
  }

  // ---------------------------------------------------------------- running expired events

  /** The events at the front that are due at or before now, and the rest. */
  function TakeDue<E>(q: seq<Ev<E>>, now: nat): seq<Ev<E>> {
    if q == [] || q[0].deadline > now then [] else [q[0]] + TakeDue(q[1..], now)
  }

  function DropDue<E>(q: seq<Ev<E>>, now: nat): seq<Ev<E>> {
    if q == [] || q[0].deadline > now then q else DropDue(q[1..], now)
  }

  lemma {:induction false} DueParts<E>(q: seq<Ev<E>>, now: nat)
    ensures q == TakeDue(q, now) + DropDue(q, now)
    ensures forall i :: 0 <= i < |TakeDue(q, now)| ==> TakeDue(q, now)[i].deadline <= now
    ensures DropDue(q, now) == [] || DropDue(q, now)[0].deadline > now
    ensures Sorted(q) ==> Sorted(DropDue(q, now))
  {
    if q != [] && q[0].deadline <= now {
      DueParts(q[1..], now);
      assert q == [q[0]] + q[1..];
    }
  }

  /** On a sorted queue they are all the events due, and all the others. */
  lemma DueSplit<E>(q: seq<Ev<E>>, now: nat)
    requires Sorted(q)
    ensures q == TakeDue(q, now) + DropDue(q, now)
    ensures forall i :: 0 <= i < |TakeDue(q, now)| ==> TakeDue(q, now)[i].deadline <= now
    ensures forall i :: 0 <= i < |DropDue(q, now)| ==> DropDue(q, now)[i].deadline > now
    ensures Sorted(DropDue(q, now))
  {
    DueParts(q, now);
    AllAfter(DropDue(q, now), now);
  }

  lemma {:induction false} AllAfter<E>(q: seq<Ev<E>>, now: nat)
    requires Sorted(q) && (q == [] || q[0].deadline > now)
    ensures forall i :: 0 <= i < |q| ==> q[i].deadline > now
  {
    if q != [] {
      AllAfter(q[1..], now);
      assert forall i :: 1 <= i < |q| ==> q[i] == q[1..][i - 1];
    }
  }

  /** What the callbacks of a run insert, in firing order; callbacks past the end insert
      nothing. */
  type Effects<E> = seq<seq<Ev<E>>>

  function First<E>(cbs: Effects<E>): seq<Ev<E>> { if cbs == [] then [] else cbs[0] }

  function Later<E>(cbs: Effects<E>): Effects<E> { if cbs == [] then [] else cbs[1..] }

  ghost predicate After<E>(es: seq<Ev<E>>, now: nat) {
    forall i :: 0 <= i < |es| ==> es[i].deadline > now
  }

  /** Every insertion is for later than now. */
  ghost predicate AllLater<E>(cbs: Effects<E>, now: nat) {
    forall k :: 0 <= k < |cbs| ==> After(cbs[k], now)
  }

  lemma {:induction false} InsertAfterDue<E>(q: seq<Ev<E>>, e: Ev<E>, now: nat)
    requires e.deadline > now
    ensures TakeDue(Insert(q, e), now) == TakeDue(q, now)
    ensures DropDue(Insert(q, e), now) == Insert(DropDue(q, now), e)
  {
    if q == [] || q[0].deadline > e.deadline {
      ConsTail(e, q);
    } else {
      InsertAfterDue(q[1..], e, now);
      ConsTail(q[0], Insert(q[1..], e));
    }
  }

  lemma {:induction false} InsertAllAfterDue<E>(q: seq<Ev<E>>, es: seq<Ev<E>>, now: nat)
    requires After(es, now)
    ensures TakeDue(InsertAll(q, es), now) == TakeDue(q, now)
    ensures DropDue(InsertAll(q, es), now) == InsertAll(DropDue(q, now), es)
    decreases |es|
  {
    if es != [] {
      InsertAfterDue(q, es[0], now);
      InsertAllAfterDue(Insert(q, es[0]), es[1..], now);
    }
  }

  /** timerq_run_expired: the events fired, in order, and the queue left. */
  ghost function RunExpired<E>(q: seq<Ev<E>>, now: nat, cbs: Effects<E>): (seq<Ev<E>>, seq<Ev<E>>)
    requires AllLater(cbs, now)
    decreases |TakeDue(q, now)|
  {
    if q == [] || q[0].deadline > now then ([], q)
    else
      InsertAllAfterDue(q[1..], First(cbs), now);
      var r := RunExpired(InsertAll(q[1..], First(cbs)), now, Later(cbs));
      ([q[0]] + r.0, r.1)
  }

  /** Everything the first n callbacks insert. */
  function Inserted<E>(cbs: Effects<E>, n: nat): seq<Ev<E>>
    decreases n
  {
    if n == 0 then [] else First(cbs) + Inserted(Later(cbs), n - 1)
  }

  /** Callback n inserts cbs[n]. */
  lemma {:induction false} InsertedNext<E>(cbs: Effects<E>, n: nat)
    ensures Inserted(cbs, 0) == []
    ensures Inserted(cbs, n + 1) == Inserted(cbs, n) + (if n < |cbs| then cbs[n] else [])
    decreases n
  {
    if n == 0 {
      assert Inserted(cbs, 1) == First(cbs) + [] == [] + First(cbs);
    } else {
      InsertedNext(Later(cbs), n - 1);
      var rest := if n < |cbs| then cbs[n] else [];
      assert Inserted(Later(cbs), n) == Inserted(Later(cbs), n - 1) + rest;
      assert First(cbs) + (Inserted(Later(cbs), n - 1) + rest) == First(cbs) + Inserted(Later(cbs), n - 1) + rest;
    }
  }

  lemma {:induction false} InsertAllConcat<E>(q: seq<Ev<E>>, a: seq<Ev<E>>, b: seq<Ev<E>>)
    ensures InsertAll(InsertAll(q, a), b) == InsertAll(q, a + b)
    decreases |a|
  {
    if a == [] {
      assert [] + b == b;
    } else {
      assert (a + b)[1..] == a[1..] + b;
      InsertAllConcat(Insert(q, a[0]), a[1..], b);
    }
  }

  /** timerq_run_expired fires exactly the events at the front that are due when it starts,
      each once and in order; left are the others and all the callbacks inserted. */
  lemma {:induction false} RunExpiredFires<E>(q: seq<Ev<E>>, now: nat, cbs: Effects<E>)
    requires AllLater(cbs, now)
    ensures RunExpired(q, now, cbs).0 == TakeDue(q, now)
    ensures RunExpired(q, now, cbs).1 == InsertAll(DropDue(q, now), Inserted(cbs, |TakeDue(q, now)|))
    decreases |TakeDue(q, now)|
  {
    if q != [] && q[0].deadline <= now {
      var t, es := q[1..], First(cbs);
      InsertAllAfterDue(t, es, now);
      RunExpiredFires(InsertAll(t, es), now, Later(cbs));
      InsertAllConcat(DropDue(t, now), es, Inserted(Later(cbs), |TakeDue(t, now)|));
    }
  }

  lemma {:induction false} InsertedAfter<E>(cbs: Effects<E>, n: nat, now: nat)
    requires AllLater(cbs, now)
    ensures After(Inserted(cbs, n), now)
  {
    if n != 0 {
      InsertedAfter(Later(cbs), n - 1, now);
    }
  }

  lemma {:induction false} InsertAllKeeps<E>(q: seq<Ev<E>>, es: seq<Ev<E>>, now: nat)
    requires Sorted(q) && After(q, now) && After(es, now)
    ensures Sorted(InsertAll(q, es)) && After(InsertAll(q, es), now)
    decreases |es|
  {
    if es != [] {
      InsertKeepsSorted(q, es[0]);
      AllAfter(Insert(q, es[0]), now);
      InsertAllKeeps(Insert(q, es[0]), es[1..], now);
    }
  }

  /** On a sorted queue: every event due at or before now fires, once, in deadline order
      with ties first-in first-out; the queue left is sorted and wholly after now. */
  lemma RunExpiredFiresAllDue<E>(q: seq<Ev<E>>, now: nat, cbs: Effects<E>)
    requires AllLater(cbs, now) && Sorted(q)
    ensures var r := RunExpired(q, now, cbs);
            && q == r.0 + DropDue(q, now)
            && (forall i :: 0 <= i < |r.0| ==> r.0[i].deadline <= now)
            && After(DropDue(q, now), now)
            && r.1 == InsertAll(DropDue(q, now), Inserted(cbs, |r.0|))
            && Sorted(r.1) && After(r.1, now)
  {
    DueSplit(q, now);
    RunExpiredFires(q, now, cbs);
    InsertedAfter(cbs, |TakeDue(q, now)|, now);
    InsertAllKeeps(DropDue(q, now), Inserted(cbs, |TakeDue(q, now)|), now);
  }

  // ---------------------------------------------------------------- counting

  /** How many events are due before time t. */
  function CountBefore<E>(q: seq<Ev<E>>, t: nat): nat {
    if q == [] then 0 else (if q[0].deadline < t then 1 else 0) + CountBefore(q[1..], t)
  }

  lemma {:induction false} InsertCount<E>(q: seq<Ev<E>>, e: Ev<E>, t: nat)
    ensures CountBefore(Insert(q, e), t) == CountBefore(q, t) + (if e.deadline < t then 1 else 0)
  {
    if q == [] || q[0].deadline > e.deadline {
      ConsTail(e, q);
    } else {
      InsertCount(q[1..], e, t);
      ConsTail(q[0], Insert(q[1..], e));
    }
  }

  lemma {:induction false} InsertAllCount<E>(q: seq<Ev<E>>, es: seq<Ev<E>>, t: nat)
    ensures CountBefore(InsertAll(q, es), t) == CountBefore(q, t) + CountBefore(es, t)
    ensures |InsertAll(q, es)| == |q| + |es|
    decreases |es|
  {
    if es != [] {
      InsertCount(q, es[0], t);
      InsertAllCount(Insert(q, es[0]), es[1..], t);
    }
  }

  lemma {:induction false} DropDueCount<E>(q: seq<Ev<E>>, now: nat, t: nat)
    requires now < t
    ensures CountBefore(DropDue(q, now), t) == CountBefore(q, t) - |TakeDue(q, now)|
    ensures |DropDue(q, now)| == |q| - |TakeDue(q, now)|
  {
    if q != [] && q[0].deadline <= now {
      DropDueCount(q[1..], now, t);
    }
  }

  /** What the callbacks of a run of expired events insert. */
  ghost function InsertedBy<E>(q: seq<Ev<E>>, now: nat, cbs: Effects<E>): seq<Ev<E>> {
    Inserted(cbs, |TakeDue(q, now)|)
  }

  /** A run at now takes the events due from the count and adds what is inserted. */
  lemma RunExpiredCount<E>(q: seq<Ev<E>>, now: nat, cbs: Effects<E>, t: nat)
    requires AllLater(cbs, now) && now < t
    ensures var q', due := RunExpired(q, now, cbs).1, |TakeDue(q, now)|;
            && CountBefore(q', t) == CountBefore(q, t) - due + CountBefore(InsertedBy(q, now, cbs), t)
            && |q'| == |q| - due + |InsertedBy(q, now, cbs)|
            && (due > 0 <==> q != [] && q[0].deadline <= now)
            && (due == 0 ==> q' == q)
  {
    RunExpiredFires(q, now, cbs);
    DropDueCount(q, now, t);
    InsertAllCount(DropDue(q, now), Inserted(cbs, |TakeDue(q, now)|), t);
  }

  lemma {:induction false} NoneBefore<E>(q: seq<Ev<E>>, t: nat)
    requires Sorted(q) && (q == [] || q[0].deadline >= t)
    ensures CountBefore(q, t) == 0
  {
    if q != [] {
      NoneBefore(q[1..], t);
    }
  }
}
