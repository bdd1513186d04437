/** The timer queue (kernel/core/timerq.c): a singly linked list of events at g_head. */
module TimerQueue {
  import opened Events

  class TimerEvent {
    var deadline: nat
    var next: TimerEvent?

    constructor (deadline: nat)
      ensures this.deadline == deadline && next == null
    {
      this.deadline, next := deadline, null;
    }
  }

  /** Each event of es is not in the queue at the time it is inserted: a second insertion of
      a queued event would tie the list into a knot. */
  ghost predicate MayInsertAll(q: seq<Ev<TimerEvent>>, es: seq<Ev<TimerEvent>>)
    decreases |es|
  {
    es == [] || (NotQueued(q, es[0].id) && MayInsertAll(Insert(q, es[0]), es[1..]))
  }

  ghost predicate NotQueued(q: seq<Ev<TimerEvent>>, e: TimerEvent) {
    forall i :: 0 <= i < |q| ==> q[i].id != e
  }

  ghost predicate MayRun(q: seq<Ev<TimerEvent>>, now: nat, cbs: Effects<TimerEvent>)
    requires AllLater(cbs, now)
    decreases |TakeDue(q, now)|
  {
    q == [] || q[0].deadline > now ||
    (InsertAllAfterDue(q[1..], First(cbs), now);
     MayInsertAll(q[1..], First(cbs)) && MayRun(InsertAll(q[1..], First(cbs)), now, Later(cbs)))
  }

  ghost predicate InPool(es: seq<Ev<TimerEvent>>, pool: set<TimerEvent>) {
    forall i :: 0 <= i < |es| ==> es[i].id in pool
  }

  /** l with x at position p. */
  function Spliced<T>(l: seq<T>, p: nat, x: T): seq<T>
    requires p <= |l|
  {
    l[..p] + [x] + l[p..]
  }

  lemma SplicedAt<T>(l: seq<T>, p: nat, x: T)
    requires p <= |l|
    ensures var r := Spliced(l, p, x);
            && |r| == |l| + 1 && r[p] == x
            && (forall i :: 0 <= i < p ==> r[i] == l[i])
            && (forall i :: p < i < |r| ==> r[i] == l[i - 1])
            && (forall y :: y in r ==> y == x || y in l)
  {
  }

  lemma {:induction false} InsertAt(q: seq<Ev<TimerEvent>>, e: Ev<TimerEvent>, p: nat)
    requires p <= |q| && (forall i :: 0 <= i < p ==> q[i].deadline <= e.deadline)
    requires p < |q| ==> q[p].deadline > e.deadline
    ensures Insert(q, e) == Spliced(q, p, e)
  {
    if p > 0 {
      InsertAt(q[1..], e, p - 1);
      assert q[..p] == [q[0]] + q[1..][..p - 1];
      assert q[p..] == q[1..][p - 1..];
    }
  }

  /** One turn of timerq_run_expired's loop. */
  lemma RunTurn(v: seq<Ev<TimerEvent>>, now: nat, cbs: Effects<TimerEvent>)
    requires AllLater(cbs, now) && MayRun(v, now, cbs) && v != [] && v[0].deadline <= now
    ensures MayInsertAll(v[1..], First(cbs)) && AllLater(Later(cbs), now)
    ensures var v' := InsertAll(v[1..], First(cbs));
            && MayRun(v', now, Later(cbs)) && |TakeDue(v', now)| < |TakeDue(v, now)|
            && RunExpired(v, now, cbs).0 == [v[0]] + RunExpired(v', now, Later(cbs)).0
            && RunExpired(v, now, cbs).1 == RunExpired(v', now, Later(cbs)).1
  {
    InsertAllAfterDue(v[1..], First(cbs), now);
  }

  lemma RunEnds(v: seq<Ev<TimerEvent>>, now: nat, cbs: Effects<TimerEvent>)
    requires AllLater(cbs, now) && (v == [] || v[0].deadline > now)
    ensures RunExpired(v, now, cbs).0 == [] && RunExpired(v, now, cbs).1 == v
  {
  }

  lemma PoolTurn(cbs: Effects<TimerEvent>, pool: set<TimerEvent>)
    requires forall k :: 0 <= k < |cbs| ==> InPool(cbs[k], pool)
    ensures InPool(First(cbs), pool) && forall k :: 0 <= k < |Later(cbs)| ==> InPool(Later(cbs)[k], pool)
  {
  }

  class Queue {
    var head: TimerEvent?
    ghost var list: seq<TimerEvent>

    ghost predicate Valid()
      reads this, list
    {
      && head == NextOf(list, 0)
      && (forall i :: 0 <= i < |list| ==> list[i].next == NextOf(list, i + 1))
      && (forall i, j :: 0 <= i < j < |list| ==> list[i] != list[j])
    }

    ghost function View(): (q: seq<Ev<TimerEvent>>)
      reads this, list
      ensures |q| == |list|
      ensures forall i :: 0 <= i < |q| ==> q[i] == Ev(list[i], list[i].deadline)
    {
      seq(|list|, i requires 0 <= i < |list| reads this, list => Ev(list[i], list[i].deadline))
    }

    constructor ()
      ensures Valid() && View() == []
    {
      head, list := null, [];
    }

    /** The place for a deadline: after p events, between prev (null for the source's
        pointer to g_head) and cur. */
    method FindPlace(deadline: nat) returns (prev: TimerEvent?, cur: TimerEvent?, ghost p: nat)
      requires Valid()
      ensures p <= |list| && cur == NextOf(list, p) && if p == 0 then prev == null else prev == list[p - 1]
      ensures forall i :: 0 <= i < p ==> list[i].deadline <= deadline
      ensures p < |list| ==> list[p].deadline > deadline
    {
      prev, cur, p := null, head, 0;
      while cur != null && cur.deadline <= deadline
        invariant p <= |list| && cur == NextOf(list, p)
        invariant if p == 0 then prev == null else prev == list[p - 1]
        invariant forall i :: 0 <= i < p ==> list[i].deadline <= deadline
        decreases |list| - p
      {
        prev, cur := cur, cur.next;
        p := p + 1;
      }
    }

    /** timerq_insert */
    method InsertEvent(ev: TimerEvent)
      requires Valid() && ev !in list
      modifies this, list, ev`next
      ensures Valid() && ev.deadline == old(ev.deadline)
      ensures View() == Insert(old(View()), Ev(ev, ev.deadline))
      ensures forall x :: x in list ==> x in old(list) || x == ev
    {
      ghost var l, v := list, View();
      var prev, cur, p := FindPlace(ev.deadline);
      InsertAt(v, Ev(ev, ev.deadline), p);
      SplicedAt(l, p, ev);
      SplicedAt(v, p, Ev(ev, ev.deadline));
      hide Spliced, Insert, Valid;
      Splice(prev, cur, ev, p);
      forall i | 0 <= i < |list| ensures View()[i] == Spliced(v, p, Ev(ev, ev.deadline))[i] {
        assert View()[i] == Ev(list[i], list[i].deadline);
      }
    }

    /** Links ev between prev and cur. */
    method Splice(prev: TimerEvent?, cur: TimerEvent?, ev: TimerEvent, ghost p: nat)
      requires Valid() && ev !in list && p <= |list| && cur == NextOf(list, p)
      requires if p == 0 then prev == null else prev == list[p - 1]
      modifies this, (set x | x in list)`next, ev`next
      ensures Valid() && list == Spliced(old(list), p, ev)
    {
      ghost var l := list;
      ghost var l' := Spliced(l, p, ev);
      SplicedAt(l, p, ev);
      hide Spliced;
      ev.next := cur;
      if prev == null { head := ev; } else { prev.next := ev; }
      list := l';
      forall i | 0 <= i < |l'| ensures l'[i].next == NextOf(l', i + 1) {
        if i + 1 < p {
          assert l'[i] == l[i] && l'[i + 1] == l[i + 1] && l[i].next == l[i + 1];
        } else if i > p {
          assert l'[i] == l[i - 1] && l[i - 1].next == NextOf(l, i);
        }
      }
    }

    /** timerq_next_deadline; 0 when nothing is queued. */
    method NextDeadline() returns (d: nat)
      requires Valid()
      ensures d == FirstDeadline(View())
      ensures d == if list == [] then 0 else list[0].deadline
    {
      if head == null { return 0; }
      d := head.deadline;
    }

    /** What one callback does to the queue: each event gets its deadline and is inserted. */
    method ArmAll(es: seq<Ev<TimerEvent>>, ghost pool: set<TimerEvent>)
      requires Valid() && MayInsertAll(View(), es) && InPool(es, pool)
      requires forall x :: x in list ==> x in pool
      modifies this, pool
      ensures Valid() && View() == InsertAll(old(View()), es)
      ensures forall x :: x in list ==> x in pool
    {
      ghost var q := View();
      for i := 0 to |es|
        invariant Valid() && forall x :: x in list ==> x in pool
        invariant MayInsertAll(View(), es[i..]) && InsertAll(q, es) == InsertAll(View(), es[i..])
      {
        var ev := es[i].id;
        assert es[i..][0] == es[i] && es[i..][1..] == es[i + 1..];
        assert forall k :: 0 <= k < |list| ==> list[k] == View()[k].id;
        ghost var v := View();
        ev.deadline := es[i].deadline;
        assert View() == v;
        InsertEvent(ev);
      }
    }

    /** Unlinks the first event and calls it back. */
    method FireFirst(es: seq<Ev<TimerEvent>>, ghost pool: set<TimerEvent>)
      requires Valid() && head != null && MayInsertAll(View()[1..], es) && InPool(es, pool)
      requires forall x :: x in list ==> x in pool
      modifies this, pool
      ensures Valid() && View() == InsertAll(old(View())[1..], es)
      ensures forall x :: x in list ==> x in pool
    {
      var ev := head;
      ghost var v := View();
      head := ev.next;
      ev.next := null;
      list := list[1..];
      assert View() == v[1..];
      ArmAll(es, pool);
    }

    /** timerq_run_expired; the k-th callback it calls inserts cbs[k]. */
    method RunDue(now: nat, cbs: Effects<TimerEvent>, ghost pool: set<TimerEvent>)
      returns (ghost fired: seq<Ev<TimerEvent>>)
      requires Valid() && AllLater(cbs, now) && MayRun(View(), now, cbs)
      requires forall x :: x in list ==> x in pool
      requires forall k :: 0 <= k < |cbs| ==> InPool(cbs[k], pool)
      modifies this, pool
      ensures Valid() && (fired, View()) == RunExpired(old(View()), now, cbs)
      ensures forall x :: x in list ==> x in pool
    {
      hide RunExpired, MayRun, AllLater, InPool, InsertAll, First, Later, TakeDue;
      fired := [];
      ghost var q := View();
      var rest := cbs;
      while head != null && head.deadline <= now
        invariant Valid() && forall x :: x in list ==> x in pool
        invariant AllLater(rest, now) && forall k :: 0 <= k < |rest| ==> InPool(rest[k], pool)
        invariant MayRun(View(), now, rest)
        invariant RunExpired(q, now, cbs).0 == fired + RunExpired(View(), now, rest).0
        invariant RunExpired(q, now, cbs).1 == RunExpired(View(), now, rest).1
        decreases |TakeDue(View(), now)|
      {
        RunTurn(View(), now, rest);
        PoolTurn(rest, pool);
        fired := fired + [View()[0]];
        FireFirst(First(rest), pool);
        rest := Later(rest);
      }
      RunEnds(View(), now, rest);
      assert fired + [] == fired;
    }
  }

  function NextOf(list: seq<TimerEvent>, i: nat): TimerEvent? {
    if i < |list| then list[i] else null
  }
}
