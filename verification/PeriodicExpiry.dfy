/**
 Absolute timers in a loop: starting and stopping them, and turning the expired ones into pending
 events. The expiry loop comes to an end exactly if no reschedule callback of an expired periodic
 answers with a time in the past.
 */
module PeriodicExpiry {
  import opened TimerHeap
  import opened PendingQueue
  import opened Expiry
  import opened Periodics

  const EV_PERIODIC: Events := {9}

  predicate Repeats(w: Watcher)
    reads w`reschedule, w`interval
  {
    w.reschedule.Callback? || w.interval > 0.0
  }

  // Its callback answers with a time in the past.
  predicate Behind(w: Watcher, now: real)
    reads w`reschedule
  {
    w.reschedule.Callback? && w.reschedule.next(now) < now
  }

  ghost function OneShot(ws: seq<Watcher>): set<Watcher>
    reads ws`reschedule, ws`interval
  {
    set w | w in ws && !Repeats(w)
  }

  lemma OneShotStep(ws: seq<Watcher>, w: Watcher)
    ensures OneShot(ws + [w]) == OneShot(ws) + if Repeats(w) then {} else {w}
  {
  }

  class Loop {
    const periodics: Heap
    const pending: Pending
    var rtNow: real
    var activecnt: int
    ghost const known: set<Watcher>  // the periodics that may be handed to this loop

    constructor (ws: set<Watcher>, dummy: Watcher, now: real)
      requires dummy !in ws
      requires forall w :: w in ws ==> w.active == 0 && w.interval >= 0.0 && 0 <= AbsPri(w) < NUMPRI
      ensures Valid() && fresh(periodics) && fresh(periodics.a) && fresh(pending)
      ensures known == ws && rtNow == now && periodics.ws == {} && Waiting(pending.State()) == map[]
    {
      periodics := new Heap(dummy);
      pending := new Pending(ws, dummy);
      rtNow, activecnt, known := now, 0, ws;
    }

    ghost predicate Valid()
      reads this, periodics, periodics.a, periodics.ws, pending, known
    {
      && periodics.Valid() && pending.Valid() && pending.back.Keys == known && periodics.ws <= known
      && forall w :: w in known ==> w.interval >= 0.0 && (w.active != 0 <==> w in periodics.ws)
    }

    method SetFirstTime(w: Watcher)
      requires w.interval >= 0.0
      modifies w`at
      ensures Rescheduled(w, w.offset, rtNow)
    {
      if w.reschedule.Callback? {
        w.at := w.reschedule.next(rtNow);
      } else if w.interval != 0.0 {
        w.at := Recalc(w.offset, w.interval, rtNow);
      } else {
        w.at := w.offset;
      }
    }

    // ev_periodic_start
    method Start(w: Watcher)
      requires Valid() && w in known
      modifies this`activecnt, periodics, periodics.a, known`active, w`at
      ensures Valid() && (periodics.a == old(periodics.a) || fresh(periodics.a))
      ensures periodics.ws == old(periodics.ws) + {w}
      ensures w in old(periodics.ws) ==> w.at == old(w.at)
      ensures w !in old(periodics.ws) ==> Rescheduled(w, w.offset, rtNow)
      ensures activecnt - periodics.cnt == old(activecnt - periodics.cnt)
    {
      hide Heap.Valid, Ok, Rescheduled;
      if w.active != 0 {
        return;
      }
      SetFirstTime(w);
      activecnt := activecnt + 1;
      periodics.Insert(w);
      periodics.AllActive();
    }

    // ev_periodic_stop
    method Stop(w: Watcher)
      requires Valid() && w in known
      modifies this`activecnt, pending, periodics`cnt, periodics`ws, periodics.a, known`active
      ensures Valid() && periodics.ws == old(periodics.ws) - {w}
      ensures Waiting(pending.State()) == old(Waiting(pending.State())) - {w}
      ensures activecnt - periodics.cnt == old(activecnt - periodics.cnt)
    {
      hide Indexed, Ordered, Ok, Waiting, Clear;
      var _ := pending.ClearPending(w);
      if w.active == 0 {
        return;
      }
      periodics.Remove(w);
      periodics.AllActive();
      activecnt := activecnt - 1;
    }

    // One turn of the loop in periodics_reify: the first periodic is rescheduled or stopped.
    method RescheduleFirst() returns (w: Watcher)
      requires Valid() && Due()
      modifies this`activecnt, pending, periodics`cnt, periodics`ws, periodics.a, known`active, known`at
      ensures Valid() && w == old(periodics.First())
      ensures forall v :: v in known && v != w ==> v.at == old(v.at)
      ensures Rescheduled(w, old(w.at), rtNow)
      ensures w.reschedule.Callback? ==> w.at == w.reschedule.next(rtNow)
      ensures w.reschedule.NoCallback? && w.interval == 0.0 ==> w.at == old(w.at)
      ensures activecnt - periodics.cnt == old(activecnt - periodics.cnt)
      ensures periodics.ws == if Repeats(w) then old(periodics.ws) else old(periodics.ws) - {w}
      ensures Waiting(pending.State()) == old(Waiting(pending.State())) - if Repeats(w) then {} else {w}
    {
      hide Indexed, Ordered, Ok, Waiting;
      w := periodics.First();
      if Repeats(w) {
        var at;
        if w.reschedule.Callback? {
          at := w.reschedule.next(rtNow);
        } else {
          at := Recalc(w.offset, w.interval, rtNow);
        }
        periodics.RetimeFirst(at);
        periodics.AllActive();
      } else {
        Stop(w);
      }
    }

    // The condition of both loops.
    predicate Due()
      requires periodics.Valid()
      reads this, periodics, periodics.a, periodics.ws
    {
      periodics.cnt > 0 && periodics.First().at < rtNow
    }

    lemma SomeDue(w: Watcher)
      requires periodics.Valid() && w in periodics.ws && w.at < rtNow
      ensures Due()
    {
      periodics.AllActive();
    }

    /** While an expired periodic has a callback that answers with a time in the past, no number of
        turns brings the loop to its end. */
    method NeverDone(n: nat, ghost v: Watcher)
      requires Valid() && v in periodics.ws && v.at < rtNow && Behind(v, rtNow)
      modifies this`activecnt, pending, periodics`cnt, periodics`ws, periodics.a, known`active, known`at
      ensures Valid() && v in periodics.ws && v.at < rtNow && Due()
    {
      hide Heap.Valid, Ok, Waiting, Rescheduled, Behind, Repeats, Due;
      SomeDue(v);
      for i := 0 to n
        invariant Valid() && v in periodics.ws && v.at < rtNow && Behind(v, rtNow) && Due()
      {
        ghost var was := v.at;
        var w := RescheduleFirst();
        StillBehind(v, was, rtNow);
        SomeDue(v);
      }
    }

    // Such a periodic stays, and gets a time in the past again when its turn comes.
    static lemma StillBehind(v: Watcher, was: real, now: real)
      requires Behind(v, now) && v.interval >= 0.0
      ensures Repeats(v) && (Rescheduled(v, was, now) ==> v.at < now)
    {
    }

    /* ---------- expiry ---------- */

    // How far the loop has got: the periodics in `order` are dealt with, the others untouched.
    ghost predicate Reified(order: seq<Watcher>, at0: map<Watcher, real>, ws0: set<Watcher>)
      reads this, periodics, known
      requires at0.Keys == known
    {
      && (forall w :: w in order ==> w in known && w in ws0 && at0[w] < rtNow && Taken(w, at0[w]))
      && (forall w :: w in known && w !in order ==> w.at == at0[w] && (w in periodics.ws <==> w in ws0))
    }

    ghost predicate Taken(w: Watcher, was: real)
      reads this, periodics, w
    {
      w.interval >= 0.0 && Rescheduled(w, was, rtNow) && (w in periodics.ws <==> Repeats(w))
    }

    // None of the periodics that have expired has a callback that answers with a time in the past.
    ghost predicate Forward()
      reads this, periodics, known
    {
      forall w :: w in known && w in periodics.ws && w.at < rtNow ==> !Behind(w, rtNow)
    }

    method ReifyFirst(ghost order: seq<Watcher>, ghost at0: map<Watcher, real>, ghost ws0: set<Watcher>)
      returns (w: Watcher)
      requires Valid() && Due() && Forward() && at0.Keys == known && Reified(order, at0, ws0)
      modifies this`activecnt, pending, periodics`cnt, periodics`ws, periodics.a, known`active, known`at
      ensures Valid() && Forward() && w !in order && Reified(order + [w], at0, ws0)
      ensures forall v :: v in ws0 && v in known && v !in order ==> at0[w] <= at0[v]
      ensures activecnt - periodics.cnt == old(activecnt - periodics.cnt)
      ensures Waiting(pending.State()) == old(Waiting(pending.State())) - if Repeats(w) then {} else {w}
    {
      hide Heap.Valid, Ok, Waiting, Rescheduled, Behind, Repeats;
      FirstOfRest(order, at0, ws0);
      w := RescheduleFirst();
      assert forall v :: v in order + [w] <==> v in order || v == w;
    }

    // What was dealt with is not due again, and the first of the others is their earliest.
    lemma FirstOfRest(order: seq<Watcher>, at0: map<Watcher, real>, ws0: set<Watcher>)
      requires Valid() && Due() && Forward() && at0.Keys == known && Reified(order, at0, ws0)
      ensures var w := periodics.First();
              && w in known && w in ws0 && w !in order && w.at == at0[w] < rtNow
              && forall v :: v in ws0 && v in known && v !in order ==> at0[w] <= at0[v]
    {
      hide Heap.Valid, Ok;
    }

    lemma ExactlyExpired(order: seq<Watcher>, at0: map<Watcher, real>, ws0: set<Watcher>)
      requires at0.Keys == known && ws0 <= known && Reified(order, at0, ws0) && Chronological(order, at0)
      requires forall w :: w in periodics.ws ==> w.at >= rtNow
      ensures NoDup(order) && (forall w :: w in order <==> w in ws0 && at0[w] < rtNow)
      ensures forall w :: w in OneShot(order) ==> w in order
    {
    }

    method ReifyAll() returns (order: seq<Watcher>)
      requires Valid() && Forward()
      modifies this`activecnt, pending, periodics`cnt, periodics`ws, periodics.a, known`active, known`at
      ensures Valid()
      ensures Reified(order, old(map w | w in known :: w.at), old(periodics.ws))
      ensures forall w :: w in periodics.ws ==> w.at >= rtNow
      ensures Chronological(order, old(map w | w in known :: w.at))
      ensures activecnt - periodics.cnt == old(activecnt - periodics.cnt)
      ensures Waiting(pending.State()) == old(Waiting(pending.State())) - OneShot(order)
    {
      order := [];
      ghost var at0, ws0, waiting0 := map w | w in known :: w.at, periodics.ws, Waiting(pending.State());
      assert Reified(order, at0, ws0) && Chronological(order, at0) && NoneEarlier(order, at0, ws0);
      assert OneShot(order) == {};
      while Due()
        invariant Valid() && Forward() && Reified(order, at0, ws0)
        invariant Chronological(order, at0) && NoneEarlier(order, at0, ws0)
        invariant Waiting(pending.State()) == waiting0 - OneShot(order)
        invariant activecnt - periodics.cnt == old(activecnt - periodics.cnt)
        decreases Left(known, order)
      {
        hide Heap.Valid, Ok, Waiting, Chronological, NoneEarlier, Left, OneShot, Reified, Forward;
        order := ReifyNext(order, at0, ws0, waiting0);
      }
      forall w | w in periodics.ws ensures w.at >= rtNow {
        if w.at < rtNow {
          SomeDue(w);
        }
      }
    }

    method ReifyNext(order: seq<Watcher>, ghost at0: map<Watcher, real>, ghost ws0: set<Watcher>,
                     ghost waiting0: map<Watcher, Events>)
      returns (order': seq<Watcher>)
      requires Valid() && Due() && Forward() && at0.Keys == known && Reified(order, at0, ws0)
      requires Chronological(order, at0) && NoneEarlier(order, at0, ws0)
      requires Waiting(pending.State()) == waiting0 - OneShot(order)
      modifies this`activecnt, pending, periodics`cnt, periodics`ws, periodics.a, known`active, known`at
      ensures Valid() && Forward() && Reified(order', at0, ws0)
      ensures Chronological(order', at0) && NoneEarlier(order', at0, ws0)
      ensures Waiting(pending.State()) == waiting0 - OneShot(order')
      ensures Left(known, order') < Left(known, order)
      ensures activecnt - periodics.cnt == old(activecnt - periodics.cnt)
    {
      hide Heap.Valid, Ok, Waiting, Chronological, NoneEarlier, Left, OneShot, Forward, Due;
      InTimes(order, at0, ws0);
      ghost var shots := OneShot(order);
      var w := ReifyFirst(order, at0, ws0);
      order' := order + [w];
      assert OneShot(order) == shots && w in order' && w in ws0 && w in known;
      hide Valid, Reified;
      LeftShrinks(known, order, w);
      ChronologicalStep(order, at0, ws0, w);
      OneShotStep(order, w);
      MinusMinus(waiting0, shots, if Repeats(w) then {} else {w});
    }

    /** periodics_reify: ends, and afterwards no periodic is overdue; exactly the expired ones were
        rescheduled or stopped and are pending with EV_PERIODIC; and those of equal priority with
        nothing pending before will run in order of expiry. */
    method Reify() returns (ghost order: seq<Watcher>)
      requires Valid() && Forward()
      modifies this`activecnt, pending, periodics`cnt, periodics`ws, periodics.a, known`active, known`at
      ensures Valid()
      ensures forall w :: w in periodics.ws ==> w.at >= rtNow
      ensures forall w :: w in order <==> w in old(periodics.ws) && old(w.at) < rtNow
      ensures Reified(order, old(map w | w in known :: w.at), old(periodics.ws))
      ensures activecnt - periodics.cnt == old(activecnt - periodics.cnt)
      ensures Chronological(order, old(map w | w in known :: w.at))
      ensures FedExpired(old(Waiting(pending.State())), Waiting(pending.State()), order, OneShot(order), EV_PERIODIC)
      ensures RunsInOrder(pending.State(), order, old(Waiting(pending.State())))
    {
      hide Heap.Valid, Ok, Waiting, FedExpired, RunsInOrder, Reified, Chronological, NoDup, OneShot;
      ghost var was, at0, ws0 := Waiting(pending.State()), map w | w in known :: w.at, periodics.ws;
      var rfeeds := ReifyAll();
      order := rfeeds;
      ExactlyExpired(rfeeds, at0, ws0);
      FeedExpired(pending, rfeeds, EV_PERIODIC, OneShot(rfeeds), was);
    }
  }
}
