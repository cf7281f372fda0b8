/**
 Relative timers: starting, stopping and restarting them, and turning the expired ones into
 pending events.
 */
module Timers {
  import opened TimerHeap
  import opened PendingQueue
  import opened Expiry

  const EV_TIMER: Events := {8}

  class Loop {
    const timers: Heap
    const pending: Pending
    var mnNow: real
    var activecnt: int
    ghost const known: set<Watcher>  // the timers that may be handed to this loop

    constructor (ws: set<Watcher>, dummy: Watcher, now: real)
      requires dummy !in ws
      requires forall w :: w in ws ==> w.active == 0 && w.repeat >= 0.0 && 0 <= AbsPri(w) < NUMPRI
      ensures Valid() && fresh(timers) && fresh(timers.a) && fresh(pending)
      ensures known == ws && mnNow == now && timers.ws == {} && Waiting(pending.State()) == map[]
    {
      timers := new Heap(dummy);
      pending := new Pending(ws, dummy);
      mnNow, activecnt, known := now, 0, ws;
    }

    // A timer is in the heap exactly when it is active.
    ghost predicate Valid()
      reads this, timers, timers.a, timers.ws, pending, known
    {
      && timers.Valid() && pending.Valid() && pending.back.Keys == known && timers.ws <= known
      && forall w :: w in known ==> w.repeat >= 0.0 && (w.active != 0 <==> w in timers.ws)
    }

    // ev_timer_start
    method Start(w: Watcher)
      requires Valid() && w in known
      modifies this`activecnt, timers, timers.a, known`active, w`at
      ensures Valid() && (timers.a == old(timers.a) || fresh(timers.a))
      ensures timers.ws == old(timers.ws) + {w}
      ensures w.at == if w in old(timers.ws) then old(w.at) else old(w.at) + mnNow
      ensures activecnt - timers.cnt == old(activecnt - timers.cnt)
    {
      hide Heap.Valid, Ok;
      if w.active != 0 {
        return;
      }
      w.at := w.at + mnNow;
      activecnt := activecnt + 1;
      timers.Insert(w);
      timers.AllActive();
    }

    method ClearPending(w: Watcher)
      requires Valid() && w in known
      modifies pending
      ensures Valid() && Waiting(pending.State()) == old(Waiting(pending.State())) - {w}
    {
      hide Heap.Valid, Ok, Waiting, Clear;
      var _ := pending.ClearPending(w);
    }

    // ev_timer_stop
    method Stop(w: Watcher)
      requires Valid() && w in known
      modifies this`activecnt, pending, timers`cnt, timers`ws, timers.a, known`active, w`at
      ensures Valid()
      ensures timers.ws == old(timers.ws) - {w}
      ensures w.at == if w in old(timers.ws) then old(w.at) - mnNow else old(w.at)
      ensures Waiting(pending.State()) == old(Waiting(pending.State())) - {w}
      ensures activecnt - timers.cnt == old(activecnt - timers.cnt)
    {
      hide Heap.Valid, Ok, Waiting;
      ClearPending(w);
      if w.active == 0 {
        return;
      }
      timers.Remove(w);
      timers.AllActive();
      w.at := w.at - mnNow;
      activecnt := activecnt - 1;
    }

    method Postpone(w: Watcher)
      requires Valid() && w in timers.ws
      modifies timers.a, known`active, w`at
      ensures Valid() && w.at == mnNow + w.repeat
    {
      hide Heap.Valid, Ok;
      timers.Retime(w, mnNow + w.repeat);
      timers.AllActive();
    }

    // ev_timer_again; clearing w a second time in Stop changes nothing
    method Again(w: Watcher)
      requires Valid() && w in known
      modifies this`activecnt, pending, timers, timers.a, known`active, w`at
      ensures Valid() && (timers.a == old(timers.a) || fresh(timers.a))
      ensures timers.ws == if w.repeat > 0.0 then old(timers.ws) + {w} else old(timers.ws) - {w}
      ensures w.repeat > 0.0 ==> w.at == mnNow + w.repeat
      ensures w.repeat == 0.0 ==> w.at == if w in old(timers.ws) then old(w.at) - mnNow else old(w.at)
      ensures Waiting(pending.State()) == old(Waiting(pending.State())) - {w}
      ensures activecnt - timers.cnt == old(activecnt - timers.cnt)
    {
      hide Heap.Valid, Ok, Waiting;
      ghost var was := Waiting(pending.State());
      ClearPending(w);
      MinusMinus(was, {w}, {w});
      if w.active != 0 {
        if w.repeat > 0.0 {
          Postpone(w);
        } else {
          Stop(w);
        }
      } else if w.repeat > 0.0 {
        w.at := w.repeat;
        Start(w);
      }
    }

    // One turn of the loop in timers_reify: the first timer is rescheduled or stopped.
    method RescheduleFirst() returns (w: Watcher)
      requires Valid() && timers.cnt > 0 && timers.First().at < mnNow
      modifies this`activecnt, pending, timers`cnt, timers`ws, timers.a, known`active, known`at
      ensures Valid() && w == old(timers.First())
      ensures forall v :: v in known && v != w ==> v.at == old(v.at)
      ensures w.at == NextAt(w, old(w.at))
      // a repeating timer keeps its beat unless that lies in the past, one that does not keeps what was left
      ensures w.repeat > 0.0 && old(w.at) + w.repeat >= mnNow ==> w.at == old(w.at) + w.repeat
      ensures w.repeat > 0.0 && old(w.at) + w.repeat < mnNow ==> w.at == mnNow
      ensures w.repeat == 0.0 ==> w.at == old(w.at) - mnNow
      ensures activecnt - timers.cnt == old(activecnt - timers.cnt)
      ensures timers.ws == if w.repeat > 0.0 then old(timers.ws) else old(timers.ws) - {w}
      ensures Waiting(pending.State()) == old(Waiting(pending.State())) - if w.repeat > 0.0 then {} else {w}
    {
      hide Indexed, Ordered, QueuesOk, PendingMap;
      w := timers.First();
      if w.repeat != 0.0 {
        var at := w.at + w.repeat;
        if at < mnNow {
          at := mnNow;
        }
        timers.RetimeFirst(at);
        timers.AllActive();
      } else {
        Stop(w);
      }
    }

    // What timers_reify makes of the time of an expired timer.
    function NextAt(w: Watcher, at: real): real
      reads this`mnNow, w`repeat
    {
      if w.repeat > 0.0 then (if at + w.repeat < mnNow then mnNow else at + w.repeat) else at - mnNow
    }

    // How far timers_reify has got: the timers in `order` are dealt with, the others untouched.
    ghost predicate Reified(order: seq<Watcher>, at0: map<Watcher, real>, ws0: set<Watcher>)
      reads this, timers, known
      requires at0.Keys == known
    {
      && (forall w :: w in order ==> w in known && w in ws0 && at0[w] < mnNow)
      && (forall w :: w in order ==> w.at == NextAt(w, at0[w]) && (w in timers.ws <==> w.repeat > 0.0))
      && (forall w :: w in known && w !in order ==> w.at == at0[w] && (w in timers.ws <==> w in ws0))
    }

    method ReifyFirst(ghost order: seq<Watcher>, ghost at0: map<Watcher, real>, ghost ws0: set<Watcher>)
        returns (w: Watcher)
      requires Valid() && timers.cnt > 0 && timers.First().at < mnNow
      requires at0.Keys == known && Reified(order, at0, ws0)
      modifies this`activecnt, pending, timers`cnt, timers`ws, timers.a, known`active, known`at
      ensures Valid() && w !in order && Reified(order + [w], at0, ws0)
      ensures forall v :: v in ws0 && v in known && v !in order ==> at0[w] <= at0[v]
      ensures activecnt - timers.cnt == old(activecnt - timers.cnt)
      ensures Waiting(pending.State()) == old(Waiting(pending.State())) - if w.repeat == 0.0 then {w} else {}
    {
      hide Heap.Valid, Ok, Waiting;
      FirstOfRest(order, at0, ws0);
      w := RescheduleFirst();
      assert forall v :: v in order + [w] <==> v in order || v == w;
    }

    // What was dealt with is not due again, and the first of the others is their earliest.
    lemma FirstOfRest(order: seq<Watcher>, at0: map<Watcher, real>, ws0: set<Watcher>)
      requires Valid() && timers.cnt > 0 && timers.First().at < mnNow
      requires at0.Keys == known && Reified(order, at0, ws0)
      ensures var w := timers.First();
              && w in known && w in ws0 && w !in order && w.at == at0[w]
              && forall v :: v in ws0 && v in known && v !in order ==> at0[w] <= at0[v]
    {
      hide Heap.Valid, Ok;
    }

    /** timers_reify, first part: every expired timer is rescheduled or stopped, exactly once,
        in order of expiry. */
    method ReifyAll() returns (order: seq<Watcher>)
      requires Valid()
      modifies this`activecnt, pending, timers`cnt, timers`ws, timers.a, known`active, known`at
      ensures Valid()
      ensures Reified(order, old(map w | w in known :: w.at), old(timers.ws))
      ensures forall w :: w in timers.ws ==> w.at >= mnNow
      ensures Chronological(order, old(map w | w in known :: w.at))
      ensures activecnt - timers.cnt == old(activecnt - timers.cnt)
      ensures Waiting(pending.State()) == old(Waiting(pending.State())) - OneShot(order)
    {
      hide Indexed, Ordered, QueuesOk, PendingMap;
      order := [];
      ghost var at0, ws0, waiting0 := map w | w in known :: w.at, timers.ws, Waiting(pending.State());
      while timers.cnt > 0 && timers.First().at < mnNow
        invariant Valid() && Reified(order, at0, ws0)
        invariant Chronological(order, at0) && NoneEarlier(order, at0, ws0)
        invariant Waiting(pending.State()) == waiting0 - OneShot(order)
        invariant activecnt - timers.cnt == old(activecnt - timers.cnt)
        decreases Left(known, order)
      {
        ghost var before := order;
        order := ReifyNext(order, at0, ws0, waiting0);
        assert Left(known, order) < Left(known, before);
      }
      timers.AllActive();
    }

    method ReifyNext(order: seq<Watcher>, ghost at0: map<Watcher, real>, ghost ws0: set<Watcher>,
        ghost waiting0: map<Watcher, Events>)
      returns (order': seq<Watcher>)
      requires Valid() && timers.cnt > 0 && timers.First().at < mnNow
      requires at0.Keys == known && Reified(order, at0, ws0) && Chronological(order, at0) &&
               NoneEarlier(order, at0, ws0)
      requires Waiting(pending.State()) == waiting0 - OneShot(order)
      modifies this`activecnt, pending, timers`cnt, timers`ws, timers.a, known`active, known`at
      ensures Valid() && Reified(order', at0, ws0) && Chronological(order', at0) && NoneEarlier(order', at0, ws0)
      ensures Waiting(pending.State()) == waiting0 - OneShot(order')
      ensures Left(known, order') < Left(known, order)
      ensures activecnt - timers.cnt == old(activecnt - timers.cnt)
    {
      hide Heap.Valid, Ok, Waiting, Chronological, NoneEarlier, Left, OneShot;
      InTimes(order, at0, ws0);
      ghost var shots := OneShot(order);
      var w := ReifyFirst(order, at0, ws0);
      order' := order + [w];
      assert OneShot(order) == shots && w in order' && w in ws0 && w in known;
      hide Valid, Reified;
      LeftShrinks(known, order, w);
      ChronologicalStep(order, at0, ws0, w);
      OneShotStep(order, w);
      MinusMinus(waiting0, shots, if w.repeat == 0.0 then {w} else {});
    }

    lemma ExactlyExpired(order: seq<Watcher>, at0: map<Watcher, real>, ws0: set<Watcher>)
      requires at0.Keys == known && ws0 <= known && Reified(order, at0, ws0) && Chronological(order, at0)
      requires forall w :: w in timers.ws ==> w.at >= mnNow
      ensures NoDup(order) && (forall w :: w in order <==> w in ws0 && at0[w] < mnNow)
      ensures forall w :: w in known && (w !in ws0 || at0[w] >= mnNow) ==>
                w.at == at0[w] && (w in timers.ws <==> w in ws0)
      ensures forall w :: w in known && w in ws0 && at0[w] < mnNow && w.repeat > 0.0 ==>
                w in timers.ws && w.at == if at0[w] + w.repeat >= mnNow then at0[w] + w.repeat else mnNow
      ensures forall w :: w in known && w in ws0 && at0[w] < mnNow && w.repeat == 0.0 ==>
                w !in timers.ws && w.at == at0[w] - mnNow
    {
    }

    static lemma OneShotStep(ws: seq<Watcher>, w: Watcher)
      ensures OneShot(ws + [w]) == OneShot(ws) + if w.repeat == 0.0 then {w} else {}
    {
    }

    static ghost function OneShot(ws: seq<Watcher>): set<Watcher>
      reads ws`repeat
    {
      set w | w in ws && w.repeat == 0.0
    }

    /** timers_reify: afterwards no timer is overdue; exactly the expired ones were dealt with and
        are pending with EV_TIMER, where a timer that stopped loses what was pending for it; and
        those of equal priority with nothing pending before will run in order of expiry. */
    method Reify() returns (ghost order: seq<Watcher>)
      requires Valid()
      modifies this`activecnt, pending, timers`cnt, timers`ws, timers.a, known`active, known`at
      ensures Valid()
      ensures forall w :: w in timers.ws ==> w.at >= mnNow
      ensures forall w :: w in order <==> w in old(timers.ws) && old(w.at) < mnNow
      ensures Reified(order, old(map w | w in known :: w.at), old(timers.ws))
      // in words of the times themselves
      ensures forall w :: w in known && (w !in old(timers.ws) || old(w.at) >= mnNow) ==>
                w.at == old(w.at) && (w in timers.ws <==> w in old(timers.ws))
      ensures forall w :: w in known && w in old(timers.ws) && old(w.at) < mnNow && w.repeat > 0.0 ==>
                w in timers.ws && w.at == if old(w.at) + w.repeat >= mnNow then old(w.at) + w.repeat else mnNow
      ensures forall w :: w in known && w in old(timers.ws) && old(w.at) < mnNow && w.repeat == 0.0 ==>
                w !in timers.ws && w.at == old(w.at) - mnNow
      ensures activecnt - timers.cnt == old(activecnt - timers.cnt)
      ensures Chronological(order, old(map w | w in known :: w.at))
      ensures FedExpired(old(Waiting(pending.State())), Waiting(pending.State()), order, OneShot(order), EV_TIMER)
      ensures RunsInOrder(pending.State(), order, old(Waiting(pending.State())))
    {
      hide Valid, Waiting, FedExpired, RunsInOrder, Reified, Chronological, NoDup, OneShot;
      ghost var was := Waiting(pending.State());
      var rfeeds := ReifyTimes();
      order := rfeeds;
      FeedTimers(rfeeds, was);
    }

    method FeedTimers(rfeeds: seq<Watcher>, ghost was: map<Watcher, Events>)
      requires Valid() && (forall w :: w in rfeeds ==> w in known) && NoDup(rfeeds)
      requires Waiting(pending.State()) == was - OneShot(rfeeds)
      modifies pending
      ensures Valid()
      ensures FedExpired(was, Waiting(pending.State()), rfeeds, OneShot(rfeeds), EV_TIMER)
      ensures RunsInOrder(pending.State(), rfeeds, was)
    {
      hide Heap.Valid, Ok, Waiting, FedExpired, RunsInOrder, NoDup;
      FeedExpired(pending, rfeeds, EV_TIMER, OneShot(rfeeds), was);
    }

    method ReifyTimes() returns (order: seq<Watcher>)
      requires Valid()
      modifies this`activecnt, pending, timers`cnt, timers`ws, timers.a, known`active, known`at
      ensures Valid()
      ensures forall w :: w in timers.ws ==> w.at >= mnNow
      ensures forall w :: w in order <==> w in old(timers.ws) && old(w.at) < mnNow
      ensures Reified(order, old(map w | w in known :: w.at), old(timers.ws))
      ensures forall w :: w in known && (w !in old(timers.ws) || old(w.at) >= mnNow) ==>
                w.at == old(w.at) && (w in timers.ws <==> w in old(timers.ws))
      ensures forall w :: w in known && w in old(timers.ws) && old(w.at) < mnNow && w.repeat > 0.0 ==>
                w in timers.ws && w.at == if old(w.at) + w.repeat >= mnNow then old(w.at) + w.repeat else mnNow
      ensures forall w :: w in known && w in old(timers.ws) && old(w.at) < mnNow && w.repeat == 0.0 ==>
                w !in timers.ws && w.at == old(w.at) - mnNow
      ensures activecnt - timers.cnt == old(activecnt - timers.cnt)
      ensures NoDup(order) && Chronological(order, old(map w | w in known :: w.at))
      ensures forall w :: w in order ==> w in known
      ensures Waiting(pending.State()) == old(Waiting(pending.State())) - OneShot(order)
    {
      hide Heap.Valid, Ok, Waiting, Reified, Chronological, NoDup, OneShot;
      ghost var at0, ws0 := map w | w in known :: w.at, timers.ws;
      order := ReifyAll();
      ExactlyExpired(order, at0, ws0);
    }

    /** A repeating timer keeps its beat: when timers_reify runs at least once in every period, the
        timer expires at `at`, `at` + repeat, `at` + 2 * repeat and so on, each time once, however
        late within the period it is looked at. */
    method KeepBeat(nows: seq<real>, ghost w: Watcher) returns (ghost fired: nat)
      requires Valid() && w in timers.ws && w.repeat > 0.0
      requires nows != [] ==> nows[0] <= w.at + w.repeat
      requires forall i :: 0 < i < |nows| ==> nows[i - 1] <= nows[i] <= nows[i - 1] + w.repeat
      modifies this`mnNow, this`activecnt, pending, timers`cnt, timers`ws, timers.a, known`active, known`at
      ensures Valid() && w in timers.ws && w.repeat > 0.0
      ensures w.at == old(w.at) + fired as real * w.repeat
      ensures nows != [] ==> w.at >= nows[|nows| - 1] && (fired > 0 ==> w.at - w.repeat < nows[|nows| - 1])
    {
      hide Valid;
      fired := 0;
      for i := 0 to |nows|
        invariant Valid() && w in timers.ws && w.at == old(w.at) + fired as real * w.repeat
        invariant i > 0 ==> w.at >= nows[i - 1] && (fired > 0 ==> w.at - w.repeat < nows[i - 1])
        invariant i == 0 ==> fired == 0
      {
        ghost var hit := ReifyAt(nows[i], w);
        if hit {
          OneMore(fired, w.repeat);
          fired := fired + 1;
        }
      }
    }

    // time_update and timers_reify, as one timer sees them
    method ReifyAt(now: real, ghost w: Watcher) returns (ghost hit: bool)
      requires Valid() && w in timers.ws && w.repeat > 0.0
      modifies this`mnNow, this`activecnt, pending, timers`cnt, timers`ws, timers.a, known`active, known`at
      ensures Valid() && w in timers.ws && w.at >= now && (hit <==> old(w.at) < now)
      ensures w.at == if !hit then old(w.at) else if old(w.at) + w.repeat >= now then old(w.at) + w.repeat else now
    {
      hide Heap.Valid, Ok, Waiting, FedExpired, RunsInOrder, Reified, Chronological, OneShot;
      hit := w.at < now;
      mnNow := now;
      ghost var order := Reify();
    }

    static lemma OneMore(k: nat, x: real)
      ensures (k + 1) as real * x == k as real * x + x
    {
    }
  }
}
