/**
 What the expiry loops for timers and for periodics share: the order in which watchers are taken,
 and feeding them so that they run in that order.
 */
module Expiry {
  import opened TimerHeap
  import opened PendingQueue

  // Every watcher of `order` is now pending with ev, those of `shots` with nothing else.
  ghost predicate FedExpired(was: map<Watcher, Events>, now: map<Watcher, Events>, order: seq<Watcher>,
                             shots: set<Watcher>, ev: Events)
  {
    && now.Keys == was.Keys + (set w | w in order)
    && (forall w :: w in was && w !in order ==> now[w] == was[w])
    && (forall w :: w in was && w in order && w !in shots ==> now[w] == was[w] + ev)
    && (forall w :: w in order && (w in shots || w !in was) ==> now[w] == ev)
  }

  // Watchers of one priority that were not pending are called in the order given.
  ghost predicate RunsInOrder(s: Pend, order: seq<Watcher>, was: map<Watcher, Events>) {
    forall i, j :: 0 <= i < j < |order| && MustKeep(order[i], order[j], was) ==> Earlier(s, order[i], order[j])
  }

  predicate MustKeep(v: Watcher, w: Watcher, was: map<Watcher, Events>) {
    AbsPri(v) == AbsPri(w) && v !in was && w !in was
  }

  // Feeding the expired watchers `order` after the one-shot ones among them were cleared.
  lemma FedWatchers(s: Pend, dummy: Watcher, order: seq<Watcher>, shots: set<Watcher>, was: map<Watcher, Events>,
                    ev: Events)
    requires Ok(s, dummy) && (forall w :: w in order ==> w in s.back) && NoDup(order)
    requires Waiting(s) == was - shots && forall w :: w in shots ==> w in order
    ensures var s' := FeedReverse(s, dummy, order, ev);
            FedExpired(was, Waiting(s'), order, shots, ev) && RunsInOrder(s', order, was)
  {
    hide Ok, Waiting, Feed, FeedReverse, NoDup;
    FedOrder(s, dummy, order, was, ev);
    hide RunsInOrder;
    FeedReverseWaiting(s, dummy, order, ev);
  }

  lemma FedOrder(s: Pend, dummy: Watcher, order: seq<Watcher>, was: map<Watcher, Events>, ev: Events)
    requires Ok(s, dummy) && (forall w :: w in order ==> w in s.back) && NoDup(order)
    requires Waiting(s).Keys <= was.Keys
    ensures RunsInOrder(FeedReverse(s, dummy, order, ev), order, was)
  {
    forall i, j | 0 <= i < j < |order| && MustKeep(order[i], order[j], was)
      ensures Earlier(FeedReverse(s, dummy, order, ev), order[i], order[j])
    {
      assert order[i] != order[j];
      hide Ok, Waiting, Feed, FeedReverse, NoDup, Earlier;
      FeedReverseOrder(s, dummy, order, ev, i, j);
    }
  }

  method FeedExpired(pending: Pending, rfeeds: seq<Watcher>, ev: Events, ghost shots: set<Watcher>,
                     ghost was: map<Watcher, Events>)
    requires pending.Valid() && (forall w :: w in rfeeds ==> w in pending.back) && NoDup(rfeeds)
    requires Waiting(pending.State()) == was - shots && forall w :: w in shots ==> w in rfeeds
    modifies pending
    ensures pending.Valid() && pending.back.Keys == old(pending.back).Keys
    ensures FedExpired(was, Waiting(pending.State()), rfeeds, shots, ev)
    ensures RunsInOrder(pending.State(), rfeeds, was)
  {
    hide Ok, Waiting, Feed, FeedReverse, FedExpired, RunsInOrder, NoDup;
    FedWatchers(pending.State(), pending.dummy, rfeeds, shots, was, ev);
    pending.FeedReverseDone(rfeeds, ev);
  }

  // Distinct, and in order of expiry.
  ghost predicate Chronological(order: seq<Watcher>, at: map<Watcher, real>) {
    && (forall w :: w in order ==> w in at)
    && NoDup(order)
    && (forall i, j :: 0 <= i < j < |order| ==> at[order[i]] <= at[order[j]])
  }

  // No watcher of ws outside `order` expires before one inside.
  ghost predicate NoneEarlier(order: seq<Watcher>, at: map<Watcher, real>, ws: set<Watcher>) {
    ws <= at.Keys && forall u, v :: u in order && u in at && v in ws && v !in order ==> at[u] <= at[v]
  }

  lemma InTimes(order: seq<Watcher>, at: map<Watcher, real>, ws: set<Watcher>)
    requires NoneEarlier(order, at, ws)
    ensures ws <= at.Keys
  {
  }

  lemma ChronologicalStep(order: seq<Watcher>, at: map<Watcher, real>, ws: set<Watcher>, w: Watcher)
    requires Chronological(order, at) && NoneEarlier(order, at, ws) && w in ws && w !in order
    requires forall v :: v in ws && v !in order ==> at[w] <= at[v]
    ensures Chronological(order + [w], at) && NoneEarlier(order + [w], at, ws)
  {
  }

  ghost function Left(ws: set<Watcher>, done: seq<Watcher>): set<Watcher> {
    set w | w in ws && w !in done
  }

  lemma LeftShrinks(ws: set<Watcher>, done: seq<Watcher>, w: Watcher)
    requires w in ws && w !in done
    ensures Left(ws, done + [w]) < Left(ws, done)
  {
    assert w in Left(ws, done) && w !in Left(ws, done + [w]);
  }

  lemma MinusMinus(m: map<Watcher, Events>, a: set<Watcher>, b: set<Watcher>)
    ensures (m - a) - b == m - (a + b)
  {
  }
}
