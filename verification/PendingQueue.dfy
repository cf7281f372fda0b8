/**
 The prioritised pending queues: one stack of entries per priority, and for every watcher a
 back-index into the stack of its priority (its `pending` field).
 */
module PendingQueue {
  import opened Common
  import opened TimerHeap

  const EV_MINPRI: int := -2
  const EV_MAXPRI: int := 2
  const NUMPRI: nat := EV_MAXPRI - EV_MINPRI + 1

  // An event mask, as the set of the numbers of its bits; | is union.
  type Events = set<nat>

  // One slot of a queue; a cancelled slot holds the loop's dummy watcher.
  datatype Entry = Entry(w: Watcher, events: Events)
  type Queues = seq<seq<Entry>>

  function AbsPri(w: Watcher): int {
    w.priority - EV_MINPRI
  }

  // Live entries and back-indices are mutually inverse.
  ghost predicate QueuesOk(q: Queues, pend: map<Watcher, nat>, dummy: Watcher) {
    && |q| == NUMPRI
    && dummy !in pend
    && (forall w :: w in pend ==> 0 <= AbsPri(w) < NUMPRI)
    && (forall p, i :: 0 <= p < |q| && 0 <= i < |q[p]| ==> SlotOk(q[p][i].w, p, i, pend, dummy))
    && (forall w :: w in pend && pend[w] > 0 ==> BackOk(w, q, pend))
  }

  ghost predicate SlotOk(w: Watcher, p: int, i: int, pend: map<Watcher, nat>, dummy: Watcher) {
    w == dummy || (w in pend && pend[w] == i + 1 && AbsPri(w) == p)
  }

  ghost predicate BackOk(w: Watcher, q: Queues, pend: map<Watcher, nat>)
    requires w in pend && pend[w] > 0 && 0 <= AbsPri(w) < |q|
  {
    pend[w] <= |q[AbsPri(w)]| && q[AbsPri(w)][pend[w] - 1].w == w
  }

  function EventsAt(q: Queues, p: int, i: int): Events {
    if 0 <= p < |q| && 0 <= i < |q[p]| then q[p][i].events else {}
  }

  // The pending watchers, each with the events it will be called with.
  ghost function PendingMap(q: Queues, pend: map<Watcher, nat>): map<Watcher, Events> {
    map w | w in pend && pend[w] > 0 :: EventsAt(q, AbsPri(w), pend[w] - 1)
  }

  function SetSlot(q: Queues, p: int, i: int, e: Entry): Queues
    requires 0 <= p < |q| && 0 <= i < |q[p]|
  {
    q[p := q[p][i := e]]
  }

  lemma MergeKeeps(q: Queues, pend: map<Watcher, nat>, dummy: Watcher, w: Watcher, ev: Events)
    requires QueuesOk(q, pend, dummy) && w in pend && pend[w] > 0
    ensures var q' := SetSlot(q, AbsPri(w), pend[w] - 1, Entry(w, ev));
            && QueuesOk(q', pend, dummy)
            && PendingMap(q', pend) == PendingMap(q, pend)[w := ev]
  {
    var p, i := AbsPri(w), pend[w] - 1;
    var q' := SetSlot(q, p, i, Entry(w, ev));
    forall x | x in pend && pend[x] > 0 ensures BackOk(x, q', pend)
    {
      assert BackOk(x, q, pend);
    }
  }

  function Push(q: Queues, p: int, e: Entry): Queues
    requires 0 <= p < |q|
  {
    q[p := q[p] + [e]]
  }

  lemma PushKeeps(q: Queues, pend: map<Watcher, nat>, dummy: Watcher, w: Watcher, ev: Events)
    requires QueuesOk(q, pend, dummy) && w in pend && pend[w] == 0
    ensures var q' := Push(q, AbsPri(w), Entry(w, ev)); var pend' := pend[w := |q[AbsPri(w)]| + 1];
            && QueuesOk(q', pend', dummy)
            && PendingMap(q', pend') == PendingMap(q, pend)[w := ev]
  {
    var q' := Push(q, AbsPri(w), Entry(w, ev));
    var pend' := pend[w := |q[AbsPri(w)]| + 1];
    PushSlots(q, pend, dummy, w, ev);
    PushBacks(q, pend, dummy, w, ev);
    MoreEvents(q, pend, q', pend', w, ev);
  }

  // One watcher starts to wait and the others stay as they are.
  lemma MoreEvents(q: Queues, pend: map<Watcher, nat>, q': Queues, pend': map<Watcher, nat>, w: Watcher, ev: Events)
    requires w in pend && w in pend' && pend' == pend[w := pend'[w]] && pend'[w] > 0
    requires forall x :: x in pend' && pend'[x] > 0 ==>
               EventsAt(q', AbsPri(x), pend'[x] - 1) ==
               if x == w then ev else EventsAt(q, AbsPri(x), pend[x] - 1)
    ensures PendingMap(q', pend') == PendingMap(q, pend)[w := ev]
  {
    hide EventsAt;
  }

  lemma PushBacks(q: Queues, pend: map<Watcher, nat>, dummy: Watcher, w: Watcher, ev: Events)
    requires QueuesOk(q, pend, dummy) && w in pend && pend[w] == 0
    ensures var q' := Push(q, AbsPri(w), Entry(w, ev)); var pend' := pend[w := |q[AbsPri(w)]| + 1];
            forall x :: x in pend' && pend'[x] > 0 ==>
              && BackOk(x, q', pend')
              && EventsAt(q', AbsPri(x), pend'[x] - 1) ==
                 if x == w then ev else EventsAt(q, AbsPri(x), pend[x] - 1)
  {
    var q' := Push(q, AbsPri(w), Entry(w, ev));
    var pend' := pend[w := |q[AbsPri(w)]| + 1];
    forall x | x in pend' && pend'[x] > 0
      ensures BackOk(x, q', pend')
      ensures EventsAt(q', AbsPri(x), pend'[x] - 1) == if x == w then ev else EventsAt(q, AbsPri(x), pend[x] - 1)
    {
      assert x != w ==> BackOk(x, q, pend);
    }
  }

  lemma PushSlots(q: Queues, pend: map<Watcher, nat>, dummy: Watcher, w: Watcher, ev: Events)
    requires QueuesOk(q, pend, dummy) && w in pend && pend[w] == 0
    ensures var q' := Push(q, AbsPri(w), Entry(w, ev)); var pend' := pend[w := |q[AbsPri(w)]| + 1];
            forall r, i :: 0 <= r < |q'| && 0 <= i < |q'[r]| ==> SlotOk(q'[r][i].w, r, i, pend', dummy)
  {
    var p := AbsPri(w);
    var q': Queues := Push(q, p, Entry(w, ev));
    var pend' := pend[w := |q[p]| + 1];
    forall r, i | 0 <= r < |q'| && 0 <= i < |q'[r]| ensures SlotOk(q'[r][i].w, r, i, pend', dummy)
    {
      if r != p || i < |q[p]| {
        assert q'[r][i] == q[r][i];
        assert SlotOk(q[r][i].w, r, i, pend, dummy);
      }
    }
  }

  // Watchers that stay pending with the same events.
  lemma SameEvents(q: Queues, pend: map<Watcher, nat>, q': Queues, pend': map<Watcher, nat>)
    requires pend'.Keys == pend.Keys
    requires forall x :: x in pend' && pend'[x] > 0 ==>
               pend'[x] == pend[x] && EventsAt(q', AbsPri(x), pend[x] - 1) == EventsAt(q, AbsPri(x), pend[x] - 1)
    ensures PendingMap(q', pend') == PendingMap(q, pend) - (set x | x in pend && pend'[x] == 0)
  {
    hide EventsAt;
  }

  lemma CancelSlots(q: Queues, pend: map<Watcher, nat>, dummy: Watcher, w: Watcher, ev: Events)
    requires QueuesOk(q, pend, dummy) && w in pend && pend[w] > 0
    ensures var q' := SetSlot(q, AbsPri(w), pend[w] - 1, Entry(dummy, ev)); var pend' := pend[w := 0];
            forall r, i :: 0 <= r < |q'| && 0 <= i < |q'[r]| ==> SlotOk(q'[r][i].w, r, i, pend', dummy)
  {
    var q': Queues := SetSlot(q, AbsPri(w), pend[w] - 1, Entry(dummy, ev));
    var pend' := pend[w := 0];
    assert BackOk(w, q, pend);
    forall r, i | 0 <= r < |q'| && 0 <= i < |q'[r]| ensures SlotOk(q'[r][i].w, r, i, pend', dummy)
    {
      assert SlotOk(q[r][i].w, r, i, pend, dummy);
    }
  }

  lemma CancelBacks(q: Queues, pend: map<Watcher, nat>, dummy: Watcher, w: Watcher, ev: Events)
    requires QueuesOk(q, pend, dummy) && w in pend && pend[w] > 0
    ensures var q' := SetSlot(q, AbsPri(w), pend[w] - 1, Entry(dummy, ev)); var pend' := pend[w := 0];
            forall x :: x in pend' && pend'[x] > 0 ==>
              BackOk(x, q', pend') && EventsAt(q', AbsPri(x), pend[x] - 1) == EventsAt(q, AbsPri(x), pend[x] - 1)
  {
    var q', pend' := SetSlot(q, AbsPri(w), pend[w] - 1, Entry(dummy, ev)), pend[w := 0];
    assert BackOk(w, q, pend);
    forall x | x in pend' && pend'[x] > 0
      ensures BackOk(x, q', pend') && EventsAt(q', AbsPri(x), pend[x] - 1) == EventsAt(q, AbsPri(x), pend[x] - 1)
    {
      assert BackOk(x, q, pend);
    }
  }

  lemma CancelKeeps(q: Queues, pend: map<Watcher, nat>, dummy: Watcher, w: Watcher, ev: Events)
    requires QueuesOk(q, pend, dummy) && w in pend && pend[w] > 0
    ensures var q' := SetSlot(q, AbsPri(w), pend[w] - 1, Entry(dummy, ev)); var pend' := pend[w := 0];
            && QueuesOk(q', pend', dummy)
            && PendingMap(q', pend') == PendingMap(q, pend) - {w}
  {
    var q', pend' := SetSlot(q, AbsPri(w), pend[w] - 1, Entry(dummy, ev)), pend[w := 0];
    CancelSlots(q, pend, dummy, w, ev);
    CancelBacks(q, pend, dummy, w, ev);
    SameEvents(q, pend, q', pend');
  }

  lemma PopSlots(q: Queues, pend: map<Watcher, nat>, dummy: Watcher, p: int)
    requires QueuesOk(q, pend, dummy) && 0 <= p < |q| && q[p] != []
    ensures var e, q' := q[p][|q[p]| - 1], q[p := q[p][..|q[p]| - 1]];
            forall r, i :: 0 <= r < |q'| && 0 <= i < |q'[r]| ==>
              SlotOk(q'[r][i].w, r, i, if e.w == dummy then pend else pend[e.w := 0], dummy)
  {
    var last := |q[p]| - 1;
    var q': Queues := q[p := q[p][..last]];
    assert SlotOk(q[p][last].w, p, last, pend, dummy);
    forall r, i | 0 <= r < |q'| && 0 <= i < |q'[r]|
      ensures SlotOk(q'[r][i].w, r, i, if q[p][last].w == dummy then pend else pend[q[p][last].w := 0], dummy)
    {
      assert q'[r][i] == q[r][i];
      assert SlotOk(q[r][i].w, r, i, pend, dummy);
    }
  }

  lemma PopBacks(q: Queues, pend: map<Watcher, nat>, dummy: Watcher, p: int)
    requires QueuesOk(q, pend, dummy) && 0 <= p < |q| && q[p] != []
    ensures var e, q' := q[p][|q[p]| - 1], q[p := q[p][..|q[p]| - 1]];
            var pend' := if e.w == dummy then pend else pend[e.w := 0];
            forall x :: x in pend' && pend'[x] > 0 ==>
              BackOk(x, q', pend') && EventsAt(q', AbsPri(x), pend[x] - 1) == EventsAt(q, AbsPri(x), pend[x] - 1)
  {
    var last := |q[p]| - 1;
    var e, q' := q[p][last], q[p := q[p][..last]];
    var pend' := if e.w == dummy then pend else pend[e.w := 0];
    forall x | x in pend' && pend'[x] > 0
      ensures BackOk(x, q', pend') && EventsAt(q', AbsPri(x), pend[x] - 1) == EventsAt(q, AbsPri(x), pend[x] - 1)
    {
      assert BackOk(x, q, pend);
    }
  }

  lemma PopKeeps(q: Queues, pend: map<Watcher, nat>, dummy: Watcher, p: int)
    requires QueuesOk(q, pend, dummy) && 0 <= p < |q| && q[p] != []
    ensures var e := q[p][|q[p]| - 1]; var q' := q[p := q[p][..|q[p]| - 1]];
            if e.w == dummy then
              QueuesOk(q', pend, dummy) && PendingMap(q', pend) == PendingMap(q, pend)
            else
              && e.w in pend && pend[e.w] > 0 && PendingMap(q, pend)[e.w] == e.events
              && QueuesOk(q', pend[e.w := 0], dummy)
              && PendingMap(q', pend[e.w := 0]) == PendingMap(q, pend) - {e.w}
  {
    var last := |q[p]| - 1;
    var e: Entry := q[p][last];
    var q': Queues := q[p := q[p][..last]];
    var pend' := if e.w == dummy then pend else pend[e.w := 0];
    assert SlotOk(e.w, p, last, pend, dummy);
    PopSlots(q, pend, dummy, p);
    PopBacks(q, pend, dummy, p);
    assert QueuesOk(q', pend', dummy);
    hide QueuesOk, BackOk;
    SameEvents(q, pend, q', pend');
  }

  /* ---------- the operations ---------- */

  datatype Pend = Pend(q: Queues, back: map<Watcher, nat>)

  ghost predicate Ok(s: Pend, dummy: Watcher) {
    QueuesOk(s.q, s.back, dummy)
  }

  ghost function Waiting(s: Pend): map<Watcher, Events> {
    PendingMap(s.q, s.back)
  }

  class Pending {
    var pendings: Queues
    var back: map<Watcher, nat>  // w->pending for every watcher w the loop knows
    const dummy: Watcher         // pending_w

    ghost function State(): Pend
      reads this
    {
      Pend(pendings, back)
    }

    ghost predicate Valid()
      reads this
    {
      Ok(State(), dummy)
    }

    constructor (ws: set<Watcher>, dummy: Watcher)
      requires dummy !in ws && forall w :: w in ws ==> 0 <= AbsPri(w) < NUMPRI
      ensures Valid() && this.dummy == dummy && back.Keys == ws && Waiting(State()) == map[]
    {
      pendings := seq(NUMPRI, _ => []);
      back := map w | w in ws :: 0;
      this.dummy := dummy;
    }

    method FeedEvent(w: Watcher, revents: Events)
      requires Valid() && w in back
      modifies this
      ensures InRange(old(State()), w)
      ensures Valid() && State() == Feed(old(State()), w, revents) && back.Keys == old(back).Keys
      ensures var was := old(Waiting(State()));
              Waiting(State()) == was[w := if w in was then was[w] + revents else revents]
    {
      FeedOk(State(), dummy, w, revents);
      var pri := AbsPri(w);
      if back[w] > 0 {
        var e := pendings[pri][back[w] - 1];
        pendings := pendings[pri := pendings[pri][back[w] - 1 := e.(events := e.events + revents)]];
      } else {
        back := back[w := |pendings[pri]| + 1];
        pendings := pendings[pri := pendings[pri] + [Entry(w, revents)]];
      }
    }

    // ev_clear_pending, and clear_pending when the result is dropped
    method ClearPending(w: Watcher) returns (events: Events)
      requires Valid() && w in back
      modifies this
      ensures InRange(old(State()), w)
      ensures Valid() && State() == Clear(old(State()), dummy, w) && back.Keys == old(back).Keys
      ensures Waiting(State()) == old(Waiting(State())) - {w}
      ensures events == if w in old(Waiting(State())) then old(Waiting(State()))[w] else {}
    {
      hide Ok, Waiting;
      ClearOk(State(), dummy, w);
      BackInRange(State(), dummy, w);
      events := {};
      if back[w] > 0 {
        var pri := AbsPri(w);
        events := pendings[pri][back[w] - 1].events;
        pendings := pendings[pri := pendings[pri][back[w] - 1 := Entry(dummy, events)]];
        back := back[w := 0];
      }
    }

    // One turn of the inner loop of ev_invoke_pending, up to the callback.
    method Pop(pri: nat) returns (e: Entry)
      requires Valid() && pri < NUMPRI && pendings[pri] != []
      modifies this
      ensures Valid() && State() == PopState(old(State()), dummy, pri) && back.Keys == old(back).Keys
      ensures e == old(Top(State(), pri)) &&
              pendings == old(pendings)[pri := old(pendings)[pri][..|old(pendings)[pri]| - 1]]
    {
      PopOk(State(), dummy, pri);
      e := pendings[pri][|pendings[pri]| - 1];
      pendings := pendings[pri := pendings[pri][..|pendings[pri]| - 1]];
      if e.w != dummy {
        back := back[e.w := 0];
      }
    }

    // feed_reverse_done
    method FeedReverseDone(rfeeds: seq<Watcher>, revents: Events)
      requires Valid() && forall w :: w in rfeeds ==> w in back
      modifies this
      ensures Valid() && back.Keys == old(back).Keys
      ensures State() == FeedReverse(old(State()), dummy, rfeeds, revents)
    {
      hide Ok, Feed, Waiting, FeedReverse;
      var i := |rfeeds|;
      ghost var s0 := State();
      FeedReverseNone(s0, dummy, revents);
      assert rfeeds[i..] == [];
      while i > 0
        invariant 0 <= i <= |rfeeds| && Valid() && back.Keys == s0.back.Keys
        invariant Ok(s0, dummy) && forall w :: w in rfeeds[i..] ==> w in s0.back
        invariant State() == FeedReverse(s0, dummy, rfeeds[i..], revents)
      {
        i := i - 1;
        FeedReverseStep(s0, dummy, rfeeds, i, revents);
        FeedEvent(rfeeds[i], revents);
      }
      assert rfeeds[i..] == rfeeds;
    }

    /** ev_invoke_pending when no callback feeds or clears anything: the calls made. */
    method InvokePending() returns (calls: seq<Entry>)
      requires Valid()
      modifies this
      ensures Valid() && back.Keys == old(back).Keys
      ensures calls == old(Calls(pendings, dummy, NUMPRI))
      ensures |pendings| == NUMPRI && forall p :: 0 <= p < NUMPRI ==> pendings[p] == []
    {
      assert |pendings| == NUMPRI;
      hide QueuesOk, Calls, CallsOf, PendingMap;
      calls := [];
      var pri := NUMPRI;
      ghost var q0 := pendings;
      assert calls + Calls(q0, dummy, pri) == Calls(q0, dummy, NUMPRI);
      while pri > 0
        invariant 0 <= pri <= NUMPRI && Valid() && back.Keys == old(back).Keys
        invariant |pendings| == NUMPRI
        invariant forall p :: 0 <= p < pri ==> pendings[p] == q0[p]
        invariant forall p :: pri <= p < NUMPRI ==> pendings[p] == []
        invariant calls + Calls(q0, dummy, pri) == Calls(q0, dummy, NUMPRI)
      {
        pri := pri - 1;
        CallsStep(q0, dummy, pri, calls);
        calls := DrainStack(pri, calls);
      }
    }

    method DrainStack(pri: nat, before: seq<Entry>) returns (calls: seq<Entry>)
      requires Valid() && pri < NUMPRI
      modifies this
      ensures Valid() && back.Keys == old(back).Keys
      ensures calls == before + CallsOf(old(pendings)[pri], dummy)
      ensures pendings == old(pendings)[pri := []]
    {
      assert |pendings| == NUMPRI;
      hide Ok, CallsOf, PopState;
      calls := before;
      ghost var q0, stack := pendings, pendings[pri];
      while pendings[pri] != []
        invariant |pendings| == NUMPRI && Valid() && back.Keys == old(back).Keys && pendings[pri] == stack
        invariant forall p :: 0 <= p < NUMPRI && p != pri ==> pendings[p] == q0[p]
        invariant calls + CallsOf(stack, dummy) == before + CallsOf(q0[pri], dummy)
        decreases |stack|
      {
        CallsPop(calls, stack, dummy);
        var e := Pop(pri);
        stack := stack[..|stack| - 1];
        if e.w != dummy {
          calls := calls + [e];
        }
      }
      assert CallsOf([], dummy) == [] by { NoCalls(dummy); }
      assert pendings == q0[pri := []];
    }
  }

  predicate InRange(s: Pend, w: Watcher) {
    w in s.back && 0 <= AbsPri(w) < |s.q| && s.back[w] <= |s.q[AbsPri(w)]|
  }

  function Feed(s: Pend, w: Watcher, ev: Events): Pend
    requires InRange(s, w)
  {
    var p := AbsPri(w);
    if s.back[w] > 0 then
      var e := s.q[p][s.back[w] - 1];
      s.(q := SetSlot(s.q, p, s.back[w] - 1, Entry(e.w, e.events + ev)))
    else
      Pend(Push(s.q, p, Entry(w, ev)), s.back[w := |s.q[p]| + 1])
  }

  function Clear(s: Pend, dummy: Watcher, w: Watcher): Pend
    requires InRange(s, w)
  {
    if s.back[w] == 0 then s
    else Pend(SetSlot(s.q, AbsPri(w), s.back[w] - 1, Entry(dummy, s.q[AbsPri(w)][s.back[w] - 1].events)),
        s.back[w := 0])
  }

  function Top(s: Pend, p: nat): Entry
    requires p < |s.q| && s.q[p] != []
  {
    s.q[p][|s.q[p]| - 1]
  }

  function PopState(s: Pend, dummy: Watcher, p: nat): Pend
    requires p < |s.q| && s.q[p] != []
  {
    var w := Top(s, p).w;
    Pend(s.q[p := s.q[p][..|s.q[p]| - 1]], if w == dummy then s.back else s.back[w := 0])
  }

  lemma BackInRange(s: Pend, dummy: Watcher, w: Watcher)
    requires Ok(s, dummy) && w in s.back
    ensures InRange(s, w)
    ensures w in Waiting(s) <==> s.back[w] > 0
    ensures s.back[w] > 0 ==> s.q[AbsPri(w)][s.back[w] - 1] == Entry(w, Waiting(s)[w])
  {
    assert s.back[w] > 0 ==> BackOk(w, s.q, s.back);
  }

  lemma AllPriorities(s: Pend, dummy: Watcher)
    requires Ok(s, dummy)
    ensures |s.q| == NUMPRI
  {
  }

  lemma FeedMerges(s: Pend, dummy: Watcher, w: Watcher, ev: Events)
    requires Ok(s, dummy) && w in s.back && s.back[w] > 0 && InRange(s, w)
    ensures w in Waiting(s) && Ok(Feed(s, w, ev), dummy) && Feed(s, w, ev).back == s.back
    ensures Waiting(Feed(s, w, ev)) == Waiting(s)[w := Waiting(s)[w] + ev]
  {
    BackInRange(s, dummy, w);
    var events := Waiting(s)[w];
    MergeKeeps(s.q, s.back, dummy, w, events + ev);
    hide QueuesOk, PendingMap, SetSlot;
    assert Feed(s, w, ev) == s.(q := SetSlot(s.q, AbsPri(w), s.back[w] - 1, Entry(w, events + ev)));
  }

  lemma FeedPushes(s: Pend, dummy: Watcher, w: Watcher, ev: Events)
    requires Ok(s, dummy) && w in s.back && s.back[w] == 0 && InRange(s, w)
    ensures w !in Waiting(s) && Ok(Feed(s, w, ev), dummy) && Feed(s, w, ev).back.Keys == s.back.Keys
    ensures Waiting(Feed(s, w, ev)) == Waiting(s)[w := ev]
  {
    PushKeeps(s.q, s.back, dummy, w, ev);
  }

  lemma FeedOk(s: Pend, dummy: Watcher, w: Watcher, ev: Events)
    requires Ok(s, dummy) && w in s.back
    ensures InRange(s, w)
    ensures var s' := Feed(s, w, ev);
            && Ok(s', dummy) && s'.back.Keys == s.back.Keys
            && Waiting(s') == Waiting(s)[w := if w in Waiting(s) then Waiting(s)[w] + ev else ev]
  {
    BackInRange(s, dummy, w);
    hide Ok, Feed;
    if s.back[w] > 0 {
      FeedMerges(s, dummy, w, ev);
    } else {
      FeedPushes(s, dummy, w, ev);
    }
  }

  lemma ClearOk(s: Pend, dummy: Watcher, w: Watcher)
    requires Ok(s, dummy) && w in s.back
    ensures InRange(s, w)
    ensures var s' := Clear(s, dummy, w);
            Ok(s', dummy) && s'.back.Keys == s.back.Keys && Waiting(s') == Waiting(s) - {w}
  {
    BackInRange(s, dummy, w);
    if s.back[w] > 0 {
      CancelKeeps(s.q, s.back, dummy, w, s.q[AbsPri(w)][s.back[w] - 1].events);
    }
  }

  lemma PopOk(s: Pend, dummy: Watcher, p: nat)
    requires Ok(s, dummy) && p < NUMPRI && s.q[p] != []
    ensures var s' := PopState(s, dummy, p); var e := Top(s, p);
            && Ok(s', dummy) && s'.back.Keys == s.back.Keys
            && (e.w == dummy ==> Waiting(s') == Waiting(s))
            && (e.w != dummy ==> e.w in s.back && e.w in Waiting(s) && Waiting(s)[e.w] == e.events && AbsPri(e.w) == p)
            && (e.w != dummy ==> Waiting(s') == Waiting(s) - {e.w})
  {
    PopKeeps(s.q, s.back, dummy, p);
    assert SlotOk(Top(s, p).w, p, |s.q[p]| - 1, s.back, dummy);
  }

  /* ---------- what a quiet ev_invoke_pending calls ---------- */

  // The live entries of one stack, newest first.
  function CallsOf(stack: seq<Entry>, dummy: Watcher): seq<Entry> {
    if stack == [] then []
    else
      var e := stack[|stack| - 1];
      (if e.w == dummy then [] else [e]) + CallsOf(stack[..|stack| - 1], dummy)
  }

  // The live entries of the lowest n priorities, highest priority first.
  function Calls(q: Queues, dummy: Watcher, n: nat): seq<Entry>
    requires n <= |q|
  {
    if n == 0 then [] else CallsOf(q[n - 1], dummy) + Calls(q, dummy, n - 1)
  }

  lemma {:induction false} CallsStep(q: Queues, dummy: Watcher, n: nat, before: seq<Entry>)
    requires n < |q|
    ensures before + Calls(q, dummy, n + 1) == (before + CallsOf(q[n], dummy)) + Calls(q, dummy, n)
  {
    hide CallsOf;
    assert Calls(q, dummy, n + 1) == CallsOf(q[n], dummy) + Calls(q, dummy, n);
  }

  lemma NoCalls(dummy: Watcher)
    ensures CallsOf([], dummy) == []
  {
  }

  // Taking the top entry and calling it leaves the calls still to come.
  lemma {:induction false} CallsPop(calls: seq<Entry>, stack: seq<Entry>, dummy: Watcher)
    requires stack != []
    ensures var e, below := stack[|stack| - 1], stack[..|stack| - 1];
            (if e.w == dummy then calls else calls + [e]) + CallsOf(below, dummy) == calls + CallsOf(stack, dummy)
  {
    var e, rest := stack[|stack| - 1], CallsOf(stack[..|stack| - 1], dummy);
    CallsOfTop(stack, dummy);
    hide CallsOf;
    assert (calls + [e]) + rest == calls + ([e] + rest) && [] + rest == rest;
  }

  // a is called before b: higher priority, or same priority and higher up the stack.
  predicate Earlier(s: Pend, a: Watcher, b: Watcher) {
    && a in s.back && b in s.back
    && (AbsPri(a) > AbsPri(b) || (AbsPri(a) == AbsPri(b) && s.back[a] > s.back[b]))
  }

  ghost predicate CallOk(s: Pend, e: Entry) {
    e.w in Waiting(s) && Waiting(s)[e.w] == e.events
  }

  lemma OrderedConcat(s: Pend, front: seq<Entry>, back: seq<Entry>, p: nat)
    requires forall e :: e in front ==> CallOk(s, e) && AbsPri(e.w) == p
    requires forall e :: e in back ==> CallOk(s, e) && AbsPri(e.w) < p
    requires forall i, j :: 0 <= i < j < |front| ==> Earlier(s, front[i].w, front[j].w)
    requires forall i, j :: 0 <= i < j < |back| ==> Earlier(s, back[i].w, back[j].w)
    ensures forall i, j :: 0 <= i < j < |front + back| ==> Earlier(s, (front + back)[i].w, (front + back)[j].w)
  {
    var all := front + back;
    forall i, j | 0 <= i < j < |all| ensures Earlier(s, all[i].w, all[j].w) {
      if i < |front| <= j {
        assert all[i] in front && all[j] in back;
      }
    }
  }

  // The calls for the lowest n slots of one stack.
  ghost predicate StackCalls(s: Pend, p: nat, n: nat, calls: seq<Entry>) {
    && (forall e :: e in calls ==> CallOk(s, e) && e.w in s.back && AbsPri(e.w) == p && s.back[e.w] <= n)
    && (forall i, j :: 0 <= i < j < |calls| ==> Earlier(s, calls[i].w, calls[j].w))
    && (forall w :: w in s.back && 0 < s.back[w] <= n && AbsPri(w) == p ==>
          w in Waiting(s) && Entry(w, Waiting(s)[w]) in calls)
  }

  lemma {:induction false} CallsOfSpec(s: Pend, dummy: Watcher, p: nat, n: nat)
    requires Ok(s, dummy) && p < NUMPRI && n <= |s.q[p]|
    ensures StackCalls(s, p, n, CallsOf(s.q[p][..n], dummy))
    decreases n
  {
    AllPriorities(s, dummy);
    hide Ok, Waiting, CallsOf, CallOk, StackCalls;
    if n > 0 {
      var stack := s.q[p][..n];
      CallsOfSpec(s, dummy, p, n - 1);
      assert stack[..n - 1] == s.q[p][..n - 1];
      CallsOfTop(stack, dummy);
      StackCallsMore(s, dummy, p, n, CallsOf(stack[..n - 1], dummy));
    } else {
      NoCalls(dummy);
      NoStackCalls(s, p);
    }
  }

  lemma NoStackCalls(s: Pend, p: nat)
    ensures StackCalls(s, p, 0, [])
  {
  }

  lemma StackCallsMore(s: Pend, dummy: Watcher, p: nat, n: nat, rest: seq<Entry>)
    requires Ok(s, dummy) && p < NUMPRI && 0 < n <= |s.q[p]| && StackCalls(s, p, n - 1, rest)
    ensures var e := s.q[p][n - 1]; StackCalls(s, p, n, (if e.w == dummy then [] else [e]) + rest)
  {
    hide Ok, Waiting, CallOk, AbsPri, StackCalls;
    AllPriorities(s, dummy);
    SlotIs(s, dummy, p, n);
    var e := s.q[p][n - 1];
    if e.w == dummy {
      assert [] + rest == rest;
      NoMoreCalls(s, p, n, rest);
    } else {
      OneMoreCall(s, p, n, e, rest);
    }
  }

  lemma NoMoreCalls(s: Pend, p: nat, n: nat, calls: seq<Entry>)
    requires n > 0 && StackCalls(s, p, n - 1, calls) && forall w :: w in s.back && AbsPri(w) == p ==> s.back[w] != n
    ensures StackCalls(s, p, n, calls)
  {
    hide Waiting, CallOk, AbsPri;
  }

  lemma OneMoreCall(s: Pend, p: nat, n: nat, e: Entry, rest: seq<Entry>)
    requires n > 0 && StackCalls(s, p, n - 1, rest)
    requires e.w in s.back && CallOk(s, e) && AbsPri(e.w) == p && s.back[e.w] == n
    requires forall w :: w in s.back && s.back[w] == n && AbsPri(w) == p ==>
               w in Waiting(s) && e == Entry(w, Waiting(s)[w])
    ensures StackCalls(s, p, n, [e] + rest)
  {
    hide Waiting, CallOk, AbsPri;
    var calls := [e] + rest;
    forall i, j | 0 <= i < j < |calls| ensures Earlier(s, calls[i].w, calls[j].w) {
      assert calls[j] == rest[j - 1] && calls[j] in rest;
    }
    forall w | w in s.back && 0 < s.back[w] <= n && AbsPri(w) == p
      ensures w in Waiting(s) && Entry(w, Waiting(s)[w]) in calls
    {
      if s.back[w] == n {
        assert calls[0] == e;
      } else {
        assert Entry(w, Waiting(s)[w]) in rest;
      }
    }
  }

  // The n-th slot of a stack: cancelled, or a watcher's.
  lemma SlotIs(s: Pend, dummy: Watcher, p: nat, n: nat)
    requires Ok(s, dummy) && p < NUMPRI && 0 < n <= |s.q[p]|
    ensures var e := s.q[p][n - 1];
            && (e.w != dummy ==> e.w in s.back && CallOk(s, e) && AbsPri(e.w) == p && s.back[e.w] == n)
            && forall w :: w in s.back && s.back[w] == n && AbsPri(w) == p ==>
                 w in Waiting(s) && e == Entry(w, Waiting(s)[w]) && w != dummy
  {
    var e := s.q[p][n - 1];
    assert SlotOk(e.w, p, n - 1, s.back, dummy);
    forall w | w in s.back && s.back[w] == n && AbsPri(w) == p
      ensures w in Waiting(s) && e == Entry(w, Waiting(s)[w]) && w != dummy
    {
      BackInRange(s, dummy, w);
    }
  }

  lemma {:induction false} CallsOfTop(stack: seq<Entry>, dummy: Watcher)
    requires stack != []
    ensures var e := stack[|stack| - 1];
            CallsOf(stack, dummy) == (if e.w == dummy then [] else [e]) + CallsOf(stack[..|stack| - 1], dummy)
  {
  }

  lemma {:induction false} CallsSpec(s: Pend, dummy: Watcher, n: nat)
    requires Ok(s, dummy) && n <= NUMPRI
    ensures var calls := Calls(s.q, dummy, n);
            && (forall e :: e in calls ==> CallOk(s, e) && AbsPri(e.w) < n)
            && (forall i, j :: 0 <= i < j < |calls| ==> Earlier(s, calls[i].w, calls[j].w))
            && (forall w :: w in Waiting(s) && AbsPri(w) < n ==> Entry(w, Waiting(s)[w]) in calls)
    decreases n
  {
    assert |s.q| == NUMPRI;
    hide Ok, CallOk, CallsOf;
    if n > 0 {
      var front, back := CallsOf(s.q[n - 1], dummy), Calls(s.q, dummy, n - 1);
      assert s.q[n - 1][..|s.q[n - 1]|] == s.q[n - 1];
      CallsSpec(s, dummy, n - 1);
      CallsOfSpec(s, dummy, n - 1, |s.q[n - 1]|);
      OrderedConcat(s, front, back, n - 1);
      forall w | w in Waiting(s) && AbsPri(w) == n - 1 ensures Entry(w, Waiting(s)[w]) in front {
        BackInRange(s, dummy, w);
      }
    }
  }

  /** A quiet ev_invoke_pending calls every pending watcher exactly once, with all the events
      fed to it, nobody else, and in descending order of priority. */
  lemma QuietInvocation(s: Pend, dummy: Watcher)
    requires Ok(s, dummy)
    ensures var calls := Calls(s.q, dummy, NUMPRI);
            && (forall w, ev :: Entry(w, ev) in calls <==> w in Waiting(s) && Waiting(s)[w] == ev)
            && (forall i, j :: 0 <= i < j < |calls| ==> calls[i].w != calls[j].w)
            && (forall i, j :: 0 <= i < j < |calls| ==> calls[i].w.priority >= calls[j].w.priority)
  {
    assert forall w :: w in Waiting(s) ==> AbsPri(w) < NUMPRI;
    hide Ok, Calls, Waiting;
    CallsSpec(s, dummy, NUMPRI);
    var calls := Calls(s.q, dummy, NUMPRI);
    forall i, j | 0 <= i < j < |calls|
      ensures calls[i].w != calls[j].w && calls[i].w.priority >= calls[j].w.priority
    {
      assert Earlier(s, calls[i].w, calls[j].w);
    }
    forall w, ev | Entry(w, ev) in calls ensures w in Waiting(s) && Waiting(s)[w] == ev {
      assert CallOk(s, Entry(w, ev));
    }
  }

  lemma WaitingIsKnown(s: Pend, dummy: Watcher, w: Watcher)
    requires Ok(s, dummy) && w in Waiting(s)
    ensures w in s.back && AbsPri(w) < NUMPRI
  {
  }

  /** Of two pending watchers, the one earlier in the order is called first. */
  lemma EarlierIsCalledFirst(s: Pend, dummy: Watcher, a: Watcher, b: Watcher)
    requires Ok(s, dummy) && a in Waiting(s) && b in Waiting(s) && Earlier(s, a, b)
    ensures var calls := Calls(s.q, dummy, NUMPRI);
            exists i, j :: 0 <= i < j < |calls| && calls[i].w == a && calls[j].w == b
  {
    hide Ok, Calls, CallOk, Waiting;
    AllPriorities(s, dummy);
    WaitingIsKnown(s, dummy, a);
    WaitingIsKnown(s, dummy, b);
    CallsSpec(s, dummy, NUMPRI);
    var calls := Calls(s.q, dummy, NUMPRI);
    assert Entry(a, Waiting(s)[a]) in calls && Entry(b, Waiting(s)[b]) in calls;
    var i :| 0 <= i < |calls| && calls[i].w == a;
    var j :| 0 <= j < |calls| && calls[j].w == b;
    assert j < i ==> Earlier(s, calls[j].w, calls[i].w);
  }

  /* ---------- feed_reverse_done ---------- */

  // Feeds ws from the last to the first.
  ghost function FeedReverse(s: Pend, dummy: Watcher, ws: seq<Watcher>, ev: Events): (s': Pend)
    requires Ok(s, dummy) && forall w :: w in ws ==> w in s.back
    ensures Ok(s', dummy) && s'.back.Keys == s.back.Keys
  {
    if ws == [] then s
    else
      var s1 := FeedReverse(s, dummy, ws[1..], ev);
      FeedOk(s1, dummy, ws[0], ev);
      Feed(s1, ws[0], ev)
  }

  lemma FeedReverseNone(s: Pend, dummy: Watcher, ev: Events)
    requires Ok(s, dummy)
    ensures FeedReverse(s, dummy, [], ev) == s
  {
  }

  lemma {:induction false} FeedReverseHead(s: Pend, dummy: Watcher, ws: seq<Watcher>, ev: Events)
    requires Ok(s, dummy) && (forall w :: w in ws ==> w in s.back) && ws != []
    ensures var s1 := FeedReverse(s, dummy, ws[1..], ev);
            InRange(s1, ws[0]) && FeedReverse(s, dummy, ws, ev) == Feed(s1, ws[0], ev)
  {
    hide Ok, Waiting, Feed;
    BackInRange(FeedReverse(s, dummy, ws[1..], ev), dummy, ws[0]);
  }

  lemma {:induction false} FeedReverseOthers(s: Pend, dummy: Watcher, ws: seq<Watcher>, ev: Events, w: Watcher)
    requires Ok(s, dummy) && (forall x :: x in ws ==> x in s.back) && w in s.back && w !in ws
    ensures FeedReverse(s, dummy, ws, ev).back[w] == s.back[w]
    decreases |ws|
  {
    hide Ok, Waiting, Feed, FeedReverse;
    if ws == [] {
      FeedReverseNone(s, dummy, ev);
    } else {
      FeedReverseOthers(s, dummy, ws[1..], ev, w);
      FeedReverseHead(s, dummy, ws, ev);
      FeedBack(FeedReverse(s, dummy, ws[1..], ev), dummy, ws[0], ev);
    }
  }

  lemma {:induction false} FeedReverseStep(s: Pend, dummy: Watcher, ws: seq<Watcher>, i: nat, ev: Events)
    requires Ok(s, dummy) && (forall w :: w in ws ==> w in s.back) && i < |ws|
    ensures forall w :: w in ws[i..] || w in ws[i + 1..] ==> w in s.back
    ensures var s1 := FeedReverse(s, dummy, ws[i + 1..], ev);
            InRange(s1, ws[i]) && FeedReverse(s, dummy, ws[i..], ev) == Feed(s1, ws[i], ev)
  {
    hide Ok, Waiting, Feed, FeedReverse;
    assert ws[i..][0] == ws[i] && ws[i..][1..] == ws[i + 1..];
    FeedReverseHead(s, dummy, ws[i..], ev);
  }

  lemma FeedKeepsOrder(s: Pend, dummy: Watcher, w: Watcher, ev: Events, a: Watcher, b: Watcher)
    requires Ok(s, dummy) && w in s.back && a in s.back && b in s.back && b != w && AbsPri(a) == AbsPri(b)
    requires if a == w then s.back[w] == 0 else Earlier(s, a, b)
    ensures InRange(s, w) && Earlier(Feed(s, w, ev), a, b)
  {
    FeedBack(s, dummy, w, ev);
    hide Ok, Feed;
  }

  ghost predicate NoDup(ws: seq<Watcher>) {
    forall a, b :: 0 <= a < b < |ws| ==> ws[a] != ws[b]
  }

  lemma NoDupTail(ws: seq<Watcher>)
    requires NoDup(ws) && ws != []
    ensures NoDup(ws[1..]) && ws[0] !in ws[1..]
  {
  }

  // Feeding moves no other watcher, and one that was not waiting goes on top.
  lemma FeedBack(s: Pend, dummy: Watcher, w: Watcher, ev: Events)
    requires Ok(s, dummy) && w in s.back
    ensures InRange(s, w) && Feed(s, w, ev).back.Keys == s.back.Keys
    ensures forall x :: x in s.back && x != w ==> Feed(s, w, ev).back[x] == s.back[x]
    ensures s.back[w] == 0 ==> forall x :: x in s.back && AbsPri(x) == AbsPri(w) ==> s.back[x] < Feed(s, w, ev).back[w]
  {
    BackInRange(s, dummy, w);
    forall x | x in s.back && AbsPri(x) == AbsPri(w) ensures s.back[x] <= |s.q[AbsPri(w)]| {
      BackInRange(s, dummy, x);
    }
  }

  lemma {:induction false} FeedReverseWaiting(s: Pend, dummy: Watcher, ws: seq<Watcher>, ev: Events)
    requires Ok(s, dummy) && forall w :: w in ws ==> w in s.back
    ensures var was := Waiting(s); var now := Waiting(FeedReverse(s, dummy, ws, ev));
            && now.Keys == was.Keys + (set w | w in ws)
            && forall w :: w in now ==> now[w] == (if w in was then was[w] else {}) + (if w in ws then ev else {})
    decreases |ws|
  {
    hide Ok, Feed, Waiting, FeedReverse;
    if ws == [] {
      FeedReverseNone(s, dummy, ev);
    } else {
      var s1 := FeedReverse(s, dummy, ws[1..], ev);
      FeedReverseHead(s, dummy, ws, ev);
      FeedOk(s1, dummy, ws[0], ev);
      FeedReverseWaiting(s, dummy, ws[1..], ev);
      assert forall w :: w in ws <==> w == ws[0] || w in ws[1..];
    }
  }

  lemma {:induction false} FeedReverseOrder(s: Pend, dummy: Watcher, ws: seq<Watcher>, ev: Events, i: nat, j: nat)
    requires Ok(s, dummy) && forall w :: w in ws ==> w in s.back
    requires i < j < |ws| && ws[i] != ws[j] && AbsPri(ws[i]) == AbsPri(ws[j])
    requires NoDup(ws) && ws[i] !in Waiting(s) && ws[j] !in Waiting(s)
    ensures Earlier(FeedReverse(s, dummy, ws, ev), ws[i], ws[j])
    decreases i
  {
    hide Ok, Waiting, Feed, FeedReverse, NoDup, Earlier;
    var rest := ws[1..];
    NoDupTail(ws);
    assert rest[j - 1] == ws[j] && (i > 0 ==> rest[i - 1] == ws[i]);
    FeedReverseHead(s, dummy, ws, ev);
    if i == 0 {
      BackInRange(s, dummy, ws[0]);
      FeedReverseOthers(s, dummy, rest, ev, ws[0]);
    } else {
      FeedReverseOrder(s, dummy, rest, ev, i - 1, j - 1);
    }
    FeedKeepsOrder(FeedReverse(s, dummy, rest, ev), dummy, ws[0], ev, ws[i], ws[j]);
  }

  /* ---------- any interleaving of feeding, clearing and invoking ---------- */

  datatype Act = DoFeed(w: Watcher, ev: Events) | DoClear(w: Watcher) | DoPop(p: nat)

  // What an observer sees: popping a cancelled slot is invisible.
  datatype Item = Fed(w: Watcher, ev: Events) | Cleared(w: Watcher) | Invoked(w: Watcher, ev: Events)

  predicate CanDo(s: Pend, a: Act) {
    match a
    case DoFeed(w, _) => InRange(s, w)
    case DoClear(w) => InRange(s, w)
    case DoPop(p) => p < |s.q| && s.q[p] != []
  }

  function Step(s: Pend, dummy: Watcher, a: Act): Pend
    requires CanDo(s, a)
  {
    match a
    case DoFeed(w, ev) => Feed(s, w, ev)
    case DoClear(w) => Clear(s, dummy, w)
    case DoPop(p) => PopState(s, dummy, p)
  }

  function Seen(s: Pend, dummy: Watcher, a: Act): seq<Item>
    requires CanDo(s, a)
  {
    match a
    case DoFeed(w, ev) => [Fed(w, ev)]
    case DoClear(w) => [Cleared(w)]
    case DoPop(p) => if Top(s, p).w == dummy then [] else [Invoked(Top(s, p).w, Top(s, p).events)]
  }

  predicate Runs(s: Pend, dummy: Watcher, acts: seq<Act>)
    decreases |acts|
  {
    acts == [] || (CanDo(s, acts[0]) && Runs(Step(s, dummy, acts[0]), dummy, acts[1..]))
  }

  function Final(s: Pend, dummy: Watcher, acts: seq<Act>): Pend
    requires Runs(s, dummy, acts)
    decreases |acts|
  {
    if acts == [] then s else Final(Step(s, dummy, acts[0]), dummy, acts[1..])
  }

  function Trace(s: Pend, dummy: Watcher, acts: seq<Act>): seq<Item>
    requires Runs(s, dummy, acts)
    decreases |acts|
  {
    if acts == [] then [] else Seen(s, dummy, acts[0]) + Trace(Step(s, dummy, acts[0]), dummy, acts[1..])
  }

  // The specification: the union of everything fed to w since it was last invoked or cleared.
  function Due(trace: seq<Item>, w: Watcher): Option<Events> {
    if trace == [] then None
    else
      var before, last := trace[..|trace| - 1], trace[|trace| - 1];
      if last.w != w then Due(before, w)
      else match last
        case Fed(_, ev) => Some(match Due(before, w) case None => ev case Some(was) => was + ev)
        case _ => None
  }

  ghost predicate Agrees(s: Pend, trace: seq<Item>) {
    forall w :: w in s.back ==> Due(trace, w) == if w in Waiting(s) then Some(Waiting(s)[w]) else None
  }

  // Every invocation hands over exactly what was due.
  ghost predicate Faithful(trace: seq<Item>) {
    forall k :: 0 <= k < |trace| && trace[k].Invoked? ==> Due(trace[..k], trace[k].w) == Some(trace[k].ev)
  }

  lemma DueSnoc(trace: seq<Item>, item: Item, w: Watcher)
    ensures Due(trace + [item], w) ==
            if item.w != w then Due(trace, w)
            else if item.Fed? then Some(match Due(trace, w) case None => item.ev case Some(was) => was + item.ev)
            else None
  {
    assert (trace + [item])[..|trace|] == trace;
  }

  lemma FaithfulSnoc(trace: seq<Item>, item: Item)
    requires Faithful(trace) && (item.Invoked? ==> Due(trace, item.w) == Some(item.ev))
    ensures Faithful(trace + [item])
  {
    hide Due;
    var trace' := trace + [item];
    forall k | 0 <= k < |trace'| && trace'[k].Invoked? ensures Due(trace'[..k], trace'[k].w) == Some(trace'[k].ev) {
      assert trace'[..k] == if k < |trace| then trace[..k] else trace;
    }
  }

  // An item that tells exactly what happened to its watcher.
  lemma ItemAgrees(s: Pend, s': Pend, trace: seq<Item>, item: Item)
    requires Agrees(s, trace) && s'.back.Keys == s.back.Keys && item.w in s.back
    requires Waiting(s') == match item
                            case Fed(w, ev) => Waiting(s)[w := if w in Waiting(s) then Waiting(s)[w] + ev else ev]
                            case _ => Waiting(s) - {item.w}
    ensures Agrees(s', trace + [item])
  {
    hide Waiting, Due;
    forall w | w in s'.back
      ensures Due(trace + [item], w) == if w in Waiting(s') then Some(Waiting(s')[w]) else None
    {
      DueSnoc(trace, item, w);
    }
  }

  lemma StepAgrees(s: Pend, dummy: Watcher, a: Act, trace: seq<Item>)
    requires Ok(s, dummy) && CanDo(s, a) && Agrees(s, trace) && Faithful(trace)
    ensures Ok(Step(s, dummy, a), dummy)
    ensures Agrees(Step(s, dummy, a), trace + Seen(s, dummy, a)) && Faithful(trace + Seen(s, dummy, a))
  {
    hide Ok, Waiting, Feed, Clear, PopState, Faithful, Due;
    var s', items := Step(s, dummy, a), Seen(s, dummy, a);
    match a {
      case DoFeed(w, ev) => FeedOk(s, dummy, w, ev);
      case DoClear(w) => ClearOk(s, dummy, w);
      case DoPop(p) =>
        AllPriorities(s, dummy);
        PopOk(s, dummy, p);
    }
    if items == [] {
      assert trace + items == trace;
    } else {
      ItemAgrees(s, s', trace, items[0]);
      FaithfulSnoc(trace, items[0]);
    }
  }

  lemma {:induction false} RunAgrees(s: Pend, dummy: Watcher, acts: seq<Act>, trace: seq<Item>)
    requires Ok(s, dummy) && Runs(s, dummy, acts) && Agrees(s, trace) && Faithful(trace)
    ensures Ok(Final(s, dummy, acts), dummy)
    ensures Agrees(Final(s, dummy, acts), trace + Trace(s, dummy, acts)) && Faithful(trace + Trace(s, dummy, acts))
    decreases |acts|
  {
    hide Ok, Agrees, Faithful, Step, Seen, CanDo;
    if acts == [] {
      assert trace + Trace(s, dummy, acts) == trace;
    } else {
      StepAgrees(s, dummy, acts[0], trace);
      RunAgrees(Step(s, dummy, acts[0]), dummy, acts[1..], trace + Seen(s, dummy, acts[0]));
      assert trace + Trace(s, dummy, acts) ==
          (trace + Seen(s, dummy, acts[0])) + Trace(Step(s, dummy, acts[0]), dummy, acts[1..]);
    }
  }

  /** Over every run: back-indices and entries stay mutually inverse, and every invocation of a
      watcher carries the union of the events fed since its previous invocation or clearing;
      a watcher with nothing due is never invoked. */
  lemma PendingRuns(s: Pend, dummy: Watcher, acts: seq<Act>)
    requires Ok(s, dummy) && Waiting(s) == map[] && Runs(s, dummy, acts)
    ensures Ok(Final(s, dummy, acts), dummy)
    ensures Faithful(Trace(s, dummy, acts)) && Agrees(Final(s, dummy, acts), Trace(s, dummy, acts))
  {
    RunAgrees(s, dummy, acts, []);
    assert [] + Trace(s, dummy, acts) == Trace(s, dummy, acts);
  }
}
