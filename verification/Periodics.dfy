/**
 Absolute timers: when a periodic fires next, and what happens to all of them after the wall
 clock has jumped. Times are real numbers, so there is no rounding.
 */
module Periodics {
  import opened TimerHeap

  const MIN_INTERVAL: real := 0.0001220703125

  function StepSize(interval: real): (r: real)
    requires interval > 0.0
    ensures r >= interval && r > 0.0
  {
    if interval > MIN_INTERVAL then interval else MIN_INTERVAL
  }

  // k whole intervals after `from`
  function Slot(from: real, interval: real, k: int): real {
    from + interval * k as real
  }

  // The k-range of a time: from + interval * k <= now < from + interval * (k + 1)
  function SlotBefore(from: real, interval: real, now: real): (k: int)
    requires interval > 0.0
    ensures Slot(from, interval, k) <= now < Slot(from, interval, k + 1)
  {
    var k := ((now - from) / interval).Floor;
    FloorBounds(now - from, interval);
    k
  }

  lemma FloorBounds(d: real, interval: real)
    requires interval > 0.0
    ensures var k := (d / interval).Floor; interval * (k as real) <= d < interval * ((k + 1) as real)
  {
    var q := d / interval;
    Scaled(interval, d, q, q.Floor as real, (q.Floor + 1) as real);
  }

  lemma Scaled(a: real, d: real, q: real, lo: real, hi: real)
    requires a > 0.0 && a * q == d && lo <= q < hi
    ensures a * lo <= d < a * hi
  {
    MulLe(a, lo, q);
    MulLt(a, q, hi);
  }

  lemma MulLe(a: real, x: real, y: real)
    requires a > 0.0 && x <= y
    ensures a * x <= a * y
  {
  }

  lemma Cancel(a: real, z: real)
    requires a > 0.0 && a * z == 0.0
    ensures z == 0.0
  {
    if z > 0.0 {
      MulLt(a, 0.0, z);
    } else if z < 0.0 {
      MulLt(a, z, 0.0);
    }
  }

  lemma MulLt(a: real, x: real, y: real)
    requires a > 0.0 && x < y
    ensures a * x < a * y
  {
  }

  // The multiple of the step size, counted from the offset, that the search starts at.
  function Base(offset: real, interval: real, now: real): real
    requires interval > 0.0
  {
    Slot(offset, StepSize(interval), SlotBefore(offset, StepSize(interval), now))
  }

  // The least of from, from + interval, ... beyond now, counted in whole intervals.
  ghost predicate LeastSlotAfter(at: real, from: real, interval: real, now: real) {
    && now < at
    && (exists k :: at == Slot(from, interval, k))
    && (forall k :: now < Slot(from, interval, k) ==> at <= Slot(from, interval, k))
  }

  /** periodic_recalc: the least time after now that lies whole intervals after the starting point. */
  method Recalc(offset: real, interval: real, now: real) returns (at: real)
    requires interval > 0.0
    ensures LeastSlotAfter(at, Base(offset, interval, now), interval, now)
    ensures at <= now + interval
  {
    var step := StepSize(interval);
    at := offset + step * ((now - offset) / step).Floor as real;
    ghost var from, n := at, 0;
    assert from == Base(offset, interval, now);
    while at <= now
      invariant at == Slot(from, interval, n)
      invariant at <= now + interval
      decreases ((now - at) / interval).Floor + 1
    {
      FloorDrops(now, at, interval);
      at := at + interval;
      n := n + 1;
    }
    SlotIsLeast(from, interval, now, n);
  }

  lemma FloorDrops(now: real, at: real, interval: real)
    requires interval > 0.0 && at <= now
    ensures ((now - at) / interval).Floor >= 0
    ensures ((now - (at + interval)) / interval).Floor == ((now - at) / interval).Floor - 1
  {
    var x := (now - at) / interval;
    var y := (now - (at + interval)) / interval;
    assert interval * x == now - at && interval * y == now - at - interval;
    assert interval * (x - y - 1.0) == 0.0;
    Cancel(interval, x - y - 1.0);
  }

  lemma SlotOrder(from: real, interval: real, j: int, k: int)
    requires interval > 0.0 && j <= k
    ensures Slot(from, interval, j) <= Slot(from, interval, k)
  {
    MulLe(interval, j as real, k as real);
  }

  lemma SlotIsLeast(from: real, interval: real, now: real, n: int)
    requires interval > 0.0 && now < Slot(from, interval, n) <= now + interval
    ensures LeastSlotAfter(Slot(from, interval, n), from, interval, now)
  {
    forall k | now < Slot(from, interval, k) ensures Slot(from, interval, n) <= Slot(from, interval, k) {
      if k < n {
        SlotOrder(from, interval, k, n - 1);
        SlotShift(from, interval, n - 1, 1);
      } else {
        SlotOrder(from, interval, n, k);
      }
    }
  }

  lemma SlotShift(from: real, interval: real, m: int, k: int)
    ensures Slot(Slot(from, interval, m), interval, k) == Slot(from, interval, m + k)
  {
    assert (m + k) as real == m as real + k as real;
  }

  // Counting from another slot of the same grid gives the same answer; counting from a point
  // off the grid never does.
  lemma SameGrid(at: real, from: real, interval: real, now: real, m: int)
    requires interval > 0.0 && LeastSlotAfter(at, Slot(from, interval, m), interval, now)
    ensures LeastSlotAfter(at, from, interval, now)
  {
    var k :| at == Slot(Slot(from, interval, m), interval, k);
    SlotShift(from, interval, m, k);
    assert at == Slot(from, interval, m + k);
    forall j | now < Slot(from, interval, j) ensures at <= Slot(from, interval, j) {
      SlotShift(from, interval, m, j - m);
      assert Slot(from, interval, j) == Slot(Slot(from, interval, m), interval, j - m);
    }
  }

  lemma OffGrid(at: real, base: real, offset: real, interval: real, now: real)
    requires LeastSlotAfter(at, base, interval, now) && LeastSlotAfter(at, offset, interval, now)
    ensures exists m :: base == Slot(offset, interval, m)
  {
    var j :| at == Slot(base, interval, j);
    var k :| at == Slot(offset, interval, k);
    SlotShift(offset, interval, k - j, j);
    var m := k - j;
    assert m as real == k as real - j as real;
    assert base == Slot(offset, interval, m);
  }

  /** A periodic fires at the least offset + k * interval after now, exactly when the search
      starts on that grid; the code starts on it for every interval not below MIN_INTERVAL. */
  lemma RecalcOnGrid(at: real, offset: real, interval: real, now: real)
    requires interval > 0.0 && LeastSlotAfter(at, Base(offset, interval, now), interval, now)
    ensures LeastSlotAfter(at, offset, interval, now) <==>
            exists m :: Base(offset, interval, now) == Slot(offset, interval, m)
    ensures interval >= MIN_INTERVAL ==> LeastSlotAfter(at, offset, interval, now)
  {
    if m :| Base(offset, interval, now) == Slot(offset, interval, m) {
      SameGrid(at, offset, interval, now, m);
    }
    if LeastSlotAfter(at, offset, interval, now) {
      OffGrid(at, Base(offset, interval, now), offset, interval, now);
    }
    if interval >= MIN_INTERVAL {
      var m := SlotBefore(offset, interval, now);
      assert Base(offset, interval, now) == Slot(offset, interval, m);
      SameGrid(at, offset, interval, now, m);
    }
  }

  // Every time that periodic_recalc computes lies on the periodic's own grid.
  ghost predicate MeetsGrid(offset: real, interval: real)
    requires interval > 0.0
  {
    forall now, at :: LeastSlotAfter(at, Base(offset, interval, now), interval, now) ==>
        LeastSlotAfter(at, offset, interval, now)
  }

  // MIN_INTERVAL is a whole number of intervals.
  ghost predicate DividesMinimum(interval: real) {
    exists m :: Slot(0.0, interval, m) == MIN_INTERVAL
  }

  /** Whatever the clock reads: a periodic keeps to its grid exactly if its interval is not below
      MIN_INTERVAL or goes into it a whole number of times. */
  lemma GridForEveryNow(offset: real, interval: real)
    requires interval > 0.0
    ensures MeetsGrid(offset, interval) <==> interval >= MIN_INTERVAL || DividesMinimum(interval)
  {
    if interval >= MIN_INTERVAL || DividesMinimum(interval) {
      forall now, at | LeastSlotAfter(at, Base(offset, interval, now), interval, now)
        ensures LeastSlotAfter(at, offset, interval, now)
      {
        if interval < MIN_INTERVAL {
          BaseOnGrid(offset, interval, now);
        }
        RecalcOnGrid(at, offset, interval, now);
      }
    }
    if MeetsGrid(offset, interval) && interval < MIN_INTERVAL {
      GridDivides(offset, interval);
    }
  }

  lemma BaseOnGrid(offset: real, interval: real, now: real)
    requires 0.0 < interval < MIN_INTERVAL && DividesMinimum(interval)
    ensures exists m :: Base(offset, interval, now) == Slot(offset, interval, m)
  {
    var d :| Slot(0.0, interval, d) == MIN_INTERVAL;
    var k := SlotBefore(offset, MIN_INTERVAL, now);
    assert interval * d as real * k as real == interval * (d * k) as real;
    assert Base(offset, interval, now) == Slot(offset, interval, d * k);
  }

  lemma GridDivides(offset: real, interval: real)
    requires 0.0 < interval < MIN_INTERVAL && MeetsGrid(offset, interval)
    ensures DividesMinimum(interval)
  {
    var now := offset + MIN_INTERVAL;
    var at := now + interval;
    OneStep(offset);
    assert Base(offset, interval, now) == now && Slot(now, interval, 1) == at;
    SlotIsLeast(now, interval, now, 1);
    OffGrid(at, now, offset, interval, now);
    var m :| now == Slot(offset, interval, m);
    assert Slot(0.0, interval, m) == MIN_INTERVAL;
  }

  lemma OneStep(offset: real)
    ensures SlotBefore(offset, MIN_INTERVAL, offset + MIN_INTERVAL) == 1
  {
    var k := SlotBefore(offset, MIN_INTERVAL, offset + MIN_INTERVAL);
    if k < 1 {
      MulLe(MIN_INTERVAL, (k + 1) as real, 1.0);
    } else if k > 1 {
      MulLt(MIN_INTERVAL, 1.0, k as real);
    }
  }

  /** Below MIN_INTERVAL the grid can be missed. */
  lemma ShortIntervalMissesGrid(at: real)
    requires LeastSlotAfter(at, Base(0.0, 0.0001, 0.0002), 0.0001, 0.0002)
    ensures !LeastSlotAfter(at, 0.0, 0.0001, 0.0002)
  {
    var k := SlotBefore(0.0, MIN_INTERVAL, 0.0002);
    assert k == 1;
    if LeastSlotAfter(at, 0.0, 0.0001, 0.0002) {
      OffGrid(at, Base(0.0, 0.0001, 0.0002), 0.0, 0.0001, 0.0002);
    }
  }

  // What a periodic's time has to be once the wall clock reads now.
  ghost predicate Rescheduled(w: Watcher, was: real, now: real)
    reads w`at, w`interval, w`offset, w`reschedule
    requires w.interval >= 0.0
  {
    match w.reschedule
    case Callback(next) => w.at == next(now)
    case NoCallback =>
      if w.interval > 0.0 then LeastSlotAfter(w.at, Base(w.offset, w.interval, now), w.interval, now) else w.at == was
  }

  method RescheduleOne(w: Watcher, now: real)
    requires w.interval >= 0.0
    modifies w`at
    ensures Rescheduled(w, old(w.at), now)
  {
    if w.reschedule.Callback? {
      w.at := w.reschedule.next(now);
    } else if w.interval != 0.0 {
      w.at := Recalc(w.offset, w.interval, now);
    }
  }

  // Slots and watchers still refer to each other; cached times are right below slot m.
  ghost predicate IndexedUpTo(h: seq<Anhe>, n: nat, ws: set<Watcher>, m: nat)
    reads ws
  {
    && HEAP0 + n <= |h| && m <= n
    && (forall i :: HEAP0 <= i < n + HEAP0 ==> h[i].w in ws && h[i].w.active == i)
    && (forall i :: HEAP0 <= i < m + HEAP0 ==> h[i].at == h[i].w.at)
    && (forall w :: w in ws ==> HEAP0 <= w.active < n + HEAP0 && h[w.active].w == w)
  }

  ghost predicate RescheduledUpTo(ws: set<Watcher>, was: map<Watcher, real>, now: real, m: nat)
    reads ws
  {
    && (forall w :: w in ws ==> w in was && w.interval >= 0.0)
    && (forall w :: w in ws && w.active < m + HEAP0 ==> Rescheduled(w, was[w], now))
    && (forall w :: w in ws && w.active >= m + HEAP0 ==> w.at == was[w])
  }

  method RescheduleSlot(heap: array<Anhe>, n: nat, ghost ws: set<Watcher>, i: nat, ghost was: map<Watcher, real>,
      now: real)
    requires i < n && IndexedUpTo(heap[..], n, ws, i) && RescheduledUpTo(ws, was, now, i)
    modifies heap, ws`at
    ensures IndexedUpTo(heap[..], n, ws, i + 1) && RescheduledUpTo(ws, was, now, i + 1)
  {
    hide Rescheduled;
    var w := heap[i + HEAP0].w;
    RescheduleNext(w, heap[..], n, ws, i, was, now);
    heap[i + HEAP0] := Anhe(w.at, w);
  }

  // The time of the watcher in slot i, before the slot caches it.
  method RescheduleNext(w: Watcher, ghost h: seq<Anhe>, ghost n: nat, ghost ws: set<Watcher>, ghost i: nat,
                        ghost was: map<Watcher, real>, now: real)
    requires i < n && IndexedUpTo(h, n, ws, i) && RescheduledUpTo(ws, was, now, i) && w == h[i + HEAP0].w
    modifies w`at
    ensures IndexedUpTo(h, n, ws, i) && RescheduledUpTo(ws, was, now, i + 1)
  {
    hide Rescheduled;
    RescheduleOne(w, now);
  }

  /** periodics_reschedule: every periodic gets its new time and the heap is whole again, however
      the times moved. */
  method Reschedule(periodics: Heap, now: real, ghost was: map<Watcher, real>)
    requires periodics.Valid() && forall w :: w in periodics.ws ==> w.interval >= 0.0
    requires forall w :: w in periodics.ws ==> w in was && was[w] == w.at
    modifies periodics.a, periodics.ws`active, periodics.ws`at
    ensures periodics.Valid()
    ensures forall w :: w in periodics.ws ==> w.interval >= 0.0 && Rescheduled(w, was[w], now)
  {
    hide Rescheduled;
    var heap, n := periodics.a, periodics.cnt;
    ghost var ws := periodics.ws;
    for i := 0 to n
      invariant IndexedUpTo(heap[..], n, ws, i) && RescheduledUpTo(ws, was, now, i)
    {
      RescheduleSlot(heap, n, ws, i, was, now);
    }
    assert Indexed(heap[..], n, ws);
    assert forall w :: w in ws ==> w.interval >= 0.0 && Rescheduled(w, was[w], now);
    hide Indexed, IndexedUpTo;
    Reheap(heap, n, ws);
  }
}
