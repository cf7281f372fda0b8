/**
 The 4-ary heap that holds timers and periodics: an array whose first used slot is HEAP0,
 where every entry caches its watcher's time and every watcher stores its own slot.
 */
module TimerHeap {

  // reschedule_cb: the next time as a function of the current one
  datatype Reschedule = NoCallback | Callback(next: real -> real)

  // A time-based watcher (ev_timer and ev_periodic share the fields the heap needs).
  class Watcher {
    var active: nat     // slot in its heap, 0 when stopped
    const priority: int // may not change while the watcher is active or pending
    var at: real
    var repeat: real    // ev_timer only
    var offset: real    // ev_periodic only
    var interval: real  // ev_periodic only
    var reschedule: Reschedule  // ev_periodic only
  }

  // A heap element: the cached time and the watcher.
  datatype Anhe = Anhe(at: real, w: Watcher)

  const DHEAP: nat := 4
  const HEAP0: nat := DHEAP - 1

  // C's integer division rounds toward zero.
  function TruncDiv(a: int, b: int): int
    requires b > 0
  {
    if a >= 0 then a / b else -((-a) / b)
  }

  function HParent(k: nat): (p: nat)
    requires k >= HEAP0
    ensures HEAP0 <= p <= k
    ensures p == k <==> k == HEAP0
  {
    TruncDiv(k - HEAP0 - 1, DHEAP) + HEAP0
  }

  /* ---------- the invariant of verify_heap ---------- */

  // Slots and watchers refer to each other, one to one; cached times are right.
  ghost predicate Indexed(h: seq<Anhe>, n: nat, ws: set<Watcher>)
    reads ws
  {
    && HEAP0 + n <= |h|
    && (forall i :: HEAP0 <= i < n + HEAP0 ==> h[i].w in ws && h[i].w.active == i && h[i].at == h[i].w.at)
    && (forall w :: w in ws ==> HEAP0 <= w.active < n + HEAP0 && h[w.active].w == w)
  }

  ghost predicate Ordered(h: seq<Anhe>, n: nat)
    requires HEAP0 + n <= |h|
  {
    forall k :: HEAP0 < k < n + HEAP0 ==> h[HParent(k)].at <= h[k].at
  }

  // The heap with a hole at slot k, whose entry `he` is kept aside.
  ghost predicate IndexedBut(h: seq<Anhe>, n: nat, ws: set<Watcher>, k: nat, he: Anhe)
    reads ws
  {
    && HEAP0 + n <= |h|
    && HEAP0 <= k < n + HEAP0
    && he.w in ws && he.at == he.w.at
    && (forall i :: HEAP0 <= i < n + HEAP0 && i != k ==>
        h[i].w in ws && h[i].w != he.w && h[i].w.active == i && h[i].at == h[i].w.at)
    && (forall w :: w in ws && w != he.w ==> HEAP0 <= w.active < n + HEAP0 && w.active != k && h[w.active].w == w)
  }

  function AtWith(h: seq<Anhe>, k: nat, he: Anhe, i: nat): real
    requires i < |h|
  {
    if i == k then he.at else h[i].at
  }

  // With `he` back in slot k, only edges out of k (down) or into k (up) may be out of order,
  // and k's parent is in order with k's children.
  ghost predicate OrderedButBelow(h: seq<Anhe>, n: nat, k: nat, he: Anhe)
    requires HEAP0 + n <= |h| && HEAP0 <= k < n + HEAP0
  {
    && (forall j :: HEAP0 < j < n + HEAP0 && HParent(j) != k ==> AtWith(h, k, he, HParent(j)) <= AtWith(h, k, he, j))
    && (k > HEAP0 ==> forall j :: HEAP0 < j < n + HEAP0 && HParent(j) == k ==> h[HParent(k)].at <= h[j].at)
  }

  ghost predicate OrderedButAbove(h: seq<Anhe>, n: nat, k: nat, he: Anhe)
    requires HEAP0 + n <= |h| && HEAP0 <= k < n + HEAP0
  {
    && (forall j :: HEAP0 < j < n + HEAP0 && j != k ==> AtWith(h, k, he, HParent(j)) <= AtWith(h, k, he, j))
    && (k > HEAP0 ==> forall j :: HEAP0 < j < n + HEAP0 && HParent(j) == k ==> h[HParent(k)].at <= h[j].at)
  }

  // heap [k] = heap [from]: the hole moves from k to `from`
  method MoveHole(heap: array<Anhe>, k: nat, from: nat, ghost n: nat, ghost ws: set<Watcher>, ghost he: Anhe)
    requires IndexedBut(heap[..], n, ws, k, he) && HEAP0 <= from < n + HEAP0 && from != k
    modifies heap, heap[from].w`active
    ensures heap[..] == old(heap[..])[k := old(heap[from])]
    ensures IndexedBut(heap[..], n, ws, from, he)
  {
    heap[k] := heap[from];
    heap[k].w.active := k;
  }

  // heap [k] = he: the entry kept aside goes back
  method FillHole(heap: array<Anhe>, k: nat, he: Anhe, ghost n: nat, ghost ws: set<Watcher>)
    requires IndexedBut(heap[..], n, ws, k, he)
    modifies heap, he.w`active
    ensures heap[..] == old(heap[..])[k := he]
    ensures Indexed(heap[..], n, ws)
  {
    heap[k] := he;
    he.w.active := k;
  }

  lemma UpStep(h: seq<Anhe>, m: nat, k: nat, he: Anhe)
    requires HEAP0 + m <= |h| && HEAP0 < k < m + HEAP0
    requires OrderedButAbove(h, m, k, he) && he.at < h[HParent(k)].at
    ensures OrderedButAbove(h[k := h[HParent(k)]], m, HParent(k), he)
  {
    var p := HParent(k);
    var h' := h[k := h[p]];
    forall j | HEAP0 < j < m + HEAP0 && j != p
      ensures AtWith(h', p, he, HParent(j)) <= AtWith(h', p, he, j)
    {
      assert j != k ==> AtWith(h, k, he, HParent(j)) <= AtWith(h, k, he, j);
    }
    if p > HEAP0 {
      assert AtWith(h, k, he, HParent(p)) <= AtWith(h, k, he, p);
      forall j | HEAP0 < j < m + HEAP0 && HParent(j) == p ensures h'[HParent(p)].at <= h'[j].at {
        assert j != k ==> AtWith(h, k, he, p) <= AtWith(h, k, he, j);
      }
    }
  }

  lemma UpDone(h: seq<Anhe>, m: nat, k: nat, he: Anhe)
    requires HEAP0 + m <= |h| && HEAP0 <= k < m + HEAP0
    requires OrderedButAbove(h, m, k, he) && (k == HEAP0 || h[HParent(k)].at <= he.at)
    ensures Ordered(h[k := he], m)
  {
    forall j | HEAP0 < j < m + HEAP0 ensures h[k := he][HParent(j)].at <= h[k := he][j].at {
      assert j != k ==> AtWith(h, k, he, HParent(j)) <= AtWith(h, k, he, j);
    }
  }

  // towards the root; `m` bounds the part of the heap whose order is at stake
  method Upheap(heap: array<Anhe>, k0: nat, ghost n: nat, ghost m: nat, ghost ws: set<Watcher>)
    requires m <= n && HEAP0 <= k0 < m + HEAP0 && HEAP0 + n <= heap.Length
    requires IndexedBut(heap[..], n, ws, k0, heap[k0])
    requires OrderedButAbove(heap[..], m, k0, heap[k0])
    modifies heap, ws`active
    ensures Indexed(heap[..], n, ws)
    ensures Ordered(heap[..], m)
  {
    var he := heap[k0];
    var k := k0;
    while true
      invariant HEAP0 <= k <= k0
      invariant IndexedBut(heap[..], n, ws, k, he)
      invariant OrderedButAbove(heap[..], m, k, he)
      decreases k
    {
      var p := HParent(k);
      if p == k || heap[p].at <= he.at {
        break;
      }
      UpStep(heap[..], m, k, he);
      MoveHole(heap, k, p, n, ws, he);
      k := p;
    }
    UpDone(heap[..], m, k, he);
    FillHole(heap, k, he, n, ws);
  }

  lemma DownStep(h: seq<Anhe>, n: nat, k: nat, c: nat, he: Anhe)
    requires HEAP0 + n <= |h| && HEAP0 <= k < n + HEAP0 && HEAP0 < c < n + HEAP0
    requires OrderedButBelow(h, n, k, he) && HParent(c) == k && h[c].at < he.at
    requires forall j :: HEAP0 < j < n + HEAP0 && HParent(j) == k ==> h[c].at <= h[j].at
    ensures OrderedButBelow(h[k := h[c]], n, c, he)
  {
    var h' := h[k := h[c]];
    forall j | HEAP0 < j < n + HEAP0 && HParent(j) != c
      ensures AtWith(h', c, he, HParent(j)) <= AtWith(h', c, he, j)
    {
      assert HParent(j) != k ==> AtWith(h, k, he, HParent(j)) <= AtWith(h, k, he, j);
    }
    forall j | HEAP0 < j < n + HEAP0 && HParent(j) == c ensures h'[HParent(c)].at <= h'[j].at {
      assert AtWith(h, k, he, HParent(j)) <= AtWith(h, k, he, j);
    }
  }

  lemma DownDone(h: seq<Anhe>, n: nat, k: nat, he: Anhe)
    requires HEAP0 + n <= |h| && HEAP0 <= k < n + HEAP0
    requires OrderedButBelow(h, n, k, he)
    requires forall j :: HEAP0 < j < n + HEAP0 && HParent(j) == k ==> he.at <= h[j].at
    ensures Ordered(h[k := he], n)
  {
    forall j | HEAP0 < j < n + HEAP0 ensures h[k := he][HParent(j)].at <= h[k := he][j].at {
      assert HParent(j) != k ==> AtWith(h, k, he, HParent(j)) <= AtWith(h, k, he, j);
    }
  }

  // The four-way comparison of downheap: the child of k with the least time, if there is one.
  method MinChild(heap: array<Anhe>, n: nat, k: nat) returns (found: bool, c: nat)
    requires HEAP0 <= k < n + HEAP0 && HEAP0 + n <= heap.Length
    ensures found <==> DHEAP * (k - HEAP0) + HEAP0 + 1 < n + HEAP0
    ensures found ==> HEAP0 < c < n + HEAP0 && HParent(c) == k
    ensures found ==> forall j :: HEAP0 < j < n + HEAP0 && HParent(j) == k ==> heap[c].at <= heap[j].at
    ensures !found ==> forall j :: HEAP0 < j < n + HEAP0 ==> HParent(j) != k
  {
    var pos, end := DHEAP * (k - HEAP0) + HEAP0 + 1, n + HEAP0;
    c := pos;
    found := pos < end;
    if pos + DHEAP - 1 < end {
      if heap[pos + 1].at < heap[c].at { c := pos + 1; }
      if heap[pos + 2].at < heap[c].at { c := pos + 2; }
      if heap[pos + 3].at < heap[c].at { c := pos + 3; }
    } else if pos < end {
      if pos + 1 < end && heap[pos + 1].at < heap[c].at { c := pos + 1; }
      if pos + 2 < end && heap[pos + 2].at < heap[c].at { c := pos + 2; }
      // pos + 3 is past the end here, or the fast path would have been taken
    }
    assert forall j :: HEAP0 < j < n + HEAP0 && HParent(j) == k ==> pos <= j <= pos + 3;
  }

  // away from the root
  method Downheap(heap: array<Anhe>, n: nat, k0: nat, ghost ws: set<Watcher>)
    requires HEAP0 <= k0 < n + HEAP0 && HEAP0 + n <= heap.Length
    requires IndexedBut(heap[..], n, ws, k0, heap[k0])
    requires OrderedButBelow(heap[..], n, k0, heap[k0])
    modifies heap, ws`active
    ensures Indexed(heap[..], n, ws)
    ensures Ordered(heap[..], n)
  {
    var he := heap[k0];
    var k := k0;
    while true
      invariant HEAP0 <= k < n + HEAP0
      invariant IndexedBut(heap[..], n, ws, k, he)
      invariant OrderedButBelow(heap[..], n, k, he)
      decreases n + HEAP0 - k
    {
      var found, c := MinChild(heap, n, k);
      if !found || he.at <= heap[c].at {
        break;
      }
      DownStep(heap[..], n, k, c, he);
      MoveHole(heap, k, c, n, ws, he);
      k := c;
    }
    DownDone(heap[..], n, k, he);
    FillHole(heap, k, he, n, ws);
  }

  // Everything is in order except, possibly, the entry in slot k itself.
  ghost predicate OrderedAround(h: seq<Anhe>, n: nat, k: nat)
    requires HEAP0 + n <= |h| && HEAP0 <= k < n + HEAP0
  {
    && (forall j :: HEAP0 < j < n + HEAP0 && j != k && HParent(j) != k ==> h[HParent(j)].at <= h[j].at)
    && (k > HEAP0 ==> forall j :: HEAP0 < j < n + HEAP0 && HParent(j) == k ==> h[HParent(k)].at <= h[j].at)
  }

  // move an element suitably so it is in a correct place
  method Adjustheap(heap: array<Anhe>, n: nat, k: nat, ghost ws: set<Watcher>)
    requires HEAP0 <= k < n + HEAP0 && HEAP0 + n <= heap.Length
    requires IndexedBut(heap[..], n, ws, k, heap[k])
    requires OrderedAround(heap[..], n, k)
    modifies heap, ws`active
    ensures Indexed(heap[..], n, ws)
    ensures Ordered(heap[..], n)
  {
    if k > HEAP0 && heap[k].at <= heap[HParent(k)].at {
      Upheap(heap, k, n, n, ws);
    } else {
      Downheap(heap, n, k, ws);
    }
  }

  lemma IndexedHole(h: seq<Anhe>, n: nat, ws: set<Watcher>, k: nat)
    requires Indexed(h, n, ws) && HEAP0 <= k < n + HEAP0
    ensures IndexedBut(h, n, ws, k, h[k])
  {
    assert h[k].w in ws;
  }

  /** Rebuilds the heap from arbitrary keys: element by element, each moved up into the
      part already in order. */
  method Reheap(heap: array<Anhe>, n: nat, ghost ws: set<Watcher>)
    requires Indexed(heap[..], n, ws)
    modifies heap, ws`active
    ensures Indexed(heap[..], n, ws)
    ensures Ordered(heap[..], n)
  {
    for i := 0 to n
      invariant Indexed(heap[..], n, ws)
      invariant Ordered(heap[..], i)
    {
      IndexedHole(heap[..], n, ws, i + HEAP0);
      Upheap(heap, i + HEAP0, n, i + 1, ws);
    }
  }

  /** The first entry of an ordered heap has the least time. */
  lemma {:induction false} RootIsLeast(h: seq<Anhe>, n: nat, k: nat)
    requires HEAP0 + n <= |h| && Ordered(h, n) && HEAP0 <= k < n + HEAP0
    ensures h[HEAP0].at <= h[k].at
    decreases k
  {
    if k > HEAP0 {
      RootIsLeast(h, n, HParent(k));
    }
  }

  lemma SamePrefix(h: seq<Anhe>, h': seq<Anhe>, n: nat, ws: set<Watcher>)
    requires Indexed(h, n, ws) && Ordered(h, n) && h <= h'
    ensures Indexed(h', n, ws) && Ordered(h', n)
  {
  }

  lemma AppendSlot(h: seq<Anhe>, n: nat, ws: set<Watcher>, w: Watcher)
    requires Indexed(h, n, ws) && Ordered(h, n) && w !in ws && n + HEAP0 < |h|
    ensures var h' := h[n + HEAP0 := Anhe(w.at, w)];
            && IndexedBut(h', n + 1, ws + {w}, n + HEAP0, h'[n + HEAP0])
            && OrderedButAbove(h', n + 1, n + HEAP0, h'[n + HEAP0])
  {
    forall j | HEAP0 < j < n + 1 + HEAP0 ensures HParent(j) != n + HEAP0 {}
  }

  // The entry of w is replaced by the last one.
  lemma RemoveSlot(h: seq<Anhe>, n: nat, ws: set<Watcher>, w: Watcher)
    requires n > 0 && Indexed(h, n, ws) && Ordered(h, n) && w in ws
    ensures var last := n - 1 + HEAP0; var h' := h[w.active := h[last]];
            if w.active < last then
              IndexedBut(h', n - 1, ws - {w}, w.active, h'[w.active]) && OrderedAround(h', n - 1, w.active)
            else
              Indexed(h, n - 1, ws - {w}) && Ordered(h, n - 1)
  {
    var last, k := n - 1 + HEAP0, w.active;
    if k < last && k > HEAP0 {
      forall j | HEAP0 < j < n - 1 + HEAP0 && HParent(j) == k ensures h[HParent(k)].at <= h[j].at {
        assert h[HParent(k)].at <= h[k].at <= h[j].at;
      }
    }
  }

  // The time of h[k]'s watcher has changed; everything else is as in a good heap.
  lemma RetimedSlot(h: seq<Anhe>, n: nat, k: nat, he: Anhe)
    requires HEAP0 + n <= |h| && Ordered(h, n) && HEAP0 <= k < n + HEAP0
    ensures OrderedAround(h[k := he], n, k)
    ensures k == HEAP0 ==> OrderedButBelow(h[k := he], n, k, he)
  {
    if k > HEAP0 {
      forall j | HEAP0 < j < n + HEAP0 && HParent(j) == k ensures h[HParent(k)].at <= h[j].at {
        assert h[HParent(k)].at <= h[k].at <= h[j].at;
      }
    }
  }

  /** An array of heap entries with its count: `timers`/`timercnt`, `periodics`/`periodiccnt`. */
  class Heap {
    var a: array<Anhe>
    var cnt: nat
    ghost var ws: set<Watcher>  // the watchers in the heap

    ghost predicate Valid()
      reads this, a, ws
    {
      Indexed(a[..], cnt, ws) && Ordered(a[..], cnt)
    }

    lemma AllActive()
      requires Valid()
      ensures (forall w :: w in ws ==> w.active != 0) && (cnt == 0 ==> ws == {})
    {
    }

    lemma InHeap(w: Watcher)
      requires Valid() && w in ws
      ensures HEAP0 <= w.active < cnt + HEAP0 <= a.Length
    {
    }

    constructor (filler: Watcher)
      ensures Valid() && fresh(a) && ws == {} && cnt == 0
    {
      a := new Anhe[HEAP0](_ => Anhe(0.0, filler));
      cnt, ws := 0, {};
    }

    // array_needsize: a growing copy of the entries
    method NeedSize(need: nat, filler: Anhe)
      modifies this`a
      ensures need <= a.Length && (a == old(a) || fresh(a))
      ensures old(a[..]) <= a[..]
    {
      if need > a.Length {
        var ncur := 2 * (a.Length + 1);
        while need > ncur {
          ncur := 2 * ncur;
        }
        var bigger := new Anhe[ncur](_ => filler);
        forall i | 0 <= i < a.Length {
          bigger[i] := a[i];
        }
        a := bigger;
      }
    }

    // the part of ev_timer_start and ev_periodic_start that enters w into the heap
    method Insert(w: Watcher)
      requires Valid() && w !in ws
      modifies this, a, ws`active, w`active
      ensures Valid() && (a == old(a) || fresh(a))
      ensures ws == old(ws) + {w} && cnt == old(cnt) + 1
    {
      hide Indexed, Ordered;
      ghost var h := a[..];
      NeedSize(cnt + 1 + HEAP0, Anhe(w.at, w));
      SamePrefix(h, a[..], cnt, ws);
      Place(w);
    }

    method Place(w: Watcher)
      requires Valid() && w !in ws && cnt + HEAP0 < a.Length
      modifies this`cnt, this`ws, a, ws`active, w`active
      ensures Valid()
      ensures ws == old(ws) + {w} && cnt == old(cnt) + 1
    {
      hide Indexed, Ordered, IndexedBut, OrderedButAbove;
      cnt := cnt + 1;
      w.active := cnt + HEAP0 - 1;
      ghost var h := a[..];
      AppendSlot(h, cnt - 1, ws, w);
      a[w.active] := Anhe(w.at, w);
      ws := ws + {w};
      assert a[..] == h[w.active := Anhe(w.at, w)];
      Upheap(a, w.active, cnt, cnt, ws);
    }

    // the part of ev_timer_stop and ev_periodic_stop that takes w out of the heap
    method Remove(w: Watcher)
      requires Valid() && w in ws
      modifies this`cnt, this`ws, a, ws`active
      ensures Valid() && w.active == 0 && ws == old(ws) - {w} && cnt == old(cnt) - 1
    {
      hide Indexed, Ordered, IndexedBut, OrderedAround;
      var active := w.active;
      InHeap(w);
      ghost var h := a[..];
      RemoveSlot(h, cnt, ws, w);
      cnt := cnt - 1;
      ws := ws - {w};
      if active < cnt + HEAP0 {
        a[active] := a[cnt + HEAP0];
        assert a[..] == h[active := h[cnt + HEAP0]];
        Adjustheap(a, cnt, active, ws);
      }
      w.active := 0;
    }

    // ev_at (w) = at; ANHE_at_cache; adjustheap
    method Retime(w: Watcher, at: real)
      requires Valid() && w in ws
      modifies a, ws`active, w`at
      ensures Valid() && w.at == at
    {
      var k := w.active;
      RetimedSlot(a[..], cnt, k, Anhe(at, w));
      w.at := at;
      a[k] := Anhe(at, w);
      Adjustheap(a, cnt, k, ws);
    }

    // The same for the first entry, with downheap.
    method RetimeFirst(at: real)
      requires Valid() && cnt > 0
      modifies a, ws`active, a[HEAP0].w`at
      ensures Valid() && old(a[HEAP0].w).at == at
    {
      var w := a[HEAP0].w;
      RetimedSlot(a[..], cnt, HEAP0, Anhe(at, w));
      w.at := at;
      a[HEAP0] := Anhe(at, w);
      Downheap(a, cnt, HEAP0, ws);
    }

    // The watcher with the earliest time.
    function First(): (w: Watcher)
      requires Valid() && cnt > 0
      reads this, a, ws
      ensures w in ws && a[HEAP0] == Anhe(w.at, w) && forall v :: v in ws ==> w.at <= v.at
    {
      ghost var w := a[HEAP0].w;
      assert forall v :: v in ws ==> w.at <= v.at by {
        forall v | v in ws ensures w.at <= v.at {
          RootIsLeast(a[..], cnt, v.active);
        }
      }
      a[HEAP0].w
    }
  }
}
