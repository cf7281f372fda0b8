/**
 The ring of nameservers: a doubly linked circle with a count of the servers that are up, and a
 head that moves on with every pick.
 */
module NameserverRing {

  class Server {
    const address: int
    var up: bool
    var next: Server?
    var prev: Server?

    constructor (address: int)
      ensures this.address == address && up
    {
      this.address := address;
      up := true;
    }
  }

  class Request {
    var ns: Server?
    var txCount: nat
  }

  /* ---------- picking, on the order of the ring ---------- */

  // The servers that are up, in ring order from the head on.
  ghost function Live(ring: seq<Server>, ups: set<Server>): seq<Server> {
    if ring == [] then []
    else (if ring[0] in ups then [ring[0]] else []) + Live(ring[1..], ups)
  }

  ghost function FirstUp(ring: seq<Server>, ups: set<Server>): (k: nat)
    ensures k <= |ring| && (k < |ring| ==> ring[k] in ups)
    ensures forall s :: s in ring[..k] ==> s !in ups
  {
    if ring == [] || ring[0] in ups then 0
    else
      var k := FirstUp(ring[1..], ups);
      assert ring[..k + 1] == [ring[0]] + ring[1..][..k];
      k + 1
  }

  ghost function Turned(ring: seq<Server>, k: nat): (r: seq<Server>)
    requires k <= |ring|
    ensures |r| == |ring| && (forall s :: s in r ==> s in ring) && (forall s :: s in ring ==> s in r)
  {
    assert ring == ring[..k] + ring[k..];
    ring[k..] + ring[..k]
  }

  ghost predicate SomeUp(ring: seq<Server>, ups: set<Server>) {
    exists s :: s in ring && s in ups
  }

  // Who is picked, and the ring afterwards.
  ghost function Picked(ring: seq<Server>, ups: set<Server>): Server
    requires SomeUp(ring, ups)
  {
    UpExists(ring, ups);
    ring[FirstUp(ring, ups)]
  }

  ghost function After(ring: seq<Server>, ups: set<Server>): (r: seq<Server>)
    requires SomeUp(ring, ups)
    ensures SomeUp(r, ups) && |r| == |ring| && (forall s :: s in r ==> s in ring) && (forall s :: s in ring ==> s in r)
  {
    UpExists(ring, ups);
    Turned(ring, FirstUp(ring, ups) + 1)
  }

  lemma UpExists(ring: seq<Server>, ups: set<Server>)
    requires SomeUp(ring, ups)
    ensures FirstUp(ring, ups) < |ring|
  {
    assert ring[..|ring|] == ring;
  }

  lemma AfterPick(ring: seq<Server>, ups: set<Server>)
    requires SomeUp(ring, ups)
    ensures FirstUp(ring, ups) < |ring| && Picked(ring, ups) == ring[FirstUp(ring, ups)]
    ensures After(ring, ups) == Turned(ring, FirstUp(ring, ups) + 1)
  {
    hide FirstUp, Turned, SomeUp;
    UpExists(ring, ups);
  }

  lemma TurnedNot(ring: seq<Server>)
    ensures Turned(ring, 0) == ring
  {
  }

  lemma TurnedOnce(ring: seq<Server>, k: nat)
    requires k < |ring|
    ensures Turned(ring, k)[0] == ring[k] && Turned(Turned(ring, k), 1) == Turned(ring, k + 1)
  {
  }

  lemma NotSooner(ring: seq<Server>, ups: set<Server>, k: nat)
    requires k < |ring| && ring[k] in ups
    ensures FirstUp(ring, ups) <= k
  {
  }

  lemma LiveHead(a: seq<Server>, ups: set<Server>)
    requires a != []
    ensures Live(a, ups) == (if a[0] in ups then [a[0]] else []) + Live(a[1..], ups)
  {
  }

  lemma {:induction false} LiveConcat(a: seq<Server>, b: seq<Server>, ups: set<Server>)
    ensures Live(a + b, ups) == Live(a, ups) + Live(b, ups)
    decreases |a|
  {
    if a == [] {
      assert a + b == b;
    } else {
      LiveConcat(a[1..], b, ups);
      LiveHead(a, ups);
      LiveHead(a + b, ups);
      assert (a + b)[1..] == a[1..] + b;
      hide Live;
    }
  }

  lemma {:induction false} NoneLive(ring: seq<Server>, ups: set<Server>)
    requires forall s :: s in ring ==> s !in ups
    ensures Live(ring, ups) == []
    decreases |ring|
  {
    if ring != [] {
      NoneLive(ring[1..], ups);
    }
  }

  // A pick takes the first live server and puts it behind all others: round robin.
  lemma PickRotates(ring: seq<Server>, ups: set<Server>)
    requires SomeUp(ring, ups)
    ensures var g := Live(ring, ups);
            g != [] && Picked(ring, ups) == g[0] && Live(After(ring, ups), ups) == g[1..] + [g[0]]
  {
    hide FirstUp, SomeUp, Picked, After, Live;
    AfterPick(ring, ups);
    var k := FirstUp(ring, ups);
    var front, s, back := ring[..k], ring[k], ring[k + 1..];
    assert ring == front + ([s] + back) && Turned(ring, k + 1) == back + (front + [s]);
    hide Turned;
    LiveAround(front, s, back, ups);
  }

  lemma LiveAround(front: seq<Server>, s: Server, back: seq<Server>, ups: set<Server>)
    requires s in ups && forall s' :: s' in front ==> s' !in ups
    ensures Live(front + ([s] + back), ups) == [s] + Live(back, ups)
    ensures Live(back + (front + [s]), ups) == Live(back, ups) + [s]
  {
    assert Live([s], ups) == [s];
    NoneLive(front, ups);
    hide Live;
    LiveConcat(front, [s] + back, ups);
    LiveConcat([s], back, ups);
    LiveConcat(front, [s], ups);
    LiveConcat(back, front + [s], ups);
  }

  ghost function Picks(ring: seq<Server>, ups: set<Server>, n: nat): seq<Server>
    requires SomeUp(ring, ups)
    decreases n
  {
    if n == 0 then [] else [Picked(ring, ups)] + Picks(After(ring, ups), ups, n - 1)
  }

  ghost function Times(s: Server, picks: seq<Server>): nat {
    multiset(picks)[s]
  }

  ghost predicate Distinct(ring: seq<Server>) {
    forall i, j :: 0 <= i < j < |ring| ==> ring[i] != ring[j]
  }

  // Of two live servers the one nearer to the head has been picked as often, or once more.
  lemma {:induction false} AheadAtMostOne(ring: seq<Server>, ups: set<Server>, n: nat, i: nat, j: nat)
    requires SomeUp(ring, ups)
    requires Distinct(Live(ring, ups)) && i < j < |Live(ring, ups)|
    ensures var g, picks := Live(ring, ups), Picks(ring, ups, n);
            Ahead(g[i], g[j], picks)
    decreases n
  {
    hide Live, Picked, After, SomeUp, Distinct;
    if n > 0 {
      var g, ring', picks := Live(ring, ups), After(ring, ups), Picks(After(ring, ups), ups, n - 1);
      assert Picks(ring, ups, n) == [Picked(ring, ups)] + picks;
      hide *;
      PickRotates(ring, ups);
      Rotated(g, Live(ring', ups));
      AheadAtMostOne(ring', ups, n - 1, if i > 0 then i - 1 else j - 1, if i > 0 then j - 1 else |g| - 1);
      AheadStep(g, Live(ring', ups), picks, i, j);
    }
  }

  ghost predicate Ahead(a: Server, b: Server, picks: seq<Server>) {
    Times(b, picks) <= Times(a, picks) <= Times(b, picks) + 1
  }

  lemma AheadStep(g: seq<Server>, g': seq<Server>, picks: seq<Server>, i: nat, j: nat)
    requires i < j < |g| && g' == g[1..] + [g[0]] && Distinct(g)
    requires if i > 0 then Ahead(g'[i - 1], g'[j - 1], picks) else Ahead(g'[j - 1], g'[|g| - 1], picks)
    ensures Ahead(g[i], g[j], [g[0]] + picks)
  {
    Rotated(g, g');
    TimesCons(g[i], g[0], picks);
    TimesCons(g[j], g[0], picks);
    hide Times;
  }

  lemma Rotated(g: seq<Server>, g': seq<Server>)
    requires g != [] && g' == g[1..] + [g[0]] && Distinct(g)
    ensures Distinct(g') && |g'| == |g| && g'[|g| - 1] == g[0]
    ensures forall h :: 1 <= h < |g| ==> g[h] == g'[h - 1] && g[h] != g[0]
  {
  }

  lemma TimesCons(s: Server, first: Server, picks: seq<Server>)
    ensures Times(s, [first] + picks) == Times(s, picks) + if s == first then 1 else 0
  {
    assert multiset([first] + picks) == multiset{first} + multiset(picks);
  }

  lemma {:induction false} LiveMembers(ring: seq<Server>, ups: set<Server>)
    ensures forall s :: s in Live(ring, ups) <==> s in ring && s in ups
    ensures Distinct(ring) ==> Distinct(Live(ring, ups))
    decreases |ring|
  {
    if ring != [] {
      var tail := ring[1..];
      LiveMembers(tail, ups);
      assert ring == [ring[0]] + tail;
      if Distinct(ring) {
        assert Distinct(tail) && ring[0] !in tail;
      }
    }
  }

  // Between changes of state, any two servers that are up are picked equally often, give or take one.
  lemma Fair(ring: seq<Server>, ups: set<Server>, n: nat, a: Server, b: Server)
    requires Distinct(ring) && a in ring && b in ring && a in ups && b in ups
    ensures Times(a, Picks(ring, ups, n)) <= Times(b, Picks(ring, ups, n)) + 1
  {
    var g := Live(ring, ups);
    LiveMembers(ring, ups);
    var i :| 0 <= i < |g| && g[i] == a;
    var j :| 0 <= j < |g| && g[j] == b;
    if i < j {
      AheadAtMostOne(ring, ups, n, i, j);
    } else if j < i {
      AheadAtMostOne(ring, ups, n, j, i);
    }
  }

  // One more pick at the end.
  lemma {:induction false} PicksSnoc(ring: seq<Server>, ups: set<Server>, n: nat)
    requires SomeUp(ring, ups)
    ensures SomeUp(AfterAll(ring, ups, n), ups)
    ensures Picks(ring, ups, n + 1) == Picks(ring, ups, n) + [Picked(AfterAll(ring, ups, n), ups)]
    ensures AfterAll(ring, ups, n + 1) == After(AfterAll(ring, ups, n), ups)
    decreases n
  {
    hide Picked, After, SomeUp;
    if n > 0 {
      PicksSnoc(After(ring, ups), ups, n - 1);
    }
  }

  lemma {:induction false} PicksUp(ring: seq<Server>, ups: set<Server>, n: nat)
    requires SomeUp(ring, ups)
    ensures |Picks(ring, ups, n)| == n
    ensures forall s :: s in Picks(ring, ups, n) ==> s in ring && s in ups
    decreases n
  {
    hide Picked, After, SomeUp, FirstUp;
    if n > 0 {
      AfterPick(ring, ups);
      PicksUp(After(ring, ups), ups, n - 1);
      assert Picks(ring, ups, n) == [Picked(ring, ups)] + Picks(After(ring, ups), ups, n - 1);
      hide Picks, Turned;
    }
  }

  ghost function AfterAll(ring: seq<Server>, ups: set<Server>, n: nat): (r: seq<Server>)
    requires SomeUp(ring, ups)
    ensures SomeUp(r, ups) && |r| == |ring| && (forall s :: s in r ==> s in ring) && (forall s :: s in ring ==> s in r)
    decreases n
  {
    if n == 0 then ring else AfterAll(After(ring, ups), ups, n - 1)
  }

  // The requests that were assigned to ns and have not been sent yet, in order.
  ghost function Unsent(reqs: seq<Request>, ns: Server): (r: seq<Request>)
    reads reqs
    ensures forall q :: q in r ==> q in reqs && q.txCount == 0 && q.ns == ns
    ensures forall q :: q in reqs && q.txCount == 0 && q.ns == ns ==> q in r
  {
    if reqs == [] then []
    else
      var q := reqs[|reqs| - 1];
      Unsent(reqs[..|reqs| - 1], ns) + if q.txCount == 0 && q.ns == ns then [q] else []
  }

  // None twice, and in the order in which they stand.
  lemma {:induction false} UnsentInOrder(reqs: seq<Request>, ns: Server, a: nat, b: nat)
    requires forall i, j :: 0 <= i < j < |reqs| ==> reqs[i] != reqs[j]
    requires a < b < |Unsent(reqs, ns)|
    ensures exists i, j :: 0 <= i < j < |reqs| && reqs[i] == Unsent(reqs, ns)[a] && reqs[j] == Unsent(reqs, ns)[b]
    decreases |reqs|
  {
    var n := |reqs| - 1;
    var front := Unsent(reqs[..n], ns);
    if b < |front| {
      UnsentInOrder(reqs[..n], ns, a, b);
      var i, j :| 0 <= i < j < n && reqs[..n][i] == front[a] && reqs[..n][j] == front[b];
      assert reqs[i] == front[a] && reqs[j] == front[b];
    } else {
      assert front[a] in reqs[..n];
      var i :| 0 <= i < n && reqs[..n][i] == front[a];
      assert reqs[i] == front[a] && reqs[n] == Unsent(reqs, ns)[b];
    }
  }

  lemma UnsentBy(reqs: seq<Request>, ns: Server)
    ensures Unsent(reqs[..0], ns) == []
    ensures forall i :: 0 <= i < |reqs| ==>
              Unsent(reqs[..i + 1], ns) ==
              Unsent(reqs[..i], ns) + (if reqs[i].txCount == 0 && reqs[i].ns == ns then [reqs[i]] else [])
  {
    forall i | 0 <= i < |reqs|
      ensures Unsent(reqs[..i + 1], ns) ==
              Unsent(reqs[..i], ns) + (if reqs[i].txCount == 0 && reqs[i].ns == ns then [reqs[i]] else [])
    {
      assert reqs[..i + 1][..i] == reqs[..i];
    }
  }

  /* ---------- the ring in memory ---------- */

  ghost predicate Linked(ring: seq<Server>)
    reads ring`next, ring`prev
  {
    && (forall i {:trigger ring[i].next} :: 0 <= i < |ring| ==>
        ring[i].next == ring[if i + 1 < |ring| then i + 1 else 0])
    && (forall i {:trigger ring[i].prev} :: 0 <= i < |ring| ==>
        ring[i].prev == ring[if i > 0 then i - 1 else |ring| - 1])
  }

  lemma HeadOnce(ring: seq<Server>, k: nat)
    requires Distinct(ring) && 0 < k < |ring|
    ensures ring[k] != ring[0]
  {
  }

  lemma TurnedLinked(ring: seq<Server>, k: nat)
    requires Linked(ring) && Distinct(ring) && k <= |ring|
    ensures Linked(Turned(ring, k)) && Distinct(Turned(ring, k))
  {
    hide Distinct, Turned;
    TurnedDistinct(ring, k);
    var n, r := |ring|, Turned(ring, k);
    forall i | 0 <= i < n
      ensures r[i].next == r[if i + 1 < n then i + 1 else 0] && r[i].prev == r[if i > 0 then i - 1 else n - 1]
    {
      TurnedAt(ring, k, i);
      TurnedAt(ring, k, if i + 1 < n then i + 1 else 0);
      TurnedAt(ring, k, if i > 0 then i - 1 else n - 1);
      var j := At(n, k, i);
      assert ring[j].next == ring[if j + 1 < n then j + 1 else 0];
      assert ring[j].prev == ring[if j > 0 then j - 1 else n - 1];
    }
  }

  // Where the i-th server of a ring turned by k stood.
  function At(n: nat, k: nat, i: nat): (j: nat)
    requires k <= n && i < n
    ensures j < n
  {
    if i < n - k then i + k else i - (n - k)
  }

  lemma TurnedAt(ring: seq<Server>, k: nat, i: nat)
    requires k <= |ring| && i < |ring|
    ensures Turned(ring, k)[i] == ring[At(|ring|, k, i)]
  {
  }

  lemma TurnedDistinct(ring: seq<Server>, k: nat)
    requires Distinct(ring) && k <= |ring|
    ensures Distinct(Turned(ring, k))
  {
    var r := Turned(ring, k);
    forall i, j | 0 <= i < j < |r| ensures r[i] != r[j] {
      TurnedAt(ring, k, i);
      TurnedAt(ring, k, j);
    }
  }

  class Base {
    var head: Server?
    var good: int
    ghost var ring: seq<Server>  // from the head on, in the order of the `next` pointers

    // The servers whose state is 1.
    ghost function Ups(): set<Server>
      reads this`ring, ring`up
    {
      set s | s in ring && s.up
    }

    ghost predicate Valid()
      reads this, ring
    {
      && (ring == [] <==> head == null) && (ring != [] ==> ring[0] == head)
      && Distinct(ring) && Linked(ring) && good == |Ups()|
    }

    constructor ()
      ensures Valid() && ring == []
    {
      head, good, ring := null, 0, [];
    }

    // The head moves on by one.
    method Next()
      requires Valid() && head != null
      modifies this`head, this`ring
      ensures Valid() && ring == Turned(old(ring), 1) && Ups() == old(Ups())
    {
      TurnedLinked(ring, 1);
      assert ring[0].next == ring[if 1 < |ring| then 1 else 0];
      ghost var ups := Ups();
      head, ring := head.next, Turned(ring, 1);
      assert Ups() == ups;
    }

    // nameserver_pick
    method Pick() returns (r: Server?)
      requires Valid()
      modifies this`head, this`ring
      ensures Valid() && Ups() == old(Ups()) && |ring| == |old(ring)|
      ensures old(ring) == [] ==> r == null
      ensures old(ring) != [] && good == 0 ==> ring == Turned(old(ring), 1) && r == ring[0]
      ensures good > 0 ==>
                && SomeUp(old(ring), Ups())
                && r == Picked(old(ring), Ups()) && r.up && ring == After(old(ring), Ups())
    {
      hide Linked, Distinct, FirstUp, SomeUp, Turned, Picked, After;
      if head == null {
        return null;
      }
      if good == 0 {
        Next();
        return head;
      }
      ghost var k: nat, ring0, ups := 0, ring, Ups();
      SomeIsUp();
      AfterPick(ring0, ups);
      TurnedNot(ring0);
      var startedAt := head;
      while true
        invariant k <= FirstUp(ring0, ups) && ring == Turned(ring0, k) && |ring| == |ring0|
        invariant Valid() && Ups() == ups
        decreases |ring0| - k
      {
        TurnedOnce(ring0, k);
        assert head == ring0[k] && head in ring;
        if head.up {
          r := head;
          NotSooner(ring0, ups, k);
          Next();
          return;
        }
        Next();
        k := k + 1;
        HeadOnce(ring0, k);
        TurnedOnce(ring0, k);
        if head == startedAt {
          assert false;  // the fallback of the source: never reached while the count is right
        }
      }
    }

    lemma SomeIsUp()
      requires Valid() && good > 0
      ensures SomeUp(ring, Ups())
    {
      var s :| s in Ups();
    }

    // nameserver_up
    method Up(ns: Server)
      requires Valid() && ns in ring
      modifies this`good, ns`up
      ensures Valid() && Ups() == old(Ups()) + {ns}
    {
      hide Linked, Distinct;
      if ns.up {
        assert Ups() == Ups() + {ns};
        return;
      }
      ghost var ups := Ups();
      assert ns !in ups && |ups + {ns}| == |ups| + 1;
      ns.up := true;
      assert Ups() == ups + {ns};
      good := good + 1;
      assert Linked(ring) && Ups() == ups + {ns};
      assert good == |Ups()|;
    }

    // The first part of nameserver_failed.
    method Down(ns: Server)
      requires Valid() && ns in ring && ns.up
      modifies this`good, ns`up
      ensures Valid() && Ups() == old(Ups()) - {ns} && good == old(good) - 1 >= 0
    {
      hide Linked, Distinct;
      good := good - 1;
      ns.up := false;
      assert Ups() == old(Ups()) - {ns};
    }

    // nameserver_failed: what has not been sent yet moves to the servers left, in turn.
    method Failed(ns: Server, reqs: seq<Request>)
      requires Valid() && ns in ring
      requires forall i, j :: 0 <= i < j < |reqs| ==> reqs[i] != reqs[j]
      modifies this, ns`up, reqs`ns
      ensures Valid() && Ups() == old(Ups()) - {ns}
      ensures |ring| == |old(ring)| && forall s :: s in ring <==> s in old(ring)
      ensures !old(ns.up) || good == 0 ==> ring == old(ring) && forall q :: q in reqs ==> q.ns == old(q.ns)
      ensures old(ns.up) && good > 0 ==>
                && SomeUp(old(ring), Ups())
                && var moved := old(Unsent(reqs, ns));
                && ring == AfterAll(old(ring), Ups(), |moved|)
                && (forall q :: q in reqs && q !in moved ==> q.ns == old(q.ns))
                && |moved| == |Picks(old(ring), Ups(), |moved|)|
                && (forall i :: 0 <= i < |moved| ==> moved[i].ns == Picks(old(ring), Ups(), |moved|)[i])
    {
      hide Linked, Distinct, Picked, After, Picks, AfterAll, SomeUp, Turned, FirstUp, Live, Unsent;
      if !ns.up {
        assert Ups() == Ups() - {ns};
        return;
      }
      Down(ns);
      if good == 0 {
        return;
      }
      SomeIsUp();
      Reassign(ns, reqs);
    }

    method Reassign(ns: Server, reqs: seq<Request>)
      requires Valid() && good > 0 && SomeUp(ring, Ups())
      requires forall i, j :: 0 <= i < j < |reqs| ==> reqs[i] != reqs[j]
      modifies this`head, this`ring, reqs`ns
      ensures Valid() && Ups() == old(Ups())
      ensures var moved := old(Unsent(reqs, ns));
              && ring == AfterAll(old(ring), Ups(), |moved|)
              && (forall q :: q in reqs && q !in moved ==> q.ns == old(q.ns))
              && |moved| == |Picks(old(ring), Ups(), |moved|)|
              && (forall i :: 0 <= i < |moved| ==> moved[i].ns == Picks(old(ring), Ups(), |moved|)[i])
    {
      hide Linked, Distinct, Picked, After, Picks, AfterAll, SomeUp, Turned, FirstUp, Live, Unsent;
      UnsentBy(reqs, ns);
      ghost var moved: seq<Request> := [];
      ghost var ring0, ups := ring, Ups();
      assert Picks(ring0, ups, 0) == [] && AfterAll(ring0, ups, 0) == ring0 by { NoPicks(ring0, ups); }
      var i := 0;
      while i < |reqs|
        invariant i <= |reqs| && moved == old(Unsent(reqs[..i], ns))
        invariant Valid() && Ups() == ups && good == old(good) && ring == AfterAll(ring0, ups, |moved|)
        invariant forall q :: q in reqs && q !in moved ==> q.ns == old(q.ns)
        invariant |moved| == |Picks(ring0, ups, |moved|)|
        invariant forall h :: 0 <= h < |moved| ==> moved[h].ns == Picks(ring0, ups, |moved|)[h]
      {
        var q := reqs[i];
        assert q !in reqs[..i];
        if q.txCount == 0 && q.ns == ns {
          PicksSnoc(ring0, ups, |moved|);
          q.ns := Pick();
          moved := moved + [q];
        }
        i := i + 1;
      }
      assert reqs[..i] == reqs;
    }

    // _evdns_nameserver_add_impl; `setup` is 0, or what went wrong with the new server's socket.
    method Add(address: int, setup: int) returns (code: int)
      requires Valid() && setup != 3
      modifies this, ring
      ensures Valid()
      ensures code == if exists s :: s in old(ring) && s.address == address then 3 else setup
      ensures code != 0 ==> ring == old(ring) && Ups() == old(Ups())
      ensures code == 0 ==>
                exists ns :: ns in ring && ns.address == address && fresh(ns) && Ups() == old(Ups()) + {ns} &&
                             ring == if old(ring) == [] then [ns] else [old(ring)[0], ns] + old(ring)[1..]
    {
      hide Linked, Distinct;
      var known := Known(address);
      if known {
        return 3;
      }
      if setup != 0 {
        return setup;
      }
      var ns := new Server(address);
      Insert(ns);
      return 0;
    }

    method Known(address: int) returns (found: bool)
      requires Valid()
      ensures found <==> exists s :: s in ring && s.address == address
    {
      var server, startedAt := head, head;
      ghost var k: nat := 0;
      if server == null {
        return false;
      }
      while true
        invariant k < |ring| && server == ring[k] && forall i :: 0 <= i < k ==> ring[i].address != address
        decreases |ring| - k
      {
        if server.address == address {
          return true;
        }
        assert ring[k].next == ring[if k + 1 < |ring| then k + 1 else 0];
        server, k := server.next, k + 1;
        if server == startedAt {
          return false;
        }
      }
    }

    method Insert(ns: Server)
      requires Valid() && ns !in ring && ns.up
      modifies this, ring`next, ring`prev, ns`next, ns`prev
      ensures Valid() && Ups() == old(Ups()) + {ns}
      ensures ring == if old(ring) == [] then [ns] else [old(ring)[0], ns] + old(ring)[1..]
    {
      hide Linked, Distinct;
      ghost var ups := Ups();
      assert ns !in ups && |ups + {ns}| == |ups| + 1;
      if head == null {
        ns.next, ns.prev := ns, ns;
        AloneLinked(ns);
        head, ring := ns, [ns];
      } else {
        Splice(head, ns, ring);
        ring := [ring[0], ns] + ring[1..];
      }
      assert Ups() == ups + {ns};
      good := good + 1;
      assert Linked(ring) && Ups() == ups + {ns};
    }
  }

  lemma AloneLinked(ns: Server)
    requires ns.next == ns.prev == ns
    ensures Linked([ns]) && Distinct([ns])
  {
  }

  // A server between the head and the one behind it.
  method Splice(head: Server, ns: Server, ghost ring: seq<Server>)
    requires Linked(ring) && Distinct(ring) && ring != [] && ring[0] == head && ns !in ring
    modifies ring`next, ring`prev, ns`next, ns`prev
    ensures Linked([ring[0], ns] + ring[1..]) && Distinct([ring[0], ns] + ring[1..])
  {
    ghost var n := |ring|;
    ghost var r := [ring[0], ns] + ring[1..];
    assert ring[0].next == ring[if 1 < n then 1 else 0];
    ns.next := head.next;
    ns.prev := head;
    head.next := ns;
    ns.next.prev := ns;
    assert Distinct(r) && forall i :: 1 <= i < n ==> ring[i] != ring[0];
    assert forall i :: 2 <= i < n ==> ring[i] != ring[1];
    hide Distinct;
    forall i | 0 <= i < n + 1 ensures r[i].next == r[if i + 1 < n + 1 then i + 1 else 0] {
      assert i > 1 ==> r[i] == ring[i - 1] && old(ring[i - 1].next) == ring[if i < n then i else 0];
    }
    forall i | 0 <= i < n + 1 ensures r[i].prev == r[if i > 0 then i - 1 else n] {
      assert i > 2 ==> r[i] == ring[i - 1] && old(ring[i - 1].prev) == ring[i - 2];
      assert old(ring[0].prev) == ring[n - 1];
    }
  }

  lemma NoPicks(ring: seq<Server>, ups: set<Server>)
    requires SomeUp(ring, ups)
    ensures Picks(ring, ups, 0) == [] && AfterAll(ring, ups, 0) == ring
  {
  }
}
