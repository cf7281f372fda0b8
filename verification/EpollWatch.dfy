/**
 Watcher lists over epoll: what `EpollBackend` calls the wanted mask of a descriptor is the union
 over its list, and a descriptor that turns out not to be open takes all its watchers with it.
 */
module EpollWatch {
  import opened Common
  import opened FdEvents
  import opened FdWatch
  import Epoll = EpollBackend

  // Each descriptor's list holds its active watchers, once each.
  ghost predicate Listed(ws: map<Id, Io>, heads: seq<seq<Id>>) {
    && (forall fd :: 0 <= fd < |heads| ==> ListOk(ws, heads[fd], fd))
    && (forall id :: id in ws && ws[id].active ==>
          0 <= ws[id].fd < |heads| && id in heads[ws[id].fd] && IoMask(ws[id].events))
  }

  ghost predicate Meant(ws: map<Id, Io>, anfds: seq<Epoll.Anfd>) {
    forall fd :: 0 <= fd < |anfds| ==> anfds[fd].want == Wanted(ws, fd)
  }

  // The watchers of these descriptors are stopped.
  ghost function StoppedIn(ws: map<Id, Io>, gone: set<nat>): map<Id, Io> {
    map id | id in ws :: if ws[id].active && ws[id].fd in gone then ws[id].(active := false) else ws[id]
  }

  class Watchers {
    var ws: map<Id, Io>
    var heads: seq<seq<Id>>
    const loop: Epoll.Loop

    ghost predicate Valid()
      reads this, loop, loop.kernel
    {
      loop.Valid() && |heads| == |loop.anfds| && Listed(ws, heads) && Meant(ws, loop.anfds)
    }

    constructor (ids: set<Id>, loop: Epoll.Loop)
      requires loop.Valid() && loop.anfds == []
      ensures Valid() && this.loop == loop && ws.Keys == ids
    {
      this.loop := loop;
      ws := map id | id in ids :: Io(-1, {}, false);
      heads := [];
    }

    // ev_io_set, which callers may not do to an active watcher
    method IoSet(id: Id, fd: int, events: Mask)
      requires Valid() && id in ws && !ws[id].active
      modifies this`ws
      ensures Valid() && ws == old(ws)[id := Io(fd, events + {FdSet}, false)]
    {
      ws := ws[id := Io(fd, events + {FdSet}, false)];
      SameWanted(old(ws), ws);
    }

    // ev_io_start
    method IoStart(id: Id)
      requires Valid() && id in ws && ws[id].fd >= 0 && ws[id].events <= {Read, Write, FdSet}
      modifies this, loop`anfds, loop`fdchanges
      ensures Valid()
      ensures ws == if old(ws)[id].active then old(ws)
              else old(ws)[id := Io(old(ws)[id].fd, old(ws)[id].events - {FdSet}, true)]
      ensures !old(ws)[id].active && FdSet in old(ws)[id].events ==> FdSet in loop.anfds[ws[id].fd].reify
    {
      hide Epoll.Loop.Valid, Listed, Meant, Wanted;
      if ws[id].active {
        return;
      }
      var fd, events := ws[id].fd, ws[id].events;
      NeedFd(fd);
      Started(ws, heads, loop.anfds, id, fd);
      ws := ws[id := Io(fd, events - {FdSet}, true)];
      heads := heads[fd := [id] + heads[fd]];
      Relist(fd, FdSet in events);
    }

    // ev_io_stop, after clear_pending
    method IoStop(id: Id)
      requires Valid() && id in ws
      modifies this, loop`anfds, loop`fdchanges
      ensures Valid() && ws == old(ws)[id := old(ws)[id].(active := false)]
    {
      hide Epoll.Loop.Valid, Listed, Meant, Wanted;
      if !ws[id].active {
        return;
      }
      var fd := ws[id].fd;
      Stopped(ws, heads, loop.anfds, id);
      var rest := Unlink(heads[fd], id);
      heads := heads[fd := rest];
      ws := ws[id := ws[id].(active := false)];
      Relist(fd, false);
    }

    // fd_change for a descriptor whose list has changed
    method Relist(fd: nat, wasSet: bool)
      requires loop.Valid() && fd < |heads| == |loop.anfds| && Listed(ws, heads)
      requires forall f :: 0 <= f < |heads| && f != fd ==> loop.anfds[f].want == Wanted(ws, f)
      modifies loop`anfds, loop`fdchanges
      ensures Valid() && |loop.anfds| == |old(loop.anfds)| && (wasSet ==> FdSet in loop.anfds[fd].reify)
    {
      hide Epoll.Loop.Valid, Wanted;
      WantedIo(ws, heads, fd);
      var want := UnionEvents(ws, heads[fd], fd);
      loop.Change(fd, want, wasSet);
    }

    method NeedFd(fd: nat)
      requires Valid()
      modifies this`heads, loop`anfds
      ensures Valid() && fd < |heads| && old(heads) <= heads
    {
      hide Epoll.Loop.Valid, Wanted;
      ghost var n := |heads|;
      loop.NeedFd(fd);
      if fd + 1 > |heads| {
        heads := heads + seq(fd + 1 - |heads|, _ => []);
      }
      forall f | n <= f < |heads| ensures Wanted(ws, f) == {} {
        NobodyThere(ws, f);
      }
    }

    // Descriptors that the next fd_reify will find not to be open.
    ghost function GivenUp(): set<nat>
      reads this, loop, loop.kernel
    {
      set fd | 0 <= fd < |loop.anfds| && Epoll.Killed(loop.anfds[fd], fd, loop.kernel.open)
    }

    // The kernel watches for the union of the list, no more and no less.
    ghost predicate Exact(fd: nat)
      reads this, loop, loop.kernel
    {
      fd in loop.kernel.regs && loop.kernel.regs[fd].mask == Wanted(ws, fd)
    }

    /** fd_reify: the watchers of descriptors found not to be open are stopped and no others; a
        descriptor still watched is registered for exactly the union of its watchers' events,
        unless it was closed and neither the union nor the watchers have changed since. */
    method FdReify()
      requires Valid()
      modifies this, loop`anfds, loop`fdchanges, loop`stale, loop.kernel`regs
      ensures Valid() && loop.fdchanges == [] && |heads| == |old(heads)|
      ensures ws == StoppedIn(old(ws), old(GivenUp()))
      ensures forall fd :: 0 <= fd < |heads| && Wanted(ws, fd) != {} ==>
                (Exact(fd) <==> fd !in old(loop.stale) || Epoll.NeedsModify(old(loop.anfds)[fd]))
    {
      hide Wanted, Listed, StoppedIn, ListOk;
      ghost var gone := GivenUp();
      var anfds0 := loop.anfds;
      loop.FdReify();
      KillAll(anfds0, gone);
    }

    // Set and started afresh, a watcher of an open descriptor is registered, whatever was closed
    // and opened under that number before.
    method WatchAnew(id: Id, fd: nat, events: Mask)
      requires Valid() && id in ws && !ws[id].active && fd in loop.kernel.open && IoMask(events) && events != {}
      modifies this, loop`anfds, loop`fdchanges, loop`stale, loop.kernel`regs
      ensures Valid() && id in ws && ws[id] == Io(fd, events, true) && Exact(fd) && events <= Wanted(ws, fd)
    {
      IoSet(id, fd, events);
      hide Listed, Meant, Epoll.Loop.Valid, StoppedIn, Wanted;
      IoStart(id);
      ghost var ws1, gone := ws, GivenUp();
      FdReify();
      StillActive(ws1, gone, id);
      AsksFor(ws, id);
    }

    // fd_kill for every descriptor that was given up
    method KillAll(anfds0: seq<Epoll.Anfd>, ghost gone: set<nat>)
      requires |heads| == |anfds0| == |loop.anfds| && Listed(ws, heads) && Meant(ws, anfds0)
      requires forall fd :: fd in gone <==> 0 <= fd < |anfds0| && anfds0[fd].want != {} && loop.anfds[fd].want == {}
      requires forall fd :: 0 <= fd < |anfds0| && fd !in gone ==> loop.anfds[fd].want == anfds0[fd].want
      modifies this`ws, this`heads
      ensures Listed(ws, heads) && Meant(ws, loop.anfds) && |heads| == |old(heads)|
      ensures ws == StoppedIn(old(ws), gone)
    {
      hide Wanted, Listed, StoppedIn, ListOk;
      ghost var ws0 := ws;
      NoneStopped(ws);
      for fd := 0 to |heads|
        invariant |heads| == |anfds0| && Listed(ws, heads) && ws == StoppedIn(ws0, Below(gone, fd))
      {
        if anfds0[fd].want != {} && loop.anfds[fd].want == {} {
          Kill(fd);
          StopTwice(ws0, Below(gone, fd), fd);
          assert Below(gone, fd + 1) == Below(gone, fd) + {fd};
        } else {
          assert Below(gone, fd + 1) == Below(gone, fd);
        }
      }
      assert Below(gone, |anfds0|) == gone;
      forall fd | 0 <= fd < |anfds0| ensures loop.anfds[fd].want == Wanted(ws, fd) {
        StoppedWanted(ws0, gone, fd);
      }
    }

    // fd_kill: stops the watchers of fd one after the other
    method Kill(fd: nat)
      requires fd < |heads| && Listed(ws, heads)
      modifies this`ws, this`heads
      ensures |heads| == |old(heads)| && Listed(ws, heads) && ws == StoppedIn(old(ws), {fd})
    {
      hide Wanted, Listed, StoppedIn, ListOk;
      ghost var ws0 := ws;
      while heads[fd] != []
        invariant |heads| == |old(heads)| && Listed(ws, heads) && StoppedIn(ws, {fd}) == StoppedIn(ws0, {fd})
        decreases |heads[fd]|
      {
        var id := heads[fd][0];
        StopHead(ws, heads, fd);
        ws := ws[id := ws[id].(active := false)];
        heads := heads[fd := heads[fd][1..]];
      }
      NoneLeft(ws, heads, fd);
    }
  }

  lemma NobodyThere(ws: map<Id, Io>, fd: nat)
    requires forall id :: id in ws && ws[id].active ==> ws[id].fd != fd
    ensures Wanted(ws, fd) == {}
  {
    assert forall f :: !Wants(ws, fd, f);
  }

  lemma WantedIo(ws: map<Id, Io>, heads: seq<seq<Id>>, fd: nat)
    requires Listed(ws, heads)
    ensures IoMask(Wanted(ws, fd))
  {
    forall f | Wants(ws, fd, f) ensures f in {Read, Write} {
      var id :| id in ws && Asks(ws[id], fd, f);
    }
  }

  lemma Started(ws: map<Id, Io>, heads: seq<seq<Id>>, anfds: seq<Epoll.Anfd>, id: Id, fd: nat)
    requires Listed(ws, heads) && |anfds| == |heads| && Meant(ws, anfds) && id in ws && !ws[id].active
    requires ws[id].fd == fd < |heads| && ws[id].events <= {Read, Write, FdSet}
    ensures var ws' := ws[id := Io(fd, ws[id].events - {FdSet}, true)];
            && Listed(ws', heads[fd := [id] + heads[fd]])
            && forall f :: 0 <= f < |anfds| && f != fd ==> anfds[f].want == Wanted(ws', f)
  {
    OthersWanted(ws, ws[id := Io(fd, ws[id].events - {FdSet}, true)], id, fd);
    hide Wanted;
  }

  lemma Stopped(ws: map<Id, Io>, heads: seq<seq<Id>>, anfds: seq<Epoll.Anfd>, id: Id)
    requires Listed(ws, heads) && |anfds| == |heads| && Meant(ws, anfds) && id in ws && ws[id].active
    ensures 0 <= ws[id].fd < |heads|
    ensures var fd, ws' := ws[id].fd, ws[id := ws[id].(active := false)];
            && Listed(ws', heads[fd := Without(heads[fd], id)])
            && forall f :: 0 <= f < |anfds| && f != fd ==> anfds[f].want == Wanted(ws', f)
  {
    var fd, ws' := ws[id].fd, ws[id := ws[id].(active := false)];
    var heads' := heads[fd := Without(heads[fd], id)];
    OthersWanted(ws, ws', id, fd);
    hide Wanted;
    WithoutSpec(heads[fd], id);
    forall f | 0 <= f < |heads'| ensures ListOk(ws', heads'[f], f) {
      assert ListOk(ws, heads[f], f);
    }
  }

  lemma StillActive(ws: map<Id, Io>, gone: set<nat>, id: Id)
    requires id in ws && ws[id].fd !in gone
    ensures StoppedIn(ws, gone)[id] == ws[id]
  {
  }

  lemma AsksFor(ws: map<Id, Io>, id: Id)
    requires id in ws && ws[id].active && ws[id].fd >= 0
    ensures ws[id].events <= Wanted(ws, ws[id].fd)
  {
    forall f | f in ws[id].events ensures f in Wanted(ws, ws[id].fd) {
      assert Asks(ws[id], ws[id].fd, f) && (f == Read || f == Write || f == FdSet || f == Reify);
    }
  }

  ghost function Below(fds: set<nat>, n: nat): set<nat> {
    set fd | fd in fds && fd < n
  }

  lemma NoneStopped(ws: map<Id, Io>)
    ensures StoppedIn(ws, {}) == ws && forall gone :: Below(gone, 0) == {}
  {
  }

  lemma StopTwice(ws: map<Id, Io>, gone: set<nat>, fd: nat)
    ensures StoppedIn(StoppedIn(ws, gone), {fd}) == StoppedIn(ws, gone + {fd})
  {
  }

  lemma StoppedWanted(ws: map<Id, Io>, gone: set<nat>, fd: nat)
    ensures Wanted(StoppedIn(ws, gone), fd) == if fd in gone then {} else Wanted(ws, fd)
  {
    var ws' := StoppedIn(ws, gone);
    forall f ensures Wants(ws', fd, f) <==> fd !in gone && Wants(ws, fd, f) {
      assert forall id :: id in ws ==> (Asks(ws'[id], fd, f) <==> fd !in gone && Asks(ws[id], fd, f));
    }
  }

  lemma StopHead(ws: map<Id, Io>, heads: seq<seq<Id>>, fd: nat)
    requires Listed(ws, heads) && fd < |heads| && heads[fd] != []
    ensures var id := heads[fd][0];
            && id in ws && ws[id].active
            && Listed(ws[id := ws[id].(active := false)], heads[fd := heads[fd][1..]])
            && StoppedIn(ws[id := ws[id].(active := false)], {fd}) == StoppedIn(ws, {fd})
  {
    var id := heads[fd][0];
    assert ListOk(ws, heads[fd], fd) && id in heads[fd];
    assert Without(heads[fd], id) == heads[fd][1..];
    var ws', heads' := ws[id := ws[id].(active := false)], heads[fd := heads[fd][1..]];
    WithoutSpec(heads[fd], id);
    forall f | 0 <= f < |heads'| ensures ListOk(ws', heads'[f], f) {
      assert ListOk(ws, heads[f], f);
    }
  }

  lemma NoneLeft(ws: map<Id, Io>, heads: seq<seq<Id>>, fd: nat)
    requires Listed(ws, heads) && fd < |heads| && heads[fd] == []
    ensures StoppedIn(ws, {fd}) == ws
  {
  }
}
