/**
 Watchers on file descriptors: per-descriptor watcher lists, the list of changed descriptors,
 and fd_reify, which brings the backend up to date with what the active watchers want.
 */
module FdWatch {
  import opened Common
  import opened FdEvents
  import opened PollBackend
  import opened SelectBackend

  type Id = nat

  // An ev_io.
  datatype Io = Io(fd: int, events: Mask, active: bool)

  datatype Anfd = Anfd(head: seq<Id>, events: Mask, reify: Mask)

  // The union of what the active watchers of fd ask for.
  ghost function Wanted(ws: map<Id, Io>, fd: nat): Mask {
    set f | f in {Read, Write, FdSet, Reify} && Wants(ws, fd, f)
  }

  ghost predicate Wants(ws: map<Id, Io>, fd: nat, f: Flag) {
    exists id :: id in ws && Asks(ws[id], fd, f)
  }

  predicate Asks(w: Io, fd: nat, f: Flag) {
    w.active && w.fd == fd && f in w.events
  }

  ghost predicate ListOk(ws: map<Id, Io>, head: seq<Id>, fd: nat) {
    && (forall id :: id in head ==> id in ws && ws[id].active && ws[id].fd == fd)
    && (forall i, j :: 0 <= i < j < |head| ==> head[i] != head[j])
  }

  ghost predicate ListsOk(ws: map<Id, Io>, anfds: seq<Anfd>) {
    && (forall fd :: 0 <= fd < |anfds| ==> ListOk(ws, anfds[fd].head, fd))
    && (forall id :: id in ws && ws[id].active ==>
          0 <= ws[id].fd < |anfds| && id in anfds[ws[id].fd].head && IoMask(ws[id].events))
  }

  // Every descriptor with reify set is in fdchanges exactly once, and no other is.
  ghost predicate ChangesOk(anfds: seq<Anfd>, changes: seq<nat>) {
    && (forall i, j :: 0 <= i < j < |changes| ==> changes[i] != changes[j])
    && (forall fd :: fd in changes ==> fd < |anfds|)
    && (forall fd :: 0 <= fd < |anfds| ==> (anfds[fd].reify != {} <==> fd in changes))
  }

  // A descriptor not waiting to be reified is up to date.
  ghost predicate Current(ws: map<Id, Io>, anfds: seq<Anfd>) {
    forall fd :: 0 <= fd < |anfds| ==>
      IoMask(anfds[fd].events) && (anfds[fd].reify == {} ==> anfds[fd].events == Wanted(ws, fd))
  }

  ghost predicate Inv(ws: map<Id, Io>, anfds: seq<Anfd>, changes: seq<nat>) {
    ListsOk(ws, anfds) && ChangesOk(anfds, changes) && Current(ws, anfds)
  }

  function EventsAt(anfds: seq<Anfd>, fd: nat): Mask {
    if fd < |anfds| then anfds[fd].events else {}
  }

  // backend_modify is a function pointer: one of the backends is in use.
  datatype Backend = UsePoll(p: Poll) | UseSelect(s: Select)

  class Loop {
    var ws: map<Id, Io>
    var anfds: seq<Anfd>
    var fdchanges: seq<nat>
    const backend: Backend

    ghost function Repr(): set<object> {
      match backend case UsePoll(p) => {p} case UseSelect(s) => {s}
    }

    ghost predicate BackendOk()
      reads Repr()
    {
      match backend case UsePoll(p) => p.Valid() case UseSelect(s) => s.Valid()
    }

    ghost function Watched(): Table
      reads Repr()
      requires BackendOk()
    {
      match backend case UsePoll(p) => p.Watched() case UseSelect(s) => s.Watched()
    }

    // The backend watches what the descriptors' event masks say.
    ghost predicate Synced()
      reads this, Repr()
    {
      BackendOk() && forall fd: nat :: Interest(Watched(), fd) == EventsAt(anfds, fd)
    }

    ghost predicate Valid()
      reads this, Repr()
    {
      Inv(ws, anfds, fdchanges) && Synced()
    }

    constructor (b: Backend, ids: set<Id>)
      requires match b
               case UsePoll(p) => p.Valid() && p.Watched() == map[]
               case UseSelect(s) => s.Valid() && s.Watched() == map[]
      ensures Valid() && backend == b && ws.Keys == ids
    {
      backend := b;
      ws := map id | id in ids :: Io(-1, {}, false);
      anfds, fdchanges := [], [];
    }

    method BackendModify(fd: nat, oev: Mask, nev: Mask)
      requires BackendOk() && IoMask(nev) && Interest(Watched(), fd) == oev
      modifies Repr()
      ensures BackendOk() && Watched() == SetInterest(old(Watched()), fd, nev)
    {
      match backend
      case UsePoll(p) => p.Modify(fd, oev, nev);
      case UseSelect(s) => s.Modify(fd, oev, nev);
    }

    // ev_io_set, which callers may not do to an active watcher
    method IoSet(id: Id, fd: int, events: Mask)
      requires Valid() && id in ws && !ws[id].active
      modifies this`ws
      ensures Valid() && ws == old(ws)[id := Io(fd, events + {FdSet}, false)]
    {
      ws := ws[id := Io(fd, events + {FdSet}, false)];
      SameWanted(old(ws), ws);
    }

    // fd_change
    method FdChange(fd: nat, flags: Mask)
      requires ChangesOk(anfds, fdchanges) && fd < |anfds| && flags != {}
      modifies this`anfds, this`fdchanges
      ensures ChangesOk(anfds, fdchanges)
      ensures anfds == old(anfds)[fd := old(anfds)[fd].(reify := old(anfds)[fd].reify + flags)]
    {
      var reify := anfds[fd].reify;
      anfds := anfds[fd := anfds[fd].(reify := reify + flags)];
      if reify == {} {
        fdchanges := fdchanges + [fd];
      }
    }

    method NeedFd(fd: nat)
      requires Valid()
      modifies this`anfds
      ensures Valid() && fd < |anfds| && old(anfds) <= anfds
    {
      hide Inv, Interest;
      if fd + 1 > |anfds| {
        GrowKeeps(ws, anfds, fdchanges, fd + 1 - |anfds|);
        anfds := anfds + seq(fd + 1 - |anfds|, _ => Anfd([], {}, {}));
      }
    }

    // ev_io_start
    method IoStart(id: Id)
      requires Valid() && id in ws && ws[id].fd >= 0 && ws[id].events <= {Read, Write, FdSet}
      modifies this
      ensures Valid()
      ensures ws == if old(ws)[id].active then old(ws)
              else old(ws)[id := Io(old(ws)[id].fd, old(ws)[id].events - {FdSet}, true)]
    {
      hide ListsOk, ChangesOk, Current, Interest;
      if ws[id].active {
        return;
      }
      var fd, events := ws[id].fd, ws[id].events;
      NeedFd(fd);
      ghost var ws0, anfds0 := ws, anfds;
      SameReify(anfds, fdchanges, fd, [id] + anfds[fd].head);
      ws := ws[id := Io(fd, events - {FdSet}, true)];
      anfds := anfds[fd := anfds[fd].(head := [id] + anfds[fd].head)];
      FdChange(fd, (events * {FdSet}) + {Reify});
      StartKeeps(ws0, anfds0, id, fd, ws, anfds);
      assert forall f: nat :: EventsAt(anfds, f) == EventsAt(anfds0, f);
    }

    // ev_io_stop, after clear_pending
    method IoStop(id: Id)
      requires Valid() && id in ws
      modifies this
      ensures Valid()
      ensures ws == old(ws)[id := old(ws)[id].(active := false)]
    {
      hide ListsOk, ChangesOk, Current, Interest;
      if !ws[id].active {
        return;
      }
      var fd := ws[id].fd;
      ghost var ws0, anfds0 := ws, anfds;
      IsListed(ws, anfds, id);
      var rest := Unlink(anfds[fd].head, id);
      SameReify(anfds, fdchanges, fd, rest);
      anfds := anfds[fd := anfds[fd].(head := rest)];
      ws := ws[id := ws[id].(active := false)];
      FdChange(fd, {Reify});
      StopKeeps(ws0, anfds0, id, fd, rest, ws, anfds);
      assert forall f: nat :: EventsAt(anfds, f) == EventsAt(anfds0, f);
    }

    // One turn of fd_reify's loop.
    method ReifyOne(fd: nat, ghost rest: seq<nat>)
      requires Inv(ws, anfds, [fd] + rest) && Synced()
      modifies this`anfds, Repr()
      ensures Inv(ws, anfds, rest) && Synced()
    {
      hide Inv, ListOk, Wanted, Interest, SetInterest;
      ReadyToReify(ws, anfds, fd, rest);
      ghost var anfds0 := anfds;
      var oldEvents, oldReify := anfds[fd].events, anfds[fd].reify;
      var events := UnionEvents(ws, anfds[fd].head, fd);
      anfds := anfds[fd := Anfd(anfds[fd].head, events, {})];
      if oldEvents != events {
        oldReify := {FdSet};
      }
      ReifyKeeps(ws, anfds0, fd, rest, anfds);
      if FdSet in oldReify {
        BackendModify(fd, oldEvents, events);
      }
    }

    /** fd_reify: afterwards no change is left over and the backend, whichever it is, watches on
        every descriptor exactly what that descriptor's active watchers want. */
    method FdReify()
      requires Valid()
      modifies this`anfds, this`fdchanges, Repr()
      ensures Valid() && fdchanges == []
      ensures forall fd: nat :: Interest(Watched(), fd) == Wanted(ws, fd)
    {
      hide Inv, Wanted, Interest;
      var i := 0;
      assert fdchanges[0..] == fdchanges;
      while i < |fdchanges|
        invariant 0 <= i <= |fdchanges| && Inv(ws, anfds, fdchanges[i..]) && Synced()
      {
        assert fdchanges[i..] == [fdchanges[i]] + fdchanges[i + 1..];
        ReifyOne(fdchanges[i], fdchanges[i + 1..]);
        i := i + 1;
      }
      assert fdchanges[i..] == [];
      AllCurrent(ws, anfds);
      fdchanges := [];
    }
  }

  // With no change left over every descriptor is up to date.
  lemma AllCurrent(ws: map<Id, Io>, anfds: seq<Anfd>)
    requires Inv(ws, anfds, [])
    ensures forall fd: nat :: EventsAt(anfds, fd) == Wanted(ws, fd)
  {
    hide Wanted;
    forall fd: nat ensures EventsAt(anfds, fd) == Wanted(ws, fd) {
      if fd >= |anfds| {
        NobodyBeyond(ws, anfds, fd);
      }
    }
  }

  lemma IsListed(ws: map<Id, Io>, anfds: seq<Anfd>, id: Id)
    requires ListsOk(ws, anfds) && id in ws && ws[id].active
    ensures 0 <= ws[id].fd < |anfds|
  {
  }

  // A list that changes concerns nobody's reify flags.
  lemma SameReify(anfds: seq<Anfd>, changes: seq<nat>, fd: nat, head: seq<Id>)
    requires ChangesOk(anfds, changes) && fd < |anfds|
    ensures ChangesOk(anfds[fd := anfds[fd].(head := head)], changes)
  {
  }

  lemma ReadyToReify(ws: map<Id, Io>, anfds: seq<Anfd>, fd: nat, rest: seq<nat>)
    requires Inv(ws, anfds, [fd] + rest)
    ensures fd < |anfds| && ListOk(ws, anfds[fd].head, fd)
    ensures forall id :: id in ws && ws[id].active && ws[id].fd == fd ==> id in anfds[fd].head
  {
    assert fd in [fd] + rest;
  }

  lemma ReifyKeeps(ws: map<Id, Io>, anfds: seq<Anfd>, fd: nat, rest: seq<nat>, anfds': seq<Anfd>)
    requires Inv(ws, anfds, [fd] + rest) && fd < |anfds|
    requires anfds' == anfds[fd := Anfd(anfds[fd].head, Wanted(ws, fd), {})]
    ensures Inv(ws, anfds', rest) && IoMask(Wanted(ws, fd))
  {
    var all := [fd] + rest;
    assert forall i :: 0 <= i < |rest| ==> rest[i] == all[i + 1] != all[0];
    assert forall f :: f in all <==> f == fd || f in rest;
    assert IoMask(Wanted(ws, fd)) by {
      forall f | Wants(ws, fd, f) ensures f in {Read, Write} {
        var id :| id in ws && Asks(ws[id], fd, f);
      }
    }
    hide Wanted;
  }

  // The loop of fd_reify over the watchers of one descriptor.
  method UnionEvents(ws: map<Id, Io>, head: seq<Id>, fd: nat) returns (events: Mask)
    requires ListOk(ws, head, fd) && (forall id :: id in ws && ws[id].active && ws[id].fd == fd ==> id in head)
    ensures events == Wanted(ws, fd)
  {
    events := {};
    for i := 0 to |head|
      invariant forall f :: f in events <==> exists j :: 0 <= j < i && f in ws[head[j]].events
    {
      assert head[i] in head;
      events := events + ws[head[i]].events;
    }
    forall f ensures (f in events <==> Wants(ws, fd, f)) && (f in Wanted(ws, fd) <==> Wants(ws, fd, f)) {
      assert f == Read || f == Write || f == FdSet || f == Reify;
      if Wants(ws, fd, f) {
        var id :| id in ws && Asks(ws[id], fd, f);
        var j :| 0 <= j < |head| && head[j] == id;
        assert f in ws[head[j]].events;
      }
      if f in events {
        var j :| 0 <= j < |head| && f in ws[head[j]].events;
        assert head[j] in head && Asks(ws[head[j]], fd, f);
      }
    }
  }

  // wlist_del
  method Unlink(head: seq<Id>, id: Id) returns (rest: seq<Id>)
    ensures rest == Without(head, id)
  {
    var i := 0;
    while i < |head|
      invariant 0 <= i <= |head| && id !in head[..i]
    {
      if head[i] == id {
        WithoutAt(head, id, i);
        return head[..i] + head[i + 1..];
      }
      i := i + 1;
    }
    WithoutNone(head, id);
    rest := head;
  }

  lemma SameWanted(ws: map<Id, Io>, ws': map<Id, Io>)
    requires ws.Keys == ws'.Keys && forall id :: id in ws ==> ws[id] == ws'[id] || (!ws[id].active && !ws'[id].active)
    ensures forall fd: nat :: Wanted(ws, fd) == Wanted(ws', fd)
  {
    forall fd: nat, f ensures Wants(ws, fd, f) == Wants(ws', fd, f) {
      assert forall id :: id in ws ==> Asks(ws[id], fd, f) == Asks(ws'[id], fd, f);
    }
  }

  lemma NobodyBeyond(ws: map<Id, Io>, anfds: seq<Anfd>, fd: nat)
    requires ListsOk(ws, anfds) && fd >= |anfds|
    ensures Wanted(ws, fd) == {}
  {
    assert forall f :: !Wants(ws, fd, f);
  }

  lemma GrowKeeps(ws: map<Id, Io>, anfds: seq<Anfd>, changes: seq<nat>, n: nat)
    requires Inv(ws, anfds, changes)
    ensures var anfds' := anfds + seq(n, _ => Anfd([], {}, {}));
            Inv(ws, anfds', changes) && forall fd: nat :: EventsAt(anfds', fd) == EventsAt(anfds, fd)
  {
    var anfds' := anfds + seq(n, _ => Anfd([], {}, {}));
    forall fd | |anfds| <= fd < |anfds'| ensures Wanted(ws, fd) == {} {
      NobodyBeyond(ws, anfds, fd);
    }
    hide Wanted;
    assert forall fd :: |anfds| <= fd < |anfds'| ==> anfds'[fd] == Anfd([], {}, {});
  }

  lemma StartKeeps(ws: map<Id, Io>, anfds: seq<Anfd>, id: Id, fd: nat, ws': map<Id, Io>, anfds': seq<Anfd>)
    requires ListsOk(ws, anfds) && Current(ws, anfds) && id in ws && !ws[id].active && fd < |anfds|
    requires ws' == ws[id := Io(fd, ws[id].events - {FdSet}, true)] && ws[id].events <= {Read, Write, FdSet}
    requires |anfds'| == |anfds| && anfds'[fd].head == [id] + anfds[fd].head &&
             anfds'[fd].events == anfds[fd].events && anfds'[fd].reify != {}
    requires forall f :: 0 <= f < |anfds| && f != fd ==> anfds'[f] == anfds[f]
    ensures ListsOk(ws', anfds') && Current(ws', anfds')
  {
    hide Wanted;
    OthersWanted(ws, ws', id, fd);
  }

  lemma OthersWanted(ws: map<Id, Io>, ws': map<Id, Io>, id: Id, fd: nat)
    requires id in ws && id in ws' && ws' == ws[id := ws'[id]] && ws'[id].fd == fd &&
             (ws[id].active ==> ws[id].fd == fd)
    ensures forall f: nat :: f != fd ==> Wanted(ws', f) == Wanted(ws, f)
  {
    forall f: nat, x | f != fd ensures Wants(ws, f, x) == Wants(ws', f, x) {
      assert forall i :: i in ws ==> Asks(ws[i], f, x) == Asks(ws'[i], f, x);
    }
  }

  lemma StopKeeps(ws: map<Id, Io>, anfds: seq<Anfd>, id: Id, fd: nat, rest: seq<Id>, ws': map<Id, Io>,
      anfds': seq<Anfd>)
    requires ListsOk(ws, anfds) && Current(ws, anfds) && id in ws && ws[id].active && ws[id].fd == fd && fd < |anfds|
    requires ws' == ws[id := ws[id].(active := false)] && rest == Without(anfds[fd].head, id)
    requires |anfds'| == |anfds| && anfds'[fd].head == rest && anfds'[fd].events == anfds[fd].events &&
             anfds'[fd].reify != {}
    requires forall f :: 0 <= f < |anfds| && f != fd ==> anfds'[f] == anfds[f]
    ensures ListsOk(ws', anfds') && Current(ws', anfds')
  {
    OthersWanted(ws, ws', id, fd);
    WithoutSpec(anfds[fd].head, id);
    forall f | 0 <= f < |anfds'| ensures ListOk(ws', anfds'[f].head, f) {
      assert ListOk(ws, anfds[f].head, f);
    }
  }

  lemma {:induction false} WithoutSpec(head: seq<Id>, id: Id)
    requires forall i, j :: 0 <= i < j < |head| ==> head[i] != head[j]
    ensures var rest := Without(head, id);
            && (forall x :: x in rest <==> x in head && x != id)
            && (forall i, j :: 0 <= i < j < |rest| ==> rest[i] != rest[j])
  {
    if head != [] {
      var tail := head[1..];
      assert forall i, j :: 0 <= i < j < |tail| ==> tail[i] == head[i + 1] && tail[j] == head[j + 1];
      WithoutSpec(head[1..], id);
      assert head[0] !in head[1..];
      assert forall x :: x in head <==> x == head[0] || x in head[1..];
    }
  }
}
