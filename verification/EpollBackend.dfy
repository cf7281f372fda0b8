/**
 The epoll backend: registrations in the kernel are dropped lazily, repaired from the errors
 epoll_ctl returns, and told apart by generation tags.
 */
module EpollBackend {
  import opened FdEvents

  const GENERATIONS: nat := 0x1_0000_0000

  // A registration: the mask, and the tag in the upper half of the user data.
  datatype Reg = Reg(mask: Mask, tag: nat)

  datatype Op = ADD | MOD | DEL
  datatype Errno = OK | ENOENT | EEXIST | EBADF

  /** The kernel's epoll set and the open descriptors of the process. */
  class Kernel {
    var regs: map<nat, Reg>
    var open: set<nat>

    // epoll_ctl
    method Ctl(op: Op, fd: nat, reg: Reg) returns (err: Errno)
      modifies this`regs
      ensures err == EBADF <==> fd !in open
      ensures err == EEXIST <==> fd in open && op == ADD && fd in old(regs)
      ensures err == ENOENT <==> fd in open && op != ADD && fd !in old(regs)
      ensures err != OK ==> regs == old(regs)
      ensures err == OK ==> regs == if op == DEL then old(regs) - {fd} else old(regs)[fd := reg]
    {
      if fd !in open {
        return EBADF;
      }
      if op == ADD && fd in regs {
        return EEXIST;
      }
      if op != ADD && fd !in regs {
        return ENOENT;
      }
      regs := if op == DEL then regs - {fd} else regs[fd := reg];
      return OK;
    }
  }

  // `want` stands for the watcher list: the union of its events.
  datatype Anfd = Anfd(want: Mask, events: Mask, reify: Mask, emask: Mask, egen: nat)

  // Everything the protocol keeps about one descriptor. A descriptor is stale from the time it
  // is closed until epoll_modify has registered it again.
  predicate FdOk(a: Anfd, fd: nat, regs: map<nat, Reg>, open: set<nat>, stale: set<nat>) {
    && a.egen < GENERATIONS && IoMask(a.want) && IoMask(a.events)
    && (fd in regs ==> fd in open && fd !in stale && regs[fd] == Reg(a.emask, a.egen))
    && (a.events != {} && fd !in stale ==> fd in regs && a.emask == a.events)
    && (a.reify == {} ==> a.events == a.want)
  }

  ghost predicate AllOk(anfds: seq<Anfd>, regs: map<nat, Reg>, open: set<nat>, stale: set<nat>) {
    && (forall fd :: 0 <= fd < |anfds| ==> FdOk(anfds[fd], fd, regs, open, stale))
    && (forall fd :: fd in regs ==> fd < |anfds|)
  }

  // Every descriptor with reify set is in fdchanges exactly once, and no other is.
  ghost predicate ChangesOk(anfds: seq<Anfd>, changes: seq<nat>) {
    && (forall i, j :: 0 <= i < j < |changes| ==> changes[i] != changes[j])
    && (forall fd :: fd in changes ==> fd < |anfds|)
    && (forall fd :: 0 <= fd < |anfds| ==> (anfds[fd].reify != {} <==> fd in changes))
  }

  class Loop {
    var anfds: seq<Anfd>
    var fdchanges: seq<nat>
    var postfork: bool
    const kernel: Kernel
    ghost var stale: set<nat>

    ghost predicate Valid()
      reads this, kernel
    {
      AllOk(anfds, kernel.regs, kernel.open, stale) && ChangesOk(anfds, fdchanges)
    }

    constructor (nfds: nat, k: Kernel)
      requires k.regs == map[]
      ensures Valid() && |anfds| == nfds && kernel == k && Tame(anfds, stale, map[], {})
    {
      anfds := seq(nfds, _ => Anfd({}, {}, {}, {}, 0));
      fdchanges, postfork, stale := [], false, {};
      kernel := k;
    }

    /** epoll_modify: whatever was registered before, afterwards fd is registered with exactly
        nev under its current tag, unless it is not open at all. */
    method Modify(fd: nat, oev: Mask, nev: Mask) returns (killed: bool)
      requires fd < |anfds| && IoMask(nev) && anfds[fd].egen < GENERATIONS
      requires fd in kernel.regs ==> fd in kernel.open && kernel.regs[fd] == Reg(anfds[fd].emask, anfds[fd].egen)
      modifies this`anfds, kernel`regs
      ensures |anfds| == |old(anfds)| && anfds == old(anfds)[fd := anfds[fd]]
      ensures anfds[fd] == old(anfds)[fd].(emask := anfds[fd].emask, egen := anfds[fd].egen) &&
              anfds[fd].egen < GENERATIONS
      ensures nev == {} ==> !killed && anfds == old(anfds) && kernel.regs == old(kernel.regs)
      ensures nev != {} ==> anfds[fd].emask == nev
      ensures nev != {} && fd in kernel.open ==>
              !killed && kernel.regs == old(kernel.regs)[fd := Reg(nev, anfds[fd].egen)]
      ensures nev != {} && fd !in kernel.open ==> killed && kernel.regs == old(kernel.regs)
      // a new generation exactly when the registration changes
      ensures anfds[fd].egen == (old(anfds)[fd].egen + if kernel.regs == old(kernel.regs) then 0 else 1) % GENERATIONS
    {
      killed := false;
      if nev == {} {
        return;
      }
      var oldmask := anfds[fd].emask;
      var oldgen := anfds[fd].egen;
      anfds := anfds[fd := anfds[fd].(emask := nev, egen := (oldgen + 1) % GENERATIONS)];
      var reg := Reg(nev, anfds[fd].egen);
      var err := kernel.Ctl(if oev != {} && oldmask != nev then MOD else ADD, fd, reg);
      if err == OK {
        return;
      }
      if err == ENOENT {
        err := kernel.Ctl(ADD, fd, reg);
        if err == OK {
          return;
        }
      } else if err == EEXIST {
        if oldmask == nev {
          anfds := anfds[fd := anfds[fd].(egen := oldgen)];
          return;
        }
        err := kernel.Ctl(MOD, fd, reg);
        if err == OK {
          return;
        }
      }
      killed := true;  // fd_kill: the caller stops the watchers
      anfds := anfds[fd := anfds[fd].(egen := oldgen)];
    }

    // array_needsize for anfds
    method NeedFd(fd: nat)
      requires Valid()
      modifies this`anfds
      ensures Valid() && |anfds| == (if fd + 1 > |old(anfds)| then fd + 1 else |old(anfds)|) && old(anfds) <= anfds
      ensures forall f :: |old(anfds)| <= f < |anfds| ==> anfds[f] == Anfd({}, {}, {}, {}, 0)
    {
      if fd + 1 > |anfds| {
        anfds := anfds + seq(fd + 1 - |anfds|, _ => Anfd({}, {}, {}, {}, 0));
      }
    }

    // fd_change
    method FdChange(fd: nat, flags: Mask, ghost done: nat)
      requires done <= |fdchanges| && ChangesOk(anfds, fdchanges[done..]) && fd < |anfds| && flags != {}
      modifies this`anfds, this`fdchanges
      ensures old(fdchanges) <= fdchanges && ChangesOk(anfds, fdchanges[done..])
      ensures anfds == old(anfds)[fd := old(anfds)[fd].(reify := old(anfds)[fd].reify + flags)]
      ensures fdchanges == old(fdchanges) + if old(anfds)[fd].reify == {} then [fd] else []
    {
      var reify := anfds[fd].reify;
      anfds := anfds[fd := anfds[fd].(reify := reify + flags)];
      if reify == {} {
        AppendChange(old(anfds), anfds, fdchanges[done..], fd);
        fdchanges := fdchanges + [fd];
        assert fdchanges[done..] == old(fdchanges)[done..] + [fd];
      }
    }

    // ev_io_start or ev_io_stop of a watcher of fd, which leaves `want` wanted; wasSet when the
    // watcher was set since it last ran
    method Change(fd: nat, want: Mask, wasSet: bool)
      requires Valid() && fd < |anfds| && IoMask(want)
      modifies this`anfds, this`fdchanges
      ensures Valid()
      ensures var a := old(anfds)[fd];
              anfds == old(anfds)[fd := a.(want := want, reify := a.reify + if wasSet then {FdSet, Reify} else {Reify})]
    {
      assert fdchanges[0..] == fdchanges;
      FdChange(fd, if wasSet then {FdSet, Reify} else {Reify}, 0);
      anfds := anfds[fd := anfds[fd].(want := want)];
      assert fdchanges[0..] == fdchanges;
    }

    // backend_modify for a descriptor that was as in `a`, with fd_kill when it is not open.
    method BackendModify(fd: nat, a: Anfd, ghost done: nat)
      requires fd < |anfds| && anfds[fd] == a.(reify := {}, events := a.want)
      requires FdOk(a, fd, kernel.regs, kernel.open, stale)
      requires done <= |fdchanges| && ChangesOk(anfds, fdchanges[done..])
      modifies this`anfds, this`fdchanges, this`stale, kernel`regs
      ensures |anfds| == |old(anfds)| && anfds == old(anfds)[fd := anfds[fd]] && old(fdchanges) <= fdchanges
      ensures kernel.regs - {fd} == old(kernel.regs) - {fd}
      ensures forall f :: f != fd ==> (f in stale <==> f in old(stale))
      ensures FdOk(anfds[fd], fd, kernel.regs, kernel.open, stale) && ChangesOk(anfds, fdchanges[done..])
      ensures Retagged(old(anfds)[fd], anfds[fd], fd, old(kernel.regs), kernel.regs)
      ensures a.want == {} || fd !in kernel.open ==> kernel.regs == old(kernel.regs)
      ensures if a.want != {} && fd !in kernel.open then
                anfds[fd].want == {} && anfds[fd].reify == {Reify} && fd in stale && fdchanges != old(fdchanges)
              else
                && anfds[fd].want == anfds[fd].events == a.want && anfds[fd].reify == {}
                && stale == (if a.want != {} then old(stale) - {fd} else old(stale)) && fdchanges == old(fdchanges)
    {
      hide ChangesOk;
      var killed := Modify(fd, a.events, a.want);
      if killed {
        anfds := anfds[fd := anfds[fd].(want := {})];
        stale := stale + {fd};
        SameReify(old(anfds), anfds, fdchanges[done..]);
        FdChange(fd, {Reify}, done);
      } else {
        if a.want != {} {
          stale := stale - {fd};
        }
        SameReify(old(anfds), anfds, fdchanges[done..]);
      }
    }

    // One turn of fd_reify's loop.
    method ReifyOne(i: nat)
      requires i < |fdchanges| && AllOk(anfds, kernel.regs, kernel.open, stale) && ChangesOk(anfds, fdchanges[i..])
      modifies this`anfds, this`fdchanges, this`stale, kernel`regs
      ensures old(fdchanges) <= fdchanges && |anfds| == |old(anfds)|
      ensures AllOk(anfds, kernel.regs, kernel.open, stale) && ChangesOk(anfds, fdchanges[i + 1..])
      ensures var fd := old(fdchanges)[i];
              && fd < |anfds| && anfds == old(anfds)[fd := anfds[fd]]
              && (forall f :: f != fd ==> (f in stale <==> f in old(stale)))
              && Outcome(old(anfds)[fd], anfds[fd], fd, kernel.open, old(stale), stale)
              && (Killed(old(anfds)[fd], fd, kernel.open) <==> fdchanges != old(fdchanges))
              && Retagged(old(anfds)[fd], anfds[fd], fd, old(kernel.regs), kernel.regs)
              && (Killed(old(anfds)[fd], fd, kernel.open) ==> kernel.regs == old(kernel.regs))
              && kernel.regs - {fd} == old(kernel.regs) - {fd}
    {
      hide AllOk, ChangesOk;
      var fd := fdchanges[i];
      IsKnown(anfds, fdchanges, i);
      FdIsOk(anfds, kernel.regs, kernel.open, stale, fd);
      var a := anfds[fd];
      var changed := FdSet in a.reify || a.events != a.want;
      anfds := anfds[fd := a.(reify := {}, events := a.want)];
      DropChange(old(anfds), anfds, fdchanges, i);
      if changed {
        BackendModify(fd, a, i + 1);
      }
      OthersOk(old(anfds), anfds, old(kernel.regs), kernel.regs, kernel.open, old(stale), stale, fd);
    }

    /** fd_reify over epoll: a wanted descriptor ends up registered with exactly the wanted mask
        unless it was closed and neither its mask nor its watchers have changed since; and one that
        is not open is given up when it is found out. */
    method FdReify()
      requires Valid()
      modifies this`anfds, this`fdchanges, this`stale, kernel`regs
      ensures Valid() && fdchanges == [] && |anfds| == |old(anfds)|
      ensures forall fd :: 0 <= fd < |anfds| ==> Settled(old(anfds)[fd], anfds[fd], fd, kernel.open, old(stale), stale)
      ensures forall fd :: 0 <= fd < |anfds| && anfds[fd].want != {} ==> (Exact(fd) <==> fd !in stale)
      ensures forall fd :: 0 <= fd < |anfds| && old(anfds)[fd].want != {} ==>
                var a := old(anfds)[fd];
                if NeedsModify(a) && fd !in kernel.open then anfds[fd].want == {}
                else anfds[fd].want == a.want && (Exact(fd) <==> fd !in old(stale) || NeedsModify(a))
      ensures forall fd :: 0 <= fd < |anfds| ==> Retagged(old(anfds)[fd], anfds[fd], fd, old(kernel.regs), kernel.regs)
    {
      hide AllOk, ChangesOk, Progress;
      var i := 0;
      ghost var anfds0, stale0, regs0 := anfds, stale, kernel.regs;
      assert fdchanges[0..] == fdchanges;
      NoProgress(anfds, kernel.open, stale, kernel.regs);
      while i < |fdchanges|
        invariant 0 <= i <= |fdchanges| && AllOk(anfds, kernel.regs, kernel.open, stale)
        invariant ChangesOk(anfds, fdchanges[i..])
        invariant Progress(anfds0, anfds, kernel.open, stale0, stale, regs0, kernel.regs)
        decreases Live(anfds), |fdchanges| - i
      {
        ReifyNext(i, anfds0, stale0, regs0);
        i := i + 1;
      }
      assert fdchanges[i..] == [];
      AllSettled(anfds0, anfds, kernel.open, stale0, stale, regs0, kernel.regs);
      fdchanges := [];
    }

    method ReifyNext(i: nat, ghost anfds0: seq<Anfd>, ghost stale0: set<nat>, ghost regs0: map<nat, Reg>)
      requires i < |fdchanges| && AllOk(anfds, kernel.regs, kernel.open, stale) && ChangesOk(anfds, fdchanges[i..])
      requires Progress(anfds0, anfds, kernel.open, stale0, stale, regs0, kernel.regs)
      modifies this`anfds, this`fdchanges, this`stale, kernel`regs
      ensures old(fdchanges) <= fdchanges && AllOk(anfds, kernel.regs, kernel.open, stale)
      ensures ChangesOk(anfds, fdchanges[i + 1..])
      ensures Progress(anfds0, anfds, kernel.open, stale0, stale, regs0, kernel.regs)
      ensures Live(anfds) < old(Live(anfds)) || (Live(anfds) == old(Live(anfds)) && fdchanges == old(fdchanges))
    {
      hide AllOk, ChangesOk, Settled, Retagged, SameReg;
      ghost var before, fd := anfds, fdchanges[i];
      ghost var staleBefore, regsBefore := stale, kernel.regs;
      IsKnown(anfds, fdchanges, i);
      ReifyOne(i);
      IsOutcome(before[fd], anfds[fd], fd, kernel.open, staleBefore, stale);
      TaggedStep(anfds0, before, anfds, fd, regs0, regsBefore, kernel.regs);
      TrackedStep(anfds0[fd], before[fd], anfds[fd], fd, kernel.open, stale0, staleBefore, stale);
      TrackedOthers(anfds0, before, anfds, fd, kernel.open, stale0, staleBefore, stale);
      assert forall f :: 0 <= f < |anfds| && f != fd ==> anfds[f] == before[f];
      LiveShrinks(before, anfds, fd);
    }

    // The kernel watches for what is wanted, no more and no less.
    ghost predicate Exact(fd: nat)
      reads this, kernel
      requires fd < |anfds|
    {
      fd in kernel.regs && kernel.regs[fd].mask == anfds[fd].want
    }

    // The application closes or opens a descriptor; the kernel forgets closed ones.
    method Close(fd: nat)
      requires Valid()
      modifies this`stale, kernel
      ensures Valid() && kernel.open == old(kernel.open) - {fd} && kernel.regs == old(kernel.regs) - {fd}
      ensures stale == old(stale) + {fd}
    {
      kernel.open, kernel.regs := kernel.open - {fd}, kernel.regs - {fd};
      stale := stale + {fd};
    }

    method Open(fd: nat)
      requires Valid()
      modifies kernel`open
      ensures Valid() && kernel.open == old(kernel.open) + {fd}
    {
      kernel.open := kernel.open + {fd};
    }

    // A descriptor number that is closed and handed out again while it is watched: nothing tells
    // the loop, and the new file is not watched.
    method ReuseUnnoticed(fd: nat)
      requires Valid() && fd < |anfds| && anfds[fd].reify == {} && anfds[fd].want != {}
      modifies this`anfds, this`fdchanges, this`stale, kernel
      ensures Valid() && |anfds| == |old(anfds)|
      ensures fd in kernel.open && anfds[fd].want == old(anfds)[fd].want && fd !in kernel.regs
    {
      Close(fd);
      Open(fd);
      FdReify();
    }

    // With ev_io_set in between it is.
    method ReuseSet(fd: nat, want: Mask)
      requires Valid() && fd < |anfds| && IoMask(want) && want != {}
      modifies this`anfds, this`fdchanges, this`stale, kernel
      ensures Valid() && |anfds| == |old(anfds)| && anfds[fd].want == want && Exact(fd) && anfds[fd].reify == {}
      ensures anfds[fd].egen == (old(anfds)[fd].egen + 1) % GENERATIONS
    {
      Close(fd);
      Open(fd);
      Change(fd, want, true);
      FdReify();
    }

    method ReuseOften(fd: nat, wants: seq<Mask>)
      requires Valid() && fd < |anfds| && wants != []
      requires forall k :: 0 <= k < |wants| ==> IoMask(wants[k]) && wants[k] != {}
      modifies this`anfds, this`fdchanges, this`stale, kernel
      ensures Valid() && |anfds| == |old(anfds)| && anfds[fd].want == wants[|wants| - 1] && Exact(fd)
      ensures anfds[fd].reify == {} && anfds[fd].egen == (old(anfds)[fd].egen + |wants|) % GENERATIONS
    {
      hide AllOk, ChangesOk;
      FdIsOk(anfds, kernel.regs, kernel.open, stale, fd);
      for k := 0 to |wants|
        invariant Valid() && |anfds| == |old(anfds)| && anfds[fd].egen == (old(anfds)[fd].egen + k) % GENERATIONS
        invariant k > 0 ==> anfds[fd].want == wants[k - 1] && Exact(fd) && anfds[fd].reify == {}
      {
        ReuseSet(fd, wants[k]);
      }
    }

    /** Events of a file that is gone: after its descriptor has been reused and re-set, any number of
        times, an event with the tag it had is dropped and a new epoll set is asked for, unless that
        number is a multiple of 2^32. */
    method OldEventDropped(fd: nat, wants: seq<Mask>, got: Mask) returns (delivered: bool)
      requires Valid() && fd < |anfds| && wants != [] && IoMask(got)
      requires forall k :: 0 <= k < |wants| ==> IoMask(wants[k]) && wants[k] != {}
      modifies this`anfds, this`fdchanges, this`stale, this`postfork, kernel
      ensures Valid() && |anfds| == |old(anfds)| && (delivered <==> |wants| % GENERATIONS == 0)
      ensures !delivered ==> postfork && Exact(fd)
    {
      var tag := anfds[fd].egen;
      FdIsOk(anfds, kernel.regs, kernel.open, stale, fd);
      hide AllOk, ChangesOk;
      ReuseOften(fd, wants);
      SameTag(tag, |wants|);
      delivered := Event(fd, tag, got);
    }

    static lemma SameTag(tag: nat, n: nat)
      requires tag < GENERATIONS
      ensures (tag + n) % GENERATIONS == tag <==> n % GENERATIONS == 0
    {
    }

    // One act of the application or the loop.
    method Perform(a: Act, ghost wants: map<nat, Mask>, ghost dirty: set<nat>)
      requires Valid() && Tame(anfds, stale, wants, dirty) && Allowed(a, |anfds|, wants, dirty)
      modifies this, kernel
      ensures Valid() && Tame(anfds, stale, WantsAfter(a, wants), DirtyAfter(a, dirty)) && |anfds| == |old(anfds)|
      ensures a.DoReify? ==> forall fd :: 0 <= fd < |anfds| && anfds[fd].want != {} ==> Exact(fd)
      ensures forall fd :: fd in old(kernel.open) && a != DoClose(fd) ==> fd in kernel.open
      ensures forall fd :: 0 <= fd < |anfds| && fd in old(kernel.open) && a != DoClose(fd) ==>
                anfds[fd].want == WantAfter(a, fd, old(anfds)[fd].want)
    {
      ghost var anfds0 := anfds;
      match a {
        case DoChange(fd, want, wasSet) => Change(fd, want, wasSet);
        case DoClose(fd) => Close(fd);
        case DoOpen(fd) => Open(fd);
        case DoRearm => Rearm();
        case DoEvent(fd, tag, got) => var _ := Event(fd, tag, got);
        case DoReify =>
          FdReify();
          forall fd | 0 <= fd < |anfds| ensures TameFd(anfds[fd], fd, stale, wants, {}) {
            assert TameFd(anfds0[fd], fd, old(stale), wants, dirty);
            assert Settled(anfds0[fd], anfds[fd], fd, kernel.open, old(stale), stale);
          }
      }
    }

    /** Any run in which a descriptor that was closed is re-set by the next fd_reify, or goes
        through it unwatched, agrees: after its last fd_reify the kernel watches for exactly what
        is wanted, although deletions were skipped on the way. */
    method RunAgrees(acts: seq<Act>)
      requires Valid() && Tame(anfds, stale, map[], {})
      requires Obeys(acts + [DoReify], |anfds|, map[], {})
      modifies this, kernel
      ensures Valid() && |anfds| == |old(anfds)|
      ensures forall fd :: 0 <= fd < |anfds| && anfds[fd].want != {} ==> Exact(fd)
      // and what is wanted is what was last asked for, wherever the descriptor stayed open
      ensures forall fd :: 0 <= fd < |anfds| && fd in old(kernel.open) && DoClose(fd) !in acts ==>
                anfds[fd].want == LastWant(acts, fd)
    {
      var all := acts + [DoReify];
      ghost var wants, dirty := map[], {};
      assert all[0..] == all;
      for i := 0 to |all|
        invariant Valid() && |anfds| == |old(anfds)| && Tame(anfds, stale, wants, dirty)
        invariant Obeys(all[i..], |anfds|, wants, dirty)
        invariant i == |all| ==> forall fd :: 0 <= fd < |anfds| && anfds[fd].want != {} ==> Exact(fd)
        invariant forall fd :: fd in old(kernel.open) && DoClose(fd) !in acts ==> fd in kernel.open
        invariant forall fd :: 0 <= fd < |anfds| && fd in old(kernel.open) && DoClose(fd) !in acts ==>
                    anfds[fd].want == LastWant(all[..i], fd)
      {
        hide AllOk, ChangesOk, Tame;
        assert all[..i + 1][..i] == all[..i] && (i < |acts| ==> all[i] in acts);
        assert all[i..][0] == all[i] && all[i..][1..] == all[i + 1..];
        Perform(all[i], wants, dirty);
        wants, dirty := WantsAfter(all[i], wants), DirtyAfter(all[i], dirty);
      }
      assert all[..|all|] == all && all[..|acts|] == acts;
    }

    /** One event of epoll_poll, possibly a spurious one. It is passed on when its tag is current
        and the kernel's view of the descriptor could be brought in line with what is wanted. */
    method Event(fd: nat, tag: nat, got: Mask) returns (delivered: bool)
      requires Valid() && fd < |anfds| && IoMask(got)
      modifies this`anfds, this`postfork, kernel`regs
      ensures Valid() && |anfds| == |old(anfds)|
      ensures forall f :: 0 <= f < |anfds| ==> anfds[f] == old(anfds)[f].(emask := anfds[f].emask)
      ensures old(postfork) ==> postfork
      ensures tag != anfds[fd].egen ==> !delivered && postfork && kernel.regs == old(kernel.regs)
      // an event nobody wants ends the registration that caused it, or makes it exact
      ensures tag == anfds[fd].egen && !(got <= anfds[fd].events) && fd in old(kernel.regs) ==>
                kernel.regs == if anfds[fd].events == {} then old(kernel.regs) - {fd}
                    else old(kernel.regs)[fd := Reg(anfds[fd].events, tag)]
      ensures tag == anfds[fd].egen && !(got <= anfds[fd].events) && fd !in old(kernel.regs) ==>
              postfork && !delivered && kernel.regs == old(kernel.regs)
      ensures delivered ==> tag == anfds[fd].egen && anfds[fd].reify == {}
      ensures tag == anfds[fd].egen && (got <= anfds[fd].events || fd in old(kernel.regs)) ==>
              (delivered <==> anfds[fd].reify == {})
      ensures tag == anfds[fd].egen && (got <= anfds[fd].events || fd in old(kernel.regs)) ==> postfork == old(postfork)
      ensures forall f :: f != fd ==> (f in kernel.regs <==> f in old(kernel.regs))
    {
      delivered := false;
      var want := anfds[fd].events;
      if anfds[fd].egen != tag {
        postfork := true;
        return;
      }
      if !(got <= want) {
        anfds := anfds[fd := anfds[fd].(emask := want)];
        var err := kernel.Ctl(if want != {} then MOD else DEL, fd, Reg(want, tag));
        if err != OK {
          postfork := true;
          return;
        }
      }
      delivered := anfds[fd].reify == {};
    }

    /** The loop of epoll_poll: a batch that reports live registrations, each once, never makes the
        loop rebuild its kernel state, and everything not about to be reified is delivered. */
    method Poll(batch: seq<Ready>) returns (delivered: seq<Ready>)
      requires Valid() && forall k :: 0 <= k < |batch| ==> batch[k].fd < |anfds| && IoMask(batch[k].got)
      requires forall j, k :: 0 <= j < k < |batch| ==> batch[j].fd != batch[k].fd
      requires forall k :: 0 <= k < |batch| ==>
               batch[k].fd in kernel.regs && batch[k].tag == kernel.regs[batch[k].fd].tag
      modifies this`anfds, this`postfork, kernel`regs
      ensures Valid() && postfork == old(postfork)
      ensures forall k :: 0 <= k < |batch| ==> (batch[k] in delivered <==> old(anfds)[batch[k].fd].reify == {})
      // each once, in the order of the batch, and nothing else
      ensures delivered == Untouched(batch, old(anfds))
    {
      hide ChangesOk, FdOk, Untouched;
      delivered := [];
      ghost var anfds0, regs0 := anfds, kernel.regs;
      UntouchedNone(anfds0);
      AllTagged(anfds0, regs0, kernel.open, stale);
      for i := 0 to |batch|
        invariant Valid() && postfork == old(postfork) && |anfds| == |anfds0|
        invariant forall f :: 0 <= f < |anfds| ==> anfds[f] == anfds0[f].(emask := anfds[f].emask)
        invariant forall k :: i <= k < |batch| ==> batch[k].fd in kernel.regs
        invariant forall k :: 0 <= k < i ==> (batch[k] in delivered <==> anfds0[batch[k].fd].reify == {})
        invariant forall r :: r in delivered ==> r in batch[..i]
        invariant delivered == Untouched(batch[..i], anfds0)
      {
        var r := batch[i];
        assert regs0[r.fd].tag == anfds0[r.fd].egen;
        var ok := Event(r.fd, r.tag, r.got);
        if ok {
          delivered := delivered + [r];
        }
        assert batch[..i + 1] == batch[..i] + [r];
        UntouchedSnoc(batch[..i], r, anfds0);
      }
      assert batch[..|batch|] == batch;
    }

    /** epoll_fork with fd_rearm_all: a new, empty kernel set, and every descriptor that was in use
        is due for registration. */
    method Rearm()
      requires Valid()
      modifies this, kernel`regs
      ensures Valid() && kernel.regs == map[] && !postfork && |anfds| == |old(anfds)| && stale == old(stale)
      ensures forall fd :: 0 <= fd < |anfds| ==> Rearmed(old(anfds)[fd], anfds[fd])
    {
      kernel.regs := map[];
      ghost var anfds0 := anfds;
      assert fdchanges[0..] == fdchanges;
      for fd := 0 to |anfds|
        invariant |anfds| == |anfds0| && ChangesOk(anfds, fdchanges) && stale == old(stale) && kernel.regs == map[]
        invariant forall f :: 0 <= f < fd ==> Rearmed(anfds0[f], anfds[f])
        invariant forall f :: fd <= f < |anfds| ==> anfds[f] == anfds0[f]
      {
        if anfds[fd].events != {} {
          anfds := anfds[fd := anfds[fd].(events := {}, emask := {})];
          assert fdchanges[0..] == fdchanges;
          FdChange(fd, {FdSet, Reify}, 0);
          assert fdchanges[0..] == fdchanges;
        }
      }
      postfork := false;
    }
  }

  // The events for descriptors without changes under way.
  ghost function Untouched(batch: seq<Ready>, anfds: seq<Anfd>): seq<Ready> {
    if batch == [] then []
    else
      var r := batch[|batch| - 1];
      Untouched(batch[..|batch| - 1], anfds) + if r.fd < |anfds| && anfds[r.fd].reify == {} then [r] else []
  }

  lemma UntouchedNone(anfds: seq<Anfd>)
    ensures Untouched([], anfds) == []
  {
  }

  lemma UntouchedSnoc(batch: seq<Ready>, r: Ready, anfds: seq<Anfd>)
    ensures Untouched(batch + [r], anfds) ==
            Untouched(batch, anfds) + if r.fd < |anfds| && anfds[r.fd].reify == {} then [r] else []
  {
    assert (batch + [r])[..|batch|] == batch;
  }

  lemma AllTagged(anfds: seq<Anfd>, regs: map<nat, Reg>, open: set<nat>, stale: set<nat>)
    requires AllOk(anfds, regs, open, stale)
    ensures forall fd :: fd in regs ==> fd < |anfds| && regs[fd].tag == anfds[fd].egen
  {
    forall fd | fd in regs ensures fd < |anfds| && regs[fd].tag == anfds[fd].egen {
      assert FdOk(anfds[fd], fd, regs, open, stale);
    }
  }

  /* ---------- runs ---------- */

  datatype Act = DoChange(fd: nat, want: Mask, wasSet: bool)
               | DoClose(fd: nat)
               | DoOpen(fd: nat)
               | DoRearm
               | DoEvent(fd: nat, tag: nat, got: Mask)
               | DoReify

  // What the application last asked for, and the descriptors closed since then or since fd_reify.
  ghost function WantsAfter(a: Act, wants: map<nat, Mask>): map<nat, Mask> {
    if a.DoChange? then wants[a.fd := a.want] else wants
  }

  ghost function DirtyAfter(a: Act, dirty: set<nat>): set<nat> {
    match a
    case DoChange(fd, _, wasSet) => if wasSet then dirty - {fd} else dirty
    case DoClose(fd) => dirty + {fd}
    case DoReify => {}
    case _ => dirty
  }

  ghost function WantAfter(a: Act, fd: nat, want: Mask): Mask {
    if a.DoChange? && a.fd == fd then a.want else want
  }

  // The mask that the last change of fd asked for.
  ghost function LastWant(acts: seq<Act>, fd: nat): Mask {
    if acts == [] then {} else WantAfter(acts[|acts| - 1], fd, LastWant(acts[..|acts| - 1], fd))
  }

  // A closed descriptor is re-set by the next fd_reify, or goes through it unwatched.
  ghost predicate Allowed(a: Act, n: nat, wants: map<nat, Mask>, dirty: set<nat>) {
    match a
    case DoChange(fd, want, _) => fd < n && IoMask(want)
    case DoEvent(fd, _, got) => fd < n && IoMask(got)
    case DoReify => forall fd :: fd in dirty && fd in wants ==> wants[fd] == {}
    case _ => true
  }

  ghost predicate Obeys(acts: seq<Act>, n: nat, wants: map<nat, Mask>, dirty: set<nat>) {
    acts == [] || (Allowed(acts[0], n, wants, dirty) &&
        Obeys(acts[1..], n, WantsAfter(acts[0], wants), DirtyAfter(acts[0], dirty)))
  }

  // A stale descriptor is dirty, or the next fd_reify that finds it wanted registers it.
  ghost predicate TameFd(a: Anfd, fd: nat, stale: set<nat>, wants: map<nat, Mask>, dirty: set<nat>) {
    && (fd in stale && fd !in dirty ==> FdSet in a.reify || a.events == {})
    && (a.want == {} || (fd in wants && a.want == wants[fd]))
  }

  ghost predicate Tame(anfds: seq<Anfd>, stale: set<nat>, wants: map<nat, Mask>, dirty: set<nat>) {
    forall fd :: 0 <= fd < |anfds| ==> TameFd(anfds[fd], fd, stale, wants, dirty)
  }

  // An entry of the array epoll_wait fills in.
  datatype Ready = Ready(fd: nat, tag: nat, got: Mask)

  /** Rebuilding the kernel set loses nothing: once fd_reify has run, every open descriptor that
      is wanted is registered again, stale or not. */
  lemma RearmRecovers(a0: Anfd, a1: Anfd, a2: Anfd, fd: nat, regs: map<nat, Reg>, open: set<nat>, stale: set<nat>,
      stale': set<nat>)
    requires FdOk(a0, fd, regs, open, stale) && Rearmed(a0, a1) && Settled(a1, a2, fd, open, stale, stale')
    ensures a2.want == if fd in open then a0.want else {}
    ensures a2.want != {} ==> fd !in stale'
  {
  }

  predicate Rearmed(a0: Anfd, a: Anfd) {
    if a0.events == {} then a == a0
    else a == a0.(events := {}, emask := {}, reify := a0.reify + {FdSet, Reify})
  }

  // fd_reify as a whole, for one descriptor.
  predicate Settled(a0: Anfd, a: Anfd, fd: nat, open: set<nat>, stale0: set<nat>, stale: set<nat>) {
    && a.reify == {} && a.events == a.want
    && (a.want == if Killed(a0, fd, open) then {} else a0.want)
    && (a.want != {} ==> (fd in stale <==> fd in stale0 && !Registered(a0, fd, open)))
  }

  // The same while the loop is under way: not looked at yet, killed and queued again, or done.
  predicate Tracked(a0: Anfd, a: Anfd, fd: nat, open: set<nat>, stale0: set<nat>, stale: set<nat>) {
    || (a == a0 && (fd in stale <==> fd in stale0))
    || (Killed(a0, fd, open) && a.want == {} && a.reify == {Reify} && fd in stale)
    || Settled(a0, a, fd, open, stale0, stale)
  }

  lemma TrackedStep(a0: Anfd, a: Anfd, a': Anfd, fd: nat, open: set<nat>, stale0: set<nat>, stale: set<nat>,
      stale': set<nat>)
    requires a.reify != {} && Tracked(a0, a, fd, open, stale0, stale) && Outcome(a, a', fd, open, stale, stale')
    ensures Tracked(a0, a', fd, open, stale0, stale')
  {
  }

  // The descriptors somebody wants events for.
  ghost function Live(anfds: seq<Anfd>): set<nat> {
    set fd: nat | fd < |anfds| && anfds[fd].want != {}
  }

  lemma LiveShrinks(anfds: seq<Anfd>, anfds': seq<Anfd>, fd: nat)
    requires fd < |anfds| == |anfds'| && forall f :: 0 <= f < |anfds| && f != fd ==> anfds'[f] == anfds[f]
    requires anfds[fd].want == {} ==> anfds'[fd].want == {}
    ensures Live(anfds') <= Live(anfds)
    ensures (anfds'[fd].want == {} <==> anfds[fd].want == {}) ==> Live(anfds') == Live(anfds)
    ensures anfds'[fd].want == {} && anfds[fd].want != {} ==> Live(anfds') < Live(anfds)
  {
    if anfds'[fd].want == {} && anfds[fd].want != {} {
      assert fd in Live(anfds) && fd !in Live(anfds');
    }
  }

  // fd_reify calls the backend for this descriptor.
  predicate NeedsModify(a: Anfd) {
    FdSet in a.reify || a.want != a.events
  }

  predicate Registered(a: Anfd, fd: nat, open: set<nat>) {
    a.reify != {} && NeedsModify(a) && a.want != {} && fd in open
  }

  // The descriptor turns out to be invalid: its watchers are stopped and told.
  predicate Killed(a: Anfd, fd: nat, open: set<nat>) {
    a.reify != {} && NeedsModify(a) && a.want != {} && fd !in open
  }

  // The registration is the same, or there is none in either.
  predicate SameReg(fd: nat, regs0: map<nat, Reg>, regs: map<nat, Reg>) {
    (fd in regs <==> fd in regs0) && (fd in regs ==> regs[fd] == regs0[fd])
  }

  // The generation moves on by one exactly when the registration changes.
  predicate Retagged(a0: Anfd, a: Anfd, fd: nat, regs0: map<nat, Reg>, regs: map<nat, Reg>) {
    a.egen % GENERATIONS == (a0.egen + if SameReg(fd, regs0, regs) then 0 else 1) % GENERATIONS
  }

  // The same while fd_reify is under way: what is still queued has not been touched.
  predicate Tagged(a0: Anfd, a: Anfd, fd: nat, regs0: map<nat, Reg>, regs: map<nat, Reg>) {
    Retagged(a0, a, fd, regs0, regs) && (a.reify != {} ==> SameReg(fd, regs0, regs))
  }

  lemma TaggedStep(anfds0: seq<Anfd>, anfds: seq<Anfd>, anfds': seq<Anfd>, fd: nat,
                   regs0: map<nat, Reg>, regs: map<nat, Reg>, regs': map<nat, Reg>)
    requires |anfds0| == |anfds| == |anfds'| && fd < |anfds| && anfds' == anfds[fd := anfds'[fd]]
    requires forall f :: 0 <= f < |anfds| ==> Tagged(anfds0[f], anfds[f], f, regs0, regs)
    requires anfds[fd].reify != {} && (anfds'[fd].reify != {} ==> regs' == regs) && regs' - {fd} == regs - {fd}
    requires Retagged(anfds[fd], anfds'[fd], fd, regs, regs')
    ensures forall f :: 0 <= f < |anfds'| ==> Tagged(anfds0[f], anfds'[f], f, regs0, regs')
  {
    hide SameReg, Retagged;
    forall f | 0 <= f < |anfds'| ensures Tagged(anfds0[f], anfds'[f], f, regs0, regs') {
      assert Tagged(anfds0[f], anfds[f], f, regs0, regs);
      if f == fd {
        RetaggedAfter(anfds0[fd], anfds[fd], anfds'[fd], fd, regs0, regs, regs');
      } else {
        RetaggedElsewhere(anfds0[f], anfds[f], f, fd, regs0, regs, regs');
      }
    }
  }

  lemma RetaggedAfter(a0: Anfd, a: Anfd, a': Anfd, fd: nat, regs0: map<nat, Reg>, regs: map<nat, Reg>,
                      regs': map<nat, Reg>)
    requires Retagged(a0, a, fd, regs0, regs) && SameReg(fd, regs0, regs) && Retagged(a, a', fd, regs, regs')
    ensures Retagged(a0, a', fd, regs0, regs') && (regs' == regs ==> SameReg(fd, regs0, regs'))
  {
    var d := if SameReg(fd, regs, regs') then 0 else 1;
    assert SameReg(fd, regs0, regs') == SameReg(fd, regs, regs');
    hide SameReg;
    ModAdd(a.egen, a0.egen, d);
  }

  lemma ModAdd(x: nat, y: nat, d: nat)
    requires x % GENERATIONS == y % GENERATIONS
    ensures (x + d) % GENERATIONS == (y + d) % GENERATIONS
  {
  }

  lemma RetaggedElsewhere(a0: Anfd, a: Anfd, f: nat, fd: nat, regs0: map<nat, Reg>, regs: map<nat, Reg>,
                          regs': map<nat, Reg>)
    requires Tagged(a0, a, f, regs0, regs) && f != fd && regs' - {fd} == regs - {fd}
    ensures Tagged(a0, a, f, regs0, regs')
  {
    assert f in regs' - {fd} <==> f in regs - {fd};
    assert f in regs ==> (regs' - {fd})[f] == (regs - {fd})[f];
    assert SameReg(f, regs0, regs') == SameReg(f, regs0, regs);
    hide SameReg;
  }

  // How far fd_reify has got with every descriptor.
  ghost predicate Progress(anfds0: seq<Anfd>, anfds: seq<Anfd>, open: set<nat>, stale0: set<nat>, stale: set<nat>,
                           regs0: map<nat, Reg>, regs: map<nat, Reg>)
  {
    && |anfds| == |anfds0|
    && (forall fd :: 0 <= fd < |anfds| ==> Tracked(anfds0[fd], anfds[fd], fd, open, stale0, stale))
    && (forall fd :: 0 <= fd < |anfds| ==> Tagged(anfds0[fd], anfds[fd], fd, regs0, regs))
  }

  lemma NoProgress(anfds: seq<Anfd>, open: set<nat>, stale: set<nat>, regs: map<nat, Reg>)
    requires AllOk(anfds, regs, open, stale)
    ensures Progress(anfds, anfds, open, stale, stale, regs, regs)
  {
  }

  lemma IsOutcome(a0: Anfd, a: Anfd, fd: nat, open: set<nat>, stale0: set<nat>, stale: set<nat>)
    requires Outcome(a0, a, fd, open, stale0, stale)
    ensures a0.want == {} ==> a.want == {}
    ensures a.reify != {} ==> Killed(a0, fd, open)
  {
  }

  lemma TrackedOthers(anfds0: seq<Anfd>, anfds: seq<Anfd>, anfds': seq<Anfd>, fd: nat, open: set<nat>,
                      stale0: set<nat>, stale: set<nat>, stale': set<nat>)
    requires |anfds0| == |anfds| == |anfds'| && fd < |anfds| && anfds' == anfds[fd := anfds'[fd]]
    requires forall f :: 0 <= f < |anfds| ==> Tracked(anfds0[f], anfds[f], f, open, stale0, stale)
    requires forall f :: f != fd ==> (f in stale' <==> f in stale)
    ensures forall f :: 0 <= f < |anfds'| && f != fd ==> Tracked(anfds0[f], anfds'[f], f, open, stale0, stale')
  {
  }

  // With nothing queued any more.
  lemma AllSettled(anfds0: seq<Anfd>, anfds: seq<Anfd>, open: set<nat>, stale0: set<nat>, stale: set<nat>,
                   regs0: map<nat, Reg>, regs: map<nat, Reg>)
    requires Progress(anfds0, anfds, open, stale0, stale, regs0, regs)
    requires AllOk(anfds, regs, open, stale) && ChangesOk(anfds, []) && AllOk(anfds0, regs0, open, stale0)
    ensures |anfds| == |anfds0|
    ensures forall fd :: 0 <= fd < |anfds| ==> Settled(anfds0[fd], anfds[fd], fd, open, stale0, stale)
    ensures forall fd :: 0 <= fd < |anfds| ==> Retagged(anfds0[fd], anfds[fd], fd, regs0, regs)
    ensures forall fd :: 0 <= fd < |anfds| && anfds[fd].want != {} ==>
              (fd in regs && regs[fd].mask == anfds[fd].want <==> fd !in stale)
    ensures forall fd :: 0 <= fd < |anfds| && anfds0[fd].want != {} ==>
              if NeedsModify(anfds0[fd]) && fd !in open then anfds[fd].want == {}
              else
                && anfds[fd].want == anfds0[fd].want
                && (fd in regs && regs[fd].mask == anfds[fd].want <==> fd !in stale0 || NeedsModify(anfds0[fd]))
  {
    hide Retagged;
    forall fd | 0 <= fd < |anfds| ensures Settled(anfds0[fd], anfds[fd], fd, open, stale0, stale) {
      assert Tracked(anfds0[fd], anfds[fd], fd, open, stale0, stale) && FdOk(anfds0[fd], fd, regs0, open, stale0);
    }
  }

  // What one visit of fd_reify does to a descriptor.
  predicate Outcome(a0: Anfd, a: Anfd, fd: nat, open: set<nat>, stale0: set<nat>, stale: set<nat>) {
    if Killed(a0, fd, open) then a.want == {} && a.reify == {Reify} && fd in stale
    else
      && a.want == a0.want == a.events && a.reify == {}
      && (fd in stale <==> fd in stale0 && !Registered(a0, fd, open))
  }

  lemma AppendChange(anfds: seq<Anfd>, anfds': seq<Anfd>, changes: seq<nat>, fd: nat)
    requires ChangesOk(anfds, changes) && fd < |anfds| == |anfds'| && anfds[fd].reify == {} && anfds'[fd].reify != {}
    requires forall f :: 0 <= f < |anfds| && f != fd ==> anfds'[f] == anfds[f]
    ensures ChangesOk(anfds', changes + [fd])
  {
  }

  lemma IsKnown(anfds: seq<Anfd>, changes: seq<nat>, i: nat)
    requires i < |changes| && ChangesOk(anfds, changes[i..])
    ensures changes[i] < |anfds| && anfds[changes[i]].reify != {}
  {
    assert changes[i] in changes[i..];
  }

  lemma FdIsOk(anfds: seq<Anfd>, regs: map<nat, Reg>, open: set<nat>, stale: set<nat>, fd: nat)
    requires AllOk(anfds, regs, open, stale) && fd < |anfds|
    ensures FdOk(anfds[fd], fd, regs, open, stale)
  {
  }

  // Changes to one descriptor leave the others in order.
  lemma OthersOk(anfds: seq<Anfd>, anfds': seq<Anfd>, regs: map<nat, Reg>, regs': map<nat, Reg>, open: set<nat>,
                 stale: set<nat>, stale': set<nat>, fd: nat)
    requires AllOk(anfds, regs, open, stale) && fd < |anfds| == |anfds'| && anfds' == anfds[fd := anfds'[fd]]
    requires regs' - {fd} == regs - {fd} && forall f :: f != fd ==> (f in stale' <==> f in stale)
    requires FdOk(anfds'[fd], fd, regs', open, stale')
    ensures AllOk(anfds', regs', open, stale')
  {
    forall f | 0 <= f < |anfds'| && f != fd ensures FdOk(anfds'[f], f, regs', open, stale') {
      assert FdOk(anfds[f], f, regs, open, stale);
      assert f in regs' - {fd} <==> f in regs - {fd};
      assert f in regs ==> (regs' - {fd})[f] == (regs - {fd})[f];
    }
    forall f | f in regs' ensures f < |anfds'| {
      assert f != fd ==> f in regs' - {fd};
    }
  }

  lemma SameReify(anfds: seq<Anfd>, anfds': seq<Anfd>, changes: seq<nat>)
    requires ChangesOk(anfds, changes) && |anfds'| == |anfds|
    requires forall f :: 0 <= f < |anfds| ==> anfds'[f].reify == anfds[f].reify
    ensures ChangesOk(anfds', changes)
  {
  }

  lemma DropChange(anfds: seq<Anfd>, anfds': seq<Anfd>, changes: seq<nat>, i: nat)
    requires i < |changes| && ChangesOk(anfds, changes[i..]) && |anfds'| == |anfds| && changes[i] < |anfds|
    requires anfds'[changes[i]].reify == {} && forall f :: 0 <= f < |anfds| && f != changes[i] ==> anfds'[f] == anfds[f]
    ensures ChangesOk(anfds', changes[i + 1..])
  {
    var all, rest := changes[i..], changes[i + 1..];
    assert forall k :: 0 <= k < |rest| ==> rest[k] == all[k + 1] != all[0];
    assert forall f :: f in all <==> f == changes[i] || f in rest;
  }
}
