/**
 The poll backend: an array of pollfd records with its inverse index.
 */
module PollBackend {
  import opened FdEvents

  datatype PollFd = PollFd(fd: nat, events: Mask)

  // The live records and the inverse index are mutually inverse, and no record is idle.
  ghost predicate Inverse(polls: seq<PollFd>, cnt: nat, idxs: seq<int>) {
    && cnt <= |polls|
    && (forall f :: 0 <= f < |idxs| && idxs[f] != -1 ==> 0 <= idxs[f] < cnt && polls[idxs[f]].fd == f)
    && (forall i :: 0 <= i < cnt ==> polls[i].fd < |idxs| && idxs[polls[i].fd] == i)
    && (forall i :: 0 <= i < cnt ==> polls[i].events != {} && IoMask(polls[i].events))
  }

  ghost function Asked(polls: seq<PollFd>, cnt: nat, idxs: seq<int>): Table
    requires Inverse(polls, cnt, idxs)
  {
    map f | 0 <= f < |idxs| && idxs[f] != -1 :: polls[idxs[f]].events
  }

  class Poll {
    var polls: seq<PollFd>
    var pollcnt: nat
    var pollidxs: seq<int>

    ghost predicate Valid()
      reads this
    {
      Inverse(polls, pollcnt, pollidxs)
    }

    // What the kernel is asked to watch.
    ghost function Watched(): (t: Table)
      reads this
      requires Valid()
    {
      Asked(polls, pollcnt, pollidxs)
    }

    constructor ()
      ensures Valid() && Watched() == map[]
    {
      polls, pollcnt, pollidxs := [], 0, [];
    }

    // array_needsize with pollidx_init
    method GrowIndex(fd: nat)
      requires Valid()
      modifies this`pollidxs
      ensures Valid() && Watched() == old(Watched()) && fd < |pollidxs|
    {
      if fd + 1 > |pollidxs| {
        pollidxs := pollidxs + seq(fd + 1 - |pollidxs|, _ => -1);
      }
    }

    method GrowPolls(cnt: nat)
      modifies this`polls
      ensures old(polls) <= polls && cnt <= |polls|
    {
      if cnt > |polls| {
        polls := polls + seq(cnt - |polls|, _ => PollFd(0, {}));
      }
    }

    /** poll_modify: afterwards exactly `nev` is watched on fd, and nothing else has changed. */
    method Modify(fd: nat, oev: Mask, nev: Mask)
      requires Valid() && IoMask(nev) && Interest(Watched(), fd) == oev
      modifies this
      ensures Valid() && Watched() == SetInterest(old(Watched()), fd, nev)
    {
      if oev == nev {
        return;
      }
      GrowIndex(fd);
      assert pollidxs[fd] < 0 ==> pollidxs[fd] == -1;
      assert pollidxs[fd] == -1 <==> oev == {};
      hide Inverse;
      var idx := pollidxs[fd];
      if idx < 0 {
        Add(fd, nev);
      } else if nev != {} {
        Change(fd, idx, nev);
      } else {
        Remove(fd, idx);
      }
    }

    // idx < 0: a new record; oev was empty, so nev is not
    method Add(fd: nat, nev: Mask)
      requires Valid() && IoMask(nev) && nev != {} && fd < |pollidxs| && pollidxs[fd] == -1
      modifies this
      ensures Valid() && Watched() == old(Watched())[fd := nev]
    {
      hide Inverse, Asked;
      ghost var polls0, cnt0, idxs0 := polls, pollcnt, pollidxs;
      var idx := pollcnt;
      pollcnt := pollcnt + 1;
      pollidxs := pollidxs[fd := idx];
      GrowPolls(pollcnt);
      AddKeeps(polls0, polls, cnt0, idxs0, fd, nev);
      polls := polls[idx := PollFd(fd, nev)];
    }

    method Change(fd: nat, idx: nat, nev: Mask)
      requires Valid() && IoMask(nev) && nev != {} && fd < |pollidxs| && pollidxs[fd] == idx
      modifies this`polls
      ensures Valid() && Watched() == old(Watched())[fd := nev]
    {
      polls := polls[idx := polls[idx].(events := nev)];
    }

    // the last record moves into the gap
    method Remove(fd: nat, idx: nat)
      requires Valid() && fd < |pollidxs| && pollidxs[fd] == idx
      modifies this
      ensures Valid() && Watched() == old(Watched()) - {fd}
    {
      hide Inverse, Asked;
      RemoveForgets(polls, pollcnt, pollidxs, fd, idx);
      pollidxs := pollidxs[fd := -1];
      pollcnt := pollcnt - 1;
      if idx < pollcnt {
        polls := polls[idx := polls[pollcnt]];
        pollidxs := pollidxs[polls[idx].fd := idx];
      }
    }
  }

  lemma AddKeeps(polls: seq<PollFd>, grown: seq<PollFd>, cnt: nat, idxs: seq<int>, fd: nat, nev: Mask)
    requires Inverse(polls, cnt, idxs) && fd < |idxs| && idxs[fd] == -1 && IoMask(nev) && nev != {}
    requires polls <= grown && cnt < |grown|
    ensures var polls', idxs' := grown[cnt := PollFd(fd, nev)], idxs[fd := cnt];
            Inverse(polls', cnt + 1, idxs') && Asked(polls', cnt + 1, idxs') == Asked(polls, cnt, idxs)[fd := nev]
  {
    assert forall i :: 0 <= i < cnt ==> grown[i] == polls[i];
  }

  lemma RemoveForgets(polls: seq<PollFd>, cnt: nat, idxs: seq<int>, fd: nat, idx: nat)
    requires Inverse(polls, cnt, idxs) && fd < |idxs| && idxs[fd] == idx
    ensures idx < cnt <= |polls| && polls[cnt - 1].fd < |idxs|
    ensures var last := cnt - 1; var idxs1 := idxs[fd := -1];
            if idx < last then
              var polls', idxs' := polls[idx := polls[last]], idxs1[polls[last].fd := idx];
              Inverse(polls', last, idxs') && Asked(polls', last, idxs') == Asked(polls, cnt, idxs) - {fd}
            else
              Inverse(polls, last, idxs1) && Asked(polls, last, idxs1) == Asked(polls, cnt, idxs) - {fd}
  {
    RemoveKeeps(polls, cnt, idxs, fd, idx);
    assert forall i :: 0 <= i < cnt ==> polls[i].fd < |idxs| && idxs[polls[i].fd] == i;
  }

  lemma RemoveKeeps(polls: seq<PollFd>, cnt: nat, idxs: seq<int>, fd: nat, idx: nat)
    requires Inverse(polls, cnt, idxs) && fd < |idxs| && idxs[fd] == idx
    ensures cnt > 0 && idx < cnt
    ensures var last := cnt - 1; var idxs1 := idxs[fd := -1];
            if idx < last then Inverse(polls[idx := polls[last]], last, idxs1[polls[last].fd := idx])
            else Inverse(polls, last, idxs1)
  {
    assert forall i :: 0 <= i < cnt ==> polls[i].fd < |idxs| && idxs[polls[i].fd] == i;
  }
}
