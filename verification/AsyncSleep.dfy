/**
 The other half of the wakeup handshake: left alone the loop does go to sleep, nothing is fed that
 was not sent, and a wakeup costs no more writes than it needs.
 */
module AsyncSleep {
  import opened AsyncWakeup

  /* ---------- going to sleep ---------- */

  // Running alone, the loop blocks in poll on an empty pipe after at most n steps.
  ghost predicate SleepsWithin(s: State, n: nat)
    decreases n
  {
    Asleep(s) || (n > 0 && Enabled(s, NextAlone(s)) && SleepsWithin(Do(s, NextAlone(s)), n - 1))
  }

  // Reads that empty the pipe: an eventfd needs one, a pipe one for every byte.
  function Reads(s: State): nat {
    if s.eventfd && s.pipe > 0 then 1 else s.pipe
  }

  // What is left of them after the next one.
  function ReadsAfter(s: State): nat {
    if Reads(s) > 0 then Reads(s) - 1 else 0
  }

  // Polls that return before the loop sleeps, at most.
  function Polls(s: State): nat {
    var idle := if s.pipe > 0 then Reads(s) else if s.skipped then 1 else 0;
    match s.loop
    case Polling(blocking) => if s.pipe > 0 then Reads(s) else if blocking then 0 else 1
    case Returned(readable) => if readable then ReadsAfter(s) else Reads(s)
    case Recheck(readable) => if readable then ReadsAfter(s) else Reads(s)
    case Working(pending, readable) => if !pending then idle else if readable then ReadsAfter(s) else Reads(s)
    case CbRead(readable) => if readable then ReadsAfter(s) else Reads(s)
    case CbSkip => Reads(s)
    case _ => idle
  }

  // Steps to the next poll, at most.
  function PollDist(s: State): nat {
    match s.loop
    case Polling(_) => 0
    case TestSkipped => 1
    case Working(pending, _) => if pending then PassLeft(s) + 2 else 2
    case _ => PassLeft(s) + 2
  }

  // The longest way from one poll to the next.
  function Round(s: State): nat {
    2 * NSIG + 2 * |s.asyncs| + 12
  }

  function StepsToSleep(s: State): nat {
    Polls(s) * (Round(s) + 1) + PollDist(s)
  }

  lemma PollDistShort(s: State)
    requires LoopOk(s)
    ensures PollDist(s) <= Round(s)
  {
    hide ScanList;
    ScanLength(s);
  }

  // No step of the loop makes more polls necessary.
  lemma PollsShrink(s: State)
    requires LoopOk(s) && Enabled(s, LoopStep)
    ensures Polls(LoopDo(s)) <= Polls(s)
  {
    hide ScanList;
  }

  lemma LoopComesCloser(s: State)
    requires LoopOk(s) && Enabled(s, LoopStep)
    ensures PollDist(LoopDo(s)) < PollDist(s)
  {
    PassShrinks(s);
    hide ScanList;
  }

  // A poll that returns is one poll less.
  lemma PollReturns(s: State)
    requires s.senders == map[] && !Asleep(s) && s.loop.Polling?
    ensures var s' := Do(s, NextAlone(s)); Polls(s') == Polls(s) - 1 && PollDist(s') == Round(s') == Round(s)
  {
  }

  lemma Fewer(polls: nat, polls': nat, dist: nat, dist': nat, round: nat)
    requires (polls' <= polls && dist' < dist) || (polls' + 1 <= polls && dist' <= round)
    ensures polls' * (round + 1) + dist' < polls * (round + 1) + dist
  {
    if polls' + 1 <= polls {
      assert (polls' + 1) * (round + 1) <= polls * (round + 1);
    } else {
      assert polls' == polls;
    }
  }

  lemma AloneComesCloser(s: State)
    requires LoopOk(s) && s.senders == map[] && !Asleep(s)
    ensures Enabled(s, NextAlone(s))
    ensures StepsToSleep(Do(s, NextAlone(s))) < StepsToSleep(s)
  {
    hide LoopDo, ScanList, Polls, PollDist;
    var s' := Do(s, NextAlone(s));
    if s.loop.Polling? {
      PollReturns(s);
    } else {
      PollsShrink(s);
      LoopComesCloser(s);
    }
    Fewer(Polls(s), Polls(s'), PollDist(s), PollDist(s'), Round(s));
  }

  lemma {:induction false} SleepsLater(s: State, m: nat, n: nat)
    requires SleepsWithin(s, m) && m <= n
    ensures SleepsWithin(s, n)
    decreases m
  {
    hide Do;
    if !Asleep(s) {
      SleepsLater(Do(s, NextAlone(s)), m - 1, n - 1);
    }
  }

  /** Once the senders have finished, the loop blocks in poll, on a pipe it has emptied, within as
      many passes as there are reads to make and one more: it does not spin. */
  lemma {:induction false} LoopSleeps(s: State)
    requires Inv(s) && s.senders == map[]
    ensures SleepsWithin(s, StepsToSleep(s))
    ensures StepsToSleep(s) <= (Reads(s) + 2) * (2 * NSIG + 2 * |s.asyncs| + 13)
    decreases StepsToSleep(s)
  {
    hide LoopDo, FlagsRemembered, BlockedSafe, MarksRemembered, LoopOk, StepsToSleep;
    SleepBound(s);
    if !Asleep(s) {
      AloneComesCloser(s);
      var s' := Do(s, NextAlone(s));
      StepInv(s, NextAlone(s));
      LoopSleeps(s');
      SleepsLater(s', StepsToSleep(s'), StepsToSleep(s) - 1);
    }
  }

  lemma SleepBound(s: State)
    requires LoopOk(s)
    ensures StepsToSleep(s) <= (Reads(s) + 2) * (2 * NSIG + 2 * |s.asyncs| + 13)
  {
    PollDistShort(s);
    FewPolls(s);
    hide Polls, PollDist, LoopOk;
    var unit := Round(s) + 1;
    assert Polls(s) * unit <= (Reads(s) + 1) * unit;
    assert (Reads(s) + 1) * unit + unit == (Reads(s) + 2) * unit;
  }

  lemma FewPolls(s: State)
    ensures Polls(s) <= Reads(s) + 1
  {
  }

  // The state in which it sleeps.
  ghost function AtRest(s: State, n: nat): (r: State)
    requires SleepsWithin(s, n)
    ensures Asleep(r)
    decreases n
  {
    if Asleep(s) then s else AtRest(Do(s, NextAlone(s)), n - 1)
  }

  /** And by then every source that was marked and can be found has been fed, exactly once, and
      nothing else has. */
  lemma {:induction false} AllFedAtRest(s: State, n: nat)
    requires Inv(s) && SleepsWithin(s, n)
    ensures var r := AtRest(s, n);
            && s.fed <= r.fed && r.asyncs == s.asyncs && r.marked <= s.marked
            && (forall src :: Live(s, src) ==> src !in r.marked)
            && multiset(r.fed[|s.fed|..]) == multiset(s.marked - r.marked)
    decreases n
  {
    if Asleep(s) {
      assert !AboutToClearSkip(s);
      assert s.fed[|s.fed|..] == [] && s.marked - s.marked == {};
    } else {
      var s' := Do(s, NextAlone(s));
      StepInv(s, NextAlone(s));
      AllFedAtRest(s', n - 1);
      AloneFeeds(s);
      hide LoopDo, Inv;
      FedOn(s, s', AtRest(s, n));
    }
  }

  // A step alone feeds what it unmarks.
  lemma AloneFeeds(s: State)
    requires LoopOk(s) && Enabled(s, NextAlone(s))
    ensures var s' := Do(s, NextAlone(s));
            && s.fed <= s'.fed && s'.asyncs == s.asyncs && s'.marked <= s.marked
            && multiset(s'.fed[|s.fed|..]) == multiset(s.marked - s'.marked)
  {
    var s' := Do(s, NextAlone(s));
    if s.loop.CbFeed? {
      var src := ScanList(s, s.loop.g)[s.loop.i];
      assert s'.fed[|s.fed|..] == [src] && s.marked - s'.marked == {src};
    } else {
      if !s.loop.Polling? {
        OnlyFeedsUnmark(s);
      }
      hide LoopDo, ScanList;
      assert s'.fed[|s.fed|..] == [] && s.marked - s'.marked == {};
    }
  }

  lemma FedOn(s: State, s': State, r: State)
    requires s.fed <= s'.fed <= r.fed && r.marked <= s'.marked <= s.marked
    requires multiset(s'.fed[|s.fed|..]) == multiset(s.marked - s'.marked)
    requires multiset(r.fed[|s'.fed|..]) == multiset(s'.marked - r.marked)
    ensures multiset(r.fed[|s.fed|..]) == multiset(s.marked - r.marked)
  {
    assert r.fed[|s.fed|..] == s'.fed[|s.fed|..] + r.fed[|s'.fed|..];
    assert s.marked - r.marked == (s.marked - s'.marked) + (s'.marked - r.marked);
  }

  /* ---------- nothing is fed unsent ---------- */

  function Sends(acts: seq<Action>, src: Source): nat {
    if acts == [] then 0 else (if acts[0].Send? && acts[0].src == src then 1 else 0) + Sends(acts[1..], src)
  }

  function Feeds(fed: seq<Source>, src: Source): nat {
    multiset(fed)[src]
  }

  // Feeds so far, and the one that is owed.
  function FedOrMarked(s: State, src: Source): nat {
    Feeds(s.fed, src) + if src in s.marked then 1 else 0
  }

  lemma FeedsSnoc(fed: seq<Source>, last: Source, src: Source)
    ensures Feeds(fed + [last], src) == Feeds(fed, src) + if last == src then 1 else 0
  {
  }

  lemma StepOwes(s: State, a: Action, src: Source)
    requires LoopOk(s) && Enabled(s, a)
    ensures FedOrMarked(Do(s, a), src) <= FedOrMarked(s, src) + Sends([a], src)
  {
    hide LoopDo, SenderDo, ScanList, Feeds;
    if a.LoopStep? {
      if s.loop.CbFeed? {
        FeedOwes(s, src);
      } else {
        OnlyFeedsUnmark(s);
      }
    }
  }

  lemma FeedOwes(s: State, src: Source)
    requires LoopOk(s) && Enabled(s, LoopStep) && s.loop.CbFeed?
    ensures FedOrMarked(LoopDo(s), src) == FedOrMarked(s, src)
  {
    hide Feeds;
    FeedsSnoc(s.fed, ScanList(s, s.loop.g)[s.loop.i], src);
  }

  /** In every run, a source is fed no more often than it was sent. */
  lemma {:induction false} NoFeedUnsent(s: State, acts: seq<Action>, src: Source)
    requires Inv(s) && Runs(s, acts)
    ensures FedOrMarked(Final(s, acts), src) <= FedOrMarked(s, src) + Sends(acts, src)
    decreases |acts|
  {
    if acts != [] {
      StepInv(s, acts[0]);
      StepOwes(s, acts[0], src);
      NoFeedUnsent(Do(s, acts[0]), acts[1..], src);
      assert [acts[0]][1..] == [];
    }
  }

  /* ---------- what a send costs ---------- */

  /** A send that finds its flag raised leaves its mark and nothing else. */
  lemma SecondSendIsQuiet(s: State, t: Thread, src: Source)
    requires Enabled(s, Send(t, src)) && GroupOf(src) in s.raised
    ensures Do(Do(s, Send(t, src)), SenderStep(t)) == s.(marked := s.marked + {src})
  {
    assert s.senders[t := TestFlag(src)] - {t} == s.senders;
  }

  function AllSends(acts: seq<Action>): nat {
    if acts == [] then 0 else (if acts[0].Send? then 1 else 0) + AllSends(acts[1..])
  }

  lemma OneLess<K, V>(m: map<K, V>, k: K)
    requires k in m
    ensures |m - {k}| == |m| - 1
  {
    assert (m - {k}).Keys == m.Keys - {k};
    assert |(m - {k}).Keys| == |m - {k}| && |m.Keys| == |m|;
  }

  lemma SameSize<K, V>(m: map<K, V>, n: map<K, V>)
    requires m.Keys == n.Keys
    ensures |m| == |n|
  {
    assert |m.Keys| == |m| && |n.Keys| == |n|;
  }

  // A sender that does not leave the call does not write.
  lemma SenderStays(s: State, t: Thread)
    requires t in s.senders
    ensures SenderDo(s, t).pipe <= s.pipe + 1
    ensures SenderDo(s, t).senders == s.senders - {t} ||
            (SenderDo(s, t).senders.Keys == s.senders.Keys && SenderDo(s, t).pipe == s.pipe)
  {
  }

  lemma SenderWrites(s: State, t: Thread)
    requires t in s.senders
    ensures SenderDo(s, t).pipe + |SenderDo(s, t).senders| <= s.pipe + |s.senders|
  {
    hide SenderDo;
    SenderStays(s, t);
    OneLess(s.senders, t);
    if SenderDo(s, t).senders != s.senders - {t} {
      SameSize(s.senders, SenderDo(s, t).senders);
    }
  }

  lemma LoopWrites(s: State)
    requires Enabled(s, LoopStep)
    ensures LoopDo(s).pipe <= s.pipe && LoopDo(s).senders == s.senders
  {
    hide ScanList;
  }

  lemma StepWrites(s: State, a: Action)
    requires Enabled(s, a)
    ensures Do(s, a).pipe + |Do(s, a).senders| <= s.pipe + |s.senders| + if a.Send? then 1 else 0
  {
    hide SenderDo, LoopDo, ScanList;
    if a.SenderStep? {
      SenderWrites(s, a.t);
    } else if a.LoopStep? {
      LoopWrites(s);
    }
  }

  /** In every run, each call writes to the pipe at most once. */
  lemma {:induction false} WritesBounded(s: State, acts: seq<Action>)
    requires Runs(s, acts)
    ensures Final(s, acts).pipe + |Final(s, acts).senders| <= s.pipe + |s.senders| + AllSends(acts)
    decreases |acts|
  {
    hide Do;
    if acts != [] {
      StepWrites(s, acts[0]);
      WritesBounded(Do(s, acts[0]), acts[1..]);
    }
  }

  // Nobody is on the way to writing the pipe.
  ghost predicate NoWriter(s: State) {
    forall t :: t in s.senders ==> !s.senders[t].ClearSkipped? && !s.senders[t].WritePipe?
  }

  predicate BySenders(acts: seq<Action>) {
    forall a :: a in acts ==> a.Send? || a.SenderStep?
  }

  /** While the loop does not ask to be woken, sends do not write to the pipe, and word of what was
      skipped stays. */
  lemma {:induction false} UnwantedSendsDoNotWrite(s: State, acts: seq<Action>)
    requires Runs(s, acts) && BySenders(acts) && !s.wanted && NoWriter(s)
    ensures Final(s, acts).pipe == s.pipe && NoWriter(Final(s, acts)) && (s.skipped ==> Final(s, acts).skipped)
    decreases |acts|
  {
    if acts != [] {
      var s' := Do(s, acts[0]);
      assert acts[0] in acts && s'.pipe == s.pipe && NoWriter(s');
      UnwantedSendsDoNotWrite(s', acts[1..]);
    }
  }

  /* ---------- the started watchers ---------- */

  ghost predicate NoDup(ws: seq<nat>) {
    forall i, j :: 0 <= i < j < |ws| ==> ws[i] != ws[j]
  }

  /** Starting adds exactly w, which is not marked; stopping takes out exactly the watcher at i. */
  lemma StartStopExactly(s: State, a: Action)
    requires Enabled(s, a) && NoDup(s.asyncs)
    ensures NoDup(Do(s, a).asyncs)
    ensures a.Start? ==> multiset(Do(s, a).asyncs) == multiset(s.asyncs) + multiset{a.w} &&
                         Do(s, a).marked == s.marked - {Watcher(a.w)}
    ensures a.Stop? ==> forall w :: w in Do(s, a).asyncs <==> w in s.asyncs && w != s.asyncs[a.i]
    ensures !a.Start? && !a.Stop? ==> Do(s, a).asyncs == s.asyncs
  {
    hide LoopDo, SenderDo;
    if a.Stop? {
      SwapLast(s.asyncs, a.i);
    }
  }

  lemma SwapLast(ws: seq<nat>, i: nat)
    requires i < |ws| && NoDup(ws)
    ensures var last := |ws| - 1; var ws' := ws[i := ws[last]][..last];
            NoDup(ws') && forall w :: w in ws' <==> w in ws && w != ws[i]
  {
    var last := |ws| - 1;
    var ws' := ws[i := ws[last]][..last];
    forall w | w in ws && w != ws[i] ensures w in ws' {
      var k :| 0 <= k < |ws| && ws[k] == w;
      assert ws'[if k == last then i else k] == w;
    }
    forall w | w in ws' ensures w in ws && w != ws[i] {
      var k :| 0 <= k < |ws'| && ws'[k] == w;
      assert w == ws[if k == i then last else k];
    }
  }

  // What has been started and not stopped since.
  ghost function StartedAfter(s: State, acts: seq<Action>, ws: set<nat>): set<nat>
    requires Runs(s, acts)
    decreases |acts|
  {
    if acts == [] then ws
    else
      var a := acts[0];
      StartedAfter(Do(s, a), acts[1..],
        match a case Start(w) => ws + {w} case Stop(i) => ws - {s.asyncs[i]} case _ => ws)
  }

  lemma {:induction false} RunWatchers(s: State, acts: seq<Action>, ws: set<nat>)
    requires Runs(s, acts) && NoDup(s.asyncs) && forall w :: w in s.asyncs <==> w in ws
    ensures NoDup(Final(s, acts).asyncs)
    ensures forall w :: w in Final(s, acts).asyncs <==> w in StartedAfter(s, acts, ws)
    decreases |acts|
  {
    hide LoopDo, SenderDo, NoDup;
    if acts != [] {
      var a := acts[0];
      StartStopExactly(s, a);
      var ws' := match a case Start(w) => ws + {w} case Stop(i) => ws - {s.asyncs[i]} case _ => ws;
      RunWatchers(Do(s, a), acts[1..], ws');
    }
  }
}
