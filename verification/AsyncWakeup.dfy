/**
 The cross-thread wakeup protocol of the event loop: any number of threads (and signal
 handlers) call `ev_async_send` / `ev_feed_signal` while one loop thread polls, drains the
 wakeup pipe and scans for marked sources.

 Every read or write of a shared variable is one step of the machine, and steps of all
 threads interleave arbitrarily; the memory fences of the code justify that view.
 */
module AsyncWakeup {

  type Thread = nat

  // signals [] has EV_NSIG - 1 slots.
  const NSIG: nat := 65

  // The two flags that evpipe_write is called with: sig_pending and async_pending.
  datatype Group = Sig | Async

  // Something that can be marked from another thread: signals [n].pending, or w->sent.
  datatype Source = Signal(n: nat) | Watcher(w: nat)

  function GroupOf(src: Source): Group {
    if src.Signal? then Sig else Async
  }

  // Program counter of a thread inside ev_async_send / ev_feed_signal; threads that are
  // not inside a call have none.
  datatype SenderPc =
    | TestFlag(src: Source)   // source marked, `if (*flag) return` comes next
    | RaiseFlag(src: Source)  // `*flag = 1` comes next
    | SetSkipped              // `pipe_write_skipped = 1` comes next
    | TestWanted              // `if (pipe_write_wanted)` comes next
    | ClearSkipped            // `pipe_write_skipped = 0` comes next
    | WritePipe               // the write to the pipe comes next

  // Program counter of the loop thread.
  datatype LoopPc =
    | Working(pending: bool, readable: bool)  // running callbacks; pipe_w pending, with EV_READ or not
    | TestSkipped              // pipe_write_wanted set, the check for skipped writes comes next
    | Polling(blocking: bool)  // inside backend_poll
    | Returned(readable: bool) // poll returned; `pipe_write_wanted = 0` comes next
    | Recheck(readable: bool)  // the second check of pipe_write_skipped comes next
    | CbRead(readable: bool)   // pipecb entered
    | CbSkip                   // `pipe_write_skipped = 0` in pipecb comes next
    | CbTest(g: Group)         // `if (sig_pending)` / `if (async_pending)` comes next
    | CbLower(g: Group)        // `sig_pending = 0` / `async_pending = 0` comes next
    | CbScan(g: Group, i: nat) // sources with index below i still to be looked at
    | CbFeed(g: Group, i: nat) // source i was seen marked: clear the mark and feed

  datatype State = State(
    marked: set<Source>,
    raised: set<Group>,
    skipped: bool,
    wanted: bool,
    pipe: nat,                    // bytes in the pipe, or the value of the eventfd
    eventfd: bool,
    asyncs: seq<nat>,             // the started async watchers
    senders: map<Thread, SenderPc>,
    loop: LoopPc,
    fed: seq<Source>              // every feed so far, oldest first
  )

  function SignalList(n: nat): seq<Source> {
    seq(n, i requires 0 <= i => Signal(i))
  }

  function WatcherList(ws: seq<nat>): seq<Source> {
    seq(|ws|, i requires 0 <= i < |ws| => Watcher(ws[i]))
  }

  // What pipecb scans, by index, from the highest down.
  function ScanList(s: State, g: Group): seq<Source> {
    if g == Sig then SignalList(NSIG - 1) else WatcherList(s.asyncs)
  }

  // A source that pipecb is able to find.
  predicate Live(s: State, src: Source) {
    match src
    case Signal(n) => n < NSIG - 1
    case Watcher(w) => w in s.asyncs
  }

  datatype Action =
    | Send(t: Thread, src: Source)  // a thread enters the call and marks its source
    | SenderStep(t: Thread)
    | PollReturn(sawPipe: bool)     // backend_poll returns, with or without the pipe among its events
    | LoopStep                      // any other step of the loop thread
    | Start(w: nat)                 // ev_async_start from a callback
    | Stop(i: nat)                  // ev_async_stop of asyncs [i] from a callback

  predicate Enabled(s: State, a: Action) {
    match a
    case Send(t, src) => t !in s.senders && (src.Signal? ==> src.n < NSIG - 1)
    case SenderStep(t) => t in s.senders
    case PollReturn(saw) => s.loop.Polling? && (saw ==> s.pipe > 0)
    case LoopStep =>
      && !s.loop.Polling?
      && (s.loop.CbFeed? ==> s.loop.i < |ScanList(s, s.loop.g)|)
      && (s.loop.CbScan? ==> s.loop.i <= |ScanList(s, s.loop.g)|)
    case Start(w) => s.loop.Working? && w !in s.asyncs
    case Stop(i) => s.loop.Working? && i < |s.asyncs|
  }

  function Do(s: State, a: Action): State
    requires Enabled(s, a)
  {
    match a
    case Send(t, src) => s.(marked := s.marked + {src}, senders := s.senders[t := TestFlag(src)])
    case SenderStep(t) => SenderDo(s, t)
    case PollReturn(saw) => s.(loop := Returned(saw))
    case LoopStep => LoopDo(s)
    case Start(w) => s.(marked := s.marked - {Watcher(w)}, asyncs := s.asyncs + [w])
    case Stop(i) =>
      // asyncs [active - 1] = asyncs [--asynccnt]
      var last := |s.asyncs| - 1;
      s.(asyncs := s.asyncs[i := s.asyncs[last]][..last])
  }

  function SenderDo(s: State, t: Thread): (s': State)
    requires t in s.senders
    ensures s'.marked == s.marked && s'.loop == s.loop && s'.asyncs == s.asyncs && s'.fed == s.fed
    ensures s'.wanted == s.wanted
  {
    match s.senders[t]
    case TestFlag(src) =>
      if GroupOf(src) in s.raised then s.(senders := s.senders - {t})
      else s.(senders := s.senders[t := RaiseFlag(src)])
    case RaiseFlag(src) => s.(raised := s.raised + {GroupOf(src)}, senders := s.senders[t := SetSkipped])
    case SetSkipped => s.(skipped := true, senders := s.senders[t := TestWanted])
    case TestWanted =>
      if s.wanted then s.(senders := s.senders[t := ClearSkipped])
      else s.(senders := s.senders - {t})
    case ClearSkipped => s.(skipped := false, senders := s.senders[t := WritePipe])
    case WritePipe => s.(pipe := s.pipe + 1, senders := s.senders - {t})
  }

  function AfterGroup(g: Group): LoopPc {
    if g == Sig then CbTest(Async) else Working(false, false)
  }

  function LoopDo(s: State): (s': State)
    requires Enabled(s, LoopStep)
    ensures s'.senders == s.senders && s'.asyncs == s.asyncs
    ensures s'.marked <= s.marked && s.fed <= s'.fed
  {
    match s.loop
    case Working(pending, readable) =>
      if pending then s.(loop := CbRead(readable)) else s.(wanted := true, loop := TestSkipped)
    case TestSkipped => s.(loop := Polling(!s.skipped))
    case Returned(readable) => s.(wanted := false, loop := Recheck(readable))
    case Recheck(readable) => s.(loop := Working(readable || s.skipped, readable))
    case CbRead(readable) =>
      var left := if !readable || s.pipe == 0 then s.pipe else if s.eventfd then 0 else s.pipe - 1;
      s.(pipe := left, loop := CbSkip)
    case CbSkip => s.(skipped := false, loop := CbTest(Sig))
    case CbTest(g) => s.(loop := if g in s.raised then CbLower(g) else AfterGroup(g))
    case CbLower(g) => s.(raised := s.raised - {g}, loop := CbScan(g, |ScanList(s, g)|))
    case CbScan(g, i) =>
      if i == 0 then s.(loop := AfterGroup(g))
      else if ScanList(s, g)[i - 1] in s.marked then s.(loop := CbFeed(g, i - 1))
      else s.(loop := CbScan(g, i - 1))
    case CbFeed(g, i) =>
      var src := ScanList(s, g)[i];
      s.(marked := s.marked - {src}, fed := s.fed + [src], loop := CbScan(g, i))
  }

  // Where a step takes the loop.
  function NextPc(s: State): LoopPc
    requires Enabled(s, LoopStep)
  {
    match s.loop
    case Working(pending, readable) => if pending then CbRead(readable) else TestSkipped
    case TestSkipped => Polling(!s.skipped)
    case Returned(readable) => Recheck(readable)
    case Recheck(readable) => Working(readable || s.skipped, readable)
    case CbRead(_) => CbSkip
    case CbSkip => CbTest(Sig)
    case CbTest(g) => if g in s.raised then CbLower(g) else AfterGroup(g)
    case CbLower(g) => CbScan(g, |ScanList(s, g)|)
    case CbScan(g, i) =>
      if i == 0 then AfterGroup(g)
      else if ScanList(s, g)[i - 1] in s.marked then CbFeed(g, i - 1) else CbScan(g, i - 1)
    case CbFeed(g, i) => CbScan(g, i)
  }

  lemma LoopNext(s: State)
    requires Enabled(s, LoopStep)
    ensures LoopDo(s).loop == NextPc(s)
    ensures LoopDo(s).wanted == if NextPc(s).TestSkipped? then true else if s.loop.Returned? then false else s.wanted
  {
    hide ScanList;
  }

  predicate Init(s: State) {
    && s.marked == {} && s.raised == {} && s.senders == map[]
    && !s.skipped && !s.wanted && s.pipe == 0
    && s.loop == Working(false, false)
  }

  /* ---------- the invariant ---------- */

  // A thread that has raised a flag and will still set pipe_write_skipped or write the pipe.
  ghost predicate Notifying(s: State) {
    exists t :: t in s.senders && NotifyingPc(s.senders[t])
  }

  predicate NotifyingPc(pc: SenderPc) {
    pc.SetSkipped? || pc.ClearSkipped? || pc.WritePipe?
  }

  ghost predicate AboutToClearSkip(s: State) {
    exists t :: t in s.senders && (s.senders[t].TestWanted? || s.senders[t].ClearSkipped?)
  }

  // A thread that has marked src and not yet raised the flag, or found it raised.
  ghost predicate Marking(s: State, src: Source) {
    exists t :: t in s.senders && (s.senders[t] == TestFlag(src) || s.senders[t] == RaiseFlag(src))
  }

  // The loop will read flag g before it leaves pipecb.
  predicate WillTest(s: State, g: Group) {
    match s.loop
    case Working(pending, _) => pending
    case CbRead(_) => true
    case CbSkip => true
    case CbTest(g') => g == Async || g' == Sig
    case CbLower(g') => g == g' || g == Async
    case CbScan(g', _) => g == Async && g' == Sig
    case CbFeed(g', _) => g == Async && g' == Sig
    case _ => false
  }

  // The scan under way has yet to look at src.
  predicate WillScan(s: State, src: Source) {
    match s.loop
    case CbScan(g, i) => g == GroupOf(src) && i <= |ScanList(s, g)| && src in ScanList(s, g)[..i]
    case CbFeed(g, i) => g == GroupOf(src) && i < |ScanList(s, g)| && src in ScanList(s, g)[..i + 1]
    case _ => false
  }

  predicate LoopWantsPipe(s: State) {
    s.loop.TestSkipped? || s.loop.Polling? || s.loop.Returned?
  }

  // A raised flag is never forgotten.
  ghost predicate FlagsRemembered(s: State) {
    forall g :: g in s.raised ==> Notifying(s) || s.skipped || s.pipe > 0 || WillTest(s, g)
  }

  // While the loop blocks, a skipped write is about to be made up for.
  ghost predicate BlockedSafe(s: State) {
    s.loop == Polling(true) && s.skipped ==> AboutToClearSkip(s)
  }

  // A marked source has its flag raised, or somebody will still deal with it.
  ghost predicate MarksRemembered(s: State) {
    forall src :: src in s.marked && Live(s, src) ==>
      GroupOf(src) in s.raised || Marking(s, src) || WillScan(s, src)
  }

  predicate LoopOk(s: State) {
    && (s.wanted <==> LoopWantsPipe(s))
    && (s.loop.CbLower? ==> s.loop.g in s.raised)
    && (s.loop.CbScan? ==> s.loop.i <= |ScanList(s, s.loop.g)|)
    && (s.loop.CbFeed? ==> s.loop.i < |ScanList(s, s.loop.g)|)
    && (s.loop.CbFeed? ==> ScanList(s, s.loop.g)[s.loop.i] in s.marked)
  }

  ghost predicate Inv(s: State) {
    FlagsRemembered(s) && BlockedSafe(s) && MarksRemembered(s) && LoopOk(s)
  }

  lemma InitInv(s: State)
    requires Init(s)
    ensures Inv(s)
  {
  }

  lemma SenderFlags(s: State, t: Thread)
    requires Inv(s) && t in s.senders
    ensures FlagsRemembered(SenderDo(s, t))
  {
    var s' := SenderDo(s, t);
    if Notifying(s) {
      var u :| u in s.senders && NotifyingPc(s.senders[u]);
      assert u != t ==> u in s'.senders && NotifyingPc(s'.senders[u]);
    }
    assert t in s'.senders && (s.senders[t].RaiseFlag? || s.senders[t].ClearSkipped?) ==> NotifyingPc(s'.senders[t]);
  }

  lemma SenderBlocked(s: State, t: Thread)
    requires Inv(s) && t in s.senders
    ensures BlockedSafe(SenderDo(s, t))
  {
    var s' := SenderDo(s, t);
    if s'.loop == Polling(true) && s'.skipped {
      if s.senders[t].SetSkipped? {
        assert s'.senders[t].TestWanted?;
      } else {
        var u :| u in s.senders && (s.senders[u].TestWanted? || s.senders[u].ClearSkipped?);
        assert u in s'.senders && (s'.senders[u].TestWanted? || s'.senders[u].ClearSkipped?);
      }
    }
  }

  lemma SenderFrame(s: State, t: Thread)
    requires t in s.senders
    ensures var s' := SenderDo(s, t);
            && s.raised <= s'.raised
            && (forall u :: u != t ==> (u in s.senders <==> u in s'.senders))
            && (forall u :: u != t && u in s.senders ==> s'.senders[u] == s.senders[u])
  {
  }

  // A thread forgets the source it marked only when the flag is up.
  lemma SenderMark(s: State, t: Thread, src: Source)
    requires t in s.senders && Marking(s, src)
    ensures Marking(SenderDo(s, t), src) || GroupOf(src) in SenderDo(s, t).raised
  {
    var s' := SenderDo(s, t);
    SenderFrame(s, t);
    var u :| u in s.senders && (s.senders[u] == TestFlag(src) || s.senders[u] == RaiseFlag(src));
    if u == t {
      assert GroupOf(src) in s'.raised || (t in s'.senders && s'.senders[t] == RaiseFlag(src));
    } else {
      assert u in s'.senders && s'.senders[u] == s.senders[u];
    }
  }

  lemma SenderMarks(s: State, t: Thread)
    requires Inv(s) && t in s.senders
    ensures MarksRemembered(SenderDo(s, t))
  {
    hide SenderDo, ScanList, Marking, LoopOk, FlagsRemembered, BlockedSafe;
    var s' := SenderDo(s, t);
    SenderFrame(s, t);
    SameScan(s, s');
    forall src | src in s'.marked && Live(s', src)
      ensures GroupOf(src) in s'.raised || Marking(s', src) || WillScan(s', src)
    {
      assert src in s.marked && Live(s, src);
      if Marking(s, src) {
        SenderMark(s, t, src);
      }
    }
  }

  lemma SameScan(s: State, s': State)
    requires s'.asyncs == s.asyncs
    ensures forall g :: ScanList(s', g) == ScanList(s, g)
  {
  }

  lemma SenderInv(s: State, t: Thread)
    requires Inv(s) && t in s.senders
    ensures Inv(SenderDo(s, t))
  {
    SenderFlags(s, t);
    SenderBlocked(s, t);
    SenderMarks(s, t);
  }

  lemma LoopFlags(s: State)
    requires Inv(s) && Enabled(s, LoopStep)
    ensures FlagsRemembered(LoopDo(s))
  {
    var s' := LoopDo(s);
    assert s'.senders == s.senders;
    hide ScanList, MarksRemembered, BlockedSafe;
    forall g | g in s'.raised ensures Notifying(s') || s'.skipped || s'.pipe > 0 || WillTest(s', g) {
      assert g in s.raised;
    }
  }

  lemma LoopBlocked(s: State)
    requires Inv(s) && Enabled(s, LoopStep)
    ensures BlockedSafe(LoopDo(s))
  {
    hide ScanList, MarksRemembered, FlagsRemembered;
  }

  lemma LoopWants(s: State)
    requires LoopOk(s) && Enabled(s, LoopStep)
    ensures LoopDo(s).wanted <==> LoopWantsPipe(LoopDo(s))
  {
    hide LoopDo, ScanList;
    LoopNext(s);
  }

  lemma LoopRaised(s: State)
    requires Enabled(s, LoopStep)
    ensures LoopDo(s).raised == if s.loop.CbLower? then s.raised - {s.loop.g} else s.raised
  {
    hide ScanList;
  }

  lemma LoopPcOk(s: State)
    requires LoopOk(s) && Enabled(s, LoopStep)
    ensures LoopOk(LoopDo(s))
  {
    hide LoopDo, ScanList, LoopWantsPipe;
    LoopWants(s);
    LoopRaised(s);
    SameScan(s, LoopDo(s));
    LoopNext(s);
    if !s.loop.CbFeed? {
      OnlyFeedsUnmark(s);
    }
  }

  lemma LoopInv(s: State)
    requires Inv(s) && Enabled(s, LoopStep)
    ensures Inv(LoopDo(s))
  {
    LoopFlags(s);
    LoopBlocked(s);
    LoopPcOk(s);
    var s' := LoopDo(s);
    forall src | src in s'.marked && Live(s', src)
      ensures GroupOf(src) in s'.raised || Marking(s', src) || WillScan(s', src)
    {
      LoopMarkInv(s, src);
    }
    assert MarksRemembered(s');
    hide LoopDo, FlagsRemembered, BlockedSafe, MarksRemembered, LoopOk;
  }

  // Everything the loop does to the marks and flags, seen from one source.
  lemma LoopMarkInv(s: State, src: Source)
    requires Inv(s) && Enabled(s, LoopStep)
    requires src in LoopDo(s).marked && Live(LoopDo(s), src)
    ensures var s' := LoopDo(s); GroupOf(src) in s'.raised || Marking(s', src) || WillScan(s', src)
  {
    hide LoopDo, ScanList, WillScan, LoopOk, FlagsRemembered, BlockedSafe;
    LoopRaised(s);
    if s.loop == CbLower(GroupOf(src)) {
      LowerScans(s, src);
    } else if WillScan(s, src) {
      ScanKeeps(s, src);
    }
  }

  lemma LowerScans(s: State, src: Source)
    requires Enabled(s, LoopStep) && s.loop == CbLower(GroupOf(src)) && Live(s, src)
    ensures WillScan(LoopDo(s), src)
  {
    var list, s' := ScanList(s, GroupOf(src)), LoopDo(s);
    LiveIsScanned(s, src);
    assert list[..|list|] == list && ScanList(s', GroupOf(src)) == list;
    hide ScanList;
  }

  // The scan passes over src only by clearing its mark.
  lemma PrefixMember(list: seq<Source>, i: nat, src: Source)
    requires 0 < i <= |list| && src in list[..i]
    ensures src == list[i - 1] || src in list[..i - 1]
  {
    assert list[..i] == list[..i - 1] + [list[i - 1]];
  }

  lemma ScanLooks(s: State, src: Source, g: Group, i: nat)
    requires s.loop == CbScan(g, i) && Enabled(s, LoopStep) && WillScan(s, src) && src in s.marked
    ensures WillScan(LoopDo(s), src)
  {
    var list, s' := ScanList(s, g), LoopDo(s);
    assert i > 0 && ScanList(s', g) == list;
    assert s'.loop == if list[i - 1] in s.marked then CbFeed(g, i - 1) else CbScan(g, i - 1);
    hide LoopDo, ScanList;
    PrefixMember(list, i, src);
  }

  lemma ScanFeeds(s: State, src: Source, g: Group, i: nat)
    requires s.loop == CbFeed(g, i) && Enabled(s, LoopStep) && WillScan(s, src) && src in LoopDo(s).marked
    ensures WillScan(LoopDo(s), src)
  {
    var list, s' := ScanList(s, g), LoopDo(s);
    assert ScanList(s', g) == list && s'.loop == CbScan(g, i) && src != list[i];
    hide LoopDo, ScanList;
    PrefixMember(list, i + 1, src);
  }

  lemma ScanKeeps(s: State, src: Source)
    requires Enabled(s, LoopStep) && WillScan(s, src)
    requires src in LoopDo(s).marked
    ensures WillScan(LoopDo(s), src)
  {
    hide LoopDo, ScanList;
    if s.loop.CbScan? {
      ScanLooks(s, src, s.loop.g, s.loop.i);
    } else {
      ScanFeeds(s, src, s.loop.g, s.loop.i);
    }
  }

  lemma LiveIsScanned(s: State, src: Source)
    requires Live(s, src)
    ensures src in ScanList(s, GroupOf(src))
  {
    match src
    case Signal(n) => assert SignalList(NSIG - 1)[n] == src;
    case Watcher(w) =>
      var i :| 0 <= i < |s.asyncs| && s.asyncs[i] == w;
      assert WatcherList(s.asyncs)[i] == src;
  }

  lemma StepInv(s: State, a: Action)
    requires Inv(s) && Enabled(s, a)
    ensures Inv(Do(s, a))
  {
    var s' := Do(s, a);
    match a
    case SenderStep(t) => SenderInv(s, t);
    case LoopStep => LoopInv(s);
    case Send(t, src) => SendInv(s, t, src);
    case PollReturn(_) => QuietInv(s, s');
    case Start(w) => QuietInv(s, s');
    case Stop(i) => QuietInv(s, s');
  }

  lemma SendInv(s: State, t: Thread, src: Source)
    requires Inv(s) && Enabled(s, Send(t, src))
    ensures Inv(Do(s, Send(t, src)))
  {
    var s' := Do(s, Send(t, src));
    forall u | u in s.senders ensures u in s'.senders && s'.senders[u] == s.senders[u] {}
    assert s'.senders[t] == TestFlag(src);
    if Notifying(s) {
      var u :| u in s.senders && NotifyingPc(s.senders[u]);
      assert u in s'.senders;
    }
    if AboutToClearSkip(s) {
      var u :| u in s.senders && (s.senders[u].TestWanted? || s.senders[u].ClearSkipped?);
      assert u in s'.senders;
    }
    forall x | x in s'.marked && Live(s', x)
      ensures GroupOf(x) in s'.raised || Marking(s', x) || WillScan(s', x)
    {
      if x != src && Marking(s, x) {
        var u :| u in s.senders && (s.senders[u] == TestFlag(x) || s.senders[u] == RaiseFlag(x));
        assert u in s'.senders;
      }
    }
  }

  // Steps that leave the flags, the pipe and the senders alone.
  lemma QuietInv(s: State, s': State)
    requires Inv(s)
    requires s' == s.(loop := s'.loop, marked := s'.marked, asyncs := s'.asyncs)
    requires (s.loop == s'.loop && s.loop.Working?) || (s.loop.Polling? && s'.loop.Returned? && s'.asyncs == s.asyncs)
    requires forall src :: src in s'.marked && Live(s', src) ==> src in s.marked && Live(s, src)
    ensures Inv(s')
  {
    assert Notifying(s) == Notifying(s');
    forall src | src in s'.marked && Live(s', src)
      ensures GroupOf(src) in s'.raised || Marking(s', src) || WillScan(s', src)
    {
      assert Marking(s, src) == Marking(s', src);
    }
  }

  /* ---------- runs ---------- */

  predicate Runs(s: State, acts: seq<Action>)
    decreases |acts|
  {
    acts == [] || (Enabled(s, acts[0]) && Runs(Do(s, acts[0]), acts[1..]))
  }

  function Final(s: State, acts: seq<Action>): State
    requires Runs(s, acts)
    decreases |acts|
  {
    if acts == [] then s else Final(Do(s, acts[0]), acts[1..])
  }

  lemma {:induction false} RunInv(s: State, acts: seq<Action>)
    requires Inv(s) && Runs(s, acts)
    ensures Inv(Final(s, acts))
    decreases |acts|
  {
    if acts != [] {
      StepInv(s, acts[0]);
      RunInv(Do(s, acts[0]), acts[1..]);
    }
  }

  // The loop sleeps and nothing outside it is about to wake it.
  predicate Asleep(s: State) {
    s.loop == Polling(true) && s.pipe == 0 && s.senders == map[]
  }

  /** No lost wakeup: whatever the interleaving, the loop never sleeps over a marked source. */
  lemma NoLostWakeup(s: State, acts: seq<Action>)
    requires Init(s) && Runs(s, acts) && Asleep(Final(s, acts))
    ensures forall src :: Live(Final(s, acts), src) ==> src !in Final(s, acts).marked
  {
    InitInv(s);
    RunInv(s, acts);
    assert !AboutToClearSkip(Final(s, acts));
  }

  // src stays known to the loop throughout the run.
  predicate LiveThroughout(s: State, acts: seq<Action>, src: Source)
    requires Runs(s, acts)
    decreases |acts|
  {
    Live(s, src) && (acts == [] || LiveThroughout(Do(s, acts[0]), acts[1..], src))
  }

  lemma MarkStaysOrFed(s: State, a: Action, src: Source)
    requires Enabled(s, a) && src in s.marked && Live(s, src)
    ensures |s.fed| <= |Do(s, a).fed| && s.fed <= Do(s, a).fed
    ensures src in Do(s, a).marked || Do(s, a).fed == s.fed + [src]
  {
    if a == LoopStep {
      LoopUnmarksByFeeding(s);
    }
    hide LoopDo, ScanList;
  }

  lemma LoopUnmarksByFeeding(s: State)
    requires Enabled(s, LoopStep)
    ensures var s' := LoopDo(s);
            || (s'.marked == s.marked && s'.fed == s.fed)
            || exists src :: s'.marked == s.marked - {src} && s'.fed == s.fed + [src]
  {
    if s.loop.CbFeed? {
      var src := ScanList(s, s.loop.g)[s.loop.i];
      assert LoopDo(s).marked == s.marked - {src} && LoopDo(s).fed == s.fed + [src];
    } else {
      OnlyFeedsUnmark(s);
    }
  }

  lemma OnlyFeedsUnmark(s: State)
    requires Enabled(s, LoopStep) && !s.loop.CbFeed?
    ensures LoopDo(s).marked == s.marked && LoopDo(s).fed == s.fed
  {
    hide ScanList;
  }

  lemma {:induction false} FedGrows(s: State, acts: seq<Action>)
    requires Runs(s, acts)
    ensures s.fed <= Final(s, acts).fed
    decreases |acts|
  {
    hide LoopDo, SenderDo, ScanList;
    if acts != [] {
      FedGrows(Do(s, acts[0]), acts[1..]);
    }
  }

  lemma {:induction false} MarkedUntilFed(s: State, acts: seq<Action>, src: Source)
    requires Runs(s, acts) && src in s.marked && LiveThroughout(s, acts, src)
    ensures s.fed <= Final(s, acts).fed
    ensures src in Final(s, acts).marked || src in Final(s, acts).fed[|s.fed|..]
    decreases |acts|
  {
    FedGrows(s, acts);
    if acts != [] {
      var s' := Do(s, acts[0]);
      MarkStaysOrFed(s, acts[0], src);
      if src in s'.marked {
        MarkedUntilFed(s', acts[1..], src);
      } else {
        FedGrows(s', acts[1..]);
        assert Final(s, acts).fed[|s.fed|] == src;
      }
    }
  }

  lemma {:induction false} LiveAtEnd(s: State, acts: seq<Action>, src: Source)
    requires Runs(s, acts) && LiveThroughout(s, acts, src)
    ensures Live(Final(s, acts), src)
    decreases |acts|
  {
    if acts != [] {
      LiveAtEnd(Do(s, acts[0]), acts[1..], src);
    }
  }

  /** Every send is followed by a feed: if a thread sends src at any point of any run and the
      loop later goes to sleep, src was fed in between. */
  lemma EverySendIsFed(s: State, before: seq<Action>, t: Thread, src: Source, after: seq<Action>)
    requires Init(s) && Runs(s, before)
    requires Enabled(Final(s, before), Send(t, src))
    requires var sent := Do(Final(s, before), Send(t, src));
             Runs(sent, after) && LiveThroughout(sent, after, src) && Asleep(Final(sent, after))
    ensures var sent := Do(Final(s, before), Send(t, src));
            sent.fed <= Final(sent, after).fed && src in Final(sent, after).fed[|sent.fed|..]
  {
    var mid := Final(s, before);
    var sent := Do(mid, Send(t, src));
    InitInv(s);
    RunInv(s, before);
    StepInv(mid, Send(t, src));
    RunInv(sent, after);
    MarkedUntilFed(sent, after, src);
    LiveAtEnd(sent, after, src);
    assert !AboutToClearSkip(Final(sent, after));
  }

  /* ---------- the loop on its own ---------- */

  // The loop's next step when no other thread moves and poll reports a readable pipe.
  function NextAlone(s: State): Action {
    if s.loop.Polling? then PollReturn(s.pipe > 0) else LoopStep
  }

  // Running alone, the loop feeds src within n steps and never has to wait for anybody.
  ghost predicate FeedsWithin(s: State, src: Source, n: nat)
    decreases n
  {
    && n > 0
    && Enabled(s, NextAlone(s))
    && !Asleep(s)
    && var s' := Do(s, NextAlone(s));
       s'.fed == s.fed + [src] || FeedsWithin(s', src, n - 1)
  }

  // Steps left until the loop is back at Working without pipe_w pending, at most.
  function PassLeft(s: State): nat {
    var tail := 2 * |s.asyncs|;
    var full := 2 * NSIG + tail;
    match s.loop
    case Working(pending, _) => if pending then full + 7 else full + 13
    case TestSkipped => full + 12
    case Polling(_) => full + 11
    case Returned(_) => full + 10
    case Recheck(_) => full + 8
    case CbRead(_) => full + 6
    case CbSkip => full + 5
    case CbTest(g) => if g == Sig then full + 4 else tail + 3
    case CbLower(g) => if g == Sig then full + 3 else tail + 2
    case CbScan(g, i) => if g == Sig then 2 * i + tail + 4 else 2 * i + 1
    case CbFeed(g, i) => if g == Sig then 2 * i + tail + 5 else 2 * i + 2
  }

  // The pass under way will look at src, provided its group's flag is raised.
  predicate HitsThisPass(s: State, src: Source) {
    match s.loop
    case Working(pending, _) => true
    case TestSkipped => true
    case Polling(_) => true
    case Returned(readable) => readable || s.skipped
    case Recheck(readable) => readable || s.skipped
    case _ => WillScan(s, src) || WillTest(s, GroupOf(src))
  }

  function StepsToFeed(s: State, src: Source): nat {
    PassLeft(s) + if HitsThisPass(s, src) then 0 else 2 * NSIG + 2 * |s.asyncs| + 14
  }

  lemma AloneNotStuck(s: State, src: Source)
    requires Inv(s) && s.senders == map[] && src in s.marked && Live(s, src)
    ensures Enabled(s, NextAlone(s)) && !Asleep(s)
    ensures s.loop.Working? || s.loop.TestSkipped? || s.loop.Polling? ==>
              s.skipped || s.pipe > 0 || WillTest(s, GroupOf(src))
  {
    assert !Marking(s, src) && !Notifying(s) && !AboutToClearSkip(s);
  }

  // Each step brings the end of the pass closer; the end itself starts a new one.
  lemma ScanShrinks(s: State)
    requires LoopOk(s) && Enabled(s, LoopStep) && (s.loop.CbLower? || s.loop.CbScan? || s.loop.CbFeed?)
    ensures var s' := LoopDo(s);
            PassLeft(s') < PassLeft(s) || (s'.loop.Working? && !s'.loop.pending)
  {
    hide LoopDo, ScanList, LoopWantsPipe;
    ScanLength(s);
    LoopNext(s);
  }

  lemma ScanLength(s: State)
    ensures |ScanList(s, Sig)| == NSIG - 1 && |ScanList(s, Async)| == |s.asyncs|
  {
  }

  lemma PassShrinks(s: State)
    requires LoopOk(s) && Enabled(s, NextAlone(s))
    ensures var s' := Do(s, NextAlone(s));
            PassLeft(s') < PassLeft(s) || (s'.loop.Working? && !s'.loop.pending)
  {
    if s.loop.CbLower? || s.loop.CbScan? || s.loop.CbFeed? {
      ScanShrinks(s);
    } else if s.loop.CbTest? {
      assert !s.loop.Polling?;
    } else {
      hide ScanList;
    }
  }

  lemma NoHitAtEnd(s: State, src: Source)
    requires Inv(s) && s.senders == map[] && src in s.marked && Live(s, src)
    requires Enabled(s, NextAlone(s))
    requires var s' := Do(s, NextAlone(s)); s'.loop.Working? && !s'.loop.pending
    ensures !HitsThisPass(s, src)
  {
    assert !Marking(s, src);
  }

  lemma HitKept(s: State, src: Source)
    requires Inv(s) && s.senders == map[] && src in s.marked && Live(s, src)
    requires Enabled(s, NextAlone(s)) && !Asleep(s)
    requires HitsThisPass(s, src) && src in Do(s, NextAlone(s)).marked
    ensures HitsThisPass(Do(s, NextAlone(s)), src)
  {
    if WillScan(s, src) {
      ScanKeeps(s, src);
    } else {
      LoopHits(s, src);
    }
  }

  // One step of the loop on its own feeds src or comes closer to feeding it.
  lemma AloneStep(s: State, src: Source)
    requires Inv(s) && s.senders == map[] && src in s.marked && Live(s, src)
    requires Enabled(s, NextAlone(s)) && !Asleep(s)
    requires Do(s, NextAlone(s)).fed != s.fed + [src]
    ensures var s' := Do(s, NextAlone(s));
            && s'.senders == map[] && src in s'.marked && Live(s', src)
            && StepsToFeed(s', src) < StepsToFeed(s, src)
  {
    var s' := Do(s, NextAlone(s));
    MarkStaysOrFed(s, NextAlone(s), src);
    PassShrinks(s);
    assert s'.asyncs == s.asyncs;
    if s'.loop.Working? && !s'.loop.pending {
      NoHitAtEnd(s, src);
    } else if HitsThisPass(s, src) {
      HitKept(s, src);
    }
  }

  lemma LoopHits(s: State, src: Source)
    requires Inv(s) && s.senders == map[] && src in s.marked && Live(s, src)
    requires Enabled(s, NextAlone(s)) && !Asleep(s)
    requires HitsThisPass(s, src) && !WillScan(s, src)
    ensures HitsThisPass(Do(s, NextAlone(s)), src)
  {
    var s' := Do(s, NextAlone(s));
    AloneNotStuck(s, src);
    assert !Marking(s, src);
    assert GroupOf(src) in s.raised;
    if s.loop == CbLower(GroupOf(src)) {
      LiveIsScanned(s, src);
      assert ScanList(s, GroupOf(src))[..|ScanList(s, GroupOf(src))|] == ScanList(s, GroupOf(src));
    }
  }

  /** Once the senders have finished, a marked source is fed within two passes of the loop,
      and the loop gets there without sleeping. */
  lemma {:induction false} LoopDelivers(s: State, src: Source)
    requires Inv(s) && s.senders == map[] && src in s.marked && Live(s, src)
    ensures StepsToFeed(s, src) <= 4 * (NSIG + |s.asyncs|) + 27
    ensures FeedsWithin(s, src, StepsToFeed(s, src))
    decreases StepsToFeed(s, src)
  {
    hide LoopDo, SenderDo, ScanList, FlagsRemembered, BlockedSafe, MarksRemembered, LoopOk, Live, StepsToFeed;
    AloneNotStuck(s, src);
    StepsBound(s, src);
    var s' := Do(s, NextAlone(s));
    if s'.fed != s.fed + [src] {
      AloneStep(s, src);
      StepInv(s, NextAlone(s));
      LoopDelivers(s', src);
      FeedsLater(s', src, StepsToFeed(s', src), StepsToFeed(s, src) - 1);
    }
  }

  lemma StepsBound(s: State, src: Source)
    requires LoopOk(s)
    ensures 0 < StepsToFeed(s, src) <= 4 * (NSIG + |s.asyncs|) + 27
  {
    hide HitsThisPass, ScanList;
    ScanLength(s);
  }

  lemma {:induction false} FeedsLater(s: State, src: Source, m: nat, n: nat)
    requires FeedsWithin(s, src, m) && m <= n
    ensures FeedsWithin(s, src, n)
    decreases m
  {
    var s' := Do(s, NextAlone(s));
    if s'.fed != s.fed + [src] {
      FeedsLater(s', src, m - 1, n - 1);
    }
  }
}
