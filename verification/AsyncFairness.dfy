/**
 Delivery while senders keep coming: when every thread that is inside a call, and the loop unless
 it is blocked, takes a step in every round, a marked source is fed within a number of rounds that
 is linear in the number of sources.
 */
module AsyncFairness {
  import opened AsyncWakeup

  // Some thread is about to do this.
  ghost predicate At(s: State, pc: SenderPc) {
    exists t :: t in s.senders && s.senders[t] == pc
  }

  // How far a marked source has come on its way to being fed.
  datatype Stage =
    | Scanning  // the scan under way has yet to look at it
    | Testing   // the loop will read its flag before it leaves pipecb
    | Piped     // its flag is raised and the pipe is not empty
    | Writing   // its flag is raised and a thread is about to write the pipe
    | Clearing  // ... and a thread is about to clear pipe_write_skipped, and to write after that
    | Skipped   // ... and pipe_write_skipped is set
    | Setting   // ... and a thread is about to set it
    | Raising   // a thread is about to raise its flag
    | Entered   // a thread is about to test its flag

  function Place(scan: bool, raised: bool, test: bool, piped: bool, writing: bool, clearing: bool,
                 skipped: bool, raising: bool): Stage
  {
    if scan then Scanning
    else if !raised then if raising then Raising else Entered
    else if test then Testing
    else if piped then Piped
    else if writing then Writing
    else if clearing then Clearing
    else if skipped then Skipped
    else Setting
  }

  ghost function StageOf(s: State, src: Source): Stage {
    var g := GroupOf(src);
    Place(WillScan(s, src), g in s.raised, WillTest(s, g), s.pipe > 0,
          At(s, WritePipe), At(s, ClearSkipped), s.skipped, At(s, RaiseFlag(src)))
  }

  /* ---------- distances, in steps of the loop ---------- */

  // To the end of the scan.
  function ScanDist(pc: LoopPc): nat {
    match pc
    case CbScan(_, i) => 2 * i
    case CbFeed(_, i) => 2 * i + 1
    case _ => 0
  }

  // To the lowering of flag g.
  function TestDist(pc: LoopPc, g: Group): nat {
    var gap := if g == Sig then 0 else 2 * NSIG + 2;
    match pc
    case CbLower(h) => if h == g then 1 else 2 * NSIG + 3
    case CbTest(h) => if h == g then 2 else 2 * NSIG + 4
    case CbScan(_, i) => 2 * i + 3
    case CbFeed(_, i) => 2 * i + 4
    case CbSkip => gap + 3
    case CbRead(_) => gap + 4
    case Working(_, _) => gap + 5
    case _ => 0
  }

  // From inside pipecb to the next time round the loop.
  function TailDist(pc: LoopPc, n: nat): nat {
    match pc
    case CbScan(g, i) => if g == Async then 2 * i + 1 else 2 * i + 2 * n + 4
    case CbFeed(g, i) => if g == Async then 2 * i + 2 else 2 * i + 2 * n + 5
    case CbLower(_) => 2 * n + 2
    case CbTest(_) => 2 * n + 3
    case _ => 0
  }

  // To the pipe callback, when poll finds the pipe readable.
  function PipeDist(pc: LoopPc, n: nat): nat {
    match pc
    case Recheck(readable) => if readable then 1 else 6
    case Returned(readable) => if readable then 2 else 7
    case Polling(_) => 3
    case TestSkipped => 4
    case _ => 5 + TailDist(pc, n)
  }

  // To the pipe callback, when pipe_write_skipped stays set.
  function SkipDist(pc: LoopPc, n: nat): nat {
    match pc
    case Recheck(_) => 1
    case Returned(_) => 2
    case Polling(blocking) => if blocking then 4 else 3
    case TestSkipped => 5
    case _ => 6 + TailDist(pc, n)
  }

  /* ---------- the rank ---------- */

  function Lap(n: nat): nat {
    2 * NSIG + 2 * n + 14
  }

  function Base(st: Stage, n: nat): nat {
    match st
    case Scanning => 0
    case Testing => Lap(n)
    case Piped => 2 * Lap(n)
    case Writing => 3 * Lap(n)
    case Clearing => 3 * Lap(n) + 1
    case Skipped => 3 * Lap(n) + 2
    case Setting => 4 * Lap(n) + 2
    case Raising => 4 * Lap(n) + 3
    case Entered => 4 * Lap(n) + 4
  }

  function Order(st: Stage): nat {
    match st
    case Scanning => 0
    case Testing => 1
    case Piped => 2
    case Writing => 3
    case Clearing => 4
    case Skipped => 5
    case Setting => 6
    case Raising => 7
    case Entered => 8
  }

  function Dist(st: Stage, pc: LoopPc, g: Group, n: nat): nat {
    match st
    case Scanning => ScanDist(pc)
    case Testing => TestDist(pc, g)
    case Piped => PipeDist(pc, n)
    case Skipped => SkipDist(pc, n)
    case _ => 0
  }

  ghost function Rank(s: State, src: Source, n: nat): nat {
    var st := StageOf(s, src);
    Base(st, n) + Dist(st, s.loop, GroupOf(src), n)
  }

  // The source waits, and the scan in progress is no longer than the lists.
  ghost predicate Waiting(s: State, src: Source, n: nat) {
    Inv(s) && src in s.marked && Live(s, src) && |s.asyncs| <= n
  }

  lemma DistShort(s: State, src: Source, n: nat)
    requires Waiting(s, src, n)
    ensures var st := StageOf(s, src); Dist(st, s.loop, GroupOf(src), n) < Lap(n)
  {
    ScanLength(s);
    hide ScanList, FlagsRemembered, MarksRemembered, BlockedSafe, At;
  }

  lemma RankBound(s: State, src: Source, n: nat)
    requires Waiting(s, src, n)
    ensures Rank(s, src, n) < 5 * Lap(n)
  {
    DistShort(s, src, n);
    hide Waiting, StageOf, Dist;
  }

  // An earlier stage has a lower rank, whatever the distances.
  lemma StageRank(s: State, s': State, src: Source, n: nat)
    requires Waiting(s, src, n) && Waiting(s', src, n)
    requires Order(StageOf(s', src)) < Order(StageOf(s, src))
    ensures Rank(s', src, n) < Rank(s, src, n)
  {
    DistShort(s', src, n);
    hide Waiting, StageOf;
  }

  /* ---------- one step of a sender ---------- */

  lemma AtOthers(s: State, s': State, t: Thread, pc: SenderPc)
    requires t in s.senders && forall u :: u != t ==> (u in s.senders <==> u in s'.senders)
    requires forall u :: u != t && u in s.senders ==> s.senders[u] == s'.senders[u]
    ensures At(s, pc) && s.senders[t] != pc ==> At(s', pc)
    ensures At(s', pc) ==> At(s, pc) || (t in s'.senders && s'.senders[t] == pc)
    ensures t in s'.senders && s'.senders[t] == pc ==> At(s', pc)
  {
    if At(s, pc) && s.senders[t] != pc {
      var u :| u in s.senders && s.senders[u] == pc;
      assert u in s'.senders && s'.senders[u] == pc;
    }
    if At(s', pc) {
      var u :| u in s'.senders && s'.senders[u] == pc;
      assert u != t ==> u in s.senders && s.senders[u] == pc;
    }
  }

  // The thread that a stage is waiting for.
  predicate Decisive(pc: SenderPc, st: Stage, loop: LoopPc, src: Source) {
    match st
    case Writing => pc == WritePipe
    case Clearing => pc == ClearSkipped
    case Skipped => pc == TestWanted && loop == Polling(true)
    case Setting => pc == SetSkipped
    case Raising => pc == RaiseFlag(src)
    case Entered => pc == TestFlag(src)
    case _ => false
  }

  // A step of a thread leaves the stage or moves it on, and its step at the right place moves it on.
  predicate MovedOn(pc: SenderPc, st: Stage, st': Stage, loop: LoopPc, src: Source) {
    (st' == st || Order(st') < Order(st)) && (Decisive(pc, st, loop, src) ==> st' != st)
  }

  lemma SenderStage(s: State, t: Thread, src: Source)
    requires LoopOk(s) && t in s.senders
    ensures MovedOn(s.senders[t], StageOf(s, src), StageOf(SenderDo(s, t), src), s.loop, src)
  {
    hide SenderDo, At, WillScan, WillTest, LoopOk, Place, MovedOn;
    var s', g, pc := SenderDo(s, t), GroupOf(src), s.senders[t];
    SenderFrame(s, t);
    SameLoop(s, s', src);
    SenderRaises(s, t, g);
    SenderWrites(s, t);
    AtOthers(s, s', t, WritePipe);
    AtOthers(s, s', t, ClearSkipped);
    AtOthers(s, s', t, RaiseFlag(src));
    AtSelf(s, t);
    PollingWants(s);
    PlaceMoves(pc, s.loop, src, WillScan(s, src), WillTest(s, g), g in s.raised, s.pipe > 0,
               At(s, WritePipe), At(s, ClearSkipped), s.skipped, At(s, RaiseFlag(src)), g in s'.raised,
               s'.pipe > 0, At(s', WritePipe), At(s', ClearSkipped), s'.skipped, At(s', RaiseFlag(src)));
  }

  lemma PollingWants(s: State)
    requires LoopOk(s)
    ensures s.loop == Polling(true) ==> s.wanted
  {
  }

  lemma SameLoop(s: State, s': State, src: Source)
    requires s'.loop == s.loop && (s'.asyncs == s.asyncs || s.loop.Working?)
    ensures WillScan(s', src) == WillScan(s, src) && WillTest(s', GroupOf(src)) == WillTest(s, GroupOf(src))
  {
  }

  lemma AtSelf(s: State, t: Thread)
    requires t in s.senders
    ensures At(s, s.senders[t])
  {
  }

  lemma SenderRaises(s: State, t: Thread, g: Group)
    requires t in s.senders
    ensures var s', pc := SenderDo(s, t), s.senders[t];
            && (g in s'.raised <==> g in s.raised || (pc.RaiseFlag? && GroupOf(pc.src) == g))
            && (pc.TestFlag? && GroupOf(pc.src) !in s.raised ==> t in s'.senders && s'.senders[t] == RaiseFlag(pc.src))
  {
  }

  lemma SenderWrites(s: State, t: Thread)
    requires t in s.senders
    ensures var s', pc := SenderDo(s, t), s.senders[t];
            && (s'.pipe > 0 <==> s.pipe > 0 || pc == WritePipe)
            && (s'.skipped == if pc == SetSkipped then true else if pc == ClearSkipped then false else s.skipped)
            && (pc == ClearSkipped ==> t in s'.senders && s'.senders[t] == WritePipe)
            && (pc == TestWanted && s.wanted ==> t in s'.senders && s'.senders[t] == ClearSkipped)
            && (t in s'.senders && s'.senders[t] == WritePipe ==> pc == ClearSkipped)
            && (t in s'.senders && s'.senders[t] == ClearSkipped ==> pc == TestWanted)
  {
  }

  // The same on the bare facts, before and after.
  lemma PlaceMoves(pc: SenderPc, loop: LoopPc, src: Source, scan: bool, test: bool, raised: bool, piped: bool,
                   writing: bool, clearing: bool, skipped: bool, raising: bool, raised': bool, piped': bool,
                   writing': bool, clearing': bool, skipped': bool, raising': bool)
    requires raised ==> raised'
    requires pc == RaiseFlag(src) ==> raised'
    requires piped' <==> piped || pc == WritePipe
    requires skipped' == if pc == SetSkipped then true else if pc == ClearSkipped then false else skipped
    requires (writing && pc != WritePipe ==> writing') && (writing' ==> writing || pc == ClearSkipped)
    requires (clearing && pc != ClearSkipped ==> clearing') && (clearing' ==> clearing || pc == TestWanted)
    requires (raising && pc != RaiseFlag(src) ==> raising')
    requires pc == WritePipe ==> writing
    requires pc == ClearSkipped ==> clearing && writing'
    requires pc == TestWanted && loop == Polling(true) ==> clearing'
    requires pc == TestFlag(src) && !raised ==> raising'
    ensures MovedOn(pc, Place(scan, raised, test, piped, writing, clearing, skipped, raising),
                    Place(scan, raised', test, piped', writing', clearing', skipped', raising'), loop, src)
  {
  }

  /* ---------- one step of the loop ---------- */

  lemma LoopFrame(s: State, g: Group)
    requires Enabled(s, LoopStep)
    ensures var s' := LoopDo(s);
            && (g in s'.raised <==> g in s.raised && s.loop != CbLower(g))
            && (!s.loop.CbRead? ==> s'.pipe == s.pipe)
            && (!s.loop.CbSkip? ==> s'.skipped == s.skipped)
  {
    hide ScanList;
    LoopRaised(s);
  }

  lemma ScanDown(s: State, src: Source)
    requires Enabled(s, LoopStep) && WillScan(s, src) && src in LoopDo(s).marked
    ensures WillScan(LoopDo(s), src) && ScanDist(LoopDo(s).loop) < ScanDist(s.loop)
  {
    ScanKeeps(s, src);
    assert s.loop.CbScan? ==> s.loop.i > 0;
    hide ScanList;
  }

  lemma TestDown(s: State, g: Group)
    requires Enabled(s, LoopStep) && WillTest(s, g) && g in s.raised && s.loop != CbLower(g)
    ensures WillTest(LoopDo(s), g) && TestDist(LoopDo(s).loop, g) < TestDist(s.loop, g)
  {
    hide LoopDo, ScanList;
    ScanLength(s);
    LoopNext(s);
  }

  lemma PipeDown(s: State, g: Group, n: nat)
    requires Enabled(s, LoopStep) && !WillTest(s, g) && g in s.raised && s.pipe > 0 && |s.asyncs| <= n
    ensures WillTest(LoopDo(s), g) || PipeDist(LoopDo(s).loop, n) < PipeDist(s.loop, n)
  {
    hide LoopDo, ScanList;
    ScanLength(s);
    LoopNext(s);
  }

  lemma SkipDown(s: State, g: Group, n: nat)
    requires Enabled(s, LoopStep) && !WillTest(s, g) && g in s.raised && s.skipped && |s.asyncs| <= n
    ensures WillTest(LoopDo(s), g) || SkipDist(LoopDo(s).loop, n) < SkipDist(s.loop, n)
  {
    hide LoopDo, ScanList;
    ScanLength(s);
    LoopNext(s);
  }

  // Stages that the loop moves on by itself.
  predicate Driven(st: Stage) {
    st.Scanning? || st.Testing? || st.Piped? || st.Skipped?
  }

  // A step has lowered the rank, or the stage is the same and the loop has not moved in it.
  ghost predicate NoHigher(s: State, s': State, src: Source, n: nat) {
    || Rank(s', src, n) < Rank(s, src, n)
    || (StageOf(s', src) == StageOf(s, src) && (Driven(StageOf(s, src)) ==> s'.loop == s.loop))
  }

  lemma SameAt(s: State, s': State, pc: SenderPc)
    requires s'.senders == s.senders
    ensures At(s', pc) == At(s, pc)
  {
  }

  lemma LoopDown(s: State, src: Source, n: nat)
    requires Waiting(s, src, n) && Enabled(s, LoopStep) && Waiting(LoopDo(s), src, n)
    ensures NoHigher(s, LoopDo(s), src, n)
    ensures Driven(StageOf(s, src)) ==> Rank(LoopDo(s), src, n) < Rank(s, src, n)
  {
    var s', g := LoopDo(s), GroupOf(src);
    hide LoopDo, At, Inv, ScanList, WillScan, WillTest, Live;
    LoopFrame(s, g);
    SameAt(s, s', WritePipe);
    SameAt(s, s', ClearSkipped);
    SameAt(s, s', RaiseFlag(src));
    var st, st' := StageOf(s, src), StageOf(s', src);
    if WillScan(s, src) {
      ScanDown(s, src);
    } else if g in s.raised {
      LoopFromRaised(s, src, n);
    }
    if Order(st') < Order(st) {
      StageRank(s, s', src, n);
    }
  }

  // What a step does to a source whose flag is raised.
  lemma LoopFromRaised(s: State, src: Source, n: nat)
    requires Waiting(s, src, n) && Enabled(s, LoopStep) && GroupOf(src) in s.raised && !WillScan(s, src)
    ensures var s', g := LoopDo(s), GroupOf(src);
            if WillTest(s, g) then
              WillScan(s', src) || (g in s'.raised && WillTest(s', g) && TestDist(s'.loop, g) < TestDist(s.loop, g))
            else
              && g in s'.raised && s'.pipe == s.pipe && s'.skipped == s.skipped
              && (s.pipe > 0 ==> WillTest(s', g) || PipeDist(s'.loop, n) < PipeDist(s.loop, n))
              && (s.skipped ==> WillTest(s', g) || SkipDist(s'.loop, n) < SkipDist(s.loop, n))
  {
    var g := GroupOf(src);
    LoopFrame(s, g);
    if s.loop == CbLower(g) {
      LowerScans(s, src);
      hide LoopDo;
    } else if WillTest(s, g) {
      TestDown(s, g);
      hide LoopDo;
    } else {
      if s.pipe > 0 {
        PipeDown(s, g, n);
      }
      if s.skipped {
        SkipDown(s, g, n);
      }
      hide LoopDo;
    }
  }

  /* ---------- any step ---------- */

  predicate IsLoopAct(a: Action) {
    a.LoopStep? || a.PollReturn?
  }

  // Poll reports the pipe exactly if there is something in it.
  predicate Honest(s: State, a: Action) {
    a.PollReturn? ==> a.sawPipe == (s.pipe > 0)
  }

  // An action that the source has to wait for.
  ghost predicate Helps(s: State, a: Action, src: Source) {
    var st := StageOf(s, src);
    if IsLoopAct(a) then Driven(st) else a.SenderStep? && a.t in s.senders && Decisive(s.senders[a.t], st, s.loop, src)
  }

  lemma StepDown(s: State, a: Action, src: Source, n: nat)
    requires Waiting(s, src, n) && Enabled(s, a) && Honest(s, a) && Waiting(Do(s, a), src, n)
    ensures NoHigher(s, Do(s, a), src, n)
    ensures Helps(s, a, src) ==> Rank(Do(s, a), src, n) < Rank(s, src, n)
  {
    hide LoopDo, SenderDo, Waiting, StageOf, Rank;
    match a
    case LoopStep => LoopDown(s, src, n);
    case PollReturn(_) => PollDown(s, src, n);
    case SenderStep(t) => SenderDown(s, t, src, n);
    case Send(t, x) => QuietDown(s, Do(s, a), src, n);
    case Start(_) => QuietDown(s, Do(s, a), src, n);
    case Stop(_) => QuietDown(s, Do(s, a), src, n);
  }

  lemma SenderDown(s: State, t: Thread, src: Source, n: nat)
    requires Waiting(s, src, n) && t in s.senders && Waiting(SenderDo(s, t), src, n)
    ensures NoHigher(s, SenderDo(s, t), src, n)
    ensures Decisive(s.senders[t], StageOf(s, src), s.loop, src) ==> Rank(SenderDo(s, t), src, n) < Rank(s, src, n)
  {
    SenderStage(s, t, src);
    SenderFrame(s, t);
    var s' := SenderDo(s, t);
    hide SenderDo, StageOf, Inv;
    if StageOf(s', src) != StageOf(s, src) {
      StageRank(s, s', src, n);
    }
  }

  lemma PollDown(s: State, src: Source, n: nat)
    requires Waiting(s, src, n) && s.loop.Polling? && Waiting(s.(loop := Returned(s.pipe > 0)), src, n)
    ensures var s' := s.(loop := Returned(s.pipe > 0));
            && NoHigher(s, s', src, n)
            && (Driven(StageOf(s, src)) ==> Rank(s', src, n) < Rank(s, src, n))
  {
    var s' := s.(loop := Returned(s.pipe > 0));
    SameAt(s, s', WritePipe);
    SameAt(s, s', ClearSkipped);
    SameAt(s, s', RaiseFlag(src));
    hide At, Inv;
  }

  // Entering a call, starting and stopping change nothing for a source that goes on waiting.
  lemma QuietDown(s: State, s': State, src: Source, n: nat)
    requires Waiting(s, src, n) && Waiting(s', src, n)
    requires s'.loop == s.loop && s'.raised == s.raised && s'.pipe == s.pipe && s'.skipped == s.skipped
    requires s'.asyncs == s.asyncs || s.loop.Working?
    requires s'.senders == s.senders ||
             exists t: Thread, x :: t !in s.senders && s'.senders == s.senders[t := TestFlag(x)]
    ensures NoHigher(s, s', src, n)
  {
    hide At, Waiting, WillScan, WillTest, Place, Rank;
    NewSender(s, s', WritePipe);
    NewSender(s, s', ClearSkipped);
    NewSender(s, s', RaiseFlag(src));
    SameLoop(s, s', src);
  }

  lemma NewSender(s: State, s': State, pc: SenderPc)
    requires s'.senders == s.senders ||
             exists t: Thread, x :: t !in s.senders && s'.senders == s.senders[t := TestFlag(x)]
    requires !pc.TestFlag?
    ensures At(s', pc) == At(s, pc)
  {
    if At(s, pc) {
      var u :| u in s.senders && s.senders[u] == pc;
      assert u in s'.senders && s'.senders[u] == pc;
    }
    if At(s', pc) {
      var u :| u in s'.senders && s'.senders[u] == pc;
      assert u in s.senders && s.senders[u] == pc;
    }
  }

  /* ---------- rounds ---------- */

  // Blocked in poll, with nothing in the pipe.
  predicate Blocked(s: State) {
    s.loop == Polling(true) && s.pipe == 0
  }

  // If the loop does not help, or cannot, some thread inside a call does.
  lemma SomeoneHelps(s: State, src: Source, n: nat) returns (t: Thread)
    requires Waiting(s, src, n) && (!Driven(StageOf(s, src)) || Blocked(s))
    ensures t in s.senders && Decisive(s.senders[t], StageOf(s, src), s.loop, src)
  {
    var st, g := StageOf(s, src), GroupOf(src);
    match st {
      case Writing => t :| t in s.senders && s.senders[t] == WritePipe;
      case Clearing => t :| t in s.senders && s.senders[t] == ClearSkipped;
      case Raising => t :| t in s.senders && s.senders[t] == RaiseFlag(src);
      case Skipped =>
        assert AboutToClearSkip(s) && !At(s, ClearSkipped);
        t :| t in s.senders && (s.senders[t].TestWanted? || s.senders[t].ClearSkipped?);
      case Setting =>
        assert Notifying(s) && !At(s, ClearSkipped) && !At(s, WritePipe);
        t :| t in s.senders && NotifyingPc(s.senders[t]);
      case Entered =>
        assert Marking(s, src) && !At(s, RaiseFlag(src));
        t :| t in s.senders && (s.senders[t] == TestFlag(src) || s.senders[t] == RaiseFlag(src));
    }
  }

  // Throughout a run the source is live, poll is honest and at most n watchers are started.
  ghost predicate Keeps(s: State, acts: seq<Action>, src: Source, n: nat)
    requires Runs(s, acts)
    decreases |acts|
  {
    && Live(s, src) && |s.asyncs| <= n
    && (acts == [] || (Honest(s, acts[0]) && Keeps(Do(s, acts[0]), acts[1..], src, n)))
  }

  // Every thread inside a call steps, and so does the loop unless it is blocked; in any order,
  // any number of times, with new calls in between.
  ghost predicate FairRound(s: State, acts: seq<Action>) {
    && Runs(s, acts)
    && (forall t :: t in s.senders ==> SenderStep(t) in acts)
    && (Blocked(s) || exists a :: a in acts && IsLoopAct(a))
  }

  // The source was fed, or is waiting still.
  ghost predicate FedOrWaiting(s: State, s': State, src: Source, n: nat, rank: nat) {
    && s.fed <= s'.fed
    && (src in s'.fed[|s.fed|..] || (Waiting(s', src, n) && Rank(s', src, n) <= rank))
  }

  lemma WaitsOn(s: State, acts: seq<Action>, src: Source, n: nat)
    requires Waiting(s, src, n) && acts != [] && Runs(s, acts) && Keeps(s, acts, src, n)
    ensures var s' := Do(s, acts[0]);
            s.fed <= s'.fed && (Waiting(s', src, n) || s'.fed == s.fed + [src])
  {
    StepInv(s, acts[0]);
    MarkStaysOrFed(s, acts[0], src);
    hide Do, Inv;
  }

  lemma {:induction false} RunDown(s: State, acts: seq<Action>, src: Source, n: nat)
    requires Waiting(s, src, n) && Runs(s, acts) && Keeps(s, acts, src, n)
    ensures FedOrWaiting(s, Final(s, acts), src, n, Rank(s, src, n))
    decreases |acts|
  {
    if acts != [] {
      var s' := Do(s, acts[0]);
      WaitsOn(s, acts, src, n);
      FedGrows(s', acts[1..]);
      if Waiting(s', src, n) {
        StepDown(s, acts[0], src, n);
        NoHigherRank(s, s', src, n);
        RunDown(s', acts[1..], src, n);
        FedLater(s, s', Final(s, acts), src);
      } else {
        assert Final(s, acts).fed[|s.fed|] == src;
      }
    }
  }

  lemma NoHigherRank(s: State, s': State, src: Source, n: nat)
    requires NoHigher(s, s', src, n)
    ensures Rank(s', src, n) <= Rank(s, src, n)
  {
    hide StageOf;
  }

  lemma FedLater(s: State, s': State, s'': State, src: Source)
    requires s.fed <= s'.fed <= s''.fed
    ensures s.fed <= s''.fed && (src in s''.fed[|s'.fed|..] ==> src in s''.fed[|s.fed|..])
  {
    if src in s''.fed[|s'.fed|..] {
      var i :| |s'.fed| <= i < |s''.fed| && s''.fed[i] == src;
      assert s''.fed[|s.fed|..][i - |s.fed|] == src;
    }
  }

  // Somebody who will act in this run is what the source waits for.
  ghost predicate HelpComes(s: State, acts: seq<Action>, src: Source) {
    || (Driven(StageOf(s, src)) && exists a :: a in acts && IsLoopAct(a))
    || exists t :: t in s.senders && Decisive(s.senders[t], StageOf(s, src), s.loop, src) && SenderStep(t) in acts
  }

  lemma SenderKept(s: State, a: Action, t: Thread)
    requires Enabled(s, a) && t in s.senders && a != SenderStep(t)
    ensures t in Do(s, a).senders && Do(s, a).senders[t] == s.senders[t]
  {
    if a.SenderStep? {
      SenderFrame(s, a.t);
      hide SenderDo;
    } else if a.LoopStep? {
      hide LoopDo;
    } else {
      hide SenderDo, LoopDo;
    }
  }

  // If the first action did not help, help is still to come.
  lemma HelpStillComes(s: State, acts: seq<Action>, src: Source, n: nat)
    requires acts != [] && Enabled(s, acts[0]) && HelpComes(s, acts, src) && !Helps(s, acts[0], src)
    requires var s' := Do(s, acts[0]);
             StageOf(s', src) == StageOf(s, src) && (Driven(StageOf(s, src)) ==> s'.loop == s.loop)
    ensures HelpComes(Do(s, acts[0]), acts[1..], src)
  {
    var s', a, rest := Do(s, acts[0]), acts[0], acts[1..];
    hide StageOf;
    assert forall b :: b in acts ==> b == a || b in rest;
    if b :| Driven(StageOf(s, src)) && b in acts && IsLoopAct(b) {
      hide Do;
      assert b in rest;
    } else {
      var t :| t in s.senders && Decisive(s.senders[t], StageOf(s, src), s.loop, src) && SenderStep(t) in acts;
      SenderKept(s, a, t);
      hide Do;
      assert SenderStep(t) in rest;
    }
  }

  lemma {:induction false} RoundDown(s: State, acts: seq<Action>, src: Source, n: nat)
    requires Waiting(s, src, n) && Runs(s, acts) && Keeps(s, acts, src, n) && HelpComes(s, acts, src)
    ensures var s' := Final(s, acts);
            && s.fed <= s'.fed
            && (src in s'.fed[|s.fed|..] || (Waiting(s', src, n) && Rank(s', src, n) < Rank(s, src, n)))
    decreases |acts|
  {
    hide StageOf, Rank, Waiting;
    var s', rest := Do(s, acts[0]), acts[1..];
    WaitsOn(s, acts, src, n);
    FedGrows(s', rest);
    if !Waiting(s', src, n) {
      assert Final(s, acts).fed[|s.fed|] == src;
    } else {
      StepDown(s, acts[0], src, n);
      NoHigherRank(s, s', src, n);
      if Rank(s', src, n) < Rank(s, src, n) {
        RunDown(s', rest, src, n);
      } else {
        HelpStillComes(s, acts, src, n);
        RoundDown(s', rest, src, n);
      }
      FedLater(s, s', Final(s, acts), src);
    }
  }

  /* ---------- any number of rounds ---------- */

  ghost predicate FairRounds(s: State, rounds: seq<seq<Action>>, src: Source, n: nat)
    decreases |rounds|
  {
    rounds == [] ||
    (FairRound(s, rounds[0]) && Keeps(s, rounds[0], src, n) && FairRounds(Final(s, rounds[0]), rounds[1..], src, n))
  }

  ghost function AfterRounds(s: State, rounds: seq<seq<Action>>, src: Source, n: nat): State
    requires FairRounds(s, rounds, src, n)
    decreases |rounds|
  {
    if rounds == [] then s else AfterRounds(Final(s, rounds[0]), rounds[1..], src, n)
  }

  lemma {:induction false} RoundsFedGrows(s: State, rounds: seq<seq<Action>>, src: Source, n: nat)
    requires FairRounds(s, rounds, src, n)
    ensures s.fed <= AfterRounds(s, rounds, src, n).fed
    decreases |rounds|
  {
    if rounds != [] {
      FedGrows(s, rounds[0]);
      RoundsFedGrows(Final(s, rounds[0]), rounds[1..], src, n);
    }
  }

  lemma {:induction false} FedWithinRank(s: State, rounds: seq<seq<Action>>, src: Source, n: nat)
    requires Waiting(s, src, n) && FairRounds(s, rounds, src, n) && |rounds| > Rank(s, src, n)
    ensures s.fed <= AfterRounds(s, rounds, src, n).fed && src in AfterRounds(s, rounds, src, n).fed[|s.fed|..]
    decreases |rounds|
  {
    var acts, rest := rounds[0], rounds[1..];
    var s' := Final(s, acts);
    assert HelpComes(s, acts, src) by { HelpInRound(s, acts, src, n); }
    RoundDown(s, acts, src, n);
    RoundsFedGrows(s', rest, src, n);
    hide Rank, Waiting, Keeps, FairRound;
    if src in s'.fed[|s.fed|..] {
      FedBefore(s, s', AfterRounds(s', rest, src, n), src);
    } else {
      FedWithinRank(s', rest, src, n);
      FedLater(s, s', AfterRounds(s', rest, src, n), src);
    }
  }

  lemma FedBefore(s: State, s': State, s'': State, src: Source)
    requires s.fed <= s'.fed <= s''.fed && src in s'.fed[|s.fed|..]
    ensures s.fed <= s''.fed && src in s''.fed[|s.fed|..]
  {
    var i :| |s.fed| <= i < |s'.fed| && s'.fed[i] == src;
    assert s''.fed[|s.fed|..][i - |s.fed|] == src;
  }

  lemma HelpInRound(s: State, acts: seq<Action>, src: Source, n: nat)
    requires Waiting(s, src, n) && FairRound(s, acts)
    ensures HelpComes(s, acts, src)
  {
    if !Driven(StageOf(s, src)) || Blocked(s) {
      var t := SomeoneHelps(s, src, n);
      assert SenderStep(t) in acts;
    }
  }

  /** However many threads keep calling: in fair rounds a marked source is fed within a number of
      rounds linear in the number of signals and watchers. */
  lemma FedWithinRounds(s: State, rounds: seq<seq<Action>>, src: Source, n: nat)
    requires Inv(s) && src in s.marked && Live(s, src) && |s.asyncs| <= n
    requires FairRounds(s, rounds, src, n) && |rounds| >= 10 * (NSIG + n) + 70
    ensures s.fed <= AfterRounds(s, rounds, src, n).fed && src in AfterRounds(s, rounds, src, n).fed[|s.fed|..]
  {
    RankBound(s, src, n);
    hide Rank, FairRounds, AfterRounds, Inv;
    FedWithinRank(s, rounds, src, n);
  }
}
