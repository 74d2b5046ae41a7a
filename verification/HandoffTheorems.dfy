/** What the two-thread handoff guarantees, over every run. */
module HandoffTheorems {
  import opened Clock
  import opened Handoff
  import opened HandoffInvariant

  // ---------- who moves what

  /** Only these events move the two threads or take a call's number. */
  lemma WhoMoves(c: Config, s: State, e: Event)
    requires Enabled(s, e)
    ensures Apply(c, s, e).th.serial == s.th.serial + (if e.MainStep? && s.th.mpc.NumberInput? then 1 else 0)
    ensures !(e.Call? || e.MainStep? || e.RStep? || e.SpuriousMain? || e.SpuriousR? || e.Fork?) ==>
              Apply(c, s, e).th == s.th
  {
    hide HandlerLocals, HandlerNumbers, DumpNext, NextInput, Age;
  }

  /** The R thread runs by its own steps alone. */
  lemma RMovesItself(c: Config, s: State, e: Event)
    requires Enabled(s, e) && ThreadsOk(s.th) && !e.RStep? && !e.SpuriousR? && !e.Fork?
    ensures Apply(c, s, e).started == s.started
    ensures var t, t' := s.th, Apply(c, s, e).th;
      && t'.taken == t.taken
      && (t.rpc.RWaiting? ==> t'.rpc.RWaiting?)
      && (!t.rpc.RWaiting? && !t.rpc.Absent? ==> t'.rpc == t.rpc)
  {
    hide HandlerLocals, HandlerNumbers, DumpNext, NextInput, Age;
  }

  // ---------- handoff

  /** Event j is the R thread reading the clock for the job that it has in hand
      at state i, whose `started` is that moment. */
  ghost predicate StartedFor(run: Run, j: nat, i: nat)
    requires j < i < |run.states| && |run.states| == |run.events| + 1
  {
    var s, s' := run.states[j], run.states[i];
    && run.events[j].RStep? && s.th.rpc.RReadClock?
    && s.th.serial == s'.th.serial && s.th.taken == s'.th.taken
    && s.now == s'.started
  }

  predicate HasStarted(r: RPc) { r.RRaiseRunning? || r.RRunning? || r.RLowerRunning? }

  lemma StartedKept(c: Config, s: State, e: Event)
    requires ThreadsOk(s.th) && Enabled(s, e) && HasStarted(Apply(c, s, e).th.rpc)
    requires !(e.RStep? && s.th.rpc.RReadClock?)
    ensures var s' := Apply(c, s, e);
      && HasStarted(s.th.rpc) && s'.started == s.started
      && s'.th.serial == s.th.serial && s'.th.taken == s.th.taken
  {
    WhoMoves(c, s, e);
    if !e.RStep? && !e.SpuriousR? && !e.Fork? {
      RMovesItself(c, s, e);
      hide Apply;
    }
  }

  /** While a job is on, `started` was read for it. */
  lemma {:induction false} StartedIsOwn(c: Config, run: Run, i: nat) returns (j: nat)
    requires run.Of(c) && i < |run.states| && HasStarted(run.states[i].th.rpc)
    ensures j < i && StartedFor(run, j, i)
  {
    RunsKeepInv(c, run, i - 1);
    assert run.Linked(c, i - 1);
    var s, e := run.states[i - 1], run.events[i - 1];
    if e.RStep? && s.th.rpc.RReadClock? {
      j := i - 1;
    } else {
      StartedKept(c, s, e);
      j := StartedIsOwn(c, run, i - 1);
    }
  }

  /** On the R thread one job at a time is entered, in the order of the calls;
      while one runs the main thread is inside that call's wait and the clock
      was read for it; and whenever the main thread is outside a call every job
      called for has returned. */
  lemma JobsRunOnceInOrder(c: Config, run: Run, i: nat)
    requires run.Of(c) && i < |run.states|
    ensures var t := run.states[i].th;
      && (forall k :: 0 <= k < |t.begun| ==> t.begun[k] == k + 1)
      && t.ended <= |t.begun| <= t.serial
      && (t.mpc.Idle? ==> t.ended == |t.begun| == t.serial)
    ensures var s := run.states[i]; s.th.running ==>
      && InWait(s.th.mpc) && s.th.job == s.th.taken == TheJob(s.th.serial)
      && |s.th.begun| == s.th.serial
      && (exists j: nat :: j < i && StartedFor(run, j, i))
      && s.nums.input == Num(s.th.serial) != 0
  {
    RunsKeepInv(c, run, i);
    if run.states[i].th.running {
      var j := StartedIsOwn(c, run, i);
    }
  }

  predicate Numbered(t: Threads) { t.mpc.Idle? || AfterNumber(t.mpc) }

  lemma MainNumbersOnce(t: Threads, wrapped: bool)
    ensures var t' := MainThreads(t, wrapped);
      && t'.serial == t.serial + (if t.mpc.NumberInput? then 1 else 0)
      && (Numbered(t') <==> Numbered(t) || t.mpc.NumberInput?)
  {
  }

  lemma NumberedStep(c: Config, s: State, e: Event)
    requires Enabled(s, e) && (!s.th.mpc.Idle? || e.Call?)
    ensures var t, t' := s.th, Apply(c, s, e).th;
      && t'.serial == t.serial + (if e.MainStep? && t.mpc.NumberInput? then 1 else 0)
      && (Numbered(t') <==> if e.Call? then false else Numbered(t) || (e.MainStep? && t.mpc.NumberInput?))
  {
    hide HandlerLocals, HandlerNumbers, DumpNext, NextInput, Age;
    if e.MainStep? {
      MainNumbersOnce(s.th, NextInput(s.nums) == 0);
      hide MainThreads, Numbered;
    }
  }

  /** Inside a call, the call has been numbered once or not yet. */
  lemma {:induction false} NumberedOnce(c: Config, run: Run, i: nat, j: nat)
    requires run.Of(c) && i < j < |run.states| && run.events[i].Call?
    requires forall k :: i < k < j ==> !run.states[k].th.mpc.Idle?
    ensures run.states[j].th.serial ==
            run.states[i].th.serial
            + (if Numbered(run.states[j].th) then 1 else 0)
  {
    assert run.Linked(c, j - 1);
    NumberedStep(c, run.states[j - 1], run.events[j - 1]);
    if j > i + 1 {
      NumberedOnce(c, run, i, j - 1);
    }
  }

  /** Event m is a job returning on the R thread (line 506). */
  predicate JobReturns(s: State, e: Event) { e.RStep? && s.th.rpc.RRunning? }

  ghost function Returns(run: Run, i: nat, j: nat): nat
    requires j < |run.states| == |run.events| + 1
    decreases j
  {
    if i >= j then 0 else Returns(run, i, j - 1) + (if JobReturns(run.states[j - 1], run.events[j - 1]) then 1 else 0)
  }

  lemma EndedStep(c: Config, s: State, e: Event)
    requires Enabled(s, e)
    ensures Apply(c, s, e).th.ended == s.th.ended + (if JobReturns(s, e) then 1 else 0)
  {
    hide HandlerLocals, HandlerNumbers, DumpNext, NextInput, Age;
  }

  lemma {:induction false} EndedAreReturns(c: Config, run: Run, i: nat, j: nat)
    requires run.Of(c) && i <= j < |run.states|
    ensures run.states[j].th.ended == run.states[i].th.ended + Returns(run, i, j)
    decreases j
  {
    if i < j {
      EndedAreReturns(c, run, i, j - 1);
      assert run.Linked(c, j - 1);
      EndedStep(c, run.states[j - 1], run.events[j - 1]);
    }
  }

  lemma ReturnsItsJob(c: Config, run: Run, i: nat, m: nat)
    requires run.Of(c) && i < m < |run.events| && run.events[i].Call?
    requires forall k :: i < k < m ==> !run.states[k].th.mpc.Idle?
    requires JobReturns(run.states[m], run.events[m])
    ensures run.states[m].th.taken == TheJob(run.states[i].th.serial + 1)
  {
    RunsKeepInv(c, run, m);
    NumberedOnce(c, run, i, m);
  }

  /** A call that has returned ran its own job, once, and nothing else. */
  lemma CallRunsItsJob(c: Config, run: Run, i: nat, j: nat)
    requires run.Of(c) && i < j < |run.states| && run.events[i].Call?
    requires forall k :: i < k < j ==> !run.states[k].th.mpc.Idle?
    requires run.states[j].th.mpc.Idle?
    ensures run.states[j].th.begun == run.states[i].th.begun + [run.states[i].th.serial + 1]
    ensures Returns(run, i, j) == 1
    ensures forall m :: i < m < j && JobReturns(run.states[m], run.events[m]) ==>
              run.states[m].th.taken == TheJob(run.states[i].th.serial + 1)
  {
    NumberedOnce(c, run, i, j);
    assert run.Linked(c, i);
    RunsKeepInv(c, run, i);
    RunsKeepInv(c, run, j);
    EndedAreReturns(c, run, i, j);
    hide Inv, Apply, Numbered;
    forall m | i < m < j && JobReturns(run.states[m], run.events[m])
      ensures run.states[m].th.taken == TheJob(run.states[i].th.serial + 1)
    {
      ReturnsItsJob(c, run, i, m);
    }
  }

  // ---------- progress

  function MainRank(t: Threads): nat {
    match t.mpc
    case Idle => 0
    case Create => 35
    case MarkStarted => 34
    case NumberInput => 33
    case SkipZero => 32
    case LockToSubmit => 31
    case Submit => 30
    case WakeR => 29
    case Relock => if t.job.NoJob? then 20 else 28
    case TestJob => if t.job.NoJob? then 19 else 27
    case Waiting(woken) => if woken then 25 else 26
    case Unlock => 18
    case ClearFinishing => 17
    case Arm => 16
  }

  function RRank(t: Threads): nat {
    var over := t.job.NoJob? && !BeforeSubmit(t.mpc);
    match t.rpc
    case Absent => 21
    case RFirstLock => if over then 5 else if t.job.NoJob? then 20 else 15
    case RRelock => if over then 5 else if t.job.NoJob? then 20 else 15
    case RTestJob => if over then 4 else if t.job.NoJob? then 18 else 14
    case RWaiting(woken) => if over then 3 else if woken then 16 else 17
    case RTakeJob => 13
    case RUnlock => 12
    case RReadClock => 11
    case RRaiseRunning => 10
    case RRunning => 9
    case RLowerRunning => 8
    case RLockToFinish => 7
    case RClearJob => 6
    case RWakeMain => 5
  }

  /** Thread steps a call in progress still needs, at most. */
  function Rank(t: Threads): nat { MainRank(t) + RRank(t) }

  lemma MainLowersRank(t: Threads, wrapped: bool)
    requires CoreOk(t) && MainCanMove(t)
    ensures Rank(MainThreads(t, wrapped)) < Rank(t)
  {
  }

  lemma RLowersRank(t: Threads)
    requires CoreOk(t) && RCanMove(t) && !t.mpc.Idle?
    ensures Rank(RThreads(t)) < Rank(t)
  {
  }

  /** No deadlock and no lost wakeup: inside a call, one of the two threads
      can move, without the help of a spurious wakeup. */
  lemma SomeoneCanMove(c: Config, run: Run, i: nat)
    requires run.Of(c) && i < |run.states| && !run.states[i].th.mpc.Idle?
    ensures MainCanMove(run.states[i].th) || RCanMove(run.states[i].th)
  {
    RunsKeepInv(c, run, i);
  }

  predicate IsWork(e: Event) { e.MainStep? || e.RStep? }

  predicate IsSpurious(e: Event) { e.SpuriousMain? || e.SpuriousR? }

  lemma RankAfter(c: Config, s: State, e: Event)
    requires CoreOk(s.th) && Enabled(s, e) && !s.th.mpc.Idle?
    ensures Rank(Apply(c, s, e).th) + (if IsWork(e) then 1 else 0) <= Rank(s.th) + (if IsSpurious(e) then 3 else 0)
  {
    match e
    case MainStep => MainLowersRank(s.th, NextInput(s.nums) == 0);
    case RStep => RLowersRank(s.th);
    case SpuriousMain =>
    case SpuriousR =>
    case _ => WhoMoves(c, s, e);
  }

  /** Steps of the two threads between states i and j of a run. */
  function Work(events: seq<Event>, i: nat, j: nat): nat
    requires i <= j <= |events|
  {
    if i == j then 0
    else Work(events, i, j - 1) + (if IsWork(events[j - 1]) then 1 else 0)
  }

  function Spurious(events: seq<Event>, i: nat, j: nat): nat
    requires i <= j <= |events|
  {
    if i == j then 0
    else Spurious(events, i, j - 1) + (if IsSpurious(events[j - 1]) then 1 else 0)
  }

  /** Whatever the schedule, the ticks and the dumps, a call is over after a
      bounded number of thread steps, plus a few per spurious wakeup. */
  lemma {:induction false} WorkIsBounded(c: Config, run: Run, i: nat, j: nat)
    requires run.Of(c) && i <= j < |run.states|
    requires forall k :: i <= k < j ==> !run.states[k].th.mpc.Idle?
    ensures Work(run.events, i, j) + Rank(run.states[j].th)
            <= Rank(run.states[i].th) + 3 * Spurious(run.events, i, j)
    ensures Rank(run.states[i].th) <= 56
  {
    if i < j {
      WorkIsBounded(c, run, i, j - 1);
      RunsKeepInv(c, run, j - 1);
      assert run.Linked(c, j - 1);
      RankAfter(c, run.states[j - 1], run.events[j - 1]);
    }
  }

  // ---------- building runs

  function Last(run: Run): State
    requires |run.states| > 0
  {
    run.states[|run.states| - 1]
  }

  ghost function Extended(c: Config, run: Run, e: Event): Run
    requires |run.states| > 0 && Enabled(Last(run), e)
  {
    Run(run.states + [Apply(c, Last(run), e)], run.events + [e])
  }

  lemma ExtendedIsRun(c: Config, run: Run, e: Event)
    requires run.Of(c) && Enabled(Last(run), e)
    ensures Extended(c, run, e).Of(c) && Last(Extended(c, run, e)) == Apply(c, Last(run), e)
  {
    var r := Extended(c, run, e);
    forall i | 0 <= i < |r.events| ensures r.Linked(c, i) {
      if i < |run.events| {
        assert run.Linked(c, i);
      }
    }
  }

  /** Of the two threads, one that can move. */
  function NextMover(s: State): Event { if MainCanMove(s.th) then MainStep else RStep }

  lemma WorkLowersRank(c: Config, s: State, e: Event)
    requires CoreOk(s.th) && IsWork(e) && Enabled(s, e) && !s.th.mpc.Idle?
    ensures Rank(Apply(c, s, e).th) < Rank(s.th)
  {
    hide CoreOk, Rank, MainThreads, RThreads;
    if e.MainStep? {
      MainLowersRank(s.th, NextInput(s.nums) == 0);
    } else {
      RLowersRank(s.th);
    }
  }

  lemma WorkKeepsUnit(c: Config, s: State, e: Event)
    requires IsWork(e) && Enabled(s, e) && !s.th.mpc.Idle?
    ensures var s' := Apply(c, s, e);
      && s'.h == s.h && s'.nums.dpc == s.nums.dpc
      && (s'.th.mpc.Idle? <==> s.th.mpc.Arm? && e.MainStep?)
      && s'.unit == (if s'.th.mpc.Idle? && s.unit.InCall? then Returned else s.unit)
  {
    hide NextInput;
  }

  /** A call under way with no handler on top can be driven to its return by
      the two threads alone. */
  lemma {:induction false} CallCanReturn(c: Config, run: Run) returns (r: Run)
    requires run.Of(c) && Last(run).h.pc.Out? && Last(run).nums.dpc.DumpOut?
    ensures r.Of(c) && AtRest(Last(r)) && Last(r).nums.dpc.DumpOut?
    ensures run.states <= r.states && run.events <= r.events
    ensures forall k :: |run.events| <= k < |r.events| ==> IsWork(r.events[k])
    ensures Last(r).th.serial == Last(run).th.serial + (if Numbered(Last(run).th) then 0 else 1)
    ensures Last(r).unit == if !Last(run).th.mpc.Idle? && Last(run).unit.InCall? then Returned else Last(run).unit
    decreases Rank(Last(run).th)
  {
    var s := Last(run);
    if s.th.mpc.Idle? {
      return run;
    }
    var last := |run.states| - 1;
    RunsKeepInv(c, run, last);
    SomeoneCanMove(c, run, last);
    var e := NextMover(s);
    WorkLowersRank(c, s, e);
    ExtendedIsRun(c, run, e);
    var next := Extended(c, run, e);
    NumberedStep(c, s, e);
    WorkKeepsUnit(c, s, e);
    hide Apply, Rank, Numbered;
    r := CallCanReturn(c, next);
    assert r.events[|run.events|] == next.events[|run.events|] == e;
  }

  /** Steps to the handler's end once the input is out of time, at most. */
  function ToExit(c: Config, h: Handler): nat {
    Distance(h.pc)
    + (if (h.pc.HoldLoadRunning? || h.pc.HoldSleep?) && h.age < c.timeout then 3 else 0)
    + (if h.pc.Out? || h.polls > MAX_POLLS then 0 else 3 * (MAX_POLLS - h.polls))
  }

  predicate OutOfTime(c: Config, s: State) { s.now - s.started >= c.timeout * NS }

  predicate GetsOn(c: Config, h: Handler, h': Handler) {
    && (h'.pending ==> h.pending)
    && (h'.pending == h.pending && !h'.pc.Out? ==> ToExit(c, h') < ToExit(c, h))
  }

  lemma HoldGetsOn(c: Config, s: State, armedAge: int, age: int)
    requires age >= c.timeout && PollsOk(s.h) && Distance(s.h.pc) > 8
    requires s.h.pc.HoldSleep? ==> s.h.age < c.timeout
    ensures GetsOn(c, s.h, HoldLocals(c, s, armedAge, age, 0))
  {
  }

  lemma DumpGetsOn(c: Config, s: State)
    requires 3 < Distance(s.h.pc) <= 8
    ensures GetsOn(c, s.h, ReportLocals(s, true))
  {
  }

  lemma WaitGetsOn(c: Config, s: State)
    requires PollsOk(s.h) && 0 < Distance(s.h.pc) <= 3
    ensures GetsOn(c, s.h, ReportLocals(s, true))
  {
  }

  lemma HandlerGetsOn(c: Config, s: State, armedAge: int, age: int)
    requires age >= c.timeout && PollsOk(s.h) && !s.h.pc.Out?
    requires s.h.pc.HoldSleep? ==> s.h.age < c.timeout
    ensures GetsOn(c, s.h, HandlerLocals(c, s, armedAge, age, 0, true))
  {
    hide GetsOn, HoldLocals, ReportLocals;
    if !InReport(s.h.pc) {
      HoldGetsOn(c, s, armedAge, age);
    } else if Distance(s.h.pc) > 3 {
      DumpGetsOn(c, s);
    } else {
      WaitGetsOn(c, s);
    }
  }

  /** With no further tick the handlers come to their end on either thread. */
  lemma {:induction false} HandlerCanLeave(c: Config, run: Run) returns (r: Run)
    requires run.Of(c) && OutOfTime(c, Last(run))
    ensures r.Of(c) && Last(r).h.pc.Out? && run.states <= r.states && run.events <= r.events
    ensures forall k :: |run.events| <= k < |r.events| ==> r.events[k].HandlerStep?
    decreases Last(run).h.pending, ToExit(c, Last(run).h)
  {
    var s := Last(run);
    if s.h.pc.Out? {
      return run;
    }
    RunsKeepInv(c, run, |run.states| - 1);
    AgeIsElapsedFloor(s.now, s.started, c.timeout);
    HandlerGetsOn(c, s, Age(s, s.armed), Age(s, s.started));
    var e := HandlerStep(0, true);
    ExtendedIsRun(c, run, e);
    var next := Extended(c, run, e);
    if Last(next).h.pc.Out? {
      return next;
    }
    r := HandlerCanLeave(c, next);
    assert r.events[|run.events|] == next.events[|run.events|] == e;
  }

  lemma {:induction false} DumpCanLeave(c: Config, run: Run) returns (r: Run)
    requires run.Of(c) && Last(run).h.pc.Out?
    ensures r.Of(c) && Last(r).h.pc.Out? && Last(r).nums.dpc.DumpOut?
    ensures run.states <= r.states && run.events <= r.events
    ensures forall k :: |run.events| <= k < |r.events| ==> r.events[k].DumpStep?
    decreases match Last(run).nums.dpc case DumpOut => 0 case DumpStore => 1 case DumpPrint => 2 case DumpLoad => 3
  {
    if Last(run).nums.dpc.DumpOut? {
      return run;
    }
    ExtendedIsRun(c, run, DumpStep);
    var next := Extended(c, run, DumpStep);
    r := DumpCanLeave(c, next);
    assert r.events[|run.events|] == next.events[|run.events|] == DumpStep;
  }

  lemma Lengthened(x: seq<Event>, y: seq<Event>, z: seq<Event>)
    requires x <= y <= z
    ensures x <= z && forall k :: 0 <= k < |y| ==> z[k] == y[k]
  {
  }

  /** From every reachable state, whatever handlers are under way, the pending
      call can be driven to its return by the passage of time and the steps the
      two threads and their handlers have left: no further signal, no spurious
      wakeup and no other call is needed. */
  lemma EveryCallCanReturn(c: Config, run: Run) returns (r: Run)
    requires run.Of(c)
    ensures r.Of(c) && AtRest(Last(r)) && Last(r).nums.dpc.DumpOut?
    ensures run.states <= r.states && run.events <= r.events
    ensures forall k :: |run.events| <= k < |r.events| ==>
              var e := r.events[k]; e.Advance? || IsWork(e) || e.HandlerStep? || e.DumpStep?
  {
    var s := Last(run);
    RunsKeepInv(c, run, |run.states| - 1);
    var wait := Advance(if c.timeout < 0 then 0 else c.timeout * NS);
    ExtendedIsRun(c, run, wait);
    var waited := Extended(c, run, wait);
    var left := HandlerCanLeave(c, waited);
    var quiet := DumpCanLeave(c, left);
    r := CallCanReturn(c, quiet);
    Lengthened(run.events, waited.events, left.events);
    Lengthened(left.events, quiet.events, r.events);
    Lengthened(run.events, left.events, r.events);
  }

  // ---------- fork

  /** In the child of a fork taken between calls the invariant holds again
      with no R thread, and the next call starts a fresh one. */
  lemma ForkedChildStartsAfresh(c: Config, run: Run, i: nat)
    requires run.Of(c) && i < |run.events| && run.events[i].Fork?
    ensures var s := run.states[i + 1];
      && Inv(c, s) && s.th.rpc.Absent? && s.th.owner.Free? && !s.th.running
      && s.nums.pendingDumps == 0
      && s.th.ended == |s.th.begun| == s.th.serial
      && (Enabled(s, Call) ==> Apply(c, s, Call).th.mpc.Create?)
  {
    assert run.Linked(c, i);
    RunsKeepInv(c, run, i + 1);
  }

  /** A resting R thread can come to hold the mutex while the main thread rests. */
  lemma RestingRCanLock(c: Config, run: Run) returns (r: Run)
    requires run.Of(c) && AtRest(Last(run)) && Last(run).nums.dpc.DumpOut?
    requires var t := Last(run).th; t.owner.Free? && (t.rpc.RFirstLock? || t.rpc.RWaiting? || t.rpc.RRelock?)
    ensures r.Of(c) && Enabled(Last(r), Fork) && Last(r).th.owner.ByR?
  {
    r := run;
    var t := Last(run).th;
    if t.rpc.RWaiting? {
      var e := if t.rpc.woken then RStep else SpuriousR;
      ExtendedIsRun(c, r, e);
      r := Extended(c, r, e);
    }
    ExtendedIsRun(c, r, RStep);
    r := Extended(c, r, RStep);
  }

  /** After a first call, and no fork since, there is an R thread. */
  lemma {:induction false} ThreadOnceStarted(c: Config, run: Run, i: nat)
    requires run.Of(c) && 0 < i < |run.states| && run.events[0].Call?
    requires forall k :: 0 <= k < i ==> !run.events[k].Fork?
    ensures run.states[i].th.threadStarted || run.states[i].th.mpc.Create? || run.states[i].th.mpc.MarkStarted?
  {
    assert run.Linked(c, i - 1);
    if i > 1 {
      ThreadOnceStarted(c, run, i - 1);
    }
  }

  /** The mutex can be held while the main thread forks between calls: the R
      thread, woken for no reason, has it while it looks for a job.  So the
      reset in fuzz_r_thread_forget is needed for more than the condition
      variable. */
  lemma MutexMayBeHeldAtFork(c: Config) returns (r: Run)
    ensures r.Of(c) && Enabled(Last(r), Fork) && Last(r).th.owner.ByR?
  {
    var start := Run([INIT], []);
    ExtendedIsRun(c, start, Call);
    r := CallCanReturn(c, Extended(c, start, Call));
    RunsKeepInv(c, r, |r.states| - 1);
    assert r.events[0] == Extended(c, start, Call).events[0] == Call;
    ThreadOnceStarted(c, r, |r.states| - 1);
    if !Last(r).th.owner.ByR? {
      r := RestingRCanLock(c, r);
    }
  }

  /** Between event k and state i the R thread does not move, nor is it lost. */
  ghost predicate Untouched(run: Run, k: nat, i: nat)
    requires i <= |run.events|
  {
    forall m :: k < m < i ==> !run.events[m].RStep? && !run.events[m].Fork?
  }

  /** Event j wakes the R thread for no reason, event k is it taking the mutex
      again, and up to state i it has not moved on. */
  ghost predicate WokenForNothing(run: Run, j: nat, k: nat, i: nat)
    requires |run.states| == |run.events| + 1
  {
    && j < k < i < |run.states|
    && run.events[j].SpuriousR? && Untouched(run, j, k)
    && run.events[k].RStep? && run.states[k].th.rpc.RRelock? && Untouched(run, k, i)
  }

  /** There is no job, and none is on its way. */
  predicate NothingToDo(t: Threads) { t.mpc.Idle? || AfterWait(t.mpc) || (InWait(t.mpc) && t.job.NoJob?) }

  lemma NothingToDoStep(c: Config, s: State, e: Event)
    requires CoreOk(s.th) && Enabled(s, e) && NothingToDo(Apply(c, s, e).th)
    ensures NothingToDo(s.th) || Apply(c, s, e).th.rpc.RWakeMain?
    ensures NothingToDo(s.th) && InWait(s.th.mpc) && !InWait(Apply(c, s, e).th.mpc) ==> !s.th.rpc.RTestJob?
  {
    hide HandlerLocals, HandlerNumbers, DumpNext, NextInput, Age, LogOk;
  }

  /** How the R thread can be about to look for a job when there is none. */
  lemma RWhenNothingToDo(c: Config, s: State, e: Event)
    requires CoreOk(s.th) && Enabled(s, e) && NothingToDo(s.th) && NothingToDo(Apply(c, s, e).th)
    requires !s.th.rpc.RFirstLock?
    ensures var r, r' := s.th.rpc, Apply(c, s, e).th.rpc;
      && !r'.RFirstLock?
      && (r'.RRelock? ==> e.SpuriousR? || (r.RRelock? && !e.RStep? && !e.Fork?))
      && (r'.RTestJob? && !InWait(Apply(c, s, e).th.mpc) ==>
            || (r.RRelock? && e.RStep?)
            || (r.RTestJob? && !InWait(s.th.mpc) && !e.RStep? && !e.SpuriousR? && !e.Fork?))
  {
    hide HandlerLocals, HandlerNumbers, DumpNext, NextInput, Age, LogOk;
    NothingToDoStep(c, s, e);
  }

  lemma JustNow(run: Run, i: nat)
    requires 0 < i <= |run.events|
    ensures Untouched(run, i - 1, i)
  {
  }

  lemma JustRelocked(run: Run, j: nat, i: nat)
    requires 0 < i < |run.states| && |run.states| == |run.events| + 1
    requires j < i - 1 && run.events[j].SpuriousR? && Untouched(run, j, i - 1)
    requires run.events[i - 1].RStep? && run.states[i - 1].th.rpc.RRelock?
    ensures WokenForNothing(run, j, i - 1, i)
  {
  }

  lemma StillUntouched(run: Run, j: nat, k: nat, i: nat)
    requires 0 < i < |run.states| && |run.states| == |run.events| + 1
    requires !run.events[i - 1].RStep? && !run.events[i - 1].Fork?
    ensures Untouched(run, j, i - 1) ==> Untouched(run, j, i)
    ensures WokenForNothing(run, j, k, i - 1) ==> WokenForNothing(run, j, k, i)
  {
  }

  lemma RunsKeepCore(c: Config, run: Run, i: nat)
    requires run.Of(c) && i < |run.states|
    ensures CoreOk(run.states[i].th)
  {
    RunsKeepInv(c, run, i);
  }

  lemma {:induction false} LooksForNothing(c: Config, run: Run, i: nat) returns (j: nat, k: nat)
    requires run.Of(c) && i < |run.states| && NothingToDo(run.states[i].th)
    ensures var t := run.states[i].th;
      && !t.rpc.RFirstLock?
      && (t.rpc.RRelock? ==> j < i && run.events[j].SpuriousR? && Untouched(run, j, i))
      && (t.rpc.RTestJob? && !InWait(t.mpc) ==> WokenForNothing(run, j, k, i))
  {
    hide Apply, Enabled, CoreOk, NothingToDo, Untouched, WokenForNothing, InWait;
    j, k := 0, 0;
    if i > 0 {
      RunsKeepCore(c, run, i - 1);
      assert run.Linked(c, i - 1);
      var s, e := run.states[i - 1], run.events[i - 1];
      NothingToDoStep(c, s, e);
      if NothingToDo(s.th) {
        j, k := LooksForNothing(c, run, i - 1);
        RWhenNothingToDo(c, s, e);
        if e.SpuriousR? {
          j := i - 1;
          JustNow(run, i);
        } else if e.RStep? && s.th.rpc.RRelock? {
          k := i - 1;
          JustRelocked(run, j, i);
        } else if !e.RStep? && !e.Fork? {
          StillUntouched(run, j, k, i);
        }
      }
    }
  }

  lemma {:induction false} StillLooking(c: Config, run: Run, k: nat, i: nat)
    requires run.Of(c) && k < i < |run.states|
    requires run.events[k].RStep? && run.states[k].th.rpc.RRelock? && Untouched(run, k, i)
    ensures run.states[i].th.rpc.RTestJob?
  {
    assert run.Linked(c, i - 1);
    if i - 1 > k {
      StillLooking(c, run, k, i - 1);
      RunsKeepInv(c, run, i - 1);
      if !run.events[i - 1].SpuriousR? {
        RMovesItself(c, run.states[i - 1], run.events[i - 1]);
      }
    }
  }

  /** When the main thread is outside a call, the mutex is held exactly when the
      R thread was woken for no reason, took it to look for a job, and has not
      moved since. */
  lemma MutexBetweenCalls(c: Config, run: Run, i: nat)
    requires run.Of(c) && i < |run.states| && run.states[i].th.mpc.Idle?
    ensures !run.states[i].th.owner.Free? <==> exists j, k :: WokenForNothing(run, j, k, i)
    ensures !run.states[i].th.owner.ByMain?
  {
    RunsKeepInv(c, run, i);
    var j, k := LooksForNothing(c, run, i);
    forall j, k | WokenForNothing(run, j, k, i) ensures run.states[i].th.rpc.RTestJob? {
      StillLooking(c, run, k, i);
    }
  }

  /** So the mutex is free at every fork if the R thread is never woken for no
      reason. */
  lemma MutexFreeAtFork(c: Config, run: Run, i: nat)
    requires run.Of(c) && i < |run.events| && run.events[i].Fork?
    requires forall k :: 0 <= k < i ==> !run.events[k].SpuriousR?
    ensures run.states[i].th.owner.Free?
  {
    assert run.Linked(c, i);
    MutexBetweenCalls(c, run, i);
  }
}
