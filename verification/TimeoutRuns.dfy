/** Runs that meet a timeout: one that libFuzzer ends with its report, and one
    that only a more lenient handler behind the wrapper would allow. */
module TimeoutRuns {
  import opened Clock
  import opened Handoff
  import opened HandoffInvariant
  import opened HandoffTheorems
  import opened HandlerRuns
  import opened TimeoutTheorems
  import opened TimeoutReport

  // ---------- what leaves the answers alone

  predicate SameAnswers(n: Numbers, n': Numbers) {
    && n'.requested == n.requested && n'.reqSerial == n.reqSerial && n'.requests == n.requests
    && n'.done == n.done && n'.doneSerial == n.doneSerial && n'.dpc == n.dpc
  }

  /** Events of the threads, libFuzzer and the clock. */
  predicate IsQuiet(e: Event) { IsWork(e) || e.StartUnit? || e.EndUnit? || e.Call? || e.Advance? || e.Raise? }

  lemma QuietStep(c: Config, s: State, e: Event)
    requires Enabled(s, e) && IsQuiet(e)
    ensures SameAnswers(s.nums, Apply(c, s, e).nums)
  {
    hide NextInput, MainThreads, RThreads;
  }

  /** Calls and thread steps leave requests and answers alone. */
  lemma {:induction false} QuietRun(c: Config, run: Run, i: nat, j: nat)
    requires run.Of(c) && i <= j < |run.states|
    requires forall k :: i <= k < j ==> IsQuiet(run.events[k])
    ensures SameAnswers(run.states[i].nums, run.states[j].nums)
  {
    if i < j {
      QuietRun(c, run, i, j - 1);
      assert run.Linked(c, j - 1);
      QuietStep(c, run.states[j - 1], run.events[j - 1]);
      hide Apply, Enabled;
    }
  }

  // ---------- one call after the other

  /** Between two units, with no handler at work. */
  predicate Calm(s: State) { AtRest(s) && s.nums.dpc.DumpOut? && s.unit.NoUnit? }

  lemma Go(c: Config, run: Run, e: Event) returns (r: Run)
    requires run.Of(c) && Enabled(Last(run), e)
    ensures r.Of(c) && Last(r) == Apply(c, Last(run), e)
    ensures UnderLibFuzzer(c, run) && TicksMeetUnits(Last(r)) && !(e.HandlerStep? && Exits(c, Last(run)))
            ==> UnderLibFuzzer(c, r)
  {
    ExtendedIsRun(c, run, e);
    r := Extended(c, run, e);
    hide Apply, Enabled, Exits, TicksMeetUnits;
    assert forall i :: 0 <= i < |run.events| ==> r.events[i] == run.events[i] && r.states[i] == run.states[i];
    assert r.states[|run.events|] == Last(run) && r.events[|run.events|] == e;
    assert forall i :: 0 <= i < |run.states| ==> r.states[i] == run.states[i];
  }

  /** libFuzzer starts a unit and calls the harness. */
  lemma EnterUnit(c: Config, run: Run) returns (r: Run)
    requires run.Of(c) && Calm(Last(run))
    ensures r.Of(c) && (UnderLibFuzzer(c, run) ==> UnderLibFuzzer(c, r))
    ensures var s, s' := Last(run), Last(r);
      && s'.unit.InCall? && s'.h == s.h && s'.nums == s.nums && s'.th.serial == s.th.serial
      && (s'.th.mpc.Create? || s'.th.mpc.NumberInput?)
  {
    r := Go(c, run, StartUnit);
    r := Go(c, r, Call);
  }

  lemma FinishUnit(c: Config, run: Run) returns (r: Run)
    requires run.Of(c) && Last(run).h.pc.Out? && Last(run).nums.dpc.DumpOut?
    requires Last(run).unit.InCall? && !Last(run).th.mpc.Idle?
    ensures r.Of(c) && Calm(Last(r))
    ensures Last(r).th.serial == Last(run).th.serial + (if Numbered(Last(run).th) then 0 else 1)
    ensures SameAnswers(Last(run).nums, Last(r).nums)
  {
    var back := CallCanReturn(c, run);
    assert back.states[|run.states| - 1] == Last(run);
    QuietRun(c, back, |run.states| - 1, |back.states| - 1);
    r := Go(c, back, EndUnit);
  }

  lemma {:induction false} MoreUnits(c: Config, run: Run, n: nat) returns (r: Run)
    requires run.Of(c) && Calm(Last(run))
    ensures r.Of(c) && Calm(Last(r))
    ensures Last(r).th.serial == Last(run).th.serial + n
    ensures SameAnswers(Last(run).nums, Last(r).nums)
    decreases n
  {
    r := run;
    if n > 0 {
      r := EnterUnit(c, r);
      r := FinishUnit(c, r);
      r := MoreUnits(c, r, n - 1);
    }
  }

  // ---------- a unit that times out

  lemma RunningStep(c: Config, s: State, e: Event)
    requires CoreOk(s.th) && IsWork(e) && Enabled(s, e) && !s.th.mpc.Idle? && !JobOver(s.th)
    requires !s.th.rpc.RRunning?
    ensures var t := Apply(c, s, e).th; !t.mpc.Idle? && !JobOver(t)
  {
    hide NextInput;
  }

  /** The threads can bring the job of the call to the point where it runs. */
  lemma {:induction false} CallCanRun(c: Config, run: Run) returns (r: Run)
    requires run.Of(c) && Last(run).h.pc.Out? && Last(run).nums.dpc.DumpOut?
    requires !Last(run).th.mpc.Idle? && !JobOver(Last(run).th)
    ensures r.Of(c) && (UnderLibFuzzer(c, run) ==> UnderLibFuzzer(c, r))
    ensures Last(r).th.rpc.RRunning?
    ensures Last(r).h == Last(run).h && Last(r).unit == Last(run).unit
    ensures Last(r).th.serial == Last(run).th.serial + (if Numbered(Last(run).th) then 0 else 1)
    ensures SameAnswers(Last(run).nums, Last(r).nums)
    decreases Rank(Last(run).th)
  {
    var s := Last(run);
    RunsKeepInv(c, run, |run.states| - 1);
    if s.th.rpc.RRunning? {
      return run;
    }
    SomeoneCanMove(c, run, |run.states| - 1);
    var e := NextMover(s);
    WorkLowersRank(c, s, e);
    WorkKeepsUnit(c, s, e);
    NumberedStep(c, s, e);
    RunningStep(c, s, e);
    QuietStep(c, s, e);
    hide Apply, Rank, Numbered, JobOver, Inv, UnderLibFuzzer;
    r := Go(c, run, e);
    r := CallCanRun(c, r);
  }

  predicate AboutToAsk(pc: HandlerPc) { pc.LoadInput? || pc.LoadRequested? }

  /** On its way to the request a handler that held this tick long enough. */
  predicate Asking(c: Config, s: State) {
    && s.th.running && !s.finishing && !s.h.pending
    && s.now - s.started >= c.timeout * NS && s.now - s.armed >= (c.timeout - 1) * NS
    && (s.h.pc.LoadFinishing? || s.h.pc.LoadRunning? || s.h.pc.ReadArmed? || s.h.pc.HoldReadClock?
        || s.h.pc.HoldLoadRunning? || AboutToAsk(s.h.pc))
    && (s.h.pc.HoldReadClock? || s.h.pc.HoldLoadRunning? || AboutToAsk(s.h.pc) ==> s.h.dumpBranch)
    && (s.h.pc.HoldLoadRunning? ==> s.h.age >= c.timeout)
    && (s.h.pc.LoadRequested? ==> s.h.input == s.nums.input)
  }

  lemma AskingStep(c: Config, s: State)
    requires Asking(c, s) && !s.h.pc.LoadRequested?
    ensures var s' := HandlerNext(c, s, 0, true);
      && Asking(c, s') && Distance(s'.h.pc) < Distance(s.h.pc)
      && s'.th == s.th && s'.nums == s.nums && s'.unit == s.unit
  {
    hide SecondsSince;
    AgeIsElapsedFloor(s.now, s.armed, c.timeout - 1);
    AgeIsElapsedFloor(s.now, s.started, c.timeout);
  }

  lemma {:induction false} HandlerCanAsk(c: Config, run: Run) returns (r: Run)
    requires run.Of(c) && Asking(c, Last(run)) && Last(run).unit.InCall?
    ensures r.Of(c) && (UnderLibFuzzer(c, run) ==> UnderLibFuzzer(c, r))
    ensures Asking(c, Last(r)) && Last(r).h.pc.LoadRequested?
    ensures Last(r).th == Last(run).th && Last(r).nums == Last(run).nums && Last(r).unit == Last(run).unit
    decreases Distance(Last(run).h.pc)
  {
    r := run;
    if !Last(run).h.pc.LoadRequested? {
      AskingStep(c, Last(run));
      hide HandlerNext, UnderLibFuzzer;
      r := Go(c, run, HandlerStep(0, true));
      hide Asking, Distance;
      r := HandlerCanAsk(c, r);
    }
  }

  lemma RunsOnTime(c: Config, run: Run)
    requires run.Of(c) && Last(run).th.rpc.RRunning?
    ensures var s := Last(run);
      && s.started <= s.now && s.armed <= s.now && s.th.running && !s.finishing && !s.th.mpc.Idle?
      && s.nums.input == Num(s.th.serial)
  {
    RunsKeepInv(c, run, |run.states| - 1);
  }

  /** In the next unit the input runs out of time, a tick comes, and its handler
      is about to look at the last request. */
  lemma UnitTimesOut(c: Config, run: Run) returns (r: Run)
    requires run.Of(c) && Calm(Last(run))
    ensures r.Of(c) && (UnderLibFuzzer(c, run) ==> UnderLibFuzzer(c, r))
    ensures var s, s' := Last(run), Last(r);
      && Asking(c, s') && s'.h.pc.LoadRequested? && s'.th.rpc.RRunning? && s'.unit.InCall?
      && s'.th.serial == s.th.serial + 1 && s'.nums.input == Num(s'.th.serial)
      && SameAnswers(s.nums, s'.nums)
  {
    hide UnderLibFuzzer;
    r := EnterUnit(c, run);
    r := CallCanRun(c, r);
    RunsKeepInv(c, r, |r.states| - 1);
    RunsOnTime(c, r);
    var wait := Advance(if c.timeout < 0 then 0 else c.timeout * NS);
    var late := Go(c, r, wait);
    assert Last(late).h.pc.Out? && SameAnswers(Last(r).nums, Last(late).nums);
    var tick := Go(c, late, Raise);
    assert Asking(c, Last(tick));
    hide Asking;
    r := HandlerCanAsk(c, tick);
  }

  // ---------- libFuzzer's report

  lemma SendRequest(c: Config, run: Run) returns (r: Run)
    requires run.Of(c) && Asking(c, Last(run)) && Last(run).h.pc.LoadRequested?
    requires Last(run).nums.requested != Last(run).nums.input && Last(run).unit.InCall?
    ensures r.Of(c) && (UnderLibFuzzer(c, run) ==> UnderLibFuzzer(c, r))
    ensures var s, s' := Last(run), Last(r);
      && s'.h.pc.PollDone? && s'.h.input == s'.nums.input == s'.nums.requested && !s'.h.pending
      && s'.th == s.th && s'.unit == s.unit && s'.nums.reqSerial == s.th.serial
      && s'.nums.dpc == s.nums.dpc && s'.nums.pendingDumps > 0 && s'.h.dumpBranch
  {
    hide UnderLibFuzzer;
    r := Go(c, run, HandlerStep(0, true));
    r := Go(c, r, HandlerStep(0, true));
    r := Go(c, r, HandlerStep(0, true));
  }

  lemma DumpIsMade(c: Config, run: Run) returns (r: Run)
    requires run.Of(c) && Last(run).nums.dpc.DumpOut? && Last(run).nums.pendingDumps > 0
    requires Last(run).th.rpc.RRunning? && Last(run).unit.InCall?
    ensures r.Of(c) && (UnderLibFuzzer(c, run) ==> UnderLibFuzzer(c, r))
    ensures var s, s' := Last(run), Last(r);
      && s'.h == s.h && s'.th == s.th && s'.unit == s.unit && s'.nums.dpc.DumpOut?
      && s'.nums.input == s.nums.input
      && s'.nums.done == s.nums.requested
      && s'.nums.doneSerial == s.nums.reqSerial && s.nums.reqSerial in s'.nums.dumped
  {
    hide UnderLibFuzzer;
    r := Go(c, run, DumpEnter);
    r := Go(c, r, DumpStep);
    r := Go(c, r, DumpStep);
    r := Go(c, r, DumpStep);
  }

  /** For every configuration, a first input can run out of time and have its
      dump made, with libFuzzer about to print its report and exit. */
  lemma TimeoutIsReported(c: Config) returns (r: Run)
    ensures r.Of(c) && UnderLibFuzzer(c, r)
    ensures exists m: nat :: m < |r.events| && Asks(r, m, Last(r).th.serial)
    ensures exists m: nat :: m < |r.events| && FoundLate(c, r, m)
    ensures exists d: nat, e: nat :: d < e < |r.events| && Completes(r, d, e, 1)
    ensures var s := Last(r);
      && Exits(c, s)
      && s.nums.done == s.nums.input && s.nums.doneSerial == s.th.serial == 1
      && s.th.rpc.RRunning? && s.nums.dpc.DumpOut? && !s.h.pending
  {
    r := UnitTimesOut(c, Run([INIT], []));
    r := SendRequest(c, r);
    r := DumpIsMade(c, r);
    hide UnderLibFuzzer;
    r := Go(c, r, HandlerStep(0, true));
    var last := |r.states| - 1;
    var k := HasBegun(c, r, last);
    FlagsTell(c, r, k, last);
    var a :| k <= a < last && FoundLate(c, r, a);
    var j := EveryReportHasItsDump(c, r, k, a, last);
    var d, e := DumpedWasLoaded(c, r, last, 1);
  }

  // ---------- if the timeout were let pass

  /** Were the handler behind the wrapper to return from that timeout, the
      input could come to its end. */
  lemma TimeoutIsLetPass(c: Config) returns (r: Run)
    ensures r.Of(c) && Calm(Last(r)) && Last(r).th.serial == 1 && Last(r).nums.doneSerial == 1
  {
    r := TimeoutIsReported(c);
    r := Go(c, r, HandlerStep(0, true));
    RunsOnTime(c, r);
    RunsKeepInv(c, r, |r.states| - 1);
    r := FinishUnit(c, r);
  }

  lemma NothingIsSent(c: Config, run: Run) returns (r: Run)
    requires run.Of(c) && Asking(c, Last(run)) && Last(run).h.pc.LoadRequested?
    requires Last(run).nums.requested == Last(run).nums.input == Last(run).nums.done
    ensures r.Of(c) && Last(r).h.pc.Chain? && Last(r).h.dumpBranch
    ensures Last(r).th == Last(run).th && Last(r).unit == Last(run).unit && Last(r).nums == Last(run).nums
  {
    r := Go(c, run, HandlerStep(0, true));
    r := Go(c, r, HandlerStep(0, true));
  }

  lemma OneCycle()
    ensures Num(UINT_RANGE) == Num(1) == 1
  {
  }

  lemma NoRequestYet(c: Config, run: Run)
    requires run.Of(c) && Last(run).nums.reqSerial == 1 && Last(run).th.serial == UINT_RANGE
    ensures var s := Last(run);
      && NumberReused(s)
      && forall k :: 0 <= k < |s.nums.requests| ==> s.nums.requests[k].serial < s.th.serial
  {
    RunsKeepInv(c, run, |run.states| - 1);
    var rs := Last(run).nums.requests;
    assert rs[|rs| - 1].serial == 1;
    assert LastBefore(rs, UINT_RANGE, |rs| - 1);
  }

  /** The condition that no number is reused is needed only because the wrapper
      does not know what is behind it.  Were a handler there to let a timeout
      pass, as libFuzzer's never does, then 2^32 - 1 calls later the old answer
      could be taken for the one of the input in progress, and its timeout be
      reported with no dump ever requested for it. */
  lemma OldAnswerCouldMislead(c: Config) returns (r: Run)
    ensures r.Of(c) && !UnderLibFuzzer(c, r)
    ensures var s := Last(r);
      && s.h.pc.Chain? && s.unit.InCall?
      && s.nums.done == s.nums.input && s.th.serial - s.nums.doneSerial == UINT_RANGE - 1
      && NumberReused(s)
      && (exists m: nat :: m < |r.events| && FoundLate(c, r, m))
      && forall m: nat :: m < |r.events| ==> !Asks(r, m, s.th.serial)
  {
    r := TimeoutIsLetPass(c);
    RunsKeepInv(c, r, |r.states| - 1);
    assert Last(r).nums.reqSerial == 1;
    OneCycle();
    assert Last(r).nums.done == Last(r).nums.requested == 1;
    hide Inv, Num;
    r := MoreUnits(c, r, UINT_RANGE - 2);
    r := UnitTimesOut(c, r);
    r := NothingIsSent(c, r);
    NoRequestYet(c, r);
    var last := |r.states| - 1;
    RequestsAreLogged(c, r, last, Last(r).th.serial);
    var k := HasBegun(c, r, last);
    FlagsTell(c, r, k, last);
    var a :| k <= a < last && FoundLate(c, r, a);
    if UnderLibFuzzer(c, r) {
      NoNumberIsReused(c, r, |r.states| - 1);
    }
  }
}
