/** The timeout report under libFuzzer, which prints it and exits. */
module TimeoutReport {
  import opened Clock
  import opened Handoff
  import opened HandoffInvariant
  import opened HandoffTheorems
  import opened HandlerRuns
  import opened TimeoutTheorems

  /** A tick is being handed to libFuzzer in a unit that is out of time by its
      clock: it prints its report and the process ends. */
  predicate Exits(c: Config, s: State) {
    s.h.pc.Chain? && s.unit.InCall? && Age(s, s.unitStart) >= c.timeout
  }

  /** The alarm is wrapped by the first input, so a tick that finds a call
      under way finds a unit's. */
  predicate TicksMeetUnits(s: State) { s.h.pc.Out? || s.th.mpc.Idle? || s.unit.InCall? }

  /** What libFuzzer adds to a run: it does not come back from its report, and
      every call that ticks can meet is a unit. */
  ghost predicate UnderLibFuzzer(c: Config, run: Run)
    requires |run.states| == |run.events| + 1
  {
    && (forall i :: 0 <= i < |run.events| ==> !(run.events[i].HandlerStep? && Exits(c, run.states[i])))
    && (forall i :: 0 <= i < |run.states| ==> TicksMeetUnits(run.states[i]))
  }

  /** A request has been made and its report is being waited for or given. */
  predicate Reporting(h: Handler) {
    h.pc.Kill? || h.pc.StoreDone? || Polling(h.pc) || (h.pc.Chain? && h.dumpBranch)
  }

  /** There is at most one request, it is for the call in progress, whose
      report is on its way, and all answers are to it. */
  predicate FirstAndLast(s: State) {
    var n := s.nums;
    && (n.requests == [] || (|n.requests| == 1 && Reporting(s.h) && DumpRequested(s)))
    && (n.doneSerial == 0 || n.doneSerial == n.reqSerial)
    && (Printing(n.dpc) ==> n.dSerial == 0 || n.dSerial == n.reqSerial)
  }

  lemma ReportEnds(c: Config, s: State)
    requires Inv(c, s) && TicksMeetUnits(s) && s.h.pc.Chain? && s.h.dumpBranch
    ensures Exits(c, s)
  {
    AgeIsElapsedFloor(s.now, s.unitStart, c.timeout);
  }

  lemma ReportingGoesOn(s: State, ok: bool)
    requires Reporting(s.h) && BranchOk(s.h) && !s.h.pc.Chain?
    ensures Reporting(ReportLocals(s, ok))
  {
  }

  lemma FirstKeptByHandler(c: Config, s: State, slept: nat, ok: bool)
    requires Inv(c, s) && FirstAndLast(s) && TicksMeetUnits(s) && !s.h.pc.Out? && !Exits(c, s)
    ensures FirstAndLast(HandlerNext(c, s, slept, ok))
  {
    if s.h.pc.Chain? && s.h.dumpBranch {
      ReportEnds(c, s);
    }
    if Reporting(s.h) && !s.h.pc.Chain? {
      ReportingGoesOn(s, ok);
    }
    hide Age, HoldLocals, ThreadsOk, WakeupsOk, LogOk, ClocksOk, ReadsOk, DurationOk, Num;
  }

  lemma FirstKeptByOthers(c: Config, s: State, e: Event)
    requires AnswersOk(s.th.serial, s.nums) && RequestsOk(c, s.nums)
    requires FirstAndLast(s) && Enabled(s, e) && !e.HandlerStep?
    ensures FirstAndLast(Apply(c, s, e))
  {
    WhoMoves(c, s, e);
    hide NextInput, Num, RThreads, MainThreads;
  }

  lemma {:induction false} RunsKeepFirst(c: Config, run: Run, i: nat)
    requires run.Of(c) && UnderLibFuzzer(c, run) && i < |run.states|
    ensures FirstAndLast(run.states[i])
  {
    if i > 0 {
      RunsKeepFirst(c, run, i - 1);
      RunsKeepInv(c, run, i - 1);
      assert run.Linked(c, i - 1);
      hide FirstAndLast, HandlerNext;
      var s, e := run.states[i - 1], run.events[i - 1];
      if e.HandlerStep? {
        FirstKeptByHandler(c, s, e.slept, e.ok);
      } else {
        FirstKeptByOthers(c, s, e);
      }
    }
  }

  /** In the life of a process at most one dump is requested, for the input
      whose timeout is then being reported. */
  lemma OneRequestAtMost(c: Config, run: Run, i: nat)
    requires run.Of(c) && UnderLibFuzzer(c, run) && i < |run.states|
    ensures var s := run.states[i];
      |s.nums.requests| <= 1 && (s.nums.requests != [] ==> Reporting(s.h) && DumpRequested(s))
  {
    RunsKeepFirst(c, run, i);
  }

  /** No request ever carries the number of a later input. */
  lemma NoNumberIsReused(c: Config, run: Run, i: nat)
    requires run.Of(c) && UnderLibFuzzer(c, run) && i < |run.states|
    ensures !NumberReused(run.states[i])
  {
    OneRequestAtMost(c, run, i);
  }

  /** And the handler's wait ends early only for the dump of that input, or for
      the failure to ask for it. */
  lemma EveryAnswerIsFresh(c: Config, run: Run, i: nat)
    requires run.Of(c) && UnderLibFuzzer(c, run) && i < |run.states|
    requires Polling(run.states[i].h.pc) && run.states[i].nums.done == run.states[i].nums.input
    ensures Answered(run, i, run.states[i].th.serial)
  {
    RunsKeepInv(c, run, i);
    RunsKeepFirst(c, run, i);
    SameNumber(0, run.states[i].th.serial);
    AnswerIsFresh(c, run, i);
  }

  /** A handler run meets one call only. */
  lemma {:induction false} SerialSince(c: Config, run: Run, k: nat, j: nat, i: nat)
    requires run.Of(c) && InRun(run, k, i) && k <= j <= i
    ensures run.states[j].th.serial == run.states[i].th.serial
    decreases i
  {
    if j < i {
      RunGoesOn(c, run, k, i);
      assert run.Linked(c, i - 1);
      WhoMoves(c, run.states[i - 1], run.events[i - 1]);
      hide InRun, Apply;
      SerialSince(c, run, k, j, i - 1);
    }
  }

  /** A tick that found its input late ends the process as it is handed on; a
      dump was requested for the very input it reports; and by then that dump
      was answered, or the input was seen to be over, or the handler had slept
      5000 times waiting for it. */
  lemma EveryReportHasItsDump(c: Config, run: Run, k: nat, a: nat, i: nat) returns (j: nat)
    requires run.Of(c) && UnderLibFuzzer(c, run) && InRun(run, k, i) && run.states[i].h.pc.Chain?
    requires k <= a < i && FoundLate(c, run, a)
    ensures Exits(c, run.states[i])
    ensures exists m: nat :: m < i && Asks(run, m, run.states[i].th.serial)
    ensures k <= j && LastStep(run, j, i)
    ensures
      || (run.states[j].h.pc.PollDone? && Answered(run, j, run.states[i].th.serial))
      || (run.states[j].h.pc.PollRunning? && !run.states[j].th.running)
      || (run.states[j].h.pc.PollDone? && Steps(run, WaitSleeps, k, j) == 5000)
  {
    RunsKeepInv(c, run, i);
    FlagsTell(c, run, k, i);
    ReportEnds(c, run.states[i]);
    NoNumberIsReused(c, run, i);
    j := ReportFollowsDump(c, run, k, a, i);
    SerialSince(c, run, k, j, i);
    hide Inv, NumberReused, Exits, InRun, LastStep;
    if run.states[j].h.pc.PollDone? && run.states[j].nums.done == run.states[j].nums.input {
      EveryAnswerIsFresh(c, run, j);
    }
  }

  /** A timeout of an input that the tick saw running, within a second of the
      armed read, is reported with its dump requested, without exception. */
  lemma EveryTimeoutHasItsDump(c: Config, run: Run, k: nat, m: nat, a: nat, i: nat)
    requires run.Of(c) && UnderLibFuzzer(c, run) && InRun(run, k, i) && Exits(c, run.states[i])
    requires k <= m < a < i && SawRunning(run, m) && ReadsArmed(run, a)
    requires run.states[i].now - run.states[a].now <= NS
    ensures FoundLate(c, run, a)
    ensures exists x: nat :: x < i && Asks(run, x, run.states[i].th.serial)
  {
    NoTimeoutWithoutDump(c, run, k, m, a, i);
    NoNumberIsReused(c, run, i);
  }
}
