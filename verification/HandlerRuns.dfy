/** One run of fuzz_alarm_handler within a run of the whole, told by its steps:
    what it has seen, how often it slept, and why it goes on as it does. */
module HandlerRuns {
  import opened Clock
  import opened Handoff
  import opened HandoffInvariant

  // ---------- where a handler run begins and ends

  /** Event m ends a handler run or begins one. */
  ghost predicate Boundary(run: Run, m: nat)
    requires m < |run.events| && |run.states| == |run.events| + 1
  {
    var h, h' := run.states[m].h, run.states[m + 1].h;
    h'.pc.Out? || (h'.pc.LoadFinishing? && (h.pc.Out? || run.events[m].HandlerStep?))
  }

  /** States k to i lie in one handler run, which begins at k. */
  ghost predicate InRun(run: Run, k: nat, i: nat)
    requires |run.states| == |run.events| + 1
  {
    && 0 < k <= i < |run.states|
    && run.states[k].h.pc.LoadFinishing? && Boundary(run, k - 1)
    && forall m :: k <= m < i ==> !Boundary(run, m)
  }

  lemma StaysOut(c: Config, s: State, e: Event)
    requires Enabled(s, e) && s.h.pc.Out?
    ensures Apply(c, s, e).h.pc.Out? || Apply(c, s, e).h.pc.LoadFinishing?
  {
  }

  /** A handler under way has begun. */
  lemma {:induction false} HasBegun(c: Config, run: Run, i: nat) returns (k: nat)
    requires run.Of(c) && i < |run.states| && !run.states[i].h.pc.Out?
    ensures InRun(run, k, i)
  {
    if Boundary(run, i - 1) {
      k := i;
    } else {
      assert run.Linked(c, i - 1);
      if run.states[i - 1].h.pc.Out? {
        StaysOut(c, run.states[i - 1], run.events[i - 1]);
      }
      k := HasBegun(c, run, i - 1);
    }
  }

  /** Other events leave the handler alone, but for a tick that has to wait. */
  lemma OthersLeaveHandler(c: Config, s: State, e: Event)
    requires Enabled(s, e) && !e.HandlerStep? && !s.h.pc.Out?
    ensures Apply(c, s, e).h == s.h.(pending := s.h.pending || e.Raise?)
  {
  }

  lemma HoldEntersAnew(c: Config, s: State, armedAge: int, age: int, slept: nat)
    requires HoldLocals(c, s, armedAge, age, slept).pc.LoadFinishing? && !s.h.pc.Out?
    ensures var h := HoldLocals(c, s, armedAge, age, slept); h == EnterHandler(h)
  {
  }

  lemma ReportEntersAnew(s: State, ok: bool)
    requires InReport(s.h.pc) && ReportLocals(s, ok).pc.LoadFinishing?
    ensures var h := ReportLocals(s, ok); h == EnterHandler(h)
  {
  }

  lemma RunBegins(c: Config, run: Run, k: nat)
    requires run.Of(c) && InRun(run, k, k)
    ensures run.states[k].h == EnterHandler(run.states[k].h)
  {
    assert run.Linked(c, k - 1);
    var s, e := run.states[k - 1], run.events[k - 1];
    if e.HandlerStep? {
      hide HoldLocals, ReportLocals, HandlerNumbers, Age, EnterHandler;
      if InReport(s.h.pc) {
        ReportEntersAnew(s, e.ok);
      } else {
        HoldEntersAnew(c, s, Age(s, s.armed), Age(s, s.started), e.slept);
      }
    }
  }

  lemma NotOutInRun(c: Config, run: Run, k: nat, i: nat)
    requires run.Of(c) && InRun(run, k, i)
    ensures !run.states[i].h.pc.Out?
  {
    assert i > k ==> !Boundary(run, i - 1);
  }

  /** The last event of the run so far: a step of the handler, or another. */
  lemma RunGoesOn(c: Config, run: Run, k: nat, i: nat)
    requires run.Of(c) && InRun(run, k, i) && k < i
    ensures InRun(run, k, i - 1) && !run.states[i - 1].h.pc.Out? && !run.states[i].h.pc.Out?
    ensures var s, e, h := run.states[i - 1], run.events[i - 1], run.states[i].h;
      && (e.HandlerStep? ==>
            h == HandlerLocals(c, s, Age(s, s.armed), Age(s, s.started), e.slept, e.ok) && !h.pc.LoadFinishing?)
      && (!e.HandlerStep? ==> h == s.h.(pending := s.h.pending || e.Raise?))
  {
    assert run.Linked(c, i - 1);
    assert !Boundary(run, i - 1);
    NotOutInRun(c, run, k, i - 1);
    var s, e := run.states[i - 1], run.events[i - 1];
    if !e.HandlerStep? {
      OthersLeaveHandler(c, s, e);
    }
  }

  // ---------- how often

  datatype Kind = AnyStep | HoldSleeps | WaitSleeps

  predicate IsStep(kind: Kind, s: State, e: Event) {
    && e.HandlerStep?
    && (kind.HoldSleeps? ==> s.h.pc.HoldSleep?)
    && (kind.WaitSleeps? ==> s.h.pc.PollSleep?)
  }

  /** How many steps of this kind there are from state i to state j. */
  ghost function Steps(run: Run, kind: Kind, i: nat, j: nat): nat
    requires j < |run.states| == |run.events| + 1
    decreases j
  {
    if i >= j then 0
    else Steps(run, kind, i, j - 1) + (if IsStep(kind, run.states[j - 1], run.events[j - 1]) then 1 else 0)
  }

  lemma CountsInHold(c: Config, s: State, armedAge: int, age: int, slept: nat)
    requires !s.h.pc.Out? && !InReport(s.h.pc)
    ensures var h := HoldLocals(c, s, armedAge, age, slept);
      !h.pc.Out? && !h.pc.LoadFinishing? ==>
        && h.steps == s.h.steps + 1 && h.polls == s.h.polls
        && h.holds == s.h.holds + (if s.h.pc.HoldSleep? then 1 else 0)
  {
  }

  lemma CountsInReport(s: State, ok: bool)
    requires InReport(s.h.pc)
    ensures var h := ReportLocals(s, ok);
      !h.pc.Out? && !h.pc.LoadFinishing? ==>
        && h.steps == s.h.steps + 1 && h.holds == s.h.holds
        && h.polls == s.h.polls + (if s.h.pc.PollSleep? then 1 else 0)
  {
  }

  /** The handler's counters count its steps and sleeps. */
  lemma {:induction false} CountersCount(c: Config, run: Run, k: nat, i: nat)
    requires run.Of(c) && InRun(run, k, i)
    ensures run.states[i].h.steps == Steps(run, AnyStep, k, i)
    ensures run.states[i].h.holds == Steps(run, HoldSleeps, k, i)
    ensures run.states[i].h.polls == Steps(run, WaitSleeps, k, i)
    decreases i
  {
    if k == i {
      RunBegins(c, run, k);
    } else {
      RunGoesOn(c, run, k, i);
      CountersCount(c, run, k, i - 1);
      hide InRun, HoldLocals, ReportLocals, Age;
      var s, e := run.states[i - 1], run.events[i - 1];
      if e.HandlerStep? {
        if InReport(s.h.pc) {
          CountsInReport(s, e.ok);
        } else {
          CountsInHold(c, s, Age(s, s.armed), Age(s, s.started), e.slept);
        }
      }
    }
  }

  // ---------- what it has seen

  /** Event m is the handler reading running = 1 (line 407). */
  ghost predicate SawRunning(run: Run, m: nat)
    requires m < |run.events| && |run.states| == |run.events| + 1
  {
    run.events[m].HandlerStep? && run.states[m].h.pc.LoadRunning? && run.states[m].th.running
  }

  /** Event m is the handler reading the armed clock (line 408). */
  ghost predicate ReadsArmed(run: Run, m: nat)
    requires m < |run.events| && |run.states| == |run.events| + 1
  {
    run.events[m].HandlerStep? && run.states[m].h.pc.ReadArmed?
  }

  /** ... and finding no more than the last second missing to the timeout. */
  ghost predicate FoundLate(c: Config, run: Run, m: nat)
    requires m < |run.events| && |run.states| == |run.events| + 1
  {
    ReadsArmed(run, m) && Age(run.states[m], run.states[m].armed) >= c.timeout - 1
  }

  /** Event m is a sleep of the hold loop cut short. */
  ghost predicate CutShort(c: Config, run: Run, m: nat)
    requires m < |run.events| && |run.states| == |run.events| + 1
  {
    run.events[m].HandlerStep? && run.states[m].h.pc.HoldSleep? && run.events[m].slept < c.pollNs
  }

  lemma FlagsInHold(c: Config, s: State, armedAge: int, age: int, slept: nat)
    requires !s.h.pc.Out? && !InReport(s.h.pc)
    ensures var h := HoldLocals(c, s, armedAge, age, slept);
      !h.pc.Out? && !h.pc.LoadFinishing? ==>
        && h.pending == s.h.pending
        && h.sawRunning == (s.h.sawRunning || (s.h.pc.LoadRunning? && s.th.running))
        && h.dumpBranch == (s.h.dumpBranch || (s.h.pc.ReadArmed? && armedAge >= c.timeout - 1))
        && h.shortSleep == (s.h.shortSleep || (s.h.pc.HoldSleep? && slept < c.pollNs))
        && h.armedReadAt == (if s.h.pc.ReadArmed? then s.now else s.h.armedReadAt)
        && (h.pc.ReadArmed? <==> s.h.pc.LoadRunning? && s.th.running)
  {
  }

  lemma FlagsInReport(s: State, ok: bool)
    requires InReport(s.h.pc)
    ensures var h := ReportLocals(s, ok);
      !h.pc.Out? && !h.pc.LoadFinishing? ==>
        && h.pending == s.h.pending && h.sawRunning == s.h.sawRunning && h.dumpBranch == s.h.dumpBranch
        && h.shortSleep == s.h.shortSleep && h.armedReadAt == s.h.armedReadAt && InReport(h.pc)
  {
  }

  /** What one event adds to the handler's flags. */
  lemma FlagsStep(c: Config, run: Run, k: nat, i: nat)
    requires run.Of(c) && InRun(run, k, i) && k < i
    ensures InRun(run, k, i - 1)
    ensures var h, h' := run.states[i - 1].h, run.states[i].h;
      && h'.pending == (h.pending || run.events[i - 1].Raise?)
      && h'.sawRunning == (h.sawRunning || SawRunning(run, i - 1))
      && h'.dumpBranch == (h.dumpBranch || FoundLate(c, run, i - 1))
      && h'.shortSleep == (h.shortSleep || CutShort(c, run, i - 1))
      && h'.armedReadAt == (if ReadsArmed(run, i - 1) then run.states[i - 1].now else h.armedReadAt)
  {
    RunGoesOn(c, run, k, i);
    hide InRun, HoldLocals, ReportLocals, Age;
    var s, e := run.states[i - 1], run.events[i - 1];
    if e.HandlerStep? {
      if InReport(s.h.pc) {
        FlagsInReport(s, e.ok);
      } else {
        FlagsInHold(c, s, Age(s, s.armed), Age(s, s.started), e.slept);
      }
    }
  }

  /** The handler's flags are set by what it met since it began. */
  lemma {:induction false} FlagsTell(c: Config, run: Run, k: nat, i: nat)
    requires run.Of(c) && InRun(run, k, i)
    ensures run.states[i].h.pending <==> exists m :: k <= m < i && run.events[m].Raise?
    ensures run.states[i].h.sawRunning <==> exists m :: k <= m < i && SawRunning(run, m)
    ensures run.states[i].h.dumpBranch <==> exists m :: k <= m < i && FoundLate(c, run, m)
    ensures run.states[i].h.shortSleep <==> exists m :: k <= m < i && CutShort(c, run, m)
    decreases i
  {
    if k == i {
      RunBegins(c, run, k);
    } else {
      FlagsStep(c, run, k, i);
      hide InRun, SawRunning, FoundLate, CutShort;
      FlagsTell(c, run, k, i - 1);
    }
  }

  lemma PastArmed(c: Config, s: State, armedAge: int, age: int, slept: nat, ok: bool)
    requires InReport(s.h.pc) || Holding(s.h.pc) || s.h.pc.ReadArmed?
    ensures var pc := HandlerLocals(c, s, armedAge, age, slept, ok).pc;
      InReport(pc) || Holding(pc) || pc.Out? || pc.LoadFinishing?
  {
  }

  lemma {:induction false} ArmedReadOnce(c: Config, run: Run, k: nat, a: nat, i: nat)
    requires run.Of(c) && InRun(run, k, i) && k <= a < i && ReadsArmed(run, a)
    ensures run.states[i].h.armedReadAt == run.states[a].now
    ensures InReport(run.states[i].h.pc) || Holding(run.states[i].h.pc)
    decreases i
  {
    FlagsStep(c, run, k, i);
    RunGoesOn(c, run, k, i);
    if a < i - 1 {
      ArmedReadOnce(c, run, k, a, i - 1);
    }
    hide InRun, EnterHandler;
    var s, e := run.states[i - 1], run.events[i - 1];
    if e.HandlerStep? {
      PastArmed(c, s, Age(s, s.armed), Age(s, s.started), e.slept, e.ok);
    }
  }

  /** A handler that read running = 1 reads the armed clock before anything is
      decided. */
  lemma {:induction false} SeenThenArmed(c: Config, run: Run, k: nat, m: nat, i: nat) returns (a: nat)
    requires run.Of(c) && InRun(run, k, i) && k <= m < i && SawRunning(run, m)
    requires !run.states[i].h.pc.ReadArmed?
    ensures m < a < i && ReadsArmed(run, a)
    decreases i
  {
    RunGoesOn(c, run, k, i);
    FlagsStep(c, run, k, i);
    if run.states[i - 1].h.pc.ReadArmed? {
      a := i - 1;
    } else {
      a := SeenThenArmed(c, run, k, m, i - 1);
    }
  }

  // ---------- why it goes on

  /** Event j is the last step the handler made before state i. */
  ghost predicate LastStep(run: Run, j: nat, i: nat)
    requires |run.states| == |run.events| + 1
  {
    j < i < |run.states| && run.events[j].HandlerStep? && forall m :: j < m < i ==> !run.events[m].HandlerStep?
  }

  /** The handler run has a last step unless it has just begun. */
  lemma {:induction false} StepBefore(c: Config, run: Run, k: nat, i: nat) returns (j: nat)
    requires run.Of(c) && InRun(run, k, i) && !run.states[i].h.pc.LoadFinishing?
    ensures k <= j && LastStep(run, j, i) && InRun(run, k, j)
    ensures run.states[i].h.pc == run.states[j + 1].h.pc
    decreases i
  {
    RunGoesOn(c, run, k, i);
    if run.events[i - 1].HandlerStep? {
      j := i - 1;
    } else {
      j := StepBefore(c, run, k, i - 1);
    }
  }

  ghost predicate MayStopWaiting(run: Run, k: nat, j: nat)
    requires j < |run.events| && |run.states| == |run.events| + 1
  {
    var s := run.states[j];
    || (s.h.pc.PollDone? && s.nums.done == s.nums.input)
    || (s.h.pc.PollDone? && Steps(run, WaitSleeps, k, j) == MAX_POLLS)
    || (s.h.pc.PollRunning? && !s.th.running)
  }

  lemma {:induction false} PcSince(c: Config, run: Run, k: nat, j: nat, i: nat)
    requires run.Of(c) && InRun(run, k, i) && k <= j && LastStep(run, j, i)
    ensures run.states[i].h.pc == run.states[j + 1].h.pc
    decreases i
  {
    if j < i - 1 {
      RunGoesOn(c, run, k, i);
      PcSince(c, run, k, j, i - 1);
    }
  }

  /** Why a tick is handed on: no input was running; or more than a second was
      missing to the timeout by the armed clock; or, with its dump asked for, the
      dump was answered, or the input was seen to be over, or the handler has
      slept 5000 times waiting. */
  ghost predicate MayHandOn(c: Config, run: Run, k: nat, j: nat)
    requires j < |run.events| && |run.states| == |run.events| + 1
  {
    var s := run.states[j];
    match s.h.pc
    case LoadRunning => !s.th.running
    case ReadArmed => !FoundLate(c, run, j)
    case _ => MayStopWaiting(run, k, j)
  }

  lemma EntersChain(c: Config, s: State, armedAge: int, age: int, slept: nat, ok: bool)
    requires HandlerLocals(c, s, armedAge, age, slept, ok).pc.Chain? && !s.h.pc.Out?
    ensures match s.h.pc
            case LoadRunning => !s.th.running
            case ReadArmed => armedAge < c.timeout - 1
            case PollDone => s.h.polls == MAX_POLLS || s.nums.done == s.h.input
            case PollRunning => !s.th.running
            case _ => false
  {
  }

  lemma {:induction false} FlagsSince(c: Config, run: Run, k: nat, j: nat, i: nat)
    requires run.Of(c) && InRun(run, k, i) && k <= j && LastStep(run, j, i)
    ensures run.states[i].h.dumpBranch == (run.states[j].h.dumpBranch || FoundLate(c, run, j))
    decreases i
  {
    FlagsStep(c, run, k, i);
    if j < i - 1 {
      FlagsSince(c, run, k, j, i - 1);
    }
  }

  lemma WhyHandedOn(c: Config, run: Run, k: nat, i: nat) returns (j: nat)
    requires run.Of(c) && InRun(run, k, i) && run.states[i].h.pc.Chain?
    ensures k <= j && LastStep(run, j, i) && MayHandOn(c, run, k, j)
    ensures run.states[i].h.dumpBranch ==> MayStopWaiting(run, k, j)
  {
    j := StepBefore(c, run, k, i);
    assert run.Linked(c, j);
    var s, e := run.states[j], run.events[j];
    RunsKeepInv(c, run, j);
    CountersCount(c, run, k, j);
    EntersChain(c, s, Age(s, s.armed), Age(s, s.started), e.slept, e.ok);
    FlagsSince(c, run, k, j, i);
    hide HandlerLocals, ThreadsOk, WakeupsOk, LogOk, ClocksOk, NumbersOk, RequestsOk, DurationOk;
  }

  lemma ReportEntersWait(s: State, ok: bool)
    requires InReport(s.h.pc)
    ensures var pc := ReportLocals(s, ok).pc;
      && !pc.HoldSleep? && !pc.HoldLoadRunning?
      && (pc.PollSleep? ==> s.h.pc.PollRunning? && s.th.running)
      && (pc.PollRunning? ==> s.h.pc.PollDone? && s.nums.done != s.h.input && s.h.polls != MAX_POLLS)
  {
  }

  lemma HoldEntersHold(c: Config, s: State, armedAge: int, age: int, slept: nat)
    requires !s.h.pc.Out? && !InReport(s.h.pc)
    ensures var h := HoldLocals(c, s, armedAge, age, slept);
      && !h.pc.PollSleep? && !h.pc.PollRunning?
      && (h.pc.HoldSleep? ==> s.h.pc.HoldLoadRunning? && s.th.running && s.h.age < c.timeout)
      && (h.pc.HoldLoadRunning? ==> s.h.pc.HoldReadClock? && h.age == age)
  {
  }

  /** Where the handler was before it sleeps in one loop or the other. */
  lemma EntersLoop(c: Config, s: State, slept: nat, ok: bool)
    requires !s.h.pc.Out?
    ensures var h := HandlerNext(c, s, slept, ok).h;
      && (h.pc.PollSleep? ==> s.h.pc.PollRunning? && s.th.running)
      && (h.pc.PollRunning? ==> s.h.pc.PollDone? && s.nums.done != s.h.input && s.h.polls != MAX_POLLS)
      && (h.pc.HoldSleep? ==> s.h.pc.HoldLoadRunning? && s.th.running && s.h.age < c.timeout)
      && (h.pc.HoldLoadRunning? ==> s.h.pc.HoldReadClock? && h.age == Age(s, s.started))
  {
    hide HandlerNumbers, Age, HoldLocals, ReportLocals;
    if InReport(s.h.pc) {
      ReportEntersWait(s, ok);
    } else {
      HoldEntersHold(c, s, Age(s, s.armed), Age(s, s.started), slept);
    }
  }

  /** Why it sleeps once more for the dump: it is not answered, the input still
      runs, and it has slept fewer than 5000 times. */
  lemma WhyWaits(c: Config, run: Run, k: nat, i: nat) returns (d: nat, j: nat)
    requires run.Of(c) && InRun(run, k, i) && run.states[i].h.pc.PollSleep?
    ensures k <= d && LastStep(run, d, j) && LastStep(run, j, i)
    ensures var s := run.states[d];
      && s.h.pc.PollDone? && s.nums.done != s.nums.input && Steps(run, WaitSleeps, k, d) < MAX_POLLS
    ensures run.states[j].h.pc.PollRunning? && run.states[j].th.running
  {
    j := StepBefore(c, run, k, i);
    assert run.Linked(c, j);
    EntersLoop(c, run.states[j], run.events[j].slept, run.events[j].ok);
    d := StepBefore(c, run, k, j);
    assert run.Linked(c, d);
    EntersLoop(c, run.states[d], run.events[d].slept, run.events[d].ok);
    RunsKeepInv(c, run, d);
    CountersCount(c, run, k, d);
    hide HandlerNext, ThreadsOk, WakeupsOk, LogOk, ClocksOk, NumbersOk, RequestsOk;
  }

  lemma {:induction false} AgeSince(c: Config, run: Run, k: nat, d: nat, j: nat)
    requires run.Of(c) && InRun(run, k, j) && k <= d && LastStep(run, d, j)
    ensures run.states[j].h.age == run.states[d + 1].h.age
    decreases j
  {
    if d < j - 1 {
      RunGoesOn(c, run, k, j);
      AgeSince(c, run, k, d, j - 1);
    }
  }

  /** Why it sleeps once more in the hold: the input was seen running, and by a
      clock read before that was still within its time. */
  lemma WhyHeld(c: Config, run: Run, k: nat, i: nat) returns (d: nat, j: nat)
    requires run.Of(c) && InRun(run, k, i) && run.states[i].h.pc.HoldSleep?
    ensures k <= d && LastStep(run, d, j) && LastStep(run, j, i)
    ensures run.states[d].h.pc.HoldReadClock? && run.states[d].now - run.states[d].started < c.timeout * NS
    ensures run.states[j].h.pc.HoldLoadRunning? && run.states[j].th.running
  {
    j := StepBefore(c, run, k, i);
    assert run.Linked(c, j);
    EntersLoop(c, run.states[j], run.events[j].slept, run.events[j].ok);
    d := StepBefore(c, run, k, j);
    assert run.Linked(c, d);
    EntersLoop(c, run.states[d], run.events[d].slept, run.events[d].ok);
    AgeSince(c, run, k, d, j);
    AgeIsElapsedFloor(run.states[d].now, run.states[d].started, c.timeout);
  }
}
