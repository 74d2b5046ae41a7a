/** What the timeout diagnostics guarantee, over every run. */
module TimeoutTheorems {
  import opened Clock
  import opened Handoff
  import opened HandoffInvariant
  import opened HandoffTheorems
  import opened HandlerRuns

  // ---------- the armed clock

  /** Event m is the main thread reading the clock as it goes idle (line 580). */
  ghost predicate GoesIdle(run: Run, m: nat)
    requires m < |run.events| && |run.states| == |run.events| + 1
  {
    run.events[m].MainStep? && run.states[m].th.mpc.Arm?
  }

  /** Event j is the last time the main thread went idle before state i. */
  ghost predicate LastIdle(run: Run, j: nat, i: nat)
    requires |run.states| == |run.events| + 1
  {
    j < i < |run.states| && GoesIdle(run, j) && forall m :: j < m < i ==> !GoesIdle(run, m)
  }

  lemma ArmedKept(c: Config, s: State, e: Event)
    requires Enabled(s, e)
    ensures Apply(c, s, e).armed == if e.MainStep? && s.th.mpc.Arm? then s.now else s.armed
  {
    hide HandlerLocals, HandlerNumbers, DumpNext, NextInput, Age, MainThreads, RThreads;
  }

  lemma LastIdleStep(run: Run, j: nat, i: nat)
    requires 0 < i < |run.states| && |run.states| == |run.events| + 1
    ensures LastIdle(run, j, i) <==> if GoesIdle(run, i - 1) then j == i - 1 else LastIdle(run, j, i - 1)
  {
  }

  /** `armed` is the moment the main thread last went idle, once it has. */
  lemma {:induction false} ArmedIsLastIdle(c: Config, run: Run, i: nat)
    requires run.Of(c) && i < |run.states|
    ensures forall j: nat :: LastIdle(run, j, i) ==> run.states[i].armed == run.states[j].now
    ensures (exists m: nat :: m < i && GoesIdle(run, m)) ==> exists j: nat :: LastIdle(run, j, i)
  {
    if i > 0 {
      ArmedIsLastIdle(c, run, i - 1);
      assert run.Linked(c, i - 1);
      ArmedKept(c, run.states[i - 1], run.events[i - 1]);
      hide Apply, Enabled;
      forall j: nat
        ensures LastIdle(run, j, i) <==> if GoesIdle(run, i - 1) then j == i - 1 else LastIdle(run, j, i - 1)
      {
        LastIdleStep(run, j, i);
      }
      hide LastIdle;
      if GoesIdle(run, i - 1) {
        assert run.states[i].armed == run.states[i - 1].now && LastIdle(run, i - 1, i);
      } else if m: nat :| m < i && GoesIdle(run, m) {
        assert m < i - 1;
        var j: nat :| LastIdle(run, j, i - 1);
        assert LastIdle(run, j, i);
      }
    }
  }

  // ---------- dump requests

  /** State j is a look of the hold loop that saw the input of state i
      running, at a moment at or past its start plus the timeout; that start is
      when the R thread read the clock for this input. */
  ghost predicate SeenOutOfTime(c: Config, run: Run, j: nat, i: nat)
    requires j < i < |run.states| && |run.states| == |run.events| + 1
  {
    var s, s' := run.states[j], run.states[i];
    && s.h.pc.HoldLoadRunning? && s.th.running
    && s.th.serial == s'.th.serial && s.started == s'.started
    && (exists k: nat :: k < j && StartedFor(run, k, j))
    && s.now - s.started >= c.timeout * NS
  }

  predicate AboutToRequest(h: HandlerPc) { h.LoadInput? || h.LoadRequested? || h.StoreRequested? }

  lemma HoldEntersRequest(c: Config, s: State, armedAge: int, age: int, slept: nat)
    requires AboutToRequest(HoldLocals(c, s, armedAge, age, slept).pc)
    ensures s.h.pc.HoldLoadRunning? || AboutToRequest(s.h.pc)
  {
  }

  lemma ReportStaysInRequest(s: State, ok: bool)
    requires AboutToRequest(ReportLocals(s, ok).pc)
    ensures InReport(s.h.pc) ==> AboutToRequest(s.h.pc)
  {
  }

  lemma EntersRequest(c: Config, s: State, slept: nat, ok: bool)
    requires AboutToRequest(HandlerNext(c, s, slept, ok).h.pc) && !s.h.pc.HoldLoadRunning?
    ensures AboutToRequest(s.h.pc)
  {
    hide Age, HandlerNumbers, HoldLocals, ReportLocals;
    if InReport(s.h.pc) {
      ReportStaysInRequest(s, ok);
    } else {
      HoldEntersRequest(c, s, Age(s, s.armed), Age(s, s.started), slept);
    }
  }

  /** Between that look and the request nothing about the input changes. */
  lemma RequestingStep(c: Config, s: State, e: Event)
    requires CoreOk(s.th) && SuppressionOk(s) && BranchOk(s.h)
    requires Enabled(s, e) && AboutToRequest(Apply(c, s, e).h.pc)
    requires !(e.HandlerStep? && s.h.pc.HoldLoadRunning?)
    ensures AboutToRequest(s.h.pc) && Apply(c, s, e).started == s.started && Apply(c, s, e).th.serial == s.th.serial
  {
    WhoMoves(c, s, e);
    if e.HandlerStep? {
      EntersRequest(c, s, e.slept, e.ok);
    } else if e.RStep? || e.Fork? || e.SpuriousR? {
      hide MainThreads, NextInput, HandlerNext;
    } else {
      RMovesItself(c, s, e);
      hide RNext, HandlerNext, MainThreads, NextInput, CoreOk;
    }
  }

  lemma {:induction false} RequestingAfterLook(c: Config, run: Run, i: nat) returns (j: nat)
    requires run.Of(c) && i < |run.states| && AboutToRequest(run.states[i].h.pc)
    ensures j < i && SeenOutOfTime(c, run, j, i)
  {
    RunsKeepInv(c, run, i - 1);
    assert run.Linked(c, i - 1);
    var s, e := run.states[i - 1], run.events[i - 1];
    if s.h.pc.HoldLoadRunning? && e.HandlerStep? {
      AgeIsElapsedFloor(s.h.ageAt, s.started, c.timeout);
      j := i - 1;
      var k := StartedIsOwn(c, run, j);
    } else {
      RequestingStep(c, s, e);
      j := RequestingAfterLook(c, run, i - 1);
    }
  }

  /** A dump is requested for an input only after that input was seen running
      at a moment when it was already out of time by its own clock, and at
      most once per input. */
  lemma DumpOnlyIfOutOfTime(c: Config, run: Run, i: nat) returns (j: nat)
    requires run.Of(c) && i < |run.events|
    requires run.events[i].HandlerStep? && run.states[i].h.pc.StoreRequested?
    ensures j < i && SeenOutOfTime(c, run, j, i)
    ensures var before, after := run.states[i].nums.requests, run.states[i + 1].nums.requests;
      && |after| == |before| + 1 && after[..|before|] == before
      && after[|before|].serial == run.states[i].th.serial
      && (forall k :: 0 <= k < |before| ==> before[k].serial < run.states[i].th.serial)
  {
    j := RequestingAfterLook(c, run, i);
    assert run.Linked(c, i);
    RunsKeepInv(c, run, i + 1);
    var after := run.states[i + 1].nums.requests;
    forall k | 0 <= k < |after| - 1 ensures after[k].serial < after[|after| - 1].serial {
    }
  }

  /** The last request was made for the call in progress. */
  predicate DumpRequested(s: State) {
    var rs := s.nums.requests;
    rs != [] && rs[|rs| - 1].serial == s.th.serial
  }

  /** Request k is the last one made before call n. */
  predicate LastBefore(rs: seq<Request>, n: nat, k: int) {
    && 0 <= k < |rs| && rs[k].serial < n
    && forall m :: k < m < |rs| ==> rs[m].serial >= n
  }

  /** The last request made before the call in progress carries the same
      number: it is a positive multiple of 2^32 - 1 calls old. */
  ghost predicate NumberReused(s: State) {
    var rs, n := s.nums.requests, s.th.serial;
    exists k :: LastBefore(rs, n, k) && (n - rs[k].serial) % (UINT_RANGE - 1) == 0
  }

  predicate Apart(rs: seq<Request>) {
    && (forall k :: 0 <= k < |rs| ==> rs[k].serial > 0)
    && forall k :: 0 < k < |rs| ==> (rs[k].serial - rs[k - 1].serial) % (UINT_RANGE - 1) != 0
  }

  lemma OppositeMultiple(a: int)
    ensures a % (UINT_RANGE - 1) == 0 <==> (-a) % (UINT_RANGE - 1) == 0
  {
  }

  lemma ApartStep(c: Config, s: State, ok: bool)
    requires Inv(c, s) && Apart(s.nums.requests)
    ensures Apart(HandlerNumbers(s, ok).requests)
  {
    if s.h.pc.StoreRequested? {
      assert s.nums.requested != s.nums.input && s.nums.input == Num(s.th.serial) && s.th.serial > 0;
      SameNumber(s.nums.reqSerial, s.th.serial);
      OppositeMultiple(s.th.serial - s.nums.reqSerial);
      hide ThreadsOk, WakeupsOk, LogOk, ClocksOk, HandlerOk, Num;
    }
  }

  /** Consecutive requests never carry the same number. */
  lemma {:induction false} RequestsAreApart(c: Config, run: Run, i: nat)
    requires run.Of(c) && i < |run.states|
    ensures Apart(run.states[i].nums.requests)
  {
    if i > 0 {
      RequestsAreApart(c, run, i - 1);
      RunsKeepInv(c, run, i - 1);
      assert run.Linked(c, i - 1);
      var s, e := run.states[i - 1], run.events[i - 1];
      hide Apart, Inv, HandlerNumbers, HandlerLocals, Age;
      if e.HandlerStep? {
        ApartStep(c, s, e.ok);
      } else {
        OthersMakeNoRequest(c, s, e);
      }
    }
  }

  /** If the requests up to call n come from calls in order, and the last one
      carries its number, then it is its own or an old one with that number. */
  lemma OwnOrReused(rs: seq<Request>, n: nat)
    requires rs != [] && Apart(rs) && rs[|rs| - 1].serial <= n
    requires forall i, j :: 0 <= i < j < |rs| ==> rs[i].serial < rs[j].serial
    requires (n - rs[|rs| - 1].serial) % (UINT_RANGE - 1) == 0
    ensures rs[|rs| - 1].serial == n <==>
            !exists k :: LastBefore(rs, n, k) && (n - rs[k].serial) % (UINT_RANGE - 1) == 0
  {
    var last := |rs| - 1;
    if rs[last].serial == n {
      forall k | LastBefore(rs, n, k) ensures k == last - 1 {
        assert last >= 1 ==> rs[last - 1].serial < n;
      }
    } else {
      assert LastBefore(rs, n, last);
    }
  }

  lemma RequestedOrReused(c: Config, s: State)
    requires Inv(c, s) && Apart(s.nums.requests)
    requires s.h.pc.Chain? && s.h.dumpBranch
    ensures s.nums.requested == s.nums.input != 0
    ensures DumpRequested(s) <==> !NumberReused(s)
  {
    assert s.nums.requested == s.nums.input == Num(s.th.serial) && s.th.serial > 0;
    SameNumber(s.nums.reqSerial, s.th.serial);
    OppositeMultiple(s.th.serial - s.nums.reqSerial);
    hide ThreadsOk, WakeupsOk, LogOk, ClocksOk, HandlerOk, Num, Apart, LastBefore;
    OwnOrReused(s.nums.requests, s.th.serial);
  }

  /** Event j is the handler storing a request for call n (line 429). */
  ghost predicate Asks(run: Run, j: nat, n: nat)
    requires j < |run.events| && |run.states| == |run.events| + 1
  {
    run.events[j].HandlerStep? && run.states[j].h.pc.StoreRequested? && run.states[j].th.serial == n
  }

  lemma RequestStep(c: Config, s: State, e: Event)
    requires Enabled(s, e)
    ensures var rs, rs' := s.nums.requests, Apply(c, s, e).nums.requests;
      if e.HandlerStep? && s.h.pc.StoreRequested?
      then |rs'| == |rs| + 1 && rs'[..|rs|] == rs && rs'[|rs|].serial == s.th.serial
      else rs' == rs
  {
    hide HandlerLocals, NextInput, MainThreads, RThreads, Age;
  }

  /** The log of requests is of those the handler stored. */
  lemma {:induction false} RequestsAreLogged(c: Config, run: Run, i: nat, n: nat)
    requires run.Of(c) && i < |run.states|
    ensures (exists x :: 0 <= x < |run.states[i].nums.requests| && run.states[i].nums.requests[x].serial == n)
            <==> exists j: nat :: j < i && Asks(run, j, n)
  {
    if i > 0 {
      RequestsAreLogged(c, run, i - 1, n);
      assert run.Linked(c, i - 1);
      RequestStep(c, run.states[i - 1], run.events[i - 1]);
      hide Apply, Enabled;
      var rs, rs' := run.states[i - 1].nums.requests, run.states[i].nums.requests;
      if Asks(run, i - 1, n) {
        assert rs'[|rs|].serial == n;
      } else {
        assert forall x :: 0 <= x < |rs| ==> rs'[x] == rs[x];
      }
    }
  }

  /** So the last request is the current call's exactly if the handler stored
      one for it. */
  lemma RequestedIsAsked(c: Config, run: Run, i: nat)
    requires run.Of(c) && i < |run.states|
    ensures DumpRequested(run.states[i]) <==> exists j: nat :: j < i && Asks(run, j, run.states[i].th.serial)
  {
    RunsKeepInv(c, run, i);
    RequestsAreLogged(c, run, i, run.states[i].th.serial);
    var rs, n := run.states[i].nums.requests, run.states[i].th.serial;
    assert rs != [] ==> rs[|rs| - 1].serial <= n;
    forall x | 0 <= x < |rs| && rs[x].serial == n ensures x == |rs| - 1 {
    }
    hide Inv;
  }

  /** When a tick that found its input late is handed on, a dump was requested
      for this very input, unless its number is that of the last request made
      before it; libFuzzer's own clock shows the timeout if it is a unit's; and
      the wait for the dump was over. */
  lemma ReportFollowsDump(c: Config, run: Run, k: nat, a: nat, i: nat) returns (j: nat)
    requires run.Of(c) && InRun(run, k, i) && run.states[i].h.pc.Chain?
    requires k <= a < i && FoundLate(c, run, a)
    ensures run.states[i].nums.requested == run.states[i].nums.input != 0
    ensures (exists m: nat :: m < i && Asks(run, m, run.states[i].th.serial)) <==> !NumberReused(run.states[i])
    ensures run.states[i].unit.InCall? ==> Age(run.states[i], run.states[i].unitStart) >= c.timeout
    ensures k <= j && LastStep(run, j, i) && MayStopWaiting(run, k, j)
  {
    RunsKeepInv(c, run, i);
    FlagsTell(c, run, k, i);
    RequestsAreApart(c, run, i);
    RequestedOrReused(c, run.states[i]);
    RequestedIsAsked(c, run, i);
    j := WhyHandedOn(c, run, k, i);
    AgeIsElapsedFloor(run.states[i].now, run.states[i].unitStart, c.timeout);
    hide NumberReused, DumpRequested, MayStopWaiting, MayHandOn, InRun, LastStep;
  }

  /** A handler run reads the armed clock once. */
  lemma OneArmedRead(c: Config, run: Run, k: nat, a: nat, b: nat, i: nat)
    requires run.Of(c) && InRun(run, k, i) && k <= a < i && k <= b < i && ReadsArmed(run, a) && ReadsArmed(run, b)
    ensures a == b
  {
    if a < b {
      ArmedReadOnce(c, run, k, a, b);
    } else if b < a {
      ArmedReadOnce(c, run, k, b, a);
    }
  }

  /** A tick that read running = 1, and is handed on while libFuzzer's clock
      shows the timeout, within a second of the armed clock being read, has
      found the input late: the timeout is reported with this input's dump
      requested, unless its number is that of the last request made before. */
  lemma NoTimeoutWithoutDump(c: Config, run: Run, k: nat, m: nat, a: nat, i: nat)
    requires run.Of(c) && InRun(run, k, i) && run.states[i].h.pc.Chain? && run.states[i].unit.InCall?
    requires k <= m < a < i && SawRunning(run, m) && ReadsArmed(run, a)
    requires Age(run.states[i], run.states[i].unitStart) >= c.timeout
    requires run.states[i].now - run.states[a].now <= NS
    ensures FoundLate(c, run, a)
    ensures (exists x: nat :: x < i && Asks(run, x, run.states[i].th.serial)) <==> !NumberReused(run.states[i])
  {
    RunsKeepInv(c, run, i);
    FlagsTell(c, run, k, i);
    ArmedReadOnce(c, run, k, a, i);
    AgeIsElapsedFloor(run.states[i].now, run.states[i].unitStart, c.timeout);
    assert run.states[i].h.dumpBranch;
    var b :| k <= b < i && FoundLate(c, run, b);
    OneArmedRead(c, run, k, a, b, i);
    var j := ReportFollowsDump(c, run, k, a, i);
  }

  /** A tick is held only if no more than a second was missing to the timeout:
      timeout - 1 seconds had gone by since the last time the main thread fell
      idle. */
  lemma HoldsOnlyLateTicks(c: Config, run: Run, k: nat, i: nat) returns (a: nat)
    requires run.Of(c) && InRun(run, k, i) && Holding(run.states[i].h.pc)
    ensures k <= a < i && FoundLate(c, run, a)
    ensures forall j: nat :: LastIdle(run, j, a) ==> run.states[a].now - run.states[j].now >= (c.timeout - 1) * NS
    ensures run.states[i].th.begun != [] && InWait(run.states[i].th.mpc)
  {
    RunsKeepInv(c, run, i);
    FlagsTell(c, run, k, i);
    a :| k <= a < i && FoundLate(c, run, a);
    AgeIsElapsedFloor(run.states[a].now, run.states[a].armed, c.timeout - 1);
    ArmedIsLastIdle(c, run, a);
    hide Inv, LastIdle;
  }

  /** And one that comes earlier is handed on at once. */
  lemma YoungTicksGoOn(c: Config, run: Run, k: nat, a: nat, i: nat)
    requires run.Of(c) && InRun(run, k, i) && k <= a && LastStep(run, a, i) && ReadsArmed(run, a)
    ensures run.states[i].h.pc == if FoundLate(c, run, a) then HoldReadClock else Chain
    ensures forall j: nat :: LastIdle(run, j, a) ==>
              (FoundLate(c, run, a) <==> run.states[a].now - run.states[j].now >= (c.timeout - 1) * NS)
  {
    PcSince(c, run, k, a, i);
    assert run.Linked(c, a);
    AgeIsElapsedFloor(run.states[a].now, run.states[a].armed, c.timeout - 1);
    ArmedIsLastIdle(c, run, a);
    hide LastIdle, Age, HandlerNumbers;
  }

  // ---------- answers
  // ---------- answers

  /** Event j is a dump handler loading `requested` (line 378). */
  ghost predicate Loads(run: Run, j: nat)
    requires j < |run.events| && |run.states| == |run.events| + 1
  {
    run.events[j].DumpStep? && run.states[j].nums.dpc.DumpLoad?
  }

  /** ... made while the last request was the one of call n. */
  ghost predicate LoadsRequestOf(run: Run, j: nat, n: nat)
    requires j < |run.events| && |run.states| == |run.events| + 1
  {
    var nums := run.states[j].nums;
    && Loads(run, j)
    && |nums.requests| > 0 && nums.requests[|nums.requests| - 1].serial == n
  }

  predicate Printing(d: DumpPc) { d.DumpPrint? || d.DumpStore? }

  /** Up to state i the handler that made the load of event j is at work. */
  ghost predicate AtWork(run: Run, j: nat, i: nat)
    requires i < |run.states|
  {
    forall m :: j < m <= i ==> Printing(run.states[m].nums.dpc)
  }

  /** Event p is a dump handler writing the label and the stack (lines 379-385). */
  ghost predicate Prints(run: Run, p: nat)
    requires p < |run.events| && |run.states| == |run.events| + 1
  {
    run.events[p].DumpStep? && run.states[p].nums.dpc.DumpPrint?
  }

  /** Event k is the last step of a dump handler that made the load of event j
      while the last request was the one of call n: after printing it stores
      what that load found. */
  ghost predicate Completes(run: Run, j: nat, k: nat, n: nat)
    requires j < k < |run.events| && |run.states| == |run.events| + 1
  {
    && LoadsRequestOf(run, j, n) && AtWork(run, j, k)
    && (exists p: nat :: j < p < k && Prints(run, p))
    && run.events[k].DumpStep? && run.states[k].nums.dpc.DumpStore?
    && run.states[k + 1].nums.done == run.states[j].nums.requested
  }

  /** Only the dump handler moves itself and records what it loaded. */
  lemma DumpMovesItself(c: Config, s: State, e: Event)
    requires Enabled(s, e) && !e.DumpStep?
    ensures var n, n' := s.nums, Apply(c, s, e).nums;
      && n'.dumped == n.dumped
      && (Printing(n'.dpc) ==> n'.dpc == n.dpc && n'.dSerial == n.dSerial && n'.dInput == n.dInput)
  {
    hide HandlerLocals, NextInput, Age;
  }

  lemma {:induction false} PrintsWhatItLoaded(c: Config, run: Run, i: nat) returns (j: nat)
    requires run.Of(c) && i < |run.states| && Printing(run.states[i].nums.dpc)
    ensures j < i && Loads(run, j) && AtWork(run, j, i)
    ensures run.states[i].nums.dSerial > 0 ==> LoadsRequestOf(run, j, run.states[i].nums.dSerial)
    ensures run.states[i].nums.dInput == run.states[j].nums.requested
    ensures run.states[i].nums.dpc.DumpStore? ==> exists p: nat :: j < p < i && Prints(run, p)
  {
    RunsKeepInv(c, run, i - 1);
    assert run.Linked(c, i - 1);
    var s, e := run.states[i - 1], run.events[i - 1];
    if e.DumpStep? && s.nums.dpc.DumpLoad? {
      j := i - 1;
    } else {
      if !e.DumpStep? {
        DumpMovesItself(c, s, e);
      }
      assert e.DumpStep? ==> Prints(run, i - 1);
      hide Apply, Enabled, Inv, Prints;
      j := PrintsWhatItLoaded(c, run, i - 1);
      assert e.DumpStep? ==> Loads(run, j) && j < i - 1;
    }
  }

  /** Every dump handler that takes its last step has loaded `requested`, then
      printed, and now stores what it loaded. */
  lemma DumpHandlerStores(c: Config, run: Run, k: nat) returns (j: nat)
    requires run.Of(c) && k < |run.events| && run.events[k].DumpStep? && run.states[k].nums.dpc.DumpStore?
    ensures j < k && Loads(run, j) && AtWork(run, j, k)
    ensures exists p: nat :: j < p < k && Prints(run, p)
    ensures run.states[k + 1].nums.done == run.states[j].nums.requested
  {
    j := PrintsWhatItLoaded(c, run, k);
    assert run.Linked(c, k);
  }

  /** A dump counted for a call was made by a handler that loaded `requested`
      while the last request was that call's, and that has completed. */
  lemma {:induction false} DumpedWasLoaded(c: Config, run: Run, i: nat, n: nat) returns (j: nat, k: nat)
    requires run.Of(c) && i < |run.states| && n > 0
    requires n in run.states[i].nums.dumped
    ensures j < k < i && Completes(run, j, k, n)
  {
    assert run.Linked(c, i - 1);
    var s, e := run.states[i - 1], run.events[i - 1];
    if n in s.nums.dumped {
      j, k := DumpedWasLoaded(c, run, i - 1, n);
    } else {
      if !e.DumpStep? {
        DumpMovesItself(c, s, e);
      }
      k := i - 1;
      j := PrintsWhatItLoaded(c, run, k);
      assert run.states[k + 1].nums.done == run.states[k].nums.dInput;
    }
  }

  /** Event k is pthread_kill failing for call n. */
  ghost predicate KillFails(run: Run, k: nat, n: nat)
    requires k < |run.events| && |run.states| == |run.events| + 1
  {
    && run.events[k].HandlerStep? && !run.events[k].ok
    && run.states[k].h.pc.Kill? && run.states[k].th.serial == n
  }

  /** Only the alarm handler moves itself and records failures. */
  lemma HandlerMovesItself(c: Config, s: State, e: Event)
    requires Enabled(s, e) && !e.HandlerStep?
    ensures Apply(c, s, e).nums.killFailed == s.nums.killFailed
    ensures Apply(c, s, e).h.pc.StoreDone? ==>
              s.h.pc.StoreDone? && Apply(c, s, e).th.serial == s.th.serial
  {
    hide HandlerLocals, HandlerNumbers, NextInput, Age;
  }

  lemma EntersStoreDone(c: Config, s: State, slept: nat, ok: bool)
    requires HandlerNext(c, s, slept, ok).h.pc.StoreDone? && !s.h.pc.Out?
    ensures s.h.pc.Kill? && !ok
  {
    hide Age, HandlerNumbers;
  }

  lemma {:induction false} StoresAfterFailure(c: Config, run: Run, i: nat) returns (k: nat)
    requires run.Of(c) && i < |run.states| && run.states[i].h.pc.StoreDone?
    ensures k < i && KillFails(run, k, run.states[i].th.serial)
  {
    assert run.Linked(c, i - 1);
    hide HandlerNumbers, HoldLocals, Age;
    var s, e := run.states[i - 1], run.events[i - 1];
    if e.HandlerStep? {
      EntersStoreDone(c, s, e.slept, e.ok);
      k := i - 1;
    } else {
      HandlerMovesItself(c, s, e);
      hide Apply, Enabled;
      k := StoresAfterFailure(c, run, i - 1);
    }
  }

  lemma {:induction false} FailedToKill(c: Config, run: Run, i: nat, n: nat) returns (k: nat)
    requires run.Of(c) && i < |run.states| && n in run.states[i].nums.killFailed
    ensures k < i && KillFails(run, k, n)
  {
    assert run.Linked(c, i - 1);
    var s, e := run.states[i - 1], run.events[i - 1];
    if n in s.nums.killFailed {
      k := FailedToKill(c, run, i - 1, n);
    } else {
      if !e.HandlerStep? {
        HandlerMovesItself(c, s, e);
      }
      k := StoresAfterFailure(c, run, i - 1);
    }
  }

  /** Before state i, pthread_kill failed for call n, or a dump handler that
      loaded after its request has completed. */
  ghost predicate Answered(run: Run, i: nat, n: nat)
    requires i < |run.states| == |run.events| + 1
  {
    || (exists k: nat :: k < i && KillFails(run, k, n))
    || (exists j: nat, k: nat :: j < k < i && Completes(run, j, k, n))
  }

  lemma DoneIsAnswered(c: Config, run: Run, i: nat)
    requires run.Of(c) && i < |run.states| && run.states[i].nums.doneSerial > 0
    ensures Answered(run, i, run.states[i].nums.doneSerial)
  {
    RunsKeepInv(c, run, i);
    var n := run.states[i].nums.doneSerial;
    if n in run.states[i].nums.killFailed {
      var k := FailedToKill(c, run, i, n);
    } else {
      var j, k := DumpedWasLoaded(c, run, i, n);
    }
  }

  /** `done` matches the input in progress exactly when the last answer given is
      to a request made a multiple of 2^32 - 1 calls ago, this one among them. */
  lemma AnswerMatches(c: Config, run: Run, i: nat)
    requires run.Of(c) && i < |run.states|
    requires run.states[i].th.serial > 0 && !run.states[i].th.mpc.SkipZero?
    ensures var s := run.states[i];
      s.nums.done == s.nums.input <==>
      s.nums.doneSerial > 0 && (s.nums.doneSerial - s.th.serial) % (UINT_RANGE - 1) == 0
    ensures run.states[i].nums.doneSerial > 0 ==> Answered(run, i, run.states[i].nums.doneSerial)
  {
    RunsKeepInv(c, run, i);
    if run.states[i].nums.doneSerial > 0 {
      DoneIsAnswered(c, run, i);
    }
    hide Answered;
    SameNumber(run.states[i].nums.doneSerial, run.states[i].th.serial);
  }

  /** The dump of one input is not taken for that of another: unless the
      last answer is 2^32 - 1 calls old, `done == input` means that
      pthread_kill failed for this input, or that a dump handler which loaded
      `requested` after this input's request has completed. */
  lemma AnswerIsFresh(c: Config, run: Run, i: nat)
    requires run.Of(c) && i < |run.states|
    requires run.states[i].th.serial > 0 && !run.states[i].th.mpc.SkipZero?
    requires run.states[i].nums.done == run.states[i].nums.input
    requires run.states[i].th.serial - run.states[i].nums.doneSerial < UINT_RANGE - 1
    ensures Answered(run, i, run.states[i].th.serial)
  {
    RunsKeepInv(c, run, i);
    AnswerMatches(c, run, i);
    var s := run.states[i];
    var d, m := s.th.serial - s.nums.doneSerial, UINT_RANGE - 1;
    assert (-d) % m == 0 && 0 <= d < m;
    assert d == 0;
  }

  // ---------- suppression

  lemma SuppressedStep(c: Config, s: State, e: Event)
    requires CoreOk(s.th) && SuppressionOk(s) && Enabled(s, e) && s.finishing
    requires !(e.MainStep? && s.th.mpc.ClearFinishing?)
    ensures Apply(c, s, e).finishing && !Apply(c, s, e).h.pc.Chain? && Apply(c, s, e).th.serial == s.th.serial
  {
    hide HandlerNumbers, DumpNext, NextInput, Age;
    WhoMoves(c, s, e);
  }

  /** Once a held tick has seen its input finish, no tick is handed on until
      the main thread, out of its wait, clears `finishing`. */
  lemma {:induction false} SuppressedUntilCleared(c: Config, run: Run, i: nat, k: nat)
    requires run.Of(c) && i <= k < |run.states| && run.states[i].finishing
    requires forall m :: i <= m < k ==> !(run.events[m].MainStep? && run.states[m].th.mpc.ClearFinishing?)
    ensures run.states[k].finishing && !run.states[k].h.pc.Chain?
    ensures run.states[k].th.serial == run.states[i].th.serial
  {
    if i == k {
      RunsKeepInv(c, run, k);
    } else {
      SuppressedUntilCleared(c, run, i, k - 1);
      RunsKeepInv(c, run, k - 1);
      assert run.Linked(c, k - 1);
      SuppressedStep(c, run.states[k - 1], run.events[k - 1]);
    }
  }

  lemma DropsTick(c: Config, s: State, slept: nat, ok: bool)
    requires CoreOk(s.th) && SuppressionOk(s) && BranchOk(s.h) && !s.h.pc.Out? && !s.h.pc.Chain?
    requires var pc := HandlerNext(c, s, slept, ok).h.pc; pc.Out? || pc.LoadFinishing?
    ensures !s.th.mpc.Idle? && !s.th.running && s.th.ended == |s.th.begun| == s.th.serial
    ensures HandlerNext(c, s, slept, ok).finishing
  {
    hide Age, HandlerNumbers;
    assert s.h.pc.StoreFinishing? || (s.h.pc.LoadFinishing? && s.finishing);
    hide HandlerLocals;
  }

  /** A tick is dropped, at once or after being held, only if the job of the
      call in progress has returned: that of a hung input reaches libFuzzer. */
  lemma OnlyFinishedInputsDropTicks(c: Config, run: Run, i: nat)
    requires run.Of(c) && i < |run.events|
    requires run.events[i].HandlerStep? && !run.states[i].h.pc.Chain?
    requires run.states[i + 1].h.pc.Out? || run.states[i + 1].h.pc.LoadFinishing?
    ensures var t := run.states[i].th;
      && !t.mpc.Idle? && !t.running
      && t.ended == |t.begun| == t.serial
    ensures run.states[i + 1].finishing
  {
    assert run.Linked(c, i);
    RunsKeepInv(c, run, i);
    DropsTick(c, run.states[i], run.events[i].slept, run.events[i].ok);
  }

  // ---------- signals

  /** Event m is pthread_kill sending the dump signal (line 431). */
  ghost predicate Sends(run: Run, m: nat)
    requires m < |run.events| && |run.states| == |run.events| + 1
  {
    run.events[m].HandlerStep? && run.states[m].h.pc.Kill? && run.events[m].ok
  }

  /** Dump signals sent, less those delivered, since the last fork. */
  ghost function Outstanding(run: Run, i: nat): int
    requires i < |run.states| == |run.events| + 1
  {
    if i == 0 || run.events[i - 1].Fork? then 0
    else
      Outstanding(run, i - 1)
      + (if Sends(run, i - 1) then 1 else 0) - (if run.events[i - 1].DumpEnter? then 1 else 0)
  }

  lemma SignalStep(c: Config, s: State, e: Event)
    requires Enabled(s, e)
    ensures Apply(c, s, e).nums.pendingDumps ==
            if e.Fork? then 0
            else s.nums.pendingDumps
                 + (if e.HandlerStep? && s.h.pc.Kill? && e.ok then 1 else 0) - (if e.DumpEnter? then 1 else 0)
  {
    hide HandlerLocals, NextInput, MainThreads, RThreads, Age;
  }

  /** A dump handler runs for each signal sent, and for no other reason. */
  lemma {:induction false} SignalsAreConserved(c: Config, run: Run, i: nat)
    requires run.Of(c) && i < |run.states|
    ensures run.states[i].nums.pendingDumps == Outstanding(run, i)
  {
    if i > 0 {
      SignalsAreConserved(c, run, i - 1);
      assert run.Linked(c, i - 1);
      SignalStep(c, run.states[i - 1], run.events[i - 1]);
    }
  }

  lemma RequestGoesOn(c: Config, s: State, e: Event)
    requires Enabled(s, e) && e.HandlerStep?
    ensures s.h.pc.StoreRequested? ==> Apply(c, s, e).h.pc.Kill? && Apply(c, s, e).nums.requested == s.h.input
    ensures s.h.pc.Kill? ==> Apply(c, s, e).h.pc == if e.ok then PollDone else StoreDone
    ensures s.h.pc.Kill? ==> Apply(c, s, e).h.input == s.h.input && Apply(c, s, e).nums.input == s.nums.input
    ensures s.h.pc.StoreDone? ==> Apply(c, s, e).nums.done == s.h.input && Apply(c, s, e).nums.input == s.nums.input
  {
    hide HoldLocals, Age;
  }

  /** The step after a request is to call pthread_kill ... */
  lemma RequestIsSent(c: Config, run: Run, k: nat, a: nat, b: nat)
    requires run.Of(c) && InRun(run, k, b) && k <= a && LastStep(run, a, b) && b < |run.events|
    requires Asks(run, a, run.states[a].th.serial) && run.events[b].HandlerStep?
    ensures run.states[b].h.pc.Kill?
  {
    PcSince(c, run, k, a, b);
    assert run.Linked(c, a);
    RequestGoesOn(c, run.states[a], run.events[a]);
    hide Apply, InRun, LastStep;
  }

  /** ... and the step after its failure stores the answer itself. */
  lemma FailureIsAnswered(c: Config, run: Run, k: nat, b: nat, d: nat)
    requires run.Of(c) && InRun(run, k, d) && k <= b && LastStep(run, b, d) && d < |run.events|
    requires KillFails(run, b, run.states[b].th.serial) && run.events[d].HandlerStep?
    ensures run.states[d].h.pc.StoreDone?
    ensures run.states[d + 1].nums.done == run.states[d + 1].nums.input
  {
    PcSince(c, run, k, b, d);
    assert run.Linked(c, b);
    assert run.Linked(c, d);
    RequestGoesOn(c, run.states[b], run.events[b]);
    RequestGoesOn(c, run.states[d], run.events[d]);
    RunsKeepInv(c, run, d);
    assert run.states[d].h.input == run.states[d].nums.input;
    hide Apply, InRun, LastStep, Inv;
  }

  // ---------- termination of the handler

  /** A handler run whose hold sleeps last poll_ns each ends: it holds for at
      most ceil(timeout / poll) sleeps, waits for at most 5000 more, takes a
      bounded number of steps in all, and can always take the next. */
  lemma HandlerEnds(c: Config, run: Run, k: nat, i: nat)
    requires run.Of(c) && InRun(run, k, i) && c.pollNs > 0
    requires forall m :: k <= m < i ==> !CutShort(c, run, m)
    ensures Steps(run, HoldSleeps, k, i) <= HoldBound(c)
    ensures Steps(run, WaitSleeps, k, i) <= 5000
    ensures Steps(run, AnyStep, k, i) < HandlerBound(HoldBound(c))
    ensures forall slept, ok :: Enabled(run.states[i], HandlerStep(slept, ok))
  {
    RunsKeepInv(c, run, i);
    CountersCount(c, run, k, i);
    FlagsTell(c, run, k, i);
    NotOutInRun(c, run, k, i);
    hide InRun, CutShort, ThreadsOk, WakeupsOk, LogOk, ClocksOk, NumbersOk, RequestsOk, ReadsOk, RequestOk;
  }

  lemma HoldRunEnds(c: Config, s: State, armedAge: int, age: int, slept: nat)
    requires !s.h.pc.Out? && !InReport(s.h.pc)
    ensures var pc := HoldLocals(c, s, armedAge, age, slept).pc;
      pc.Out? || pc.LoadFinishing? ==> (pc.LoadFinishing? <==> s.h.pending)
  {
  }

  lemma ReportRunEnds(s: State, ok: bool)
    requires InReport(s.h.pc)
    ensures var pc := ReportLocals(s, ok).pc;
      pc.Out? || pc.LoadFinishing? ==> (pc.LoadFinishing? <==> s.h.pending)
  {
  }

  lemma EndsRun(c: Config, s: State, e: Event)
    requires Enabled(s, e) && !s.h.pc.Out?
    requires var pc := Apply(c, s, e).h.pc; pc.Out? || (pc.LoadFinishing? && e.HandlerStep?)
    ensures Apply(c, s, e).h.pc.LoadFinishing? <==> s.h.pending
  {
    hide HandlerNumbers, Age, HoldLocals, ReportLocals, EnterHandler;
    if !e.HandlerStep? {
      OthersLeaveHandler(c, s, e);
      hide Apply;
    } else if InReport(s.h.pc) {
      ReportRunEnds(s, e.ok);
    } else {
      HoldRunEnds(c, s, Age(s, s.armed), Age(s, s.started), e.slept);
    }
  }

  /** A tick that comes while a handler runs is not lost: the handler begins
      again as it returns. */
  lemma WaitingTickIsTakenUp(c: Config, run: Run, k: nat, i: nat)
    requires run.Of(c) && InRun(run, k, i) && i < |run.events| && Boundary(run, i)
    ensures run.states[i + 1].h.pc.LoadFinishing? <==> exists m :: k <= m < i && run.events[m].Raise?
  {
    NotOutInRun(c, run, k, i);
    FlagsTell(c, run, k, i);
    assert run.Linked(c, i);
    EndsRun(c, run.states[i], run.events[i]);
    hide InRun, Apply;
  }
}
