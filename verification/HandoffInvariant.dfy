/** What every step of the handoff keeps. */
module HandoffInvariant {
  import opened Clock
  import opened Handoff

  // ---------- input numbers

  /** The number carried by the n-th call: 1, 2, ..., 2^32 - 1, 1, ... */
  function Num(n: nat): (r: nat)
    ensures r < UINT_RANGE && (r == 0 <==> n == 0)
  {
    if n == 0 then 0 else (n - 1) % (UINT_RANGE - 1) + 1
  }

  lemma NumNext(n: nat)
    ensures Num(n + 1) == if Num(n) == UINT_RANGE - 1 then 1 else Num(n) + 1
  {
  }

  /** No call is numbered 0, and two calls share a number exactly when they are
      a multiple of 2^32 - 1 apart. */
  lemma SameNumber(a: nat, b: nat)
    requires b > 0
    ensures Num(b) != 0
    ensures Num(a) == Num(b) <==> a > 0 && (a - b) % 0xFFFF_FFFF == 0
  {
    if a > 0 {
      var m := UINT_RANGE - 1;
      var qa, qb := (a - 1) / m, (b - 1) / m;
      assert a - b == (qa - qb) * m + ((a - 1) % m - (b - 1) % m);
      if Num(a) == Num(b) {
        assert (a - b) % m == ((qa - qb) * m) % m == 0;
      } else if (a - b) % m == 0 {
        assert false;
      }
    }
  }

  // ---------- the two threads

  predicate MainHoldsLock(m: MainPc) { m.Submit? || m.WakeR? || m.TestJob? || m.Unlock? }

  predicate RHoldsLock(r: RPc) { r.RTestJob? || r.RTakeJob? || r.RUnlock? || r.RClearJob? || r.RWakeMain? }

  /** R has a job in hand. */
  predicate Working(r: RPc) {
    || r.RUnlock? || r.RReadClock? || r.RRaiseRunning? || r.RRunning? || r.RLowerRunning?
    || r.RLockToFinish? || r.RClearJob?
  }

  predicate InWait(m: MainPc) { m.TestJob? || m.Waiting? || m.Relock? }

  predicate BeforeSubmit(m: MainPc) {
    m.Create? || m.MarkStarted? || m.NumberInput? || m.SkipZero? || m.LockToSubmit? || m.Submit?
  }

  predicate AfterNumber(m: MainPc) { !m.Idle? && !m.Create? && !m.MarkStarted? && !m.NumberInput? }

  predicate AfterWait(m: MainPc) { m.Unlock? || m.ClearFinishing? || m.Arm? }

  /** The job of the call in progress has returned. */
  predicate JobOver(t: Threads) {
    || AfterWait(t.mpc)
    || (InWait(t.mpc) && (t.job.NoJob? || t.rpc.RLowerRunning? || t.rpc.RLockToFinish? || t.rpc.RClearJob?))
  }

  predicate ThreadsOk(t: Threads) {
    && (t.owner.ByMain? <==> MainHoldsLock(t.mpc))
    && (t.owner.ByR? <==> RHoldsLock(t.rpc))
    && (t.mpc.Create? ==> t.rpc.Absent?)
    && (t.rpc.Absent? ==> !t.threadStarted && (t.mpc.Idle? || t.mpc.Create?))
    && (!t.rpc.Absent? ==> t.threadStarted || t.mpc.MarkStarted?)
    && (t.mpc.MarkStarted? ==> !t.threadStarted)
    && (!t.job.NoJob? ==> t.job == TheJob(t.serial) && (t.mpc.WakeR? || InWait(t.mpc)))
    && (t.mpc.WakeR? ==> !t.job.NoJob?)
    && (t.rpc.RTakeJob? || Working(t.rpc) ==> !t.job.NoJob? && InWait(t.mpc))
    && (Working(t.rpc) ==> t.taken == t.job)
    && (t.rpc.RWakeMain? ==> t.job.NoJob? && InWait(t.mpc))
    && (t.running <==> t.rpc.RRunning? || t.rpc.RLowerRunning?)
  }

  /** No wakeup is lost, and none is left over. */
  predicate WakeupsOk(t: Threads) {
    && (t.rpc.RWaiting? && !t.rpc.woken ==> t.job.NoJob? || t.mpc.WakeR?)
    && (t.rpc.RWaiting? && t.rpc.woken ==> !t.job.NoJob?)
    && (t.mpc.Waiting? && !t.mpc.woken ==> !t.job.NoJob? || t.rpc.RWakeMain?)
    && (t.mpc.Waiting? && t.mpc.woken ==> t.job.NoJob?)
  }

  /** Jobs are entered once each, in the order of the calls. */
  predicate LogOk(t: Threads) {
    && (forall i :: 0 <= i < |t.begun| ==> t.begun[i] == i + 1)
    && |t.begun| == t.ended + (if t.rpc.RRunning? then 1 else 0)
    && (AfterNumber(t.mpc) ==> t.serial > 0)
    && t.ended == (if AfterNumber(t.mpc) && !JobOver(t) then t.serial - 1 else t.serial)
  }

  predicate CoreOk(t: Threads) { ThreadsOk(t) && WakeupsOk(t) && LogOk(t) }

  // ---------- clocks

  /** R has read the clock for the call in progress. */
  predicate Taken(t: Threads) {
    t.rpc.RRaiseRunning? || (AfterNumber(t.mpc) && |t.begun| == t.serial)
  }

  predicate ClocksOk(s: State) {
    && s.started <= s.now && s.armed <= s.now && s.unitStart <= s.now
    && (s.unit.Ready? ==> s.th.mpc.Idle? && s.armed <= s.unitStart)
    && (s.unit.InCall? ==> !s.th.mpc.Idle? && s.armed <= s.unitStart)
    && (s.unit.Returned? ==> s.th.mpc.Idle?)
    && (s.unit.InCall? && Taken(s.th) ==> s.unitStart <= s.started)
  }

  // ---------- numbers in the alarm fields

  predicate InputOk(t: Threads, n: Numbers) {
    if t.mpc.SkipZero? then n.input == 0 && Num(t.serial) == 1 else n.input == Num(t.serial)
  }

  /** Requests and answers carry the numbers of calls made so far. */
  predicate AnswersOk(serial: nat, n: Numbers) {
    && n.requested == Num(n.reqSerial)
    && n.done == Num(n.doneSerial)
    && n.doneSerial <= n.reqSerial <= serial
    && (n.dpc.DumpPrint? || n.dpc.DumpStore? ==> n.dInput == Num(n.dSerial) && n.dSerial <= n.reqSerial)
    && (n.doneSerial == 0 || n.doneSerial in n.dumped || n.doneSerial in n.killFailed)
  }

  predicate NumbersOk(t: Threads, n: Numbers) {
    InputOk(t, n) && AnswersOk(t.serial, n) && (t.rpc.Absent? ==> n.dpc.DumpOut?)
  }

  predicate RequestsOk(c: Config, n: Numbers) {
    && (forall i :: 0 <= i < |n.requests| ==> n.requests[i].seenAt - n.requests[i].startedAt >= c.timeout * NS)
    && (forall i, j :: 0 <= i < j < |n.requests| ==> n.requests[i].serial < n.requests[j].serial)
    && n.reqSerial == (if n.requests == [] then 0 else n.requests[|n.requests| - 1].serial)
  }

  // ---------- the alarm handler

  predicate Holding(h: HandlerPc) { h.HoldReadClock? || h.HoldLoadRunning? || h.StoreFinishing? || h.HoldSleep? }

  predicate Polling(h: HandlerPc) { h.PollDone? || h.PollRunning? || h.PollSleep? }

  predicate Dumping(h: HandlerPc) {
    h.LoadInput? || h.LoadRequested? || h.StoreRequested? || h.Kill? || h.StoreDone? || Polling(h)
  }

  /** The handler is past the decision to dump, up to handing the tick on. */
  predicate Decided(h: Handler) { Dumping(h.pc) || (h.pc.Chain? && h.dumpBranch) }

  /** A held tick that saw its input finish is suppressing ticks. */
  predicate SuppressionOk(s: State) {
    && (s.finishing ==>
          && (InWait(s.th.mpc) || s.th.mpc.Unlock? || s.th.mpc.ClearFinishing?)
          && |s.th.begun| == s.th.serial && !s.th.running
          && (s.h.pc.Out? || s.h.pc.LoadFinishing?))
    && (s.h.pc.Out? ==> !s.h.pending)
    && (s.h.pc.StoreFinishing? ==> !s.th.running)
    // once running was read, the main thread is frozen inside its wait
    && (!s.h.pc.Out? && s.h.sawRunning ==> InWait(s.th.mpc) && |s.th.begun| == s.th.serial)
  }

  predicate BranchOk(h: Handler) {
    && (h.pc.LoadFinishing? || h.pc.LoadRunning? ==> !h.sawRunning && !h.dumpBranch)
    && (h.pc.ReadArmed? ==> h.sawRunning && !h.dumpBranch)
    && (Holding(h.pc) || Dumping(h.pc) ==> h.sawRunning && h.dumpBranch)
    && (h.pc.Chain? && h.dumpBranch ==> h.sawRunning)
  }

  /** What the clock reads of this handler run have established. */
  predicate ReadsOk(c: Config, s: State) {
    && (s.h.pc.Chain? && s.h.sawRunning && !s.h.dumpBranch ==> s.h.armedReadAt - s.armed < (c.timeout - 1) * NS)
    && (!s.h.pc.Out? && s.h.dumpBranch ==> s.h.armedReadAt - s.armed >= (c.timeout - 1) * NS)
    && (s.h.pc.HoldLoadRunning? || s.h.pc.HoldSleep? ==>
          s.h.age == (s.h.ageAt - s.started) / NS && s.h.ageAt <= s.now)
    && (s.h.pc.HoldSleep? ==> s.h.age < c.timeout)
    && (Decided(s.h) ==> s.h.seenAt - s.started >= c.timeout * NS && s.h.seenAt <= s.now)
  }

  /** The dump request is for the input in progress. */
  predicate RequestOk(s: State) {
    && (Dumping(s.h.pc) && !s.h.pc.LoadInput? ==> s.h.input == s.nums.input)
    && (s.h.pc.StoreRequested? ==> s.nums.requested != s.h.input)
    && (s.h.pc.Kill? || s.h.pc.StoreDone? ==> s.nums.reqSerial == s.th.serial)
    && (s.h.pc.Kill? || s.h.pc.StoreDone? || Polling(s.h.pc) || (s.h.pc.Chain? && s.h.dumpBranch) ==>
          s.nums.requested == s.nums.input)
  }

  // ---------- how long a handler run lasts

  /** Sleeps of poll_ns before an input is sure to be `timeout` seconds old. */
  function HoldBound(c: Config): nat {
    if c.timeout <= 0 || c.pollNs == 0 then 0 else (c.timeout * NS + c.pollNs - 1) / c.pollNs
  }

  /** Steps of a handler run that sleeps at most `bound` times in the hold. */
  function HandlerBound(bound: nat): nat { 3 * bound + 3 * MAX_POLLS + 14 }

  /** The place of a program counter on the way out of the handler. */
  function Distance(h: HandlerPc): nat {
    match h
    case Out => 0
    case LoadFinishing => 14
    case LoadRunning => 13
    case ReadArmed => 12
    case HoldReadClock => 11
    case HoldLoadRunning => 10
    case HoldSleep => 9
    case LoadInput => 8
    case LoadRequested => 7
    case StoreRequested => 6
    case Kill => 5
    case StoreDone => 4
    case PollDone => 3
    case PollRunning => 2
    case PollSleep => 1
    case StoreFinishing => 9
    case Chain => 1
  }

  /** Steps left in the handler run, at most. */
  function StepsLeft(bound: nat, h: Handler): int {
    Distance(h.pc)
    + (if Distance(h.pc) <= 8 then 0 else 3 * (bound - h.holds))
    + (if h.pc.Out? || h.pc.StoreFinishing? || h.pc.Chain? then 0 else 3 * (MAX_POLLS - h.polls))
  }

  predicate PollsOk(h: Handler) {
    && h.polls <= MAX_POLLS
    && (h.pc.PollRunning? || h.pc.PollSleep? ==> h.polls < MAX_POLLS)
    && (h.pc.LoadFinishing? || h.pc.LoadRunning? || h.pc.ReadArmed? ==> h.holds == h.slept == 0)
    && (h.pc.LoadFinishing? || h.pc.LoadRunning? || h.pc.ReadArmed? || Holding(h.pc) ==> h.polls == 0)
  }

  predicate StepsOk(c: Config, bound: nat, h: Handler) {
    !h.pc.Out? && !h.shortSleep && c.pollNs > 0 ==>
      h.holds <= bound && h.steps + StepsLeft(bound, h) <= HandlerBound(bound)
  }

  /** The input has aged by the sum of the hold's sleeps ... */
  predicate AgeOk(h: Handler, started: int, now: int) {
    && (h.pc.HoldReadClock? ==> started + h.slept <= now)
    && (h.pc.HoldLoadRunning? || h.pc.HoldSleep? ==> started + h.slept <= h.ageAt <= now)
  }

  /** ... each of which lasted poll_ns unless cut short. */
  predicate SleptOk(c: Config, h: Handler) {
    h.pc.Out? || h.shortSleep || h.slept >= h.holds * c.pollNs
  }

  predicate DurationOk(c: Config, s: State) {
    PollsOk(s.h) && StepsOk(c, HoldBound(c), s.h) && AgeOk(s.h, s.started, s.now) && SleptOk(c, s.h)
  }

  predicate HandlerOk(c: Config, s: State) {
    SuppressionOk(s) && BranchOk(s.h) && ReadsOk(c, s) && RequestOk(s) && DurationOk(c, s)
  }

  // ---------- together

  predicate Inv(c: Config, s: State) {
    CoreOk(s.th) && ClocksOk(s) && NumbersOk(s.th, s.nums) && RequestsOk(c, s.nums) && HandlerOk(c, s)
  }

  lemma InitInv(c: Config)
    ensures Inv(c, INIT)
  {
  }

  // ---------- the two threads keep it

  lemma MainKeepsThreads(t: Threads, wrapped: bool)
    requires ThreadsOk(t) && MainCanMove(t)
    ensures ThreadsOk(MainThreads(t, wrapped))
  {
  }

  lemma MainKeepsWakeups(t: Threads, wrapped: bool)
    requires ThreadsOk(t) && WakeupsOk(t) && MainCanMove(t)
    ensures WakeupsOk(MainThreads(t, wrapped))
  {
  }

  lemma MainKeepsLog(t: Threads, wrapped: bool)
    requires ThreadsOk(t) && LogOk(t) && MainCanMove(t)
    ensures LogOk(MainThreads(t, wrapped))
  {
  }

  lemma RKeepsThreads(t: Threads)
    requires ThreadsOk(t) && RCanMove(t)
    ensures ThreadsOk(RThreads(t))
  {
  }

  lemma RKeepsWakeups(t: Threads)
    requires ThreadsOk(t) && WakeupsOk(t) && RCanMove(t)
    ensures WakeupsOk(RThreads(t))
  {
  }

  lemma RKeepsLog(t: Threads)
    requires ThreadsOk(t) && LogOk(t) && RCanMove(t)
    ensures LogOk(RThreads(t))
  {
  }

  lemma CoreKeptByOthers(c: Config, s: State, e: Event)
    requires CoreOk(s.th) && Enabled(s, e) && !e.MainStep? && !e.RStep?
    ensures CoreOk(Apply(c, s, e).th)
  {
  }

  lemma CoreKept(c: Config, s: State, e: Event)
    requires CoreOk(s.th) && Enabled(s, e)
    ensures CoreOk(Apply(c, s, e).th)
  {
    match e
    case MainStep =>
      var wrapped := NextInput(s.nums) == 0;
      MainKeepsThreads(s.th, wrapped);
      MainKeepsWakeups(s.th, wrapped);
      MainKeepsLog(s.th, wrapped);
      hide ThreadsOk, WakeupsOk, LogOk, MainThreads;
    case RStep =>
      RKeepsThreads(s.th);
      RKeepsWakeups(s.th);
      RKeepsLog(s.th);
      hide ThreadsOk, WakeupsOk, LogOk, RThreads;
    case _ => CoreKeptByOthers(c, s, e);
  }

  // ---------- clocks and numbers

  lemma ClocksKeptByMain(s: State)
    requires ClocksOk(s) && CoreOk(s.th) && MainCanMove(s.th)
    ensures ClocksOk(MainNext(s))
  {
    hide NextInput;
  }

  lemma ClocksKeptByR(s: State)
    requires ClocksOk(s) && CoreOk(s.th) && RCanMove(s.th)
    ensures ClocksOk(RNext(s))
  {
  }

  lemma ClocksKept(c: Config, s: State, e: Event)
    requires ClocksOk(s) && CoreOk(s.th) && Enabled(s, e)
    ensures ClocksOk(Apply(c, s, e))
  {
    hide HandlerLocals, HandlerNumbers, DumpNext, NextInput, Age;
    if e.MainStep? {
      ClocksKeptByMain(s);
    } else if e.RStep? {
      ClocksKeptByR(s);
    }
  }

  /** Adding one, and one more where it wraps, gives the next number. */
  lemma NextNumber(n: nat, nums: Numbers)
    ensures nums.input == Num(n) ==>
              Num(n + 1) == if NextInput(nums) == 0 then 1 else NextInput(nums)
    ensures nums.input == 0 ==> NextInput(nums) == 1
  {
    NumNext(n);
  }

  lemma MainNumbers(t: Threads, wrapped: bool)
    ensures MainThreads(t, wrapped).serial == t.serial + (if t.mpc.NumberInput? then 1 else 0)
    ensures MainThreads(t, wrapped).mpc.SkipZero? <==> t.mpc.NumberInput? && wrapped
  {
  }

  lemma MainKeepsInput(s: State)
    requires InputOk(s.th, s.nums) && MainCanMove(s.th)
    ensures InputOk(MainNext(s).th, MainNext(s).nums)
  {
    hide Num, NextInput, MainThreads;
    NextNumber(s.th.serial, s.nums);
    MainNumbers(s.th, NextInput(s.nums) == 0);
  }

  lemma MainKeepsAnswers(s: State)
    requires AnswersOk(s.th.serial, s.nums)
    ensures AnswersOk(MainNext(s).th.serial, MainNext(s).nums)
  {
  }

  lemma HandlerKeepsAnswers(s: State, ok: bool)
    requires AnswersOk(s.th.serial, s.nums) && s.th.serial > 0
    requires s.h.pc.StoreRequested? || s.h.pc.StoreDone? ==> s.h.input == Num(s.th.serial)
    requires s.h.pc.StoreDone? ==> s.nums.reqSerial == s.th.serial
    ensures AnswersOk(s.th.serial, HandlerNumbers(s, ok))
  {
  }

  lemma DumpKeepsAnswers(serial: nat, n: Numbers)
    requires AnswersOk(serial, n)
    ensures AnswersOk(serial, DumpNext(n))
  {
  }

  lemma MainBringsR(s: State)
    ensures MainNext(s).th.rpc.Absent? ==> s.th.rpc.Absent?
    ensures MainNext(s).nums.dpc == s.nums.dpc
  {
  }

  lemma NumbersKeptByHandler(c: Config, s: State, slept: nat, ok: bool)
    requires CoreOk(s.th) && NumbersOk(s.th, s.nums) && RequestOk(s) && SuppressionOk(s) && BranchOk(s.h)
    requires !s.h.pc.Out?
    ensures NumbersOk(HandlerNext(c, s, slept, ok).th, HandlerNext(c, s, slept, ok).nums)
  {
    hide HandlerLocals, Age;
    if s.h.pc.StoreRequested? || s.h.pc.StoreDone? {
      HandlerKeepsAnswers(s, ok);
    }
  }

  lemma NumbersKeptByOthers(c: Config, s: State, e: Event)
    requires CoreOk(s.th) && NumbersOk(s.th, s.nums) && Enabled(s, e)
    requires !e.MainStep? && !e.HandlerStep? && !e.DumpStep?
    ensures NumbersOk(Apply(c, s, e).th, Apply(c, s, e).nums)
  {
  }

  lemma NumbersKept(c: Config, s: State, e: Event)
    requires CoreOk(s.th) && NumbersOk(s.th, s.nums) && RequestOk(s) && SuppressionOk(s) && BranchOk(s.h)
    requires Enabled(s, e)
    ensures NumbersOk(Apply(c, s, e).th, Apply(c, s, e).nums)
  {
    match e
    case MainStep =>
      MainKeepsInput(s);
      MainKeepsAnswers(s);
      MainBringsR(s);
    case HandlerStep(slept, ok) => NumbersKeptByHandler(c, s, slept, ok);
    case DumpStep => DumpKeepsAnswers(s.th.serial, s.nums);
    case _ => NumbersKeptByOthers(c, s, e);
  }

  lemma RequestsKeptByHandler(c: Config, s: State, ok: bool)
    requires NumbersOk(s.th, s.nums) && RequestsOk(c, s.nums) && ReadsOk(c, s) && RequestOk(s)
    requires SuppressionOk(s) && BranchOk(s.h)
    ensures RequestsOk(c, HandlerNumbers(s, ok))
  {
  }

  /** Only the alarm handler makes requests. */
  lemma OthersMakeNoRequest(c: Config, s: State, e: Event)
    requires Enabled(s, e) && !e.HandlerStep?
    ensures Apply(c, s, e).nums.requests == s.nums.requests
    ensures Apply(c, s, e).nums.reqSerial == s.nums.reqSerial
  {
  }

  lemma RequestsKept(c: Config, s: State, e: Event)
    requires NumbersOk(s.th, s.nums) && RequestsOk(c, s.nums) && ReadsOk(c, s) && RequestOk(s)
    requires SuppressionOk(s) && BranchOk(s.h) && Enabled(s, e)
    ensures RequestsOk(c, Apply(c, s, e).nums)
  {
    if e.HandlerStep? {
      RequestsKeptByHandler(c, s, e.ok);
    } else {
      OthersMakeNoRequest(c, s, e);
    }
  }

  // ---------- the alarm handler keeps it

  lemma SuppressionKeptByHandler(c: Config, s: State, slept: nat, ok: bool)
    requires CoreOk(s.th) && SuppressionOk(s) && BranchOk(s.h) && !s.h.pc.Out?
    ensures SuppressionOk(HandlerNext(c, s, slept, ok))
  {
    hide HandlerNumbers, Age;
  }

  lemma SuppressionKeptByOthers(c: Config, s: State, e: Event)
    requires CoreOk(s.th) && SuppressionOk(s) && BranchOk(s.h) && Enabled(s, e) && !e.HandlerStep?
    ensures SuppressionOk(Apply(c, s, e))
  {
    hide NextInput, DumpNext;
  }

  lemma SuppressionKept(c: Config, s: State, e: Event)
    requires CoreOk(s.th) && SuppressionOk(s) && BranchOk(s.h) && Enabled(s, e)
    ensures SuppressionOk(Apply(c, s, e))
  {
    if e.HandlerStep? {
      SuppressionKeptByHandler(c, s, e.slept, e.ok);
    } else {
      SuppressionKeptByOthers(c, s, e);
    }
  }

  lemma BranchKeptInHold(c: Config, s: State, armedAge: int, age: int, slept: nat)
    requires BranchOk(s.h) && Distance(s.h.pc) > 8
    ensures BranchOk(HoldLocals(c, s, armedAge, age, slept))
  {
  }

  lemma BranchKeptInReport(s: State, ok: bool)
    requires BranchOk(s.h) && InReport(s.h.pc)
    ensures BranchOk(ReportLocals(s, ok))
  {
  }

  lemma BranchKept(c: Config, s: State, e: Event)
    requires BranchOk(s.h) && Enabled(s, e)
    ensures BranchOk(Apply(c, s, e).h)
  {
    if e.HandlerStep? {
      if InReport(s.h.pc) {
        BranchKeptInReport(s, e.ok);
      } else {
        BranchKeptInHold(c, s, Age(s, s.armed), Age(s, s.started), e.slept);
      }
      hide BranchOk, Age, HoldLocals, ReportLocals, HandlerNumbers;
    }
  }

  lemma ReadsKeptInEntry(c: Config, s: State, slept: nat, ok: bool)
    requires BranchOk(s.h) && Distance(s.h.pc) > 11
    ensures ReadsOk(c, HandlerNext(c, s, slept, ok))
  {
    hide HandlerNumbers, SecondsSince;
    AgeIsElapsedFloor(s.now, s.armed, c.timeout - 1);
  }

  lemma ReadsKeptInHold(c: Config, s: State, slept: nat, ok: bool)
    requires ReadsOk(c, s) && BranchOk(s.h) && 8 < Distance(s.h.pc) <= 11
    ensures ReadsOk(c, HandlerNext(c, s, slept, ok))
  {
    hide HandlerNumbers, SecondsSince;
    AgeIsElapsedFloor(s.now, s.started, c.timeout);
  }

  lemma ReadsKeptInReport(c: Config, s: State, slept: nat, ok: bool)
    requires ClocksOk(s) && BranchOk(s.h) && ReadsOk(c, s) && InReport(s.h.pc)
    ensures ReadsOk(c, HandlerNext(c, s, slept, ok))
  {
    hide HandlerNumbers, Age;
  }

  lemma RequestKeptInHold(c: Config, s: State, slept: nat, ok: bool)
    requires RequestOk(s) && BranchOk(s.h) && Distance(s.h.pc) > 8
    ensures RequestOk(HandlerNext(c, s, slept, ok))
  {
    hide Age, HandlerNumbers;
  }

  lemma RequestKeptInReport(c: Config, s: State, slept: nat, ok: bool)
    requires RequestOk(s) && BranchOk(s.h) && InReport(s.h.pc)
    ensures RequestOk(HandlerNext(c, s, slept, ok))
  {
    hide Age;
  }

  lemma ReadsKeptByOthers(c: Config, s: State, e: Event)
    requires CoreOk(s.th) && SuppressionOk(s) && BranchOk(s.h) && ReadsOk(c, s) && RequestOk(s)
    requires Enabled(s, e) && !e.HandlerStep?
    ensures ReadsOk(c, Apply(c, s, e)) && RequestOk(Apply(c, s, e))
  {
  }

  lemma ReadsKept(c: Config, s: State, e: Event)
    requires CoreOk(s.th) && ClocksOk(s) && HandlerOk(c, s) && Enabled(s, e)
    ensures ReadsOk(c, Apply(c, s, e)) && RequestOk(Apply(c, s, e))
  {
    match e
    case HandlerStep(slept, ok) =>
      if InReport(s.h.pc) {
        ReadsKeptInReport(c, s, slept, ok);
        RequestKeptInReport(c, s, slept, ok);
      } else {
        if Distance(s.h.pc) > 11 {
          ReadsKeptInEntry(c, s, slept, ok);
        } else {
          ReadsKeptInHold(c, s, slept, ok);
        }
        RequestKeptInHold(c, s, slept, ok);
      }
      hide ReadsOk, RequestOk, HandlerNext;
    case _ => ReadsKeptByOthers(c, s, e);
  }

  // ---------- how long it lasts

  lemma HoldFits(c: Config, s: State)
    requires c.pollNs > 0 && s.h.slept >= s.h.holds * c.pollNs && s.started + s.h.slept <= s.h.ageAt
    requires s.h.ageAt - s.started < c.timeout * NS
    ensures s.h.holds < HoldBound(c)
  {
    var t, p, h := c.timeout * NS, c.pollNs, s.h.holds;
    assert 0 <= h * p < t;
    var q := (t + p - 1) / p;
    assert t + p - 1 == q * p + (t + p - 1) % p;
    assert h * p < q * p;
    assert (q - h) * p > 0;
  }

  lemma PollsKeptInHold(c: Config, s: State, armedAge: int, age: int, slept: nat)
    requires PollsOk(s.h) && BranchOk(s.h) && Distance(s.h.pc) > 8
    ensures PollsOk(HoldLocals(c, s, armedAge, age, slept))
  {
  }

  lemma PollsKeptInReport(s: State, ok: bool)
    requires PollsOk(s.h) && InReport(s.h.pc)
    ensures PollsOk(ReportLocals(s, ok))
  {
  }

  lemma AgeKeptInHold(c: Config, s: State, armedAge: int, age: int, slept: nat)
    requires AgeOk(s.h, s.started, s.now) && PollsOk(s.h) && s.started <= s.now && Distance(s.h.pc) > 8
    ensures AgeOk(HoldLocals(c, s, armedAge, age, slept), s.started,
                  if s.h.pc.HoldSleep? then s.now + slept else s.now)
  {
  }

  lemma AgeKeptInReport(s: State, ok: bool, now: int)
    requires InReport(s.h.pc)
    ensures AgeOk(ReportLocals(s, ok), s.started, now)
  {
  }

  lemma OneMoreHold(holds: nat, pollNs: nat)
    ensures (holds + 1) * pollNs == holds * pollNs + pollNs
  {
  }

  lemma SleptKeptInHold(c: Config, s: State, armedAge: int, age: int, slept: nat)
    requires SleptOk(c, s.h)
    ensures SleptOk(c, HoldLocals(c, s, armedAge, age, slept))
  {
    OneMoreHold(s.h.holds, c.pollNs);
  }

  lemma SleptKeptInReport(c: Config, s: State, ok: bool)
    requires SleptOk(c, s.h)
    ensures SleptOk(c, ReportLocals(s, ok))
  {
  }

  lemma StepsKeptInEntry(c: Config, bound: nat, s: State, armedAge: int, age: int, slept: nat)
    requires StepsOk(c, bound, s.h) && PollsOk(s.h) && Distance(s.h.pc) > 11
    ensures StepsOk(c, bound, HoldLocals(c, s, armedAge, age, slept))
  {
  }

  lemma StepsKeptInHold(c: Config, bound: nat, s: State, armedAge: int, age: int, slept: nat)
    requires StepsOk(c, bound, s.h) && PollsOk(s.h) && 8 < Distance(s.h.pc) <= 11
    requires s.h.pc.HoldSleep? && !s.h.shortSleep && c.pollNs > 0 ==> s.h.holds < bound
    ensures StepsOk(c, bound, HoldLocals(c, s, armedAge, age, slept))
  {
  }

  lemma StepsKeptInLoads(c: Config, bound: nat, s: State, ok: bool)
    requires StepsOk(c, bound, s.h) && PollsOk(s.h) && 6 < Distance(s.h.pc) <= 8
    ensures StepsOk(c, bound, ReportLocals(s, ok))
  {
  }

  lemma StepsKeptInDump(c: Config, bound: nat, s: State, ok: bool)
    requires StepsOk(c, bound, s.h) && PollsOk(s.h) && 3 < Distance(s.h.pc) <= 6
    ensures StepsOk(c, bound, ReportLocals(s, ok))
  {
  }

  lemma StepsKeptInWait(c: Config, bound: nat, s: State, ok: bool)
    requires StepsOk(c, bound, s.h) && PollsOk(s.h) && 0 < Distance(s.h.pc) <= 3
    ensures StepsOk(c, bound, ReportLocals(s, ok))
  {
  }

  lemma StepsKeptInReport(c: Config, bound: nat, s: State, ok: bool)
    requires StepsOk(c, bound, s.h) && PollsOk(s.h) && InReport(s.h.pc)
    ensures StepsOk(c, bound, ReportLocals(s, ok))
  {
    hide StepsOk, PollsOk, ReportLocals;
    if Distance(s.h.pc) > 6 {
      StepsKeptInLoads(c, bound, s, ok);
    } else if Distance(s.h.pc) > 3 {
      StepsKeptInDump(c, bound, s, ok);
    } else {
      StepsKeptInWait(c, bound, s, ok);
    }
  }

  lemma DurationKeptInHold(c: Config, s: State, slept: nat, ok: bool)
    requires ClocksOk(s) && BranchOk(s.h) && ReadsOk(c, s) && DurationOk(c, s) && Distance(s.h.pc) > 8
    ensures DurationOk(c, HandlerNext(c, s, slept, ok))
  {
    var a, g := Age(s, s.armed), Age(s, s.started);
    if s.h.pc.HoldSleep? && !s.h.shortSleep && c.pollNs > 0 {
      HoldFits(c, s);
    }
    hide HoldLocals, HandlerNumbers, PollsOk, AgeOk, SleptOk, StepsOk, Age;
    PollsKeptInHold(c, s, a, g, slept);
    SleptKeptInHold(c, s, a, g, slept);
    AgeKeptInHold(c, s, a, g, slept);
    if Distance(s.h.pc) > 11 {
      StepsKeptInEntry(c, HoldBound(c), s, a, g, slept);
    } else {
      StepsKeptInHold(c, HoldBound(c), s, a, g, slept);
    }
  }

  lemma DurationKeptInReport(c: Config, s: State, slept: nat, ok: bool)
    requires DurationOk(c, s) && InReport(s.h.pc)
    ensures DurationOk(c, HandlerNext(c, s, slept, ok))
  {
    hide ReportLocals, HandlerNumbers, PollsOk, AgeOk, SleptOk, StepsOk, Age;
    PollsKeptInReport(s, ok);
    SleptKeptInReport(c, s, ok);
    AgeKeptInReport(s, ok, HandlerNext(c, s, slept, ok).now);
    StepsKeptInReport(c, HoldBound(c), s, ok);
  }

  lemma DurationKeptByOthers(c: Config, s: State, e: Event)
    requires CoreOk(s.th) && SuppressionOk(s) && BranchOk(s.h) && DurationOk(c, s)
    requires Enabled(s, e) && !e.HandlerStep?
    ensures DurationOk(c, Apply(c, s, e))
  {
    hide HandlerNumbers;
  }

  lemma DurationKept(c: Config, s: State, e: Event)
    requires CoreOk(s.th) && ClocksOk(s) && HandlerOk(c, s) && Enabled(s, e)
    ensures DurationOk(c, Apply(c, s, e))
  {
    match e
    case HandlerStep(slept, ok) =>
      hide DurationOk, HandlerNext;
      if InReport(s.h.pc) {
        DurationKeptInReport(c, s, slept, ok);
      } else {
        DurationKeptInHold(c, s, slept, ok);
      }
    case _ => DurationKeptByOthers(c, s, e);
  }

  // ---------- every step keeps it

  lemma Preserved(c: Config, s: State, e: Event)
    requires Inv(c, s) && Enabled(s, e)
    ensures Inv(c, Apply(c, s, e))
  {
    CoreKept(c, s, e);
    ClocksKept(c, s, e);
    NumbersKept(c, s, e);
    RequestsKept(c, s, e);
    SuppressionKept(c, s, e);
    BranchKept(c, s, e);
    ReadsKept(c, s, e);
    DurationKept(c, s, e);
  }

  /** Every state of every run satisfies the invariant. */
  lemma {:induction false} RunsKeepInv(c: Config, run: Run, i: nat)
    requires run.Of(c) && i < |run.states|
    ensures Inv(c, run.states[i])
  {
    if i == 0 {
      InitInv(c);
    } else {
      RunsKeepInv(c, run, i - 1);
      assert run.Linked(c, i - 1);
      Preserved(c, run.states[i - 1], run.events[i - 1]);
    }
  }
}
