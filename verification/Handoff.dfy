/** The two-thread handoff of harnesses/common.h with its two signal
    handlers, as a state machine whose steps are the atomic actions of the
    source: one load, store, clock read, lock or wait at a time.

    Every field below the line "history" is recorded only to state theorems;
    no step reads one to decide what to do. */
module Handoff {
  import opened Clock

  const UINT_RANGE := 0x1_0000_0000  // unsigned int wraps here
  const MAX_POLLS := 5000            // looks at the dump before giving up

  datatype Config = Config(timeout: int, pollNs: nat)

  /** Where the main thread is: outside a call (Idle) or at a line of
      fuzz_run_on_r_thread. */
  datatype MainPc =
    | Idle
    | Create          // 552: start the R thread
    | MarkStarted     // 558
    | NumberInput     // 567: input + 1
    | SkipZero        // 568: wrapped, add one more
    | LockToSubmit    // 570
    | Submit          // 571: job = &job
    | WakeR           // 572
    | TestJob         // 573
    | Waiting(woken: bool)  // 574: in pthread_cond_wait, mutex released
    | Relock          // 574: on the way out of pthread_cond_wait
    | Unlock          // 575
    | ClearFinishing  // 579
    | Arm             // 580

  /** Where the R thread is in fuzz_r_thread_main. */
  datatype RPc =
    | Absent
    | RFirstLock      // 497
    | RTestJob        // 499
    | RWaiting(woken: bool)
    | RRelock
    | RTakeJob        // 501
    | RUnlock         // 502
    | RReadClock      // 504
    | RRaiseRunning   // 505
    | RRunning        // 506: inside job->fn
    | RLowerRunning   // 507
    | RLockToFinish   // 509
    | RClearJob       // 510
    | RWakeMain       // 511

  /** Where fuzz_alarm_handler is, on top of the main thread. */
  datatype HandlerPc =
    | Out
    | LoadFinishing   // 404
    | LoadRunning     // 407
    | ReadArmed       // 408
    | HoldReadClock   // 417
    | HoldLoadRunning // 418
    | StoreFinishing  // 419
    | HoldSleep       // 424
    | LoadInput       // 427
    | LoadRequested   // 428
    | StoreRequested  // 429
    | Kill            // 431
    | StoreDone       // 432
    | PollDone        // 440
    | PollRunning     // 441
    | PollSleep       // 443
    | Chain           // 446

  /** Where fuzz_dump_handler is, on top of the R thread. */
  datatype DumpPc = DumpOut | DumpLoad | DumpPrint | DumpStore

  datatype Owner = Free | ByMain | ByR

  datatype Job = NoJob | TheJob(id: nat)

  /** libFuzzer's side: it starts its clock for a unit, calls the harness, and
      stops caring once the call is over.  NoUnit also covers the jobs that
      run outside any unit, initialization among them. */
  datatype Unit = NoUnit | Ready | InCall | Returned

  /** A dump request: for which job, at which moment the input was seen
      running, and when that input had started. */
  datatype Request = Request(serial: nat, seenAt: int, startedAt: int)

  /** fuzz_r_thread, the two threads and the job between them. */
  datatype Threads = Threads(
    threadStarted: bool,
    owner: Owner,
    job: Job,
    mpc: MainPc,
    rpc: RPc,
    taken: Job,
    running: bool,
    // history
    serial: nat,           // calls numbered so far, without wrap-around
    begun: seq<nat>,       // jobs entered on the R thread, in order
    ended: nat             // jobs that returned
  )

  /** The input numbers in fuzz_alarm, and the dump handler that uses them. */
  datatype Numbers = Numbers(
    input: nat,
    requested: nat,
    done: nat,
    dpc: DumpPc,
    dInput: nat,
    pendingDumps: nat,
    // history
    reqSerial: nat,        // the call whose request `requested` holds
    dSerial: nat,          // the call whose request the dump handler loaded
    doneSerial: nat,       // the call whose request `done` answers
    dumped: set<nat>,      // requests loaded by a dump handler that completed
    killFailed: set<nat>,  // requests whose pthread_kill failed
    requests: seq<Request>
  )

  /** The alarm handler and its locals. */
  datatype Handler = Handler(
    pc: HandlerPc,
    pending: bool,         // another SIGALRM waits for this run to end
    age: int,
    input: nat,
    polls: nat,
    // history
    ageAt: int,            // when `age` was read
    armedReadAt: int,      // when the armed clock was read
    sawRunning: bool,      // this run read running = 1 at 407
    dumpBranch: bool,      // this run entered the block at 409
    seenAt: int,           // when the hold loop last read running = 1
    holds: nat,            // sleeps at 424 in this run
    slept: nat,            // how long those lasted together
    steps: nat,            // steps of this run
    shortSleep: bool       // a sleep at 424 ended before poll_ns had passed
  )

  datatype State = State(
    now: int,
    armed: int,
    started: int,
    finishing: bool,
    unit: Unit,
    unitStart: int,
    th: Threads,
    nums: Numbers,
    h: Handler
  )

  const INIT := State(
    0, 0, 0, false, NoUnit, 0,
    Threads(false, Free, NoJob, Idle, Absent, NoJob, false, 0, [], 0),
    Numbers(0, 0, 0, DumpOut, 0, 0, 0, 0, 0, {}, {}, []),
    Handler(Out, false, 0, 0, 0, 0, 0, false, false, 0, 0, 0, 0, false))

  datatype Event =
    | Advance(d: nat)                  // the clock moves on
    | Raise                            // SIGALRM is sent
    | StartUnit                        // libFuzzer starts its clock
    | EndUnit                          // libFuzzer leaves the unit
    | Call                             // fuzz_run_on_r_thread is entered
    | MainStep
    | RStep
    | SpuriousMain                     // a wakeup nobody caused
    | SpuriousR
    | HandlerStep(slept: nat, ok: bool)  // sleep length; did pthread_kill work
    | DumpEnter                        // a pending dump signal is delivered
    | DumpStep
    | Fork                             // continue as the child of a fork

  // ---------- main thread

  /** Can the main thread move, no handler being on top of it? */
  predicate MainCanMove(t: Threads) {
    && !t.mpc.Idle?
    && (t.mpc.LockToSubmit? || t.mpc.Relock? ==> t.owner.Free?)
    && (t.mpc.Waiting? ==> t.mpc.woken)
  }

  /** `wrapped`: the input number came out as 0. */
  function MainThreads(t: Threads, wrapped: bool): Threads {
    match t.mpc
    case Idle => t
    case Create => t.(rpc := RFirstLock, mpc := MarkStarted)
    case MarkStarted => t.(threadStarted := true, mpc := NumberInput)
    case NumberInput => t.(serial := t.serial + 1, mpc := if wrapped then SkipZero else LockToSubmit)
    case SkipZero => t.(mpc := LockToSubmit)
    case LockToSubmit => t.(owner := ByMain, mpc := Submit)
    case Submit => t.(job := TheJob(t.serial), mpc := WakeR)
    case WakeR => t.(rpc := if t.rpc.RWaiting? then RWaiting(true) else t.rpc, mpc := TestJob)
    case TestJob => if !t.job.NoJob? then t.(owner := Free, mpc := Waiting(false)) else t.(mpc := Unlock)
    case Waiting(_) => t.(mpc := Relock)
    case Relock => t.(owner := ByMain, mpc := TestJob)
    case Unlock => t.(owner := Free, mpc := ClearFinishing)
    case ClearFinishing => t.(mpc := Arm)
    case Arm => t.(mpc := Idle)
  }

  function NextInput(n: Numbers): nat { (n.input + 1) % UINT_RANGE }

  function MainNext(s: State): State {
    var s' := s.(th := MainThreads(s.th, NextInput(s.nums) == 0));
    match s.th.mpc
    case NumberInput => s'.(nums := s.nums.(input := NextInput(s.nums)))
    case SkipZero => s'.(nums := s.nums.(input := NextInput(s.nums)))
    case ClearFinishing => s'.(finishing := false)
    case Arm => s'.(armed := s.now, unit := if s.unit.InCall? then Returned else s.unit)
    case _ => s'
  }

  // ---------- R thread

  predicate RCanMove(t: Threads) {
    && !t.rpc.Absent?
    && (t.rpc.RFirstLock? || t.rpc.RRelock? || t.rpc.RLockToFinish? ==> t.owner.Free?)
    && (t.rpc.RWaiting? ==> t.rpc.woken)
  }

  function RThreads(t: Threads): Threads {
    match t.rpc
    case Absent => t
    case RFirstLock => t.(owner := ByR, rpc := RTestJob)
    case RTestJob => if t.job.NoJob? then t.(owner := Free, rpc := RWaiting(false)) else t.(rpc := RTakeJob)
    case RWaiting(_) => t.(rpc := RRelock)
    case RRelock => t.(owner := ByR, rpc := RTestJob)
    case RTakeJob => t.(taken := t.job, rpc := RUnlock)
    case RUnlock => t.(owner := Free, rpc := RReadClock)
    case RReadClock => t.(rpc := RRaiseRunning)
    case RRaiseRunning =>
      t.(running := true, rpc := RRunning, begun := if t.taken.NoJob? then t.begun else t.begun + [t.taken.id])
    case RRunning => t.(ended := t.ended + 1, rpc := RLowerRunning)
    case RLowerRunning => t.(running := false, rpc := RLockToFinish)
    case RLockToFinish => t.(owner := ByR, rpc := RClearJob)
    case RClearJob => t.(job := NoJob, rpc := RWakeMain)
    case RWakeMain => t.(mpc := if t.mpc.Waiting? then Waiting(true) else t.mpc, rpc := RTestJob)
  }

  function RNext(s: State): State {
    s.(th := RThreads(s.th), started := if s.th.rpc.RReadClock? then s.now else s.started)
  }

  // ---------- alarm handler

  /** A handler run begins with its history cleared. */
  function EnterHandler(h: Handler): Handler {
    h.(pc := LoadFinishing, pending := false, sawRunning := false, dumpBranch := false,
       holds := 0, slept := 0, steps := 0, shortSleep := false, polls := 0)
  }

  /** SIGALRM is masked while its handler runs; one that came meanwhile is
      delivered as the handler returns, before the main thread moves. */
  function LeaveHandler(h: Handler): Handler {
    if h.pending then EnterHandler(h) else h.(pc := Out)
  }

  function Age(s: State, since: int): int { SecondsSince(At(s.now), At(since)) }

  /** Lines 404-425: up to the decision to let this tick go, hold it or dump.
      The two ages are those by the armed and by the started clock, read now. */
  function HoldLocals(c: Config, s: State, armedAge: int, age: int, slept: nat): Handler {
    var h := s.h.(steps := s.h.steps + 1);
    match s.h.pc
    case LoadFinishing => if s.finishing then LeaveHandler(h) else h.(pc := LoadRunning)
    case LoadRunning => if s.th.running then h.(sawRunning := true, pc := ReadArmed) else h.(pc := Chain)
    case ReadArmed =>
      if armedAge >= c.timeout - 1
      then h.(armedReadAt := s.now, dumpBranch := true, pc := HoldReadClock)
      else h.(armedReadAt := s.now, pc := Chain)
    case HoldReadClock => h.(age := age, ageAt := s.now, pc := HoldLoadRunning)
    case HoldLoadRunning =>
      if !s.th.running then h.(pc := StoreFinishing)
      else h.(seenAt := s.now, pc := if h.age >= c.timeout then LoadInput else HoldSleep)
    case StoreFinishing => LeaveHandler(h)
    case HoldSleep =>
      h.(holds := h.holds + 1, slept := h.slept + slept, shortSleep := h.shortSleep || slept < c.pollNs,
         pc := HoldReadClock)
    case _ => s.h
  }

  /** Lines 427-446: from the request to handing the tick on. */
  function ReportLocals(s: State, ok: bool): Handler {
    var h := s.h.(steps := s.h.steps + 1);
    match s.h.pc
    case LoadInput => h.(input := s.nums.input, pc := LoadRequested)
    case LoadRequested => h.(pc := if s.nums.requested != h.input then StoreRequested else PollDone)
    case StoreRequested => h.(pc := Kill)
    case Kill => h.(pc := if ok then PollDone else StoreDone)
    case StoreDone => h.(pc := PollDone)
    case PollDone => h.(pc := if h.polls == MAX_POLLS || s.nums.done == h.input then Chain else PollRunning)
    case PollRunning => h.(pc := if !s.th.running then Chain else PollSleep)
    case PollSleep => h.(polls := h.polls + 1, pc := PollDone)
    case Chain => LeaveHandler(h)
    case _ => s.h
  }

  predicate InReport(pc: HandlerPc) {
    || pc.LoadInput? || pc.LoadRequested? || pc.StoreRequested? || pc.Kill? || pc.StoreDone?
    || pc.PollDone? || pc.PollRunning? || pc.PollSleep? || pc.Chain?
  }

  /** The handler's own next state: its program counter and locals. */
  function HandlerLocals(c: Config, s: State, armedAge: int, age: int, slept: nat, ok: bool): Handler {
    if InReport(s.h.pc) then ReportLocals(s, ok) else HoldLocals(c, s, armedAge, age, slept)
  }

  /** What the handler stores in fuzz_alarm's numbers. */
  function HandlerNumbers(s: State, ok: bool): Numbers {
    var n := s.nums;
    match s.h.pc
    case StoreRequested =>
      n.(requested := s.h.input, reqSerial := s.th.serial,
         requests := n.requests + [Request(s.th.serial, s.h.seenAt, s.started)])
    case Kill => if ok then n.(pendingDumps := n.pendingDumps + 1) else n
    case StoreDone =>
      n.(done := s.h.input, doneSerial := s.th.serial, killFailed := n.killFailed + {s.th.serial})
    case _ => n
  }

  function HandlerNext(c: Config, s: State, slept: nat, ok: bool): State {
    s.(h := HandlerLocals(c, s, Age(s, s.armed), Age(s, s.started), slept, ok),
       nums := HandlerNumbers(s, ok),
       finishing := s.finishing || s.h.pc.StoreFinishing?,
       now := if s.h.pc.HoldSleep? || s.h.pc.PollSleep? then s.now + slept else s.now)
  }

  // ---------- dump handler

  function DumpNext(n: Numbers): Numbers {
    match n.dpc
    case DumpOut => n
    case DumpLoad => n.(dInput := n.requested, dSerial := n.reqSerial, dpc := DumpPrint)
    case DumpPrint => n.(dpc := DumpStore)
    case DumpStore => n.(done := n.dInput, doneSerial := n.dSerial, dumped := n.dumped + {n.dSerial}, dpc := DumpOut)
  }

  // ---------- fork

  /** The child of a fork by the main thread: only that thread survives,
      pending signals are not inherited, and fuzz_r_thread_forget has run. */
  function Forget(s: State): State {
    s.(th := s.th.(threadStarted := false, job := NoJob, owner := Free, rpc := Absent),
       nums := s.nums.(dpc := DumpOut, pendingDumps := 0))
  }

  // ---------- the transition system

  /** Is the main thread outside a call and not inside a handler? */
  predicate AtRest(s: State) { s.th.mpc.Idle? && s.h.pc.Out? }

  predicate Enabled(s: State, e: Event) {
    match e
    case Advance(_) => true
    case Raise => true
    case StartUnit => AtRest(s) && s.unit.NoUnit?
    case EndUnit => AtRest(s) && s.unit.Returned?
    case Call => AtRest(s) && (s.unit.NoUnit? || s.unit.Ready?)
    case MainStep => s.h.pc.Out? && MainCanMove(s.th)
    case RStep => s.nums.dpc.DumpOut? && RCanMove(s.th)
    case SpuriousMain => s.h.pc.Out? && s.th.mpc.Waiting? && !s.th.mpc.woken
    case SpuriousR => s.nums.dpc.DumpOut? && s.th.rpc.RWaiting? && !s.th.rpc.woken
    case HandlerStep(_, _) => !s.h.pc.Out?
    case DumpEnter => s.nums.dpc.DumpOut? && s.nums.pendingDumps > 0 && !s.th.rpc.Absent?
    case DumpStep => !s.nums.dpc.DumpOut?
    case Fork => AtRest(s)
  }

  function Apply(c: Config, s: State, e: Event): State
    requires Enabled(s, e)
  {
    match e
    case Advance(d) => s.(now := s.now + d)
    case Raise => s.(h := if s.h.pc.Out? then EnterHandler(s.h) else s.h.(pending := true))
    case StartUnit => s.(unit := Ready, unitStart := s.now)
    case EndUnit => s.(unit := NoUnit)
    case Call =>
      s.(th := s.th.(mpc := if s.th.threadStarted then NumberInput else Create),
         unit := if s.unit.Ready? then InCall else s.unit)
    case MainStep => MainNext(s)
    case RStep => RNext(s)
    case SpuriousMain => s.(th := s.th.(mpc := Relock))
    case SpuriousR => s.(th := s.th.(rpc := RRelock))
    case HandlerStep(slept, ok) => HandlerNext(c, s, slept, ok)
    case DumpEnter => s.(nums := s.nums.(pendingDumps := s.nums.pendingDumps - 1, dpc := DumpLoad))
    case DumpStep => s.(nums := DumpNext(s.nums))
    case Fork => Forget(s)
  }

  /** A run: states joined by enabled events, from the initial state on. */
  datatype Run = Run(states: seq<State>, events: seq<Event>) {
    ghost predicate Of(c: Config) {
      && |states| == |events| + 1
      && states[0] == INIT
      && forall i :: 0 <= i < |events| ==> Linked(c, i)
    }

    ghost predicate Linked(c: Config, i: nat)
      requires i < |events| && |states| == |events| + 1
    {
      Enabled(states[i], events[i]) && states[i + 1] == Apply(c, states[i], events[i])
    }
  }
}
