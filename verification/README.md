# A verified model of the R fuzzing harnesses

The harnesses run R inside libFuzzer. R has one thread with a large stack; libFuzzer's main thread hands it one
input at a time, and two signal handlers see to it that an input which runs out of time is reported with the stack of
the thread that was running it. Around that sit guards that keep inputs with exploding cost away from R, a work budget
for evaluated R code, and patches to R that replace quadratic or trusting code by linear or checking code. This
project models those parts in Dafny and proves what they promise. `dafny verify dfyconfig.toml` checks all of it.

## The modules

- `Clock`, `Handoff`, `HandoffInvariant`, `HandoffTheorems`, `HandlerRuns`, `TimeoutTheorems`, `TimeoutReport`,
  `TimeoutRuns`: the two-thread handoff and the timeout diagnostics of `harnesses/common.h`. `Handoff` is a transition
  system whose steps are the single loads, stores, clock reads, locks and waits of `fuzz_run_on_r_thread`,
  `fuzz_r_thread_main`, `fuzz_alarm_handler` and `fuzz_dump_handler`, each program counter named with its source line.
  A tick can arrive at every step of the main thread and is masked while its handler runs; a dump signal can arrive at
  every step of the R thread; condition variables may wake for no reason; the clock moves on at any moment; libFuzzer
  starts its own clock between two calls; a fork can happen between calls. `HandoffInvariant` holds one inductive
  invariant, split by topic. `HandoffTheorems` draws from it what the two threads guarantee, `HandlerRuns` tells one
  run of the alarm handler by its steps, and `TimeoutTheorems` says what the two handlers do, each over every run and
  whatever handler stands behind the wrapper; `TimeoutReport` adds that libFuzzer exits when it reports a timeout, and
  `TimeoutRuns` builds runs that get that far. Fields marked "history" are recorded for the proofs, never decide a
  step, and are themselves proved to tell the events of the run.
- `Utf8`, `RepeatGuard`, `RegexTrees`, `ChartrGuard`, `TreeBound`, `EvalBudget`: the guards and the work budget of
  `harnesses/eval.c`, `harnesses/character.c` and `harnesses/common.h`, as loops and a recursion over arrays, object
  graphs and a counter, each proved equal to an unbounded specification without early exit or saturation.
- `ChartrTable`, `Dcf`, `BytecodeReps`: the data-structure rewrites carried as patches, old and new code side by side,
  proved to agree.
- `Labels`: the slot labels a timeout dump prints. `Digits` is shared text
  arithmetic.

## What was found

- The comment at harnesses/common.h:522-526 says that the mutex is free at every fork, on both sides of the handoff.
  That holds exactly up to spurious wakeups. Between calls the mutex is held if and only if the R thread was woken for
  no reason, has taken it to look for a job, and has not moved since (`HandoffTheorems.MutexBetweenCalls`); if the R
  thread is never woken for no reason it is free at every fork (`HandoffTheorems.MutexFreeAtFork`); and a run in which
  it is held exists (`HandoffTheorems.MutexMayBeHeldAtFork`). It does no harm, because `fuzz_r_thread_forget` resets
  the mutex as well (`HandoffTheorems.ForkedChildStartsAfresh`).
- Input numbers wrap at 2^32 and skip 0, so they repeat after 2^32 - 1 calls, and the alarm handler compares numbers.
  Under libFuzzer this never matters: it exits when it is handed a timeout (harnesses/common.h:196-198), so a process
  makes at most one dump request, for the input it then reports; no number is ever reused, every report follows a dump
  request for its own input, and every answer waited for is to that request (`TimeoutReport.OneRequestAtMost`,
  `NoNumberIsReused`, `EveryReportHasItsDump`, `EveryAnswerIsFresh`). The wrapper itself does not know what it is
  chained to. Whatever that is, a report has its dump requested if and only if the last request before that input does
  not carry the same number (`TimeoutTheorems.ReportFollowsDump`). Only a chained handler that lets a timeout pass could
  run into that exception; `TimeoutRuns.OldAnswerCouldMislead` shows how, in a run that libFuzzer does not allow.

## Model

| member | source | states |
|---|---|---|
| Clock.AgeIsElapsedFloor | harnesses/common.h:390-399 | the age from two timespecs, with its borrow, is the elapsed time rounded down, so it reaches n seconds exactly when n seconds have passed |
| HandoffInvariant.SameNumber | harnesses/common.h:566-568 | no call is numbered 0, and two calls carry the same input number exactly when they are a multiple of 2^32 - 1 calls apart |
| HandoffInvariant.Preserved | harnesses/common.h:402-581 | every enabled step of either thread, either handler or the environment keeps the whole invariant |
| HandoffInvariant.RunsKeepInv | harnesses/common.h:402-581 | so every state of every run satisfies it |
| HandoffTheorems.JobsRunOnceInOrder | harnesses/common.h:497-581 | the R thread enters jobs 1, 2, 3, ... once each; while `running` is up the main thread is inside that call's wait, `input` is its number, and `started` is the moment at which the R thread read the clock for that very job; outside a call every job has returned |
| HandoffTheorems.StartedIsOwn | harnesses/common.h:501-507 | from the clock read to the end of a job, `started` is the moment an earlier step read for this job |
| HandoffTheorems.NumberedOnce | harnesses/common.h:566-568 | inside a call the counter of calls has moved on by one exactly when the call is past its numbering |
| HandoffTheorems.CallRunsItsJob | harnesses/common.h:537-581 | between entering and leaving fuzz_run_on_r_thread exactly one job returned on the R thread, and it was the one submitted |
| HandoffTheorems.MainLowersRank | harnesses/common.h:537-581 | each step of the main thread brings the call closer to its end |
| HandoffTheorems.RLowersRank | harnesses/common.h:497-513 | each step of the R thread during a call does too |
| HandoffTheorems.SomeoneCanMove | harnesses/common.h:497-581 | no deadlock and no lost wakeup: inside a call one of the two threads can move without a spurious wakeup |
| HandoffTheorems.WorkIsBounded | harnesses/common.h:497-581 | under every schedule a call takes at most 56 thread steps plus three per spurious wakeup |
| HandoffTheorems.CallCanReturn | harnesses/common.h:497-581 | with no handler on top, the two threads alone can bring the call to its return |
| HandoffTheorems.EveryCallCanReturn | harnesses/common.h:373-581 | from every reachable state, handlers under way included, the pending call can return with no further signal, wakeup or call |
| HandoffTheorems.ForkedChildStartsAfresh | harnesses/common.h:522-533 | in the child of a fork between calls the invariant holds with no R thread and a free mutex, and the next call starts a thread |
| HandoffTheorems.MutexMayBeHeldAtFork | harnesses/common.h:522-526 | a run, by a spurious wakeup, in which the R thread holds the mutex while the main thread may fork: without that condition the comment's claim fails |
| HandoffTheorems.MutexBetweenCalls | harnesses/common.h:497-533 | outside a call the mutex is held exactly when a spurious wakeup made the R thread take it to look for a job and it has not moved since; the main thread never holds it there |
| HandoffTheorems.MutexFreeAtFork | harnesses/common.h:522-526 | in every run without a spurious wakeup of the R thread the mutex is free at every fork |
| HandlerRuns.CountersCount | harnesses/common.h:402-446 | the counters of a handler run are the numbers of its steps, its hold sleeps and its wait sleeps since it began |
| HandlerRuns.FlagsTell | harnesses/common.h:402-446 | its flags hold exactly if, since it began, it read running = 1, found the input late by the armed clock, slept too short, or another tick came |
| HandlerRuns.SeenThenArmed | harnesses/common.h:407-408 | a handler that read running = 1 reads the armed clock before anything is decided |
| HandlerRuns.WhyHandedOn | harnesses/common.h:402-446 | a tick is handed on only because no input was running, or it was younger than timeout - 1 by the armed clock, or, its dump asked for, `done` was this input's number, or the input was seen to be over, or exactly 5000 sleeps had passed |
| HandlerRuns.WhyWaits | harnesses/common.h:439-444 | the handler sleeps for the dump only after finding it unanswered, with fewer than 5000 sleeps behind it, and then the input still running |
| HandlerRuns.WhyHeld | harnesses/common.h:416-425 | it sleeps in the hold only after reading a clock by which the input was within its time, and then seeing it run |
| TimeoutTheorems.RequestingAfterLook | harnesses/common.h:416-429 | a handler about to request a dump has looked before, at a moment at or past started + timeout, and seen this very input running; that start was read for this input |
| TimeoutTheorems.DumpOnlyIfOutOfTime | harnesses/common.h:411-433 | so every dump request is for an input seen running out of its own time, and no input causes a second request |
| TimeoutTheorems.ReportFollowsDump | harnesses/common.h:190-223 | whatever is chained: when a tick that found its input late is handed on, the handler has stored a request for this very input exactly unless the last request before it carries the same number; libFuzzer's own clock shows the timeout; and the wait for the dump was over |
| TimeoutTheorems.RequestsAreApart | harnesses/common.h:427-429 | consecutive requests never carry the same number |
| TimeoutTheorems.RequestsAreLogged | harnesses/common.h:427-429 | the requests on record are exactly those the handler stored, call by call |
| TimeoutTheorems.RequestIsSent | harnesses/common.h:428-431 | the handler's next step after a request is pthread_kill |
| TimeoutTheorems.FailureIsAnswered | harnesses/common.h:431-432 | its next step after a failed pthread_kill makes `done` the input's number |
| TimeoutTheorems.SignalsAreConserved | harnesses/common.h:373-387 | the dump signals pending are those sent less those delivered since the last fork: one dump handler for each signal, and none besides |
| TimeoutTheorems.NoTimeoutWithoutDump | harnesses/common.h:190-223 | whatever is chained: a tick that read running = 1 and is handed on with libFuzzer's clock at the timeout, within a second of its armed read, found the input late, and stored this input's request exactly unless the last request before it carries the same number |
| TimeoutTheorems.HoldsOnlyLateTicks | harnesses/common.h:407-425 | a tick is held only while an input is in progress and only if, at its armed read, at least timeout - 1 seconds had passed since the main thread last went idle |
| TimeoutTheorems.ArmedIsLastIdle | harnesses/common.h:577-580 | `armed` is the moment at which the main thread last went idle, once it has |
| TimeoutTheorems.YoungTicksGoOn | harnesses/common.h:407-408 | the step after the armed read is into the hold exactly if timeout - 1 seconds had passed since the main thread last went idle, and otherwise hands the tick on |
| TimeoutTheorems.DumpHandlerStores | harnesses/common.h:373-387 | every dump handler that takes its last step has loaded `requested`, printed, and makes `done` the number it loaded |
| TimeoutTheorems.DumpedWasLoaded | harnesses/common.h:373-387 | a dump counted for a call was made by one handler that loaded `requested` while the latest request was that call's, printed, and then stored what it had loaded |
| TimeoutTheorems.AnswerMatches | harnesses/common.h:427-445 | `done == input` holds exactly when the last answer is for a call a multiple of 2^32 - 1 away, this one included, and that answer was given by a completed dump or a failed pthread_kill |
| TimeoutTheorems.AnswerIsFresh | harnesses/common.h:427-445 | short of that distance, `done == input` means an earlier pthread_kill failed for this input, or a dump handler that loaded after this input's request has stored its answer |
| TimeoutTheorems.SuppressedUntilCleared | harnesses/common.h:404-421 | once a held tick has seen its input finish, no tick is handed on and no new call begins until the main thread clears `finishing` |
| TimeoutTheorems.OnlyFinishedInputsDropTicks | harnesses/common.h:404-421 | a tick is dropped, at once or after a hold, only if the job of the call in progress has returned, so the tick of a hung input is always handed on |
| TimeoutTheorems.HandlerEnds | harnesses/common.h:402-446 | a handler run none of whose hold sleeps is shorter than poll_ns holds for at most ceil(timeout / poll_ns) sleeps, waits for at most 5000, never blocks, and ends within a bounded number of steps |
| TimeoutTheorems.WaitingTickIsTakenUp | harnesses/common.h:402-447 | as a handler run ends the handler begins again exactly if a tick came meanwhile |
| TimeoutReport.OneRequestAtMost | harnesses/common.h:190-223 | under libFuzzer a process makes at most one dump request, and while it stands the handler is between that request and the report, for that very input |
| TimeoutReport.NoNumberIsReused | harnesses/common.h:219-222 | under libFuzzer no input ever carries the number of an earlier request |
| TimeoutReport.EveryReportHasItsDump | harnesses/common.h:190-223 | under libFuzzer a tick that found its input late ends the process as it is handed on; its own input's dump was requested; and by then that dump had been answered, or the input was seen to be over, or exactly 5000 sleeps had passed |
| TimeoutReport.EveryTimeoutHasItsDump | harnesses/common.h:211-216 | under libFuzzer a timeout of an input that the tick read as running, within a second of the armed read, is reported with that input's dump requested, without exception |
| TimeoutReport.EveryAnswerIsFresh | harnesses/common.h:435-445 | under libFuzzer the wait ends early for the input's number only if pthread_kill failed for this input, or a dump handler that loaded after this input's request has stored its answer |
| TimeoutRuns.QuietRun | harnesses/common.h:373-446 | threads, calls and the clock leave requests and answers alone |
| TimeoutRuns.TimeoutIsReported | harnesses/common.h:190-223 | for every configuration there is a run libFuzzer allows in which an input runs out of time, its dump is requested and made, and libFuzzer is about to report it and exit |
| TimeoutRuns.MoreUnits | harnesses/common.h:497-581 | any number of further inputs can follow without touching the last request and answer |
| TimeoutRuns.OldAnswerCouldMislead | harnesses/common.h:427-446 | not under libFuzzer: if a chained handler let one timeout pass, 2^32 - 1 calls later a timeout could be handed on by the old answer with no dump ever requested for its input, so the condition of ReportFollowsDump cannot be dropped for an arbitrary handler |
| Utf8.EncodeDecodes | harnesses/eval.c:214-248 | the RFC 3629 encoding of a scalar value is a sequence the validator's rules accept, carrying that value |
| Utf8.DecodeEncodes | harnesses/eval.c:214-248 | every sequence those rules accept is the encoding of its value, which is a scalar value |
| Utf8.EncodeIsPrefixFree | harnesses/eval.c:214-248 | the octets decide where the first character ends |
| Utf8.EncodingIsUnique | harnesses/eval.c:214-248 | a string encodes at most one sequence of scalar values |
| Utf8.DecodeOfEncode | harnesses/eval.c:214-248 | decoding undoes encoding, for all sequences of scalar values |
| Utf8.EncodeOfDecode | harnesses/eval.c:214-248 | encoding undoes decoding, on all strings that decode |
| Utf8.ValidUtf8 | harnesses/eval.c:214-248 | the validator accepts a byte string exactly when it is the encoding of some sequence of scalar values |
| RepeatGuard.CountedIsRepeat | harnesses/common.h:839-856 | a brace is read as a counted repeat exactly when digits and commas, a digit among them, lead to a closing brace, which is then the only one it can be |
| RepeatGuard.ReadBrace | harnesses/common.h:839-862 | the scan of one brace decides that, finds its end, and yields its largest number saturated at 10^7 |
| RepeatGuard.OverBudget | harnesses/common.h:851-866 | one multiplication by the saturated number decides against the budget as the exact product would, and stays an integer below 2^53 |
| RepeatGuard.RepeatProductExcessive | harnesses/common.h:829-872 | the guard refuses a pattern exactly when the unbounded product of max(1, largest number) over all its counted repeats exceeds 10^6 |
| RepeatGuard.ProductOfConcat | harnesses/common.h:814-828 | the product of joined texts is at least the product of both, and equal if no brace is left open at the seam |
| RepeatGuard.ProductOfPrint | harnesses/common.h:814-872 | scanning a printed syntax tree finds at least its repeats, exactly those if no literal is a brace |
| RepeatGuard.ExpandedWithinRepeats | harnesses/common.h:814-828 | writing out all repeats of a tree multiplies its literals by at most the product of the bounds |
| RegexTrees.UnrollKeepsMeaning | harnesses/common.h:814-828 | a tree and its repeats written out, {m,n} as m copies and n - m optional ones, match the same words |
| RegexTrees.ExpandedRepeats | harnesses/common.h:814-828 | writing out n copies costs n times the literals of one |
| RepeatGuard.AcceptedPatternsStaySmall | harnesses/common.h:814-872 | an accepted pattern expands to at most 10^6 literals for each one written |
| ChartrGuard.DecodeUtf8 | harnesses/character.c:55-69 | the lenient decoder yields the announced sequence or the single octet, and never reads past the terminator |
| ChartrGuard.CharactersOfEncoded | harnesses/character.c:47-69 | on valid UTF-8 it sees exactly the encoded characters |
| ChartrGuard.LookAhead | harnesses/character.c:80-95 | the window of up to three characters accounts for the entries it stands for and the octets to skip |
| ChartrGuard.TableExcessive | harnesses/character.c:71-100 | the guard refuses exactly the specs with more than 2,000,000 entries by its count, early exit or not; on every valid UTF-8 spec without a decreasing range, exactly those from which R would build more than 2,000,000 entries |
| ChartrGuard.EntriesOfBuilt | patches/0030-character-chartr-specs-from-r-alloc.patch:23-41 | that count is the length of the builder's expansion, ranges first and the last two characters literal |
| ChartrGuard.BuildSpec | patches/0030-character-chartr-specs-from-r-alloc.patch:23-41 | the builder's two loops compute the items of the specification, or stop at a decreasing range |
| ChartrGuard.BuiltIsTheSpec | patches/0030-character-chartr-specs-from-r-alloc.patch:23-41 | written out again the items are the spec, every range ascends, and an error means there is a decreasing range |
| ChartrGuard.GuardCountsTheTable | harnesses/character.c:45-51 | so on every valid UTF-8 spec without a decreasing range the guard counts the entries R would allocate |
| TreeBound.UnfoldingIsUnique | harnesses/eval.c:253-276 | an object graph unfolds to at most one finite tree |
| TreeBound.WithinBudget | harnesses/eval.c:253-276 | on every graph the walk ends, accepts exactly the objects that unfold to a finite tree within the node and depth limits, raises the shared counter by exactly that tree's cost, and counts at most one node past the limit |
| TreeBound.ChildUnfolds | harnesses/eval.c:253-276 | what an object refers to costs less than the object |
| TreeBound.CyclesDoNotUnfold | harnesses/eval.c:253-276 | an object from which any cycle can be reached, through CARs, CDRs or elements, is refused |
| EvalBudget.CutIsFirst | harnesses/eval.c:159-171 | an input is cut at the first check that is the 20000th or comes too late, and at no other |
| EvalBudget.LateIsAMillionTicks | harnesses/eval.c:167-170 | a check comes too late exactly when more than 1,000,000 clock ticks have passed |
| EvalBudget.CutConcat | harnesses/eval.c:362-389 | one budget over consecutive evaluations cuts where it would cut their checks laid end to end |
| EvalBudget.Evaluated | harnesses/eval.c:372-384 | one evaluation takes the shared budget on to the next expression, or ends the input with exactly the checks and errors of the whole charged |
| EvalBudget.EvalTarget.PollBudget | harnesses/eval.c:159-171 | a paused or spent budget is never charged; otherwise one check is charged, and the error is raised with the budget already at zero |
| EvalBudget.EvalTarget.TryEval | harnesses/eval.c:378-383 | an evaluation runs to its own end with at least one check left, or is cut by exactly one error and leaves zero; its checks find the budget counting down from where it stood, or all find it paused |
| EvalBudget.EvalTarget.Unwind | harnesses/eval.c:155-158 | checks made while an error unwinds charge and raise nothing |
| EvalBudget.EvalTarget.Compile | harnesses/eval.c:338-352 | compiling charges nothing, raises nothing and restores the budget, error or not, unless R jumps away |
| EvalBudget.EvalTarget.Source | harnesses/eval.c:357-389 | all top-level expressions share one budget; the input finishes exactly when it is neither cut nor stopped by itself; the checks of its evaluations find 20000, 19999, ... and so never the 0 that means no limit |
| EvalBudget.EvalTarget.Run | harnesses/eval.c:397-403 | however R leaves, the budget is off afterwards, at most 20000 checks were charged and at most one error raised, for exactly the checks up to the cut, each of which found at least 1 left |
| ChartrTable.InsertionSort | patches/0049-character-chartr-sort-table-with-qsort.patch:83-92 | the old sort, looking at c_old alone, leaves a filled table permuted into the strict order of (c_old, idx) |
| ChartrTable.Compress | patches/0049-character-chartr-sort-table-with-qsort.patch:94-106 | the shifting loop with its `_i--` ends and keeps the last entry of each run |
| ChartrTable.Dedup | patches/0049-character-chartr-sort-table-with-qsort.patch:143-146 | the one-pass loop keeps the last entry of each run |
| ChartrTable.DropOne | patches/0049-character-chartr-sort-table-with-qsort.patch:94-106 | dropping an entry before an equal neighbour does not change which entries are last |
| ChartrTable.QsortIsStrict | patches/0049-character-chartr-sort-table-with-qsort.patch:56-68 | the position breaks every tie, so whatever qsort() does its result is strictly ordered |
| ChartrTable.SortedIsUnique | patches/0049-character-chartr-sort-table-with-qsort.patch:56-68 | there is only one such arrangement of the entries |
| ChartrTable.RewriteAgrees | patches/0049-character-chartr-sort-table-with-qsort.patch:137-146 | old and new code leave the same entries and the same count, for every filled table |
| ChartrTable.KeptAreLast | patches/0049-character-chartr-sort-table-with-qsort.patch:139-146 | the table is strictly increasing in c_old and holds exactly each character's last entry |
| ChartrTable.AssignedIsLast | patches/0030-character-chartr-specs-from-r-alloc.patch:171-182 | assigning the mappings one by one, as the narrow path does, leaves each character's last mapping |
| ChartrTable.TableMeansLastWins | patches/0049-character-chartr-sort-table-with-qsort.patch:55-68 | looking a character up in the table gives v exactly when that assignment maps it to v |
| Dcf.HoldsStore | patches/0059-dcf-repair-lines-by-utf8valid-rules-and-double-field-capacity.patch:161-162 | writing at m + capacity * k changes that field of the current record and no other cell |
| Dcf.ShapeOfAll | patches/0059-dcf-repair-lines-by-utf8valid-rules-and-double-field-capacity.patch:122-129 | the fields are the ones known at the start and the new names in order, the records one more than the blank lines |
| Dcf.CellsOfAll | patches/0059-dcf-repair-lines-by-utf8valid-rules-and-double-field-capacity.patch:143-163 | the cell of a field in a record is NA if nothing was written to it there, and otherwise the last value with the later continuations, each on a new line but where a folding field is still empty |
| Dcf.HoldsMoreColumns | patches/0059-dcf-repair-lines-by-utf8valid-rules-and-double-field-capacity.patch:122-129 | doubling the records keeps the table |
| Dcf.HoldsMoreRows | patches/0059-dcf-repair-lines-by-utf8valid-rules-and-double-field-capacity.patch:187-203 | copying the rows in use up to the current record into a wider stride keeps the table, and NA elsewhere |
| Dcf.CopyRows | patches/0059-dcf-repair-lines-by-utf8valid-rules-and-double-field-capacity.patch:176-197 | the two nested loops copy exactly that block across strides, one cell at a time |
| Dcf.DoublingMatrix.NewRecord | patches/0059-dcf-repair-lines-by-utf8valid-rules-and-double-field-capacity.patch:122-129 | a blank line appends a record of NAs |
| Dcf.DoublingMatrix.NewField | patches/0059-dcf-repair-lines-by-utf8valid-rules-and-double-field-capacity.patch:182-204 | a new field appends a column of NAs to all records, whether or not the capacity doubles, and copies fields * records cells when it does |
| Dcf.DoublingMatrix.Set | patches/0059-dcf-repair-lines-by-utf8valid-rules-and-double-field-capacity.patch:152-163 | a value goes to its field of the current record |
| Dcf.DoublingMatrix.Get | patches/0059-dcf-repair-lines-by-utf8valid-rules-and-double-field-capacity.patch:133-144 | a continuation line reads its field of the current record |
| Dcf.DoublingMatrix.Finish | patches/0059-dcf-repair-lines-by-utf8valid-rules-and-double-field-capacity.patch:230-243 | the last loop returns the table with one row per record and the spare rows dropped |
| Dcf.GrowByOneMatrix.NewField | patches/0059-dcf-repair-lines-by-utf8valid-rules-and-double-field-capacity.patch:170-182 | the old code's new field does the same to the table |
| Dcf.GrowByOneMatrix.Finish | patches/0059-dcf-repair-lines-by-utf8valid-rules-and-double-field-capacity.patch:227-229 | the old code's copy by row returns the table |
| Dcf.TransposedIsUnique | patches/0059-dcf-repair-lines-by-utf8valid-rules-and-double-field-capacity.patch:227-235 | a table has one such result vector |
| Dcf.DoublingRefinesGrowByOne | patches/0059-dcf-repair-lines-by-utf8valid-rules-and-double-field-capacity.patch:166-243 | over every sequence of records, fields, values and continuations both codes return the same matrix and the same names; each cell of that matrix is what the operations wrote to its field in its record; and from no known fields the new code's growth has copied fewer than 2 * fields * records cells |
| Dcf.CopiesDoubled | patches/0059-dcf-repair-lines-by-utf8valid-rules-and-double-field-capacity.patch:182-197 | one doubling keeps the bound on cells copied so far |
| Dcf.CopiesBounded | patches/0059-dcf-repair-lines-by-utf8valid-rules-and-double-field-capacity.patch:182-197 | after every sequence of operations the cells copied stay below the capacity, per record, and the capacity below twice the fields |
| Dcf.GrowthIsLinear | patches/0059-dcf-repair-lines-by-utf8valid-rules-and-double-field-capacity.patch:182-197 | over every sequence of records, fields, values and continuations, discovering fields from nothing copies fewer than two cells per field and record |
| BytecodeReps.BCReps.constructor | patches/0020-serialize-validate-bytecode-repetition-types-and-indices.patch:134-141 | the count in the stream allocates at most 1024 slots |
| BytecodeReps.BCReps.Grow | patches/0020-serialize-validate-bytecode-repetition-types-and-indices.patch:49-57 | one growth always makes room for the next definition, keeps the slots, and stays within max(1024, twice the definitions) |
| BytecodeReps.BCReps.ReadRef | patches/0020-serialize-validate-bytecode-repetition-types-and-indices.patch:65-72 | a reference returns the definition it names or is an error |
| BytecodeReps.BCReps.ReadDef | patches/0020-serialize-validate-bytecode-repetition-types-and-indices.patch:78-103 | a definition is a call or list cell as the stream's type says, with or without attributes, redefines an earlier one or is the next, and otherwise is an error that changes nothing; the slots in use hold only such cells |
| BytecodeReps.ReadBC | patches/0020-serialize-validate-bytecode-repetition-types-and-indices.patch:127-145 | a negative count is an error; for every other count, true or not, the stream is accepted exactly if each reference has a definition before it and each definition names a call or list and takes an index in use or the next; and then each access returns the cell its maker made, LANGSXP or LISTSXP as the maker names it, no two makers the same cell |
| BytecodeReps.MeaningIsNamed | patches/0020-serialize-validate-bytecode-repetition-types-and-indices.patch:65-103 | the same of the specification, so that the maker of a reference is the latest definition at its index |
| BytecodeReps.OnlyLangOrList | patches/0020-serialize-validate-bytecode-repetition-types-and-indices.patch:86-94 | every cell defined or returned carries the type code LANGSXP or LISTSXP, whatever types the stream names |
| BytecodeReps.SameAsPresized | patches/0020-serialize-validate-bytecode-repetition-types-and-indices.patch:65-101 | on every stream the new reader accepts, a table pre-sized for its definitions, whose empty slots are R_NilValue, returns the same cells |
| BytecodeReps.WrittenIsAccepted | patches/0020-serialize-validate-bytecode-repetition-types-and-indices.patch:18-20 | every stream whose definitions are numbered in writing order is accepted, with one slot each |
| Labels.FittingIsLongest | harnesses/common.h:278-293 | the lines kept are the longest prefix that leaves room for the dots |
| Labels.FreshLabelFits | harnesses/common.h:295-340 | with its terminator a fresh label fits its 4096 bytes, for all slots and counts an int holds |
| Labels.DistinctCallsAreAll | harnesses/common.h:311-334 | the calls labelled are exactly those registered that are neither NULL nor R_NilValue, once each |
| Labels.SlotsOfAreThePlaces | harnesses/common.h:351-357 | after fuzz_label_calls the slots named for a call are exactly the places it occurs, in increasing order, out of n |
| Labels.FirstOf | harnesses/common.h:321-327 | the first " of " of any label ends its list of slots, so that is where strstr() finds the place to add one |
| Labels.ListReadsBack | harnesses/common.h:325-340 | splitting a list of slots at ", " and reading the numbers gives the slots |
| Labels.LabelReadsBack | harnesses/common.h:321-340 | reading a label back gives its slots between "slot " and the first " of ", its total up to ":", and what it says below |
| Labels.RegisteredReadBack | harnesses/common.h:311-349 | read back, every label names its call's slots in the order registered and the total given first, and shows the longest fitting prefix of the call's lines with "    ..." exactly when lines were dropped |
| Labels.RegisterKnown | harnesses/common.h:317-332 | inserting ", slot" there turns the label of the slots so far into the label of one more |
| Labels.RegisterNew | harnesses/common.h:336-348 | a call not seen before gets a label of its own with its one slot and its total |
| Labels.RegisterFull | harnesses/common.h:333-334 | a full table ignores further calls and stays the table of the first 128 |
| Labels.RegisterNone | harnesses/common.h:311-314 | an empty slot changes nothing |
| Labels.FuzzLabels.Deparse | harnesses/common.h:278-309 | a label is its header, the longest fitting prefix of the indented lines, and "..." exactly when lines were dropped; a failed deparse leaves the header alone |
| Labels.FuzzLabels.LabelCall | harnesses/common.h:311-349 | registering any call under any slot number and total, as harnesses/io.c:146-151 does, keeps one label for each distinct call, which reads back as its slots in the order registered and the first total |
| Labels.FuzzLabels.LabelCalls | harnesses/common.h:351-357 | registering n calls gives one label for each distinct call, up to 128, which reads back as exactly its slots in order, out of n |
| Labels.FuzzLabels.Enter | harnesses/common.h:359-370 | the current label is that of the call, or none if it has none |
| Labels.FuzzLabels.RunInput | harnesses/common.h:902-908 | whenever a dump looks during an input it finds -1 or the label of the call last entered in this input, also if the input jumps out |

## Left out

- The handoff is modelled on values, as a relation between states, because two threads and two handlers share it: the
  update of the structs in place and aliasing are not captured there.
- Memory order: atomics are sequentially consistent, and the two clocks, which are plain structs, are read and written
  in one step; a torn read of `started` is not part of this model.
- HandoffTheorems.EveryCallCanReturn: an input that never returns is a running job; the theorem is about what the
  protocol adds, so the step that ends the job is one the R thread can take.
- TimeoutTheorems.HandlerEnds: the bound on hold sleeps assumes that none of them ends before poll_ns has passed.
- The installation of the alarm wrapper, the dump signal's registration, signal masks of other threads and the chained
  handler's own behaviour.
- That libFuzzer exits on a timeout, and that a tick meets only calls made for one of its units, are the hypotheses
  `UnderLibFuzzer` of `TimeoutReport`; its report itself is not part of this model.
- Clocks that step backward, forks made by the R thread, and failures of malloc, pthread_create and pthread_atfork.
- Calls into R are scripts: how many interrupt checks they make, at which times, and how they end. That no allowed
  primitive catches an error, so that a budget error always reaches the top, is taken from harnesses/eval.c:67-79.
- EvalBudget.EvalTarget.Run: the CPU limit compares exact reals, not doubles, and warm-up at start is not modelled.
- RepeatGuard.AcceptedPatternsStaySmall: syntax trees have finite repeats only; `{m,}`, `*` and `+`, whose expansion is
  TRE's choice, are not among them.
- ChartrGuard.GuardCountsTheTable: a spec with a decreasing range is an error in R before any table is built, so
  nothing is claimed for the guard's count of it. The count is a natural number; the source's double holds it exactly,
  since it stops at the first excess over 2,000,000.
- ChartrGuard.BuildSpec: the lines inside the builder's loops lie between the parts of the patch shown; the decreasing
  range error is the one named at lines 99-101 of the same patch.
- ChartrTable: `wchar_t` differences in the old comparison do not overflow; code points are far below 2^31. The binary
  search that uses the table lies outside the patch, so lookup is stated on the table itself.
- TreeBound: the counter is a natural number; it cannot reach the limit of `unsigned`.
- Dcf: the regular expressions that tell fields, continuations and blank lines apart, UTF-8 repair and the line buffer
  lie mostly outside the patch; lines appear as the operations they cause. `copyMatrix` is not shown by the patch and
  is modelled as its fill by row.
- BytecodeReps.ReadBC: attributes, tags and the recursion of the reader are flattened into the order in which the
  stream touches the slots; other items of the stream do not touch them. Matrix and vector lengths do not overflow.
- Labels.FreshLabelFits: a label that later names more slots is reallocated and may be longer than 4096 bytes. The
  32 bytes added there are enough for an int; `snprintf` does not truncate.
- Per-target call tables, R closure strings, scratch files, environment variables, R_HOME and locale probing, build and
  status scripts: set-up without a property beyond their own text.
- The length cap of `:` in harnesses/eval.c, which rests on rounding inside R's own `:`, and the patches whose loops lie
  mostly outside the patch text.
