# Opcode counter tracer — Dafny model

This project models go-ethereum's native `opcounter` tracer
(`eth/tracers/native/opcounter.go`). The EVM calls the tracer at execution
milestones. On every executed instruction (`CaptureState`) the tracer adds one
to a per-opcode-name tally, unless it has been interrupted. `Stop(err)` stores
a reason and raises an interrupt flag. After that, each further step asks the
EVM to cancel (`env.Cancel()`) instead of counting. `GetResult` reports the
tally together with the stored reason.

The model is functional:

- `wrappers.dfy` (`Wrappers`): `Option` stands for a Go value that may be nil, and `Result` is a callback's outcome.
- `opcounter.dfy` (`OpCounter`): the `Tracer` record and one pure function per callback.
  - `env` is the captured EVM reference (`None` = nil).
  - `counts` is the tally.
  - `interrupted` is the atomic interrupt word.
  - `reason` is the stored error.
  - `cancels` logs every `Cancel` the tracer issued, in order.
- `traces.dfy` (`Traces`): an `Event` per callback and `Run`, which folds a trace of events over the tracer. It also holds reference definitions and the inductive lemmas about whole runs. The reference definitions are the first `Stop` position, the names of the executed steps, and the last `Stop`.

The opcode-to-name mapping (`op.String()`) is a parameter `nameOf: OpCode -> string`.
Every lemma holds for every such function, so nothing assumes that names are injective.
`Stop`, which the tracer's owner may call from another goroutine, is one more
event in a sequential interleaving.

Calling `Cancel` through a nil EVM reference is a nil-pointer panic in Go.
This happens on a step taken after a `Stop` while the tracer holds no EVM:
either no `CaptureStart` came first, or the last one was passed nil
(lines 29-30 store whatever they are given). `CaptureState` returns
`Failure(NilEnvCancel)` in that case, and `Traces.RunFailsIff` states exactly
when a run hits it.

How `Stop` and the interrupt flag behave in `opcounter.go`:

- `Stop` overwrites the reason on every call (line 79), so the last `Stop` wins. Nothing keeps the first reason, and a repeated `Stop` is not ignored.
- `Stop(nil)` still sets the flag (line 80) and leaves the reason nil. An interrupted run can therefore report no reason.
- Once the flag is set, a step counts nothing (lines 36-39). Under the sequential interleaving modelled here, no step after a `Stop` is ever counted.

## Model

| member | source | states |
|---|---|---|
| OpCounter.NewOpcounter | eth/tracers/native/opcounter.go:24-26 | construction never fails and ignores its configuration; the new tracer has an empty tally, no interrupt, no reason, no EVM and satisfies the tally invariant |
| OpCounter.CaptureState | eth/tracers/native/opcounter.go:33-46 | uninterrupted: the step's name gains exactly one (absent reading as 0), every other name keeps its count, the key set grows by that name only, and nothing but the tally changes; interrupted: the tally is untouched and one Cancel on the captured EVM is logged, or the call panics when there is no EVM; the tally invariant is preserved |
| OpCounter.Stop | eth/tracers/native/opcounter.go:77-81 | sets the interrupt flag and stores the given reason (possibly none) whatever was stored before; tally, EVM and Cancel log are untouched |
| OpCounter.StopLastWins | eth/tracers/native/opcounter.go:78-81 | two Stops in a row equal the second one alone, so the reported reason is the last one given |
| OpCounter.GetResult | eth/tracers/native/opcounter.go:67-75 | the report is the live tally (same counts for every name, same keys) and the stored reason; being a projection it changes nothing, so repeated calls agree |
| Traces.ApplyFrame | eth/tracers/native/opcounter.go:28-65 | per callback, what may change: CaptureStart only the EVM reference; Enter, Exit, Fault, End, TxStart and TxEnd nothing at all (a faulting opcode is not counted); only steps touch the tally and Cancel log; only Stop touches flag and reason; the flag is never cleared |
| Traces.RunIgnoresNoOps | eth/tracers/native/opcounter.go:48-65 | removing every no-op callback from any trace leaves the run's outcome identical |
| Traces.RunTally | eth/tracers/native/opcounter.go:34-46 | for any trace that completes, each name's count rises by the number of steps with that name before the first Stop (none when already interrupted), and the key set grows by exactly those names |
| Traces.RunAfterStopFrozen | eth/tracers/native/opcounter.go:35-39 | once interrupted, any further trace leaves the tally unchanged and the flag set |
| Traces.RunPreservesValid | eth/tracers/native/opcounter.go:41-45 | every key in the tally maps to at least 1 after any run from a state where that holds |
| Traces.RunFailsIff | eth/tracers/native/opcounter.go:29-39 | a run panics if and only if some step comes after a Stop (or the tracer starts interrupted) while the EVM reference is nil: no CaptureStart before it and none held, or the last CaptureStart before it passed nil |
| Traces.RunReasonNoStop | eth/tracers/native/opcounter.go:78-81 | a trace with no Stop leaves the flag and the reason as they were |
| Traces.RunReasonLastStop | eth/tracers/native/opcounter.go:78-81 | after a trace containing a Stop, the flag is set and the reason is that of the last Stop |
| Traces.RunCancels | eth/tracers/native/opcounter.go:35-39 | every skipped step (each step after the first Stop, or every step once interrupted) appends exactly one Cancel to the log, keeping earlier entries |
| Traces.RunCancelsContent | eth/tracers/native/opcounter.go:35-39 | with an EVM captured and no further CaptureStart, a run never panics and appends exactly one Cancel on that EVM per skipped step, after the earlier entries |
| Traces.StepsCountedOrSkipped | eth/tracers/native/opcounter.go:34-46 | the steps of a trace split into the counted ones followed by the skipped ones, so each step is either counted or cancelled |
| Traces.ReportFrozenAfterStop | eth/tracers/native/opcounter.go:67-81 | after interruption, further callbacks without a new Stop leave GetResult's report unchanged |
| Traces.TallyFromNew | eth/tracers/native/opcounter.go:24-46 | from a new tracer, the reported tally's keys are exactly the names stepped before the first Stop and each count is that name's multiplicity among them |
| Traces.ReasonFromNew | eth/tracers/native/opcounter.go:69-81 | from a new tracer, no Stop means no reported reason, and a reported reason is the error of some Stop in the trace |
| Traces.StepsOnlyFromNew | eth/tracers/native/opcounter.go:24-46 | a new tracer fed steps and no-op callbacks without Stop never panics, reports no reason, and its tally is exactly the multiset of the steps' names |

## Left out

- JSON encoding of the tally in `GetResult` (line 70) is left out. `GetResult` returns the abstract map and reason. The error branch (lines 71-73) cannot be taken for a map from strings to ints, so it is not modelled.
- The atomic load and store of the interrupt word (lines 36 and 80) are left out. The race between `Stop` and a running step is left out too. The flag is a plain boolean under a sequential interleaving of events.
- Registration of the tracer under the name "opcounter" (lines 12-15) is global plumbing and is not modelled.
- Arguments that no callback reads are not carried by the events, apart from the gas amounts of `CaptureEnter`, `CaptureExit`, `CaptureFault`, `CaptureEnd`, `CaptureTxStart` and `CaptureTxEnd` and the opcodes of `CaptureEnter` and `CaptureFault`, which are kept to show they are ignored. The dropped arguments are:
  - the tracer context of `newOpcounter`;
  - the sender and recipient addresses, the `create` flag, the input, the gas and the value of `CaptureStart`;
  - the program counter, gas, cost, scope context, return data, call depth and error of `CaptureState`;
  - the addresses, input and value of `CaptureEnter`;
  - the output and error of `CaptureExit` and `CaptureEnd`;
  - the program counter, cost, scope context, call depth and error of `CaptureFault`.
- The EVM's own `Cancel` is recorded only as an entry in the `cancels` log. What the EVM does with the request is not part of this model. The same goes for the opcode table behind `op.String()`.
- OpCounter.CaptureState: counts are unbounded naturals. A 64-bit Go `int` would wrap after 2^63 increments, and no run can execute that many instructions.
- Traces.RunCancels: states how many Cancels a run issues, not their target. The target is stated by `Traces.RunCancelsContent` only for runs with no CaptureStart after the EVM was captured. The EVM calls CaptureStart before the steps of a run, so that is the case that occurs.
