/**
  The opcode-counting tracer: its state and one pure transition per callback
  the EVM (or the tracer's owner) invokes on it.
 */
module OpCounter {
  import opened Wrappers

  /** An EVM opcode is one byte. */
  newtype OpCode = x: int | 0 <= x < 256

  /** An opaque reference to the running EVM; only used to call its Cancel. */
  datatype EvmHandle = EvmHandle(id: nat)

  /** The error value handed to Stop. */
  datatype Error = Error(message: string)

  /** Why a callback could not complete: Cancel called through a nil EVM reference. */
  datatype Panic = NilEnvCancel

  /**
    The tracer's state. `interrupted` is the atomic interrupt word (non-zero
    means set) and `cancels` logs, in order, every EVM on which the tracer
    has called Cancel.
   */
  datatype Tracer = Tracer(
    env: Option<EvmHandle>,
    counts: map<string, nat>,
    interrupted: bool,
    reason: Option<Error>,
    cancels: seq<EvmHandle>)

  /** What GetResult hands back: the tally and the stored stop reason. */
  datatype Report = Report(counts: map<string, nat>, reason: Option<Error>)

  /** The tally of `name`, an absent key reading as zero. */
  function Count(counts: map<string, nat>, name: string): nat
  {
    if name in counts then counts[name] else 0
  }

  /** The tally invariant: an entry exists only once it has been counted at least once. */
  ghost predicate Valid(t: Tracer)
  {
    forall name :: name in t.counts ==> t.counts[name] >= 1
  }

  /** The tracer the constructor builds: nothing counted, not interrupted, no reason, no EVM yet. */
  function Initial(): Tracer
  {
    Tracer(None, map[], false, None, [])
  }

  /** newOpcounter: the configuration is ignored and construction never fails. */
  function NewOpcounter(config: seq<bv8>): (r: Result<Tracer, Error>)
    ensures r.Success?
    ensures r.value.counts == map[] && !r.value.interrupted && r.value.reason.None?
    ensures r.value.env.None? && r.value.cancels == []
    ensures Valid(r.value)
  {
    Success(Initial())
  }

  /** CaptureStart remembers the EVM it runs on, which may be nil. */
  function CaptureStart(t: Tracer, env: Option<EvmHandle>): Tracer
  {
    t.(env := env)
  }

  /**
    CaptureState: if interrupted, ask the EVM to cancel (a nil EVM panics) and
    count nothing; otherwise create the opcode's entry at zero when it is
    missing, then add one to it.
   */
  function CaptureState(t: Tracer, op: OpCode, nameOf: OpCode -> string): (r: Result<Tracer, Panic>)
    ensures !t.interrupted ==>
      && r.Success?
      && r.value.counts.Keys == t.counts.Keys + {nameOf(op)}
      && Count(r.value.counts, nameOf(op)) == Count(t.counts, nameOf(op)) + 1
      && (forall name :: name != nameOf(op) ==> Count(r.value.counts, name) == Count(t.counts, name))
      && r.value.(counts := t.counts) == t
    ensures t.interrupted ==> (r.Success? <==> t.env.Some?)
    ensures t.interrupted && r.Success? ==>
      && r.value.cancels == t.cancels + [t.env.value]
      && r.value.(cancels := t.cancels) == t
    ensures Valid(t) && r.Success? ==> Valid(r.value)
  {
    if t.interrupted then
      match t.env
      case None => Failure(NilEnvCancel)
      case Some(evm) => Success(t.(cancels := t.cancels + [evm]))
    else
      var name := nameOf(op);
      var seeded := if name in t.counts then t.counts else t.counts[name := 0];
      Success(t.(counts := seeded[name := seeded[name] + 1]))
  }

  /** CaptureEnter ignores the scope being entered. */
  function CaptureEnter(t: Tracer, op: OpCode, gas: nat): Tracer
  {
    t
  }

  /** CaptureExit ignores the scope being left. */
  function CaptureExit(t: Tracer, gasUsed: nat): Tracer
  {
    t
  }

  /** CaptureFault does not count the faulting opcode. */
  function CaptureFault(t: Tracer, op: OpCode, gas: nat): Tracer
  {
    t
  }

  /** CaptureEnd does nothing. */
  function CaptureEnd(t: Tracer, gasUsed: nat): Tracer
  {
    t
  }

  /** CaptureTxStart does nothing. */
  function CaptureTxStart(t: Tracer, gasLimit: nat): Tracer
  {
    t
  }

  /** CaptureTxEnd does nothing. */
  function CaptureTxEnd(t: Tracer, restGas: nat): Tracer
  {
    t
  }

  /** GetResult: a projection of the state; it changes nothing. */
  function GetResult(t: Tracer): (r: Report)
    ensures forall name :: Count(r.counts, name) == Count(t.counts, name)
    ensures r.counts.Keys == t.counts.Keys && r.reason == t.reason
  {
    Report(t.counts, t.reason)
  }

  /** Stop stores the reason, whatever was stored before, then sets the interrupt flag. */
  function Stop(t: Tracer, err: Option<Error>): (r: Tracer)
    ensures r.interrupted && r.reason == err
    ensures r.counts == t.counts && r.env == t.env && r.cancels == t.cancels
  {
    t.(reason := err, interrupted := true)
  }

  /** A second Stop replaces the first one's reason: the last call wins. */
  lemma StopLastWins(t: Tracer, first: Option<Error>, second: Option<Error>)
    ensures Stop(Stop(t, first), second) == Stop(t, second)
    ensures GetResult(Stop(Stop(t, first), second)).reason == second
  {
  }
}
