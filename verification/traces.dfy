/**
  Sequential runs of the tracer: the callbacks arrive as a trace of events
  (Stop may come from another goroutine; here it is one more event in a
  sequential interleaving) and are folded over the tracer state.
 */
module Traces {
  import opened Wrappers
  import opened OpCounter

  /** One callback invocation, carrying the arguments the model keeps. */
  datatype Event =
    | Start(env: Option<EvmHandle>)
    | State(op: OpCode)
    | Enter(enterOp: OpCode, gas: nat)
    | Exit(exitGasUsed: nat)
    | Fault(faultOp: OpCode, faultGas: nat)
    | End(gasUsed: nat)
    | TxStart(gasLimit: nat)
    | TxEnd(restGas: nat)
    | StopEvent(err: Option<Error>)

  /** The callbacks that ignore their arguments and the tracer state alike. */
  predicate IsNoOp(e: Event)
  {
    e.Enter? || e.Exit? || e.Fault? || e.End? || e.TxStart? || e.TxEnd?
  }

  /** Dispatch one event to its callback. */
  function Apply(t: Tracer, e: Event, nameOf: OpCode -> string): Result<Tracer, Panic>
  {
    match e
    case Start(env) => Success(CaptureStart(t, env))
    case State(op) => CaptureState(t, op, nameOf)
    case Enter(op, gas) => Success(CaptureEnter(t, op, gas))
    case Exit(gasUsed) => Success(CaptureExit(t, gasUsed))
    case Fault(op, gas) => Success(CaptureFault(t, op, gas))
    case End(gasUsed) => Success(CaptureEnd(t, gasUsed))
    case TxStart(gasLimit) => Success(CaptureTxStart(t, gasLimit))
    case TxEnd(restGas) => Success(CaptureTxEnd(t, restGas))
    case StopEvent(err) => Success(Stop(t, err))
  }

  /**
    What each callback may change: only steps touch the tally and the Cancel
    log, only Stop touches the flag and the reason, only CaptureStart touches
    the EVM reference, and the no-op callbacks touch nothing.
   */
  lemma ApplyFrame(t: Tracer, e: Event, nameOf: OpCode -> string)
    ensures e.Start? ==> Apply(t, e, nameOf) == Success(t.(env := e.env))
    ensures IsNoOp(e) ==> Apply(t, e, nameOf) == Success(t)
    ensures Apply(t, e, nameOf).Success? ==>
      var next := Apply(t, e, nameOf).value;
      && (!e.State? ==> next.counts == t.counts && next.cancels == t.cancels)
      && (!e.StopEvent? ==> next.interrupted == t.interrupted && next.reason == t.reason)
      && (!e.Start? ==> next.env == t.env)
      && (t.interrupted ==> next.interrupted)
  {
  }

  /** Feed a trace to the tracer, event by event, stopping at the first panic. */
  function Run(t: Tracer, events: seq<Event>, nameOf: OpCode -> string): Result<Tracer, Panic>
    decreases |events|
  {
    if |events| == 0 then Success(t)
    else
      match Apply(t, events[0], nameOf)
      case Failure(p) => Failure(p)
      case Success(next) => Run(next, events[1..], nameOf)
  }

  /** The position of the first Stop in the trace, or its length when there is none. */
  function FirstStop(events: seq<Event>): (i: nat)
    ensures i <= |events|
    ensures forall k :: 0 <= k < i ==> !events[k].StopEvent?
    ensures i < |events| ==> events[i].StopEvent?
  {
    if |events| == 0 || events[0].StopEvent? then 0 else 1 + FirstStop(events[1..])
  }

  /** The names of the executed opcodes, in trace order. */
  function StepNames(events: seq<Event>, nameOf: OpCode -> string): seq<string>
  {
    if |events| == 0 then []
    else if events[0].State? then [nameOf(events[0].op)] + StepNames(events[1..], nameOf)
    else StepNames(events[1..], nameOf)
  }

  /** The trace with every no-op callback removed. */
  function DropNoOps(events: seq<Event>): seq<Event>
  {
    if |events| == 0 then []
    else if IsNoOp(events[0]) then DropNoOps(events[1..])
    else [events[0]] + DropNoOps(events[1..])
  }

  /** The names a run from `t` counts: those before the first Stop, or none if `t` is already interrupted. */
  function Counted(t: Tracer, events: seq<Event>, nameOf: OpCode -> string): seq<string>
  {
    if t.interrupted then [] else StepNames(events[..FirstStop(events)], nameOf)
  }

  lemma StepNamesAppendHead(e: Event, rest: seq<Event>, nameOf: OpCode -> string)
    ensures StepNames([e] + rest, nameOf)
         == (if e.State? then [nameOf(e.op)] else []) + StepNames(rest, nameOf)
  {
  }

  /** Counted names of a trace = counted names of its head event, then of its tail. */
  lemma CountedStep(t: Tracer, events: seq<Event>, nameOf: OpCode -> string, next: Tracer)
    requires |events| > 0 && Apply(t, events[0], nameOf) == Success(next)
    ensures Counted(t, events, nameOf)
         == HeadCounted(t, events[0], nameOf) + Counted(next, events[1..], nameOf)
  {
    var e := events[0];
    var rest := events[1..];
    if !t.interrupted && !e.StopEvent? {
      assert events == [e] + rest;
      assert FirstStop(events) == 1 + FirstStop(rest);
      assert events[..FirstStop(events)] == [e] + rest[..FirstStop(rest)];
      StepNamesAppendHead(e, rest[..FirstStop(rest)], nameOf);
    }
  }

  /**
    Once interrupted, a run leaves the tally alone: the
    counts never change and the flag stays set.
   */
  lemma {:induction false} RunAfterStopFrozen(t: Tracer, events: seq<Event>, nameOf: OpCode -> string)
    requires t.interrupted
    requires Run(t, events, nameOf).Success?
    ensures Run(t, events, nameOf).value.counts == t.counts
    ensures Run(t, events, nameOf).value.interrupted
    decreases |events|
  {
    if |events| > 0 {
      var next := Apply(t, events[0], nameOf).value;
      RunAfterStopFrozen(next, events[1..], nameOf);
    }
  }

  /** The names one event counts: its opcode's, if it is a step on an uninterrupted tracer. */
  function HeadCounted(t: Tracer, e: Event, nameOf: OpCode -> string): seq<string>
  {
    if !t.interrupted && e.State? then [nameOf(e.op)] else []
  }

  /** One event adds to the tally exactly the names it counts. */
  lemma ApplyTally(t: Tracer, e: Event, nameOf: OpCode -> string, next: Tracer)
    requires Apply(t, e, nameOf) == Success(next)
    ensures next.counts.Keys == t.counts.Keys + (set name | name in HeadCounted(t, e, nameOf))
    ensures forall name :: Count(next.counts, name)
                           == Count(t.counts, name) + multiset(HeadCounted(t, e, nameOf))[name]
  {
  }

  lemma SetOfConcat(a: seq<string>, b: seq<string>)
    ensures (set name | name in a + b) == (set name | name in a) + (set name | name in b)
  {
  }

  /**
    The tally after a run is the tally before it plus one for every executed
    opcode before the first Stop; a key exists exactly when it existed or one
    of those opcodes has its name.
   */
  lemma {:induction false} RunTally(t: Tracer, events: seq<Event>, nameOf: OpCode -> string)
    requires Run(t, events, nameOf).Success?
    ensures var r := Run(t, events, nameOf).value;
      && r.counts.Keys == t.counts.Keys + (set name | name in Counted(t, events, nameOf))
      && forall name :: Count(r.counts, name)
                        == Count(t.counts, name) + multiset(Counted(t, events, nameOf))[name]
    decreases |events|
  {
    if |events| == 0 {
      assert Counted(t, events, nameOf) == [];
    } else {
      var next := Apply(t, events[0], nameOf).value;
      var head := HeadCounted(t, events[0], nameOf);
      var tail := Counted(next, events[1..], nameOf);
      CountedStep(t, events, nameOf, next);
      assert Counted(t, events, nameOf) == head + tail;
      ApplyTally(t, events[0], nameOf, next);
      assert Run(t, events, nameOf) == Run(next, events[1..], nameOf);
      RunTally(next, events[1..], nameOf);
      SetOfConcat(head, tail);
    }
  }

  /** The tally invariant holds after any run that starts from a state where it holds. */
  lemma {:induction false} RunPreservesValid(t: Tracer, events: seq<Event>, nameOf: OpCode -> string)
    requires Valid(t)
    requires Run(t, events, nameOf).Success?
    ensures Valid(Run(t, events, nameOf).value)
    decreases |events|
  {
    if |events| > 0 {
      var next := Apply(t, events[0], nameOf).value;
      RunPreservesValid(next, events[1..], nameOf);
    }
  }

  /**
    The EVM reference is nil just before event `i`: either no CaptureStart
    came before it and the tracer had none, or the last CaptureStart before
    it passed nil.
   */
  ghost predicate NilEnvBefore(t: Tracer, events: seq<Event>, i: nat)
    requires i <= |events|
  {
    || (t.env.None? && forall k :: 0 <= k < i ==> !events[k].Start?)
    || (exists k :: 0 <= k < i && events[k] == Start(None)
                    && forall m :: k < m < i ==> !events[m].Start?)
  }

  /**
    Event `i` of the trace is a step that reaches Cancel through a nil EVM
    reference: the tracer is interrupted by then (before the trace or by a
    Stop earlier in it) and the EVM reference is nil at that point.
   */
  ghost predicate PanicsAt(t: Tracer, events: seq<Event>, i: nat)
    requires i < |events|
  {
    && events[i].State?
    && NilEnvBefore(t, events, i)
    && (t.interrupted || exists j :: 0 <= j < i && events[j].StopEvent?)
  }

  /** How one successful event moves the EVM reference and the interrupt flag. */
  lemma ApplyEnvFlag(t: Tracer, e: Event, nameOf: OpCode -> string, next: Tracer)
    requires Apply(t, e, nameOf) == Success(next)
    ensures next.env == (if e.Start? then e.env else t.env)
    ensures next.interrupted <==> t.interrupted || e.StopEvent?
  {
  }

  /** Whether the EVM reference is nil before event `i` does not depend on where the trace is cut. */
  lemma NilEnvBeforeShift(t: Tracer, events: seq<Event>, nameOf: OpCode -> string, next: Tracer, i: nat)
    requires 1 <= i <= |events|
    requires Apply(t, events[0], nameOf) == Success(next)
    ensures NilEnvBefore(t, events, i) <==> NilEnvBefore(next, events[1..], i - 1)
  {
    var rest := events[1..];
    ApplyEnvFlag(t, events[0], nameOf, next);
    if NilEnvBefore(t, events, i) {
      if t.env.None? && forall k :: 0 <= k < i ==> !events[k].Start? {
        assert forall k :: 0 <= k < i - 1 ==> !rest[k].Start? by {
          forall k | 0 <= k < i - 1
            ensures !rest[k].Start?
          {
            assert rest[k] == events[k + 1];
          }
        }
      } else {
        var k :| 0 <= k < i && events[k] == Start(None)
                 && forall m :: k < m < i ==> !events[m].Start?;
        if k == 0 {
          assert forall m :: 0 <= m < i - 1 ==> !rest[m].Start? by {
            forall m | 0 <= m < i - 1
              ensures !rest[m].Start?
            {
              assert rest[m] == events[m + 1];
            }
          }
        } else {
          assert rest[k - 1] == Start(None);
          assert forall m :: k - 1 < m < i - 1 ==> !rest[m].Start? by {
            forall m | k - 1 < m < i - 1
              ensures !rest[m].Start?
            {
              assert rest[m] == events[m + 1];
            }
          }
        }
      }
    }
    if NilEnvBefore(next, rest, i - 1) {
      if next.env.None? && forall k :: 0 <= k < i - 1 ==> !rest[k].Start? {
        if events[0].Start? {
          assert events[0] == Start(None);
          assert forall m :: 0 < m < i ==> !events[m].Start? by {
            forall m | 0 < m < i
              ensures !events[m].Start?
            {
              assert events[m] == rest[m - 1];
            }
          }
        } else {
          assert forall k :: 0 <= k < i ==> !events[k].Start? by {
            forall k | 0 <= k < i
              ensures !events[k].Start?
            {
              if k > 0 {
                assert events[k] == rest[k - 1];
              }
            }
          }
        }
      } else {
        var k :| 0 <= k < i - 1 && rest[k] == Start(None)
                 && forall m :: k < m < i - 1 ==> !rest[m].Start?;
        assert events[k + 1] == Start(None);
        assert forall m :: k + 1 < m < i ==> !events[m].Start? by {
          forall m | k + 1 < m < i
            ensures !events[m].Start?
          {
            assert events[m] == rest[m - 1];
          }
        }
      }
    }
  }

  lemma PanicsAtShift(t: Tracer, events: seq<Event>, nameOf: OpCode -> string, next: Tracer, i: nat)
    requires 1 <= i < |events|
    requires Apply(t, events[0], nameOf) == Success(next)
    ensures PanicsAt(t, events, i) <==> PanicsAt(next, events[1..], i - 1)
  {
    NilEnvBeforeShift(t, events, nameOf, next, i);
    ApplyEnvFlag(t, events[0], nameOf, next);
  }

  /**
    A run panics exactly when some step needs Cancel while the EVM reference
    is nil; otherwise every event completes.
   */
  lemma {:induction false} RunFailsIff(t: Tracer, events: seq<Event>, nameOf: OpCode -> string)
    ensures Run(t, events, nameOf).Failure?
        <==> exists i :: 0 <= i < |events| && PanicsAt(t, events, i)
    decreases |events|
  {
    if |events| > 0 {
      match Apply(t, events[0], nameOf)
      case Failure(_) =>
        assert PanicsAt(t, events, 0);
      case Success(next) =>
        var rest := events[1..];
        RunFailsIff(next, rest, nameOf);
        assert !PanicsAt(t, events, 0) by {
          if events[0].State? && NilEnvBefore(t, events, 0) && t.interrupted {
            assert t.env.None?;
          }
        }
        if exists i :: 0 <= i < |events| && PanicsAt(t, events, i) {
          var i :| 0 <= i < |events| && PanicsAt(t, events, i);
          PanicsAtShift(t, events, nameOf, next, i);
          assert PanicsAt(next, rest, i - 1);
        }
        if exists i :: 0 <= i < |rest| && PanicsAt(next, rest, i) {
          var i :| 0 <= i < |rest| && PanicsAt(next, rest, i);
          PanicsAtShift(t, events, nameOf, next, i + 1);
          assert PanicsAt(t, events, i + 1);
        }
    }
  }

  /** No Stop at or after position `from`. */
  ghost predicate NoStopFrom(events: seq<Event>, from: nat)
  {
    forall j :: from <= j < |events| ==> !events[j].StopEvent?
  }

  /** A run with no Stop leaves the flag and the reason as they were. */
  lemma {:induction false} RunReasonNoStop(t: Tracer, events: seq<Event>, nameOf: OpCode -> string)
    requires NoStopFrom(events, 0)
    requires Run(t, events, nameOf).Success?
    ensures Run(t, events, nameOf).value.reason == t.reason
    ensures Run(t, events, nameOf).value.interrupted == t.interrupted
    decreases |events|
  {
    if |events| > 0 {
      var next := Apply(t, events[0], nameOf).value;
      var rest := events[1..];
      assert !events[0].StopEvent?;
      assert NoStopFrom(rest, 0) by {
        forall j | 0 <= j < |rest|
          ensures !rest[j].StopEvent?
        {
          assert rest[j] == events[j + 1];
        }
      }
      RunReasonNoStop(next, rest, nameOf);
    }
  }

  /** The reason after a run is the one of the LAST Stop in it, and the flag is set. */
  lemma {:induction false} RunReasonLastStop(t: Tracer, events: seq<Event>, nameOf: OpCode -> string, i: nat)
    requires i < |events| && events[i].StopEvent? && NoStopFrom(events, i + 1)
    requires Run(t, events, nameOf).Success?
    ensures Run(t, events, nameOf).value.reason == events[i].err
    ensures Run(t, events, nameOf).value.interrupted
    decreases |events|
  {
    var next := Apply(t, events[0], nameOf).value;
    var rest := events[1..];
    assert NoStopFrom(rest, i) by {
      forall j | i <= j < |rest|
        ensures !rest[j].StopEvent?
      {
        assert rest[j] == events[j + 1];
      }
    }
    if i == 0 {
      RunReasonNoStop(next, rest, nameOf);
    } else {
      RunReasonLastStop(next, rest, nameOf, i - 1);
    }
  }

  /** Names of a concatenation are the names of each part, in order. */
  lemma {:induction false} StepNamesConcat(a: seq<Event>, b: seq<Event>, nameOf: OpCode -> string)
    ensures StepNames(a + b, nameOf) == StepNames(a, nameOf) + StepNames(b, nameOf)
    decreases |a|
  {
    if |a| == 0 {
      assert a + b == b;
    } else {
      assert (a + b)[0] == a[0];
      assert (a + b)[1..] == a[1..] + b;
      StepNamesConcat(a[1..], b, nameOf);
    }
  }

  /** The names of the steps a run does not count: all of them once interrupted, else those after the first Stop. */
  function Skipped(t: Tracer, events: seq<Event>, nameOf: OpCode -> string): seq<string>
  {
    if t.interrupted then StepNames(events, nameOf) else StepNames(events[FirstStop(events)..], nameOf)
  }

  /** The name one event skips: its opcode's, if it is a step on an interrupted tracer. */
  function HeadSkipped(t: Tracer, e: Event, nameOf: OpCode -> string): seq<string>
  {
    if t.interrupted && e.State? then [nameOf(e.op)] else []
  }

  lemma SkippedStep(t: Tracer, events: seq<Event>, nameOf: OpCode -> string, next: Tracer)
    requires |events| > 0 && Apply(t, events[0], nameOf) == Success(next)
    ensures Skipped(t, events, nameOf) == HeadSkipped(t, events[0], nameOf) + Skipped(next, events[1..], nameOf)
  {
  }

  /** Every step is either counted or skipped, never both and never neither. */
  lemma StepsCountedOrSkipped(t: Tracer, events: seq<Event>, nameOf: OpCode -> string)
    ensures StepNames(events, nameOf) == Counted(t, events, nameOf) + Skipped(t, events, nameOf)
  {
    if !t.interrupted {
      var k := FirstStop(events);
      assert events == events[..k] + events[k..];
      StepNamesConcat(events[..k], events[k..], nameOf);
    }
  }

  /**
    Every skipped step issues exactly one Cancel, appended after the ones
    already issued; counted steps issue none.
   */
  lemma {:induction false} RunCancels(t: Tracer, events: seq<Event>, nameOf: OpCode -> string)
    requires Run(t, events, nameOf).Success?
    ensures |Run(t, events, nameOf).value.cancels| == |t.cancels| + |Skipped(t, events, nameOf)|
    ensures t.cancels <= Run(t, events, nameOf).value.cancels
    decreases |events|
  {
    if |events| > 0 {
      var next := Apply(t, events[0], nameOf).value;
      assert Run(t, events, nameOf) == Run(next, events[1..], nameOf);
      SkippedStep(t, events, nameOf, next);
      RunCancels(next, events[1..], nameOf);
    }
  }

  /**
    With an EVM captured and no further CaptureStart, a run never panics and
    every Cancel it issues goes to that EVM, one per skipped step.
   */
  lemma {:induction false} RunCancelsContent(t: Tracer, events: seq<Event>, nameOf: OpCode -> string)
    requires t.env.Some?
    requires forall i :: 0 <= i < |events| ==> !events[i].Start?
    ensures Run(t, events, nameOf).Success?
    ensures Run(t, events, nameOf).value.cancels
         == t.cancels + seq(|Skipped(t, events, nameOf)|, _ => t.env.value)
    decreases |events|
  {
    if |events| > 0 {
      var next := Apply(t, events[0], nameOf).value;
      var rest := events[1..];
      assert !events[0].Start?;
      assert forall i :: 0 <= i < |rest| ==> !rest[i].Start? by {
        forall i | 0 <= i < |rest|
          ensures !rest[i].Start?
        {
          assert rest[i] == events[i + 1];
        }
      }
      SkippedStep(t, events, nameOf, next);
      RunCancelsContent(next, rest, nameOf);
      var n := |Skipped(next, rest, nameOf)|;
      var head := HeadSkipped(t, events[0], nameOf);
      assert next.cancels == t.cancels + seq(|head|, _ => t.env.value);
      assert seq(|head|, _ => t.env.value) + seq(n, _ => t.env.value)
          == seq(|head| + n, _ => t.env.value);
    } else {
      assert Skipped(t, events, nameOf) == [];
    }
  }

  /** The no-op callbacks are invisible: removing them from a trace changes nothing. */
  lemma {:induction false} RunIgnoresNoOps(t: Tracer, events: seq<Event>, nameOf: OpCode -> string)
    ensures Run(t, events, nameOf) == Run(t, DropNoOps(events), nameOf)
    decreases |events|
  {
    if |events| > 0 {
      var rest := events[1..];
      if IsNoOp(events[0]) {
        assert Apply(t, events[0], nameOf) == Success(t);
        RunIgnoresNoOps(t, rest, nameOf);
      } else {
        var dropped := [events[0]] + DropNoOps(rest);
        assert dropped[0] == events[0] && dropped[1..] == DropNoOps(rest);
        match Apply(t, events[0], nameOf)
        case Failure(_) =>
        case Success(next) =>
          RunIgnoresNoOps(next, rest, nameOf);
      }
    }
  }

  /**
    After the tracer is interrupted, further callbacks without a new Stop
    leave GetResult's report unchanged.
   */
  lemma ReportFrozenAfterStop(t: Tracer, events: seq<Event>, nameOf: OpCode -> string)
    requires t.interrupted && NoStopFrom(events, 0)
    requires Run(t, events, nameOf).Success?
    ensures GetResult(Run(t, events, nameOf).value) == GetResult(t)
  {
    RunAfterStopFrozen(t, events, nameOf);
    RunReasonNoStop(t, events, nameOf);
  }

  /**
    From a new tracer, the reason reported after a run that completes is the
    error of some Stop in the trace (the last one), and is absent when the
    trace has no Stop.
   */
  lemma ReasonFromNew(config: seq<bv8>, events: seq<Event>, nameOf: OpCode -> string)
    requires Run(NewOpcounter(config).value, events, nameOf).Success?
    ensures var reason := GetResult(Run(NewOpcounter(config).value, events, nameOf).value).reason;
      && (FirstStop(events) == |events| ==> reason.None?)
      && (reason.Some? ==> exists i :: 0 <= i < |events| && events[i] == StopEvent(reason))
  {
    var t := NewOpcounter(config).value;
    var r := Run(t, events, nameOf).value;
    if FirstStop(events) == |events| {
      RunReasonNoStop(t, events, nameOf);
    } else {
      var i := LastStop(events);
      RunReasonLastStop(t, events, nameOf, i);
      assert events[i] == StopEvent(r.reason);
    }
  }

  /**
    From a new tracer, the report after any run that completes holds, for each
    name, the number of steps with that name before the first Stop.
   */
  lemma TallyFromNew(config: seq<bv8>, events: seq<Event>, nameOf: OpCode -> string)
    requires Run(NewOpcounter(config).value, events, nameOf).Success?
    ensures var counts := GetResult(Run(NewOpcounter(config).value, events, nameOf).value).counts;
      var before := StepNames(events[..FirstStop(events)], nameOf);
      && counts.Keys == (set name | name in before)
      && (forall name :: Count(counts, name) == multiset(before)[name])
  {
    RunTally(NewOpcounter(config).value, events, nameOf);
  }

  /** The position of the last Stop of a trace that has one. */
  function LastStop(events: seq<Event>): (i: nat)
    requires exists k :: 0 <= k < |events| && events[k].StopEvent?
    ensures i < |events| && events[i].StopEvent?
    ensures NoStopFrom(events, i + 1)
  {
    if events[|events| - 1].StopEvent? then |events| - 1
    else
      var k :| 0 <= k < |events| && events[k].StopEvent?;
      assert events[..|events| - 1][k] == events[k];
      LastStop(events[..|events| - 1])
  }

  /**
    A new tracer fed only steps and no-op callbacks, in any order, never
    panics and ends with exactly the multiset of the steps' names as its tally.
   */
  lemma StepsOnlyFromNew(config: seq<bv8>, events: seq<Event>, nameOf: OpCode -> string)
    requires forall i :: 0 <= i < |events| ==> !events[i].StopEvent?
    ensures Run(NewOpcounter(config).value, events, nameOf).Success?
    ensures var report := GetResult(Run(NewOpcounter(config).value, events, nameOf).value);
      && report.counts.Keys == (set name | name in StepNames(events, nameOf))
      && (forall name :: Count(report.counts, name) == multiset(StepNames(events, nameOf))[name])
      && report.reason.None?
  {
    var t := NewOpcounter(config).value;
    RunFailsIff(t, events, nameOf);
    assert FirstStop(events) == |events|;
    assert events[..|events|] == events;
    TallyFromNew(config, events, nameOf);
    ReasonFromNew(config, events, nameOf);
  }
}
