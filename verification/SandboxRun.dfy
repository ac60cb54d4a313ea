/**
 One sandboxed run over an untrusted execution port (internal/agent-runner/src/docker-sandbox-runner.ts,
 runDockerSandbox). A port is any four functions over a state of its own, so the results hold whatever it does.
 */
module SandboxRun {
  import opened Wrappers
  import opened Texts

  // What calling a port operation and racing its promise against the abort signal comes to. A rejection, or losing
  // the race, is a timeout if the signal is aborted by then.
  datatype Delivery<+T> = Threw | Rejected(aborted: bool) | Delivered(value: T)

  datatype Received = Handle(text: Text) | NotText

  datatype Inspection = Inspection(facts: Text)

  datatype Termination = Exited | TimedOut | OutputLimit | OtherTermination

  // An integer field holds None if it is no safe integer, the bytes if they are no byte array.
  datatype ExecutionValue =
    | NotObject
    | OtherFields
    | Execution(termination: Termination, exitCode: Option<int>, stdout: Option<seq<int>>, combinedOutputBytes: Option<int>)

  datatype Port<!S> = Port(
    create: S -> (S, Delivery<Received>),
    inspect: (S, Text) -> (S, Delivery<Inspection>),
    start: (S, Text) -> (S, Delivery<ExecutionValue>),
    remove: (S, Text) -> (S, Delivery<()>))

  datatype PortCall = CallCreate | CallInspect(handle: Text) | CallStart(handle: Text) | CallRemove(handle: Text)

  datatype Stage = CreateStage | InspectStage | ExecuteStage

  datatype Code = PortFailure | Timeout | InvalidResult | InspectionMismatch | OutputLimitExceeded | NonzeroExit

  // The error a run ends with: a failed stage, a failed cleanup with what failed before it, or something else.
  datatype RunError =
    | StageFailed(stage: Stage, code: Code)
    | CleanupFailed(primary: Option<(Stage, Code)>)
    | OtherError

  datatype Settings = Settings(accepts: Inspection -> bool, maxOutputBytes: int)

  // [A-Za-z0-9][A-Za-z0-9._-]{0,127}
  predicate IsHandle(s: Text) {
    && 0 < |s| <= 128
    && IsAlphanumeric(s[0])
    && (forall i :: 0 < i < |s| ==> IsAlphanumeric(s[i]) || s[i] in [46, 95, 45])
  }

  predicate IsAlphanumeric(u: CodeUnit) {
    48 <= u <= 57 || 65 <= u <= 90 || 97 <= u <= 122
  }

  function ExecutionFault(value: ExecutionValue, maxOutputBytes: int): Option<Code> {
    match value
    case NotObject => Some(InvalidResult)
    case OtherFields => Some(InvalidResult)
    case Execution(termination, exitCode, stdout, combined) =>
      if stdout.None? then Some(InvalidResult)
      else if combined.None? || combined.value < |stdout.value| then Some(InvalidResult)
      else if termination == TimedOut then Some(Timeout)
      else if termination == OutputLimit || combined.value > maxOutputBytes then Some(OutputLimitExceeded)
      else if termination != Exited || exitCode.None? then Some(InvalidResult)
      else if exitCode.value != 0 then Some(NonzeroExit)
      else None
  }

  // An execution is taken exactly if it exited with zero, with bytes, within the output limit.
  ghost predicate GoodExecution(value: ExecutionValue, maxOutputBytes: int) {
    && value.Execution? && value.termination == Exited && value.exitCode == Some(0) && value.stdout.Some?
    && value.combinedOutputBytes.Some? && |value.stdout.value| <= value.combinedOutputBytes.value <= maxOutputBytes
  }

  lemma ExecutionTaken(value: ExecutionValue, maxOutputBytes: int)
    ensures ExecutionFault(value, maxOutputBytes).None? <==> GoodExecution(value, maxOutputBytes)
  {
  }

  // A failed stage, or an error without stage details when the port threw before returning a promise.
  function FailureOf<T>(stage: Stage, delivery: Delivery<T>): RunError
    requires !delivery.Delivered?
  {
    if delivery.Threw? then OtherError else StageFailed(stage, if delivery.aborted then Timeout else PortFailure)
  }

  function DetailsOf(error: RunError): Option<(Stage, Code)> {
    match error
    case StageFailed(stage, code) => Some((stage, code))
    case CleanupFailed(primary) => primary
    case OtherError => None
  }

  // Every attempt, in order; the last is the removal if there is one.
  ghost predicate RemovedOnce(calls: seq<PortCall>, created: Delivery<Received>) {
    if created.Delivered? && created.value.Handle?
    then calls != [] && calls[|calls| - 1] == CallRemove(created.value.text) && NoRemoval(calls[..|calls| - 1])
    else NoRemoval(calls)
  }

  ghost predicate NoRemoval(calls: seq<PortCall>) {
    forall i :: 0 <= i < |calls| ==> !calls[i].CallRemove?
  }

  // Starting comes after inspecting the same container, and the inspection was accepted.
  ghost predicate StartedInspected(calls: seq<PortCall>, inspected: Option<Inspection>, settings: Settings) {
    forall i :: 0 <= i < |calls| && calls[i].CallStart? ==>
      && inspected.Some? && settings.accepts(inspected.value)
      && exists j :: 0 <= j < i && calls[j] == CallInspect(calls[i].handle)
  }

  // What a run attempted, what it was answered, and the state it left the port in.
  datatype Trace<S> = Trace(
    calls: seq<PortCall>,
    created: Delivery<Received>,
    inspected: Option<Inspection>,
    executed: Option<ExecutionValue>,
    removed: Option<Delivery<()>>,
    final: S)

  // What the stages after creation come to: the outcome, the calls made and the state the port is left in.
  datatype Stages<S> = Stages(outcome: Result<seq<int>, RunError>, calls: seq<PortCall>, state: S)

  function StagesOf<S>(port: Port<S>, settings: Settings, handle: Text, s0: S): Stages<S> {
    if !IsHandle(handle) then Stages(Failure(StageFailed(CreateStage, InvalidResult)), [], s0)
    else
      var (s1, inspection) := port.inspect(s0, handle);
      if !inspection.Delivered? then Stages(Failure(FailureOf(InspectStage, inspection)), [CallInspect(handle)], s1)
      else if !settings.accepts(inspection.value) then
        Stages(Failure(StageFailed(InspectStage, InspectionMismatch)), [CallInspect(handle)], s1)
      else
        var (s2, execution) := port.start(s1, handle);
        Stages(ExecutionOutcome(execution, settings), [CallInspect(handle), CallStart(handle)], s2)
  }

  function ExecutionOutcome(execution: Delivery<ExecutionValue>, settings: Settings): Result<seq<int>, RunError> {
    if !execution.Delivered? then Failure(FailureOf(ExecuteStage, execution))
    else
      var fault := ExecutionFault(execution.value, settings.maxOutputBytes);
      if fault.Some? then Failure(StageFailed(ExecuteStage, fault.value))
      else if execution.value.Execution? && execution.value.stdout.Some? then Success(execution.value.stdout.value)
      else Failure(OtherError)
  }

  // The port throws, instead of returning a promise, when it is asked to inspect or to start.
  predicate SynchronousThrow<S>(port: Port<S>, settings: Settings, handle: Text, s0: S) {
    IsHandle(handle) &&
    (var (s1, inspection) := port.inspect(s0, handle);
     || inspection.Threw?
     || (inspection.Delivered? && settings.accepts(inspection.value) && port.start(s1, handle).1.Threw?))
  }

  // A failure before the cleanup has stage and code, exactly unless the port threw synchronously.
  lemma FailuresHaveDetails<S>(port: Port<S>, settings: Settings, handle: Text, s0: S)
    ensures
      var outcome := StagesOf(port, settings, handle, s0).outcome;
      outcome.Failure? ==> (DetailsOf(outcome.error).Some? <==> !SynchronousThrow(port, settings, handle, s0))
  {
    if IsHandle(handle) {
      var (s1, inspection) := port.inspect(s0, handle);
      if inspection.Delivered? && settings.accepts(inspection.value) && port.start(s1, handle).1.Delivered? {
        ExecutionTaken(port.start(s1, handle).1.value, settings.maxOutputBytes);
      }
    }
  }

  // The body of the `try` block once there is a handle.
  method RunStages<S>(port: Port<S>, settings: Settings, handle: Text, s0: S)
    returns (r: Result<seq<int>, RunError>, calls: seq<PortCall>, inspected: Option<Inspection>, executed: Option<ExecutionValue>, s: S)
    ensures Stages(r, calls, s) == StagesOf(port, settings, handle, s0)
    ensures NoRemoval(calls) && StartedInspected(calls, inspected, settings)
    ensures r.Success? ==>
      && inspected.Some? && settings.accepts(inspected.value)
      && executed.Some? && GoodExecution(executed.value, settings.maxOutputBytes) && r.value == executed.value.stdout.value
    ensures r.Failure? ==> !r.error.CleanupFailed?
  {
    calls, inspected, executed, s := [], None, None, s0;
    if !IsHandle(handle) {
      return Failure(StageFailed(CreateStage, InvalidResult)), calls, inspected, executed, s;
    }
    var inspection := port.inspect(s, handle);
    s, calls := inspection.0, calls + [CallInspect(handle)];
    if !inspection.1.Delivered? {
      return Failure(FailureOf(InspectStage, inspection.1)), calls, inspected, executed, s;
    }
    inspected := Some(inspection.1.value);
    if !settings.accepts(inspection.1.value) {
      return Failure(StageFailed(InspectStage, InspectionMismatch)), calls, inspected, executed, s;
    }
    var execution := port.start(s, handle);
    s, calls := execution.0, calls + [CallStart(handle)];
    assert calls == [CallInspect(handle), CallStart(handle)] && calls[0] == CallInspect(handle);
    if !execution.1.Delivered? {
      return Failure(FailureOf(ExecuteStage, execution.1)), calls, inspected, executed, s;
    }
    executed := Some(execution.1.value);
    var fault := ExecutionFault(execution.1.value, settings.maxOutputBytes);
    ExecutionTaken(execution.1.value, settings.maxOutputBytes);
    if fault.Some? {
      return Failure(StageFailed(ExecuteStage, fault.value)), calls, inspected, executed, s;
    }
    r := Success(execution.1.value.stdout.value);
  }

  // The earlier failure that a failed cleanup reports.
  function PrimaryFailure(outcome: Result<seq<int>, RunError>): Option<(Stage, Code)> {
    if outcome.Failure? then DetailsOf(outcome.error) else None
  }

  // A run removes what it created exactly once, whatever happens in between. If the removal succeeds the run ends as
  // its stages did; if it fails the run says so and names the failure before it.
  method RunDockerSandbox<S>(port: Port<S>, settings: Settings, s0: S) returns (r: Result<seq<int>, RunError>, trace: Trace<S>)
    ensures trace.created == port.create(s0).1
    ensures RemovedOnce(trace.calls, trace.created)
    ensures StartedInspected(trace.calls, trace.inspected, settings)
    ensures trace.removed.Some? <==> trace.created.Delivered? && trace.created.value.Handle?
    ensures r.Success? ==>
      && trace.inspected.Some? && settings.accepts(trace.inspected.value)
      && trace.executed.Some? && GoodExecution(trace.executed.value, settings.maxOutputBytes)
      && r.value == trace.executed.value.stdout.value && trace.removed.Some? && trace.removed.value.Delivered?
    ensures trace.removed.Some? ==>
      var handle := trace.created.value.text;
      var stages := StagesOf(port, settings, handle, port.create(s0).0);
      && port.remove(stages.state, handle) == (trace.final, trace.removed.value)
      && r == if trace.removed.value.Delivered? then stages.outcome else Failure(CleanupFailed(PrimaryFailure(stages.outcome)))
    ensures trace.removed.None? ==> trace.final == port.create(s0).0
    ensures trace.created.Threw? ==> r == Failure(OtherError)
    ensures trace.created.Rejected? ==>
      r == Failure(StageFailed(CreateStage, if trace.created.aborted then Timeout else PortFailure))
    ensures trace.created == Delivered(NotText) ==> r == Failure(StageFailed(CreateStage, InvalidResult))
  {
    var creation := port.create(s0);
    var s, calls := creation.0, [CallCreate];
    if !creation.1.Delivered? {
      return Failure(FailureOf(CreateStage, creation.1)), Trace(calls, creation.1, None, None, None, s);
    }
    if !creation.1.value.Handle? {
      return Failure(StageFailed(CreateStage, InvalidResult)), Trace(calls, creation.1, None, None, None, s);
    }
    var handle := creation.1.value.text;
    var stages, stageCalls, inspected, executed, s1 := RunStages(port, settings, handle, s);
    var removal := port.remove(s1, handle);
    calls := calls + stageCalls + [CallRemove(handle)];
    assert calls[..|calls| - 1] == [CallCreate] + stageCalls;
    KeptOrder(stageCalls, handle, inspected, settings);
    trace := Trace(calls, creation.1, inspected, executed, Some(removal.1), removal.0);
    r := if removal.1.Delivered? then stages else Failure(CleanupFailed(PrimaryFailure(stages)));
  }

  lemma KeptOrder(calls: seq<PortCall>, handle: Text, inspected: Option<Inspection>, settings: Settings)
    requires StartedInspected(calls, inspected, settings)
    ensures StartedInspected([CallCreate] + calls + [CallRemove(handle)], inspected, settings)
  {
    var all := [CallCreate] + calls + [CallRemove(handle)];
    forall i | 0 <= i < |all| && all[i].CallStart?
      ensures inspected.Some? && settings.accepts(inspected.value) && exists j :: 0 <= j < i && all[j] == CallInspect(all[i].handle)
    {
      assert calls[i - 1] == all[i];
      var j :| 0 <= j < i - 1 && calls[j] == CallInspect(all[i].handle);
      assert all[j + 1] == calls[j];
    }
  }
}
