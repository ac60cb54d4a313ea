/**
 With what a sandboxed run ends before its cleanup, told of what the port's operations deliver
 (internal/agent-runner/src/docker-sandbox-runner.ts, runExecutionStage and validateExecutionResult), and when a run over the
 Docker command line succeeds (internal/agent-runner/src/docker-cli-execution-port.ts).
 */
module SandboxOutcomes {
  import opened Wrappers
  import opened Texts
  import opened SandboxRun
  import opened SandboxCli

  // One to 128 letters, digits, dots, underscores and hyphens, the first of them a letter or a digit.
  ghost predicate OpaqueIdentifier(s: Text) {
    && 1 <= |s| <= 128 && LetterOrDigit(s[0])
    && forall i :: 1 <= i < |s| ==>
         LetterOrDigit(s[i]) || s[i] == '.' as int || s[i] == '_' as int || s[i] == '-' as int
  }

  ghost predicate LetterOrDigit(u: CodeUnit) {
    || 'a' as int <= u <= 'z' as int || 'A' as int <= u <= 'Z' as int || '0' as int <= u <= '9' as int
  }

  // ----- Executions -----

  // The four fields are there, the output is bytes and the size is one that holds it.
  ghost predicate WellFormed(value: ExecutionValue) {
    value.Execution? && value.stdout.Some? && value.combinedOutputBytes.Some?
    && |value.stdout.value| <= value.combinedOutputBytes.value
  }

  ghost predicate OverLimit(value: ExecutionValue, limit: int)
    requires WellFormed(value)
  {
    value.termination == OutputLimit || value.combinedOutputBytes.value > limit
  }

  // What a delivered execution is refused for: a timeout before the output limit, and that before an exit code.
  ghost predicate RefusedFor(value: ExecutionValue, limit: int, code: Code) {
    match code
    case Timeout => WellFormed(value) && value.termination == TimedOut
    case OutputLimitExceeded => WellFormed(value) && value.termination != TimedOut && OverLimit(value, limit)
    case NonzeroExit =>
      && WellFormed(value) && value.termination == Exited && !OverLimit(value, limit)
      && value.exitCode.Some? && value.exitCode.value != 0
    case InvalidResult =>
      || !WellFormed(value)
      || (value.termination != TimedOut && !OverLimit(value, limit) && (value.termination == OtherTermination || value.exitCode.None?))
    case _ => false
  }

  lemma FaultExact(value: ExecutionValue, limit: int, code: Code)
    ensures ExecutionFault(value, limit) == Some(code) <==> RefusedFor(value, limit, code)
  {
  }

  // ----- Stages -----

  // A promise that is rejected, or loses the race, is a timeout if the signal is aborted and else the port's failure.
  ghost predicate Lost<T>(delivery: Delivery<T>, code: Code) {
    delivery.Rejected? && code == if delivery.aborted then Timeout else PortFailure
  }

  // The stages after the creation fail at this stage with this code.
  ghost predicate StageFails<S>(port: Port<S>, settings: Settings, handle: Text, s0: S, stage: Stage, code: Code) {
    var (s1, inspection) := port.inspect(s0, handle);
    var (_, execution) := port.start(s1, handle);
    var ready := OpaqueIdentifier(handle) && inspection.Delivered? && settings.accepts(inspection.value);
    match stage
    case CreateStage => !OpaqueIdentifier(handle) && code == InvalidResult
    case InspectStage =>
      && OpaqueIdentifier(handle)
      && (Lost(inspection, code) || (inspection.Delivered? && !settings.accepts(inspection.value) && code == InspectionMismatch))
    case ExecuteStage =>
      && ready
      && (Lost(execution, code) || (execution.Delivered? && RefusedFor(execution.value, settings.maxOutputBytes, code)))
  }

  ghost predicate StagesSucceed<S>(port: Port<S>, settings: Settings, handle: Text, s0: S, bytes: seq<int>) {
    var (s1, inspection) := port.inspect(s0, handle);
    var (_, execution) := port.start(s1, handle);
    && OpaqueIdentifier(handle) && inspection.Delivered? && settings.accepts(inspection.value)
    && execution.Delivered? && GoodExecution(execution.value, settings.maxOutputBytes) && execution.value.stdout == Some(bytes)
  }

  // What the stages come to, for every stage and code, and for every output.
  lemma StagesExactly<S>(port: Port<S>, settings: Settings, handle: Text, s0: S, stage: Stage, code: Code, bytes: seq<int>)
    ensures StagesOf(port, settings, handle, s0).outcome == Failure(StageFailed(stage, code)) <==>
      StageFails(port, settings, handle, s0, stage, code)
    ensures StagesOf(port, settings, handle, s0).outcome == Success(bytes) <==> StagesSucceed(port, settings, handle, s0, bytes)
    ensures StagesOf(port, settings, handle, s0).outcome == Failure(OtherError) <==> SynchronousThrow(port, settings, handle, s0)
  {
    assert IsHandle(handle) <==> OpaqueIdentifier(handle);
    var (s1, inspection) := port.inspect(s0, handle);
    var (_, execution) := port.start(s1, handle);
    if execution.Delivered? {
      FaultExact(execution.value, settings.maxOutputBytes, code);
      ExecutionTaken(execution.value, settings.maxOutputBytes);
    }
  }

  // ----- Over the Docker command line -----

  // 64 lower-case hexadecimal digits.
  ghost predicate HexIdentifier(s: Text) {
    |s| == 64 && forall i :: 0 <= i < 64 ==> 'a' as int <= s[i] <= 'f' as int || '0' as int <= s[i] <= '9' as int
  }

  // The commands of the four operations, in the order of the turns they take.
  ghost predicate CommandsSucceed(world: World, turn: nat, handle: Text, inspection: Inspection, execution: ExecutionValue) {
    var created, inspected, started, removed := world(turn), world(turn + 1), world(turn + 2), world(turn + 3);
    && !created.late && created.createdId == Some(handle)
    && !inspected.late && inspected.first.Some? && inspected.first.value.status == CreatedStatus && inspected.server
    && inspected.first.value.inspection == Some(inspection)
    && !started.late && started.first.Some? && started.first.value.status == CreatedStatus
    && started.started.Some? && started.started.value.Execution? && started.started.value.termination == Exited
    && started.second.Some? && (started.second.value.status == ExitedStatus || started.second.value.status == DeadStatus)
    && execution == started.started.value.(exitCode := Some(started.second.value.exitCode))
    && !removed.late && removed.first.Some? && removed.forced
  }

  // A whole run over the command line gives an output exactly if it creates a container, inspects it as the plan asks, starts
  // it, sees it end with exit code zero and within the limit, and removes it.
  ghost predicate RunGives(world: World, settings: Settings, s0: CliState, bytes: seq<int>) {
    exists handle, inspection, execution ::
      && HexIdentifier(handle) && CommandsSucceed(world, s0.turn, handle, inspection, execution)
      && settings.accepts(inspection) && GoodExecution(execution, settings.maxOutputBytes) && execution.stdout == Some(bytes)
  }

  ghost function RunResult(world: World, settings: Settings, s0: CliState): Option<seq<int>> {
    var port := CliPort(world);
    var (s1, created) := port.create(s0);
    if !created.Delivered? || !created.value.Handle? then None
    else
      var stages := StagesOf(port, settings, created.value.text, s1);
      var (_, removed) := port.remove(stages.state, created.value.text);
      if removed.Delivered? && stages.outcome.Success? then Some(stages.outcome.value) else None
  }

  lemma IdentifierOpaque(s: Text)
    ensures HexIdentifier(s) <==> IsContainerId(s)
    ensures HexIdentifier(s) ==> IsHandle(s)
  {
  }

  lemma RunSucceedsExactly(world: World, settings: Settings, s0: CliState, bytes: seq<int>)
    ensures RunResult(world, settings, s0) == Some(bytes) <==> RunGives(world, settings, s0, bytes)
  {
    var port := CliPort(world);
    var (s1, created) := port.create(s0);
    if created.Delivered? && created.value.Handle? {
      var handle := created.value.text;
      IdentifierOpaque(handle);
      StagesExactly(port, settings, handle, s1, CreateStage, InvalidResult, bytes);
      var (s2, inspection) := port.inspect(s1, handle);
      var (s3, execution) := port.start(s2, handle);
      if RunResult(world, settings, s0) == Some(bytes) {
        assert CommandsSucceed(world, s0.turn, handle, inspection.value, execution.value);
      }
      if RunGives(world, settings, s0, bytes) {
        var h, i, e :|
          && HexIdentifier(h) && CommandsSucceed(world, s0.turn, h, i, e)
          && settings.accepts(i) && GoodExecution(e, settings.maxOutputBytes) && e.stdout == Some(bytes);
        assert h == handle && inspection == Delivered(i) && execution == Delivered(e);
      }
    } else if RunGives(world, settings, s0, bytes) {
      var h, i, e :| HexIdentifier(h) && CommandsSucceed(world, s0.turn, h, i, e);
      IdentifierOpaque(h);
      assert false;
    }
  }

  // A whole run over this port: a removal that succeeds restores the owned containers exactly if the created one was new, and
  // a removal that fails after an earlier failure names that failure. There is an output exactly if every command succeeds.
  method RunOverCli(world: World, settings: Settings, s0: CliState) returns (r: Result<seq<int>, RunError>, trace: Trace<CliState>)
    ensures RemovedOnce(trace.calls, trace.created) && StartedInspected(trace.calls, trace.inspected, settings)
    ensures trace.removed.Some? <==> trace.created.Delivered? && trace.created.value.Handle?
    ensures trace.removed == Some(Delivered(())) ==>
      (trace.final.owned == s0.owned <==> trace.created.value.text !in s0.owned)
    ensures forall bytes :: r == Success(bytes) <==> RunGives(world, settings, s0, bytes)
    ensures trace.removed.Some? && !trace.removed.value.Delivered? ==>
      var stages := StagesOf(CliPort(world), settings, trace.created.value.text, Create(world, s0).0);
      r == Failure(CleanupFailed(PrimaryFailure(stages.outcome))) && (stages.outcome.Failure? ==> r.error.primary.Some?)
  {
    var port := CliPort(world);
    r, trace := RunDockerSandbox(port, settings, s0);
    if trace.removed.Some? {
      var handle := trace.created.value.text;
      FailuresHaveDetails(port, settings, handle, port.create(s0).0);
      RunRestoresOwned(world, settings, s0, handle);
    }
    forall bytes ensures r == Success(bytes) <==> RunGives(world, settings, s0, bytes) {
      RunSucceedsExactly(world, settings, s0, bytes);
    }
  }
}
