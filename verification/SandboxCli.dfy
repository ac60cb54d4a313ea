/**
 The port over the Docker command line and its map of owned containers
 (internal/agent-runner/src/docker-cli-execution-port.ts). Every command may answer anything, and any operation may lose
 the race against the abort signal after it has taken effect.
 */
module SandboxCli {
  import opened Wrappers
  import opened Texts
  import opened SandboxRun

  datatype Snapshot = Snapshot(status: Status, exitCode: int, inspection: Option<Inspection>)

  datatype Status = CreatedStatus | ExitedStatus | DeadStatus | OtherStatus

  // What the commands of one operation answer; None is a command that failed or was refused. A container inspection
  // counts only if identity and labels are those of the owned container.
  datatype Answers = Answers(
    createdId: Option<Text>,
    first: Option<Snapshot>,
    server: bool,
    started: Option<ExecutionValue>,
    second: Option<Snapshot>,
    forced: bool,
    late: bool)

  datatype CliState = CliState(owned: map<Text, bool>, turn: nat)

  type World = nat -> Answers

  // [a-f0-9]{64}
  predicate IsContainerId(s: Text) {
    |s| == 64 && forall i :: 0 <= i < |s| ==> 48 <= s[i] <= 57 || 97 <= s[i] <= 102
  }

  function Next(state: CliState): CliState {
    state.(turn := state.turn + 1)
  }

  // The operation has settled; whether the runner learns of it is another matter.
  function Settled<T>(answers: Answers, delivery: Delivery<T>): Delivery<T> {
    if answers.late then Rejected(true) else delivery
  }

  function Create(world: World, state: CliState): (CliState, Delivery<Received>) {
    var answers := world(state.turn);
    if answers.createdId.Some? && IsContainerId(answers.createdId.value)
    then (Next(state).(owned := state.owned[answers.createdId.value := false]), Settled(answers, Delivered(Handle(answers.createdId.value))))
    else (Next(state), Rejected(answers.late))
  }

  function Inspect(world: World, state: CliState, handle: Text): (CliState, Delivery<Inspection>) {
    var answers := world(state.turn);
    if handle in state.owned && answers.first.Some? && answers.first.value.status == CreatedStatus && answers.server
    then
      var marked := Next(state).(owned := state.owned[handle := true]);
      if answers.first.value.inspection.Some?
      then (marked, Settled(answers, Delivered(answers.first.value.inspection.value)))
      else (marked, Rejected(answers.late))
    else (Next(state), Rejected(answers.late))
  }

  // Whether `docker container start` is issued at all.
  predicate Starts(world: World, state: CliState, handle: Text) {
    && handle in state.owned && state.owned[handle]
    && world(state.turn).first.Some? && world(state.turn).first.value.status == CreatedStatus
  }

  function Start(world: World, state: CliState, handle: Text): (CliState, Delivery<ExecutionValue>) {
    var answers := world(state.turn);
    if Starts(world, state, handle) && answers.started.Some? && answers.started.value.Execution? then
      if answers.started.value.termination != Exited then (Next(state), Settled(answers, Delivered(answers.started.value)))
      else if answers.second.Some? && (answers.second.value.status == ExitedStatus || answers.second.value.status == DeadStatus)
      then (Next(state), Settled(answers, Delivered(answers.started.value.(exitCode := Some(answers.second.value.exitCode)))))
      else (Next(state), Rejected(answers.late))
    else (Next(state), Rejected(answers.late))
  }

  function Remove(world: World, state: CliState, handle: Text): (CliState, Delivery<()>) {
    var answers := world(state.turn);
    if handle in state.owned && answers.first.Some? && answers.forced
    then (Next(state).(owned := state.owned - {handle}), Settled(answers, Delivered(())))
    else (Next(state), Rejected(answers.late))
  }

  function CliPort(world: World): Port<CliState> {
    Port(
      state => Create(world, state),
      (state, handle) => Inspect(world, state, handle),
      (state, handle) => Start(world, state, handle),
      (state, handle) => Remove(world, state, handle))
  }

  // The stages between creation and removal leave the set of owned containers alone.
  lemma StagesKeepOwned(world: World, settings: Settings, handle: Text, s0: CliState)
    ensures StagesOf(CliPort(world), settings, handle, s0).state.owned.Keys - {handle} == s0.owned.Keys - {handle}
    ensures forall h :: h in s0.owned && h != handle ==>
      h in StagesOf(CliPort(world), settings, handle, s0).state.owned
      && StagesOf(CliPort(world), settings, handle, s0).state.owned[h] == s0.owned[h]
  {
  }

  // A run whose removal succeeds leaves the owned containers as it found them exactly if the container it created was new.
  lemma RunRestoresOwned(world: World, settings: Settings, s0: CliState, handle: Text)
    requires Create(world, s0).1 == Delivered(Handle(handle))
    ensures
      var port := CliPort(world);
      var stages := StagesOf(port, settings, handle, port.create(s0).0);
      var (final, removed) := port.remove(stages.state, handle);
      removed.Delivered? ==> (final.owned == s0.owned <==> handle !in s0.owned)
  {
    var port := CliPort(world);
    var s1 := port.create(s0).0;
    assert s1.owned == s0.owned[handle := false];
    StagesKeepOwned(world, settings, handle, s1);
    var last := StagesOf(port, settings, handle, s1).state.owned;
    if handle !in s0.owned {
      assert last - {handle} == s0.owned;
    }
    assert handle !in last - {handle};
  }

  // This port never throws synchronously, so a failed cleanup always names the failure before it.
  lemma NeverThrowsSynchronously(world: World, settings: Settings, handle: Text, s0: CliState)
    ensures !SynchronousThrow(CliPort(world), settings, handle, s0)
  {
  }

  // The runner sees an abort exactly if the operation lost the race.
  lemma LateExactly(world: World, state: CliState, handle: Text)
    ensures Create(world, state).1 == Rejected(true) <==> world(state.turn).late
    ensures Inspect(world, state, handle).1 == Rejected(true) <==> world(state.turn).late
    ensures Start(world, state, handle).1 == Rejected(true) <==> world(state.turn).late
    ensures Remove(world, state, handle).1 == Rejected(true) <==> world(state.turn).late
  {
  }

  // ----- Every sequence of port calls -----

  datatype Step = CreateStep | InspectStep(handle: Text) | StartStep(handle: Text) | RemoveStep(handle: Text)

  function After(world: World, state: CliState, step: Step): CliState {
    match step
    case CreateStep => Create(world, state).0
    case InspectStep(handle) => Inspect(world, state, handle).0
    case StartStep(handle) => Start(world, state, handle).0
    case RemoveStep(handle) => Remove(world, state, handle).0
  }

  function StateAt(world: World, s0: CliState, steps: seq<Step>, k: nat): CliState
    requires k <= |steps|
  {
    if k == 0 then s0 else After(world, StateAt(world, s0, steps, k - 1), steps[k - 1])
  }

  predicate Marked(state: CliState, handle: Text) {
    handle in state.owned && state.owned[handle]
  }

  // An inspection that finds the owned container created, and the server.
  predicate Passes(world: World, state: CliState, handle: Text) {
    var answers := world(state.turn);
    handle in state.owned && answers.first.Some? && answers.first.value.status == CreatedStatus && answers.server
  }

  // A step after which the port has no inspection of the container on record: it is created anew or removed.
  predicate Forgets(world: World, state: CliState, step: Step, handle: Text) {
    var answers := world(state.turn);
    || (step.CreateStep? && answers.createdId == Some(handle) && IsContainerId(handle))
    || (step == RemoveStep(handle) && handle in state.owned && answers.first.Some? && answers.forced)
  }

  lemma MarkedAfter(world: World, state: CliState, step: Step, handle: Text)
    ensures Marked(After(world, state, step), handle) <==>
      || (step == InspectStep(handle) && Passes(world, state, handle))
      || (Marked(state, handle) && !Forgets(world, state, step, handle))
  {
  }

  // A mark that some steps set and some take away is there exactly if a step set it and none took it away since.
  ghost predicate SetLast(sets: seq<bool>, clears: seq<bool>, k: nat, j: nat)
    requires k <= |sets| == |clears|
  {
    j < k && sets[j] && forall m: nat :: j < m < k ==> !clears[m]
  }

  lemma {:induction false} MarkLasts(marks: seq<bool>, sets: seq<bool>, clears: seq<bool>, k: nat)
    requires k <= |sets| == |clears| == |marks| - 1 && !marks[0]
    requires forall i :: 0 <= i < |sets| ==> (marks[i + 1] <==> sets[i] || (marks[i] && !clears[i]))
    ensures marks[k] <==> exists j: nat :: SetLast(sets, clears, k, j)
  {
    if k > 0 {
      MarkLasts(marks, sets, clears, k - 1);
      assert marks[k] <==> sets[k - 1] || (marks[k - 1] && !clears[k - 1]);
      if sets[k - 1] {
        assert SetLast(sets, clears, k, k - 1);
      }
      if marks[k - 1] && !clears[k - 1] {
        var j: nat :| SetLast(sets, clears, k - 1, j);
        assert SetLast(sets, clears, k, j);
      }
      if j: nat :| SetLast(sets, clears, k, j) && j < k - 1 {
        assert SetLast(sets, clears, k - 1, j);
      }
    }
  }

  predicate InspectsAt(world: World, s0: CliState, steps: seq<Step>, handle: Text, i: nat)
    requires i < |steps|
  {
    steps[i] == InspectStep(handle) && Passes(world, StateAt(world, s0, steps, i), handle)
  }

  predicate ForgetsAt(world: World, s0: CliState, steps: seq<Step>, handle: Text, i: nat)
    requires i < |steps|
  {
    Forgets(world, StateAt(world, s0, steps, i), steps[i], handle)
  }

  predicate MarkedAt(world: World, s0: CliState, steps: seq<Step>, handle: Text, i: nat)
    requires i <= |steps|
  {
    Marked(StateAt(world, s0, steps, i), handle)
  }

  lemma MarkedStep(world: World, s0: CliState, steps: seq<Step>, handle: Text, i: nat)
    requires i < |steps|
    ensures MarkedAt(world, s0, steps, handle, i + 1) <==>
      || InspectsAt(world, s0, steps, handle, i)
      || (MarkedAt(world, s0, steps, handle, i) && !ForgetsAt(world, s0, steps, handle, i))
  {
    MarkedAfter(world, StateAt(world, s0, steps, i), steps[i], handle);
  }

  function Marks(world: World, s0: CliState, steps: seq<Step>, handle: Text): (marks: seq<bool>)
    ensures |marks| == |steps| + 1 && forall i: nat :: i <= |steps| ==> marks[i] == MarkedAt(world, s0, steps, handle, i)
  {
    seq(|steps| + 1, i requires 0 <= i <= |steps| => MarkedAt(world, s0, steps, handle, i))
  }

  function Inspections(world: World, s0: CliState, steps: seq<Step>, handle: Text): (sets: seq<bool>)
    ensures |sets| == |steps| && forall i: nat :: i < |steps| ==> sets[i] == InspectsAt(world, s0, steps, handle, i)
  {
    seq(|steps|, i requires 0 <= i < |steps| => InspectsAt(world, s0, steps, handle, i))
  }

  function Losses(world: World, s0: CliState, steps: seq<Step>, handle: Text): (clears: seq<bool>)
    ensures |clears| == |steps| && forall i: nat :: i < |steps| ==> clears[i] == ForgetsAt(world, s0, steps, handle, i)
  {
    seq(|steps|, i requires 0 <= i < |steps| => ForgetsAt(world, s0, steps, handle, i))
  }

  // The step at `j` is an inspection that passes, and none after it makes the port forget it.
  ghost predicate InspectedAt(world: World, s0: CliState, steps: seq<Step>, k: nat, handle: Text, j: nat)
    requires k <= |steps|
  {
    && j < k && InspectsAt(world, s0, steps, handle, j)
    && forall m: nat :: j < m < k ==> !ForgetsAt(world, s0, steps, handle, m)
  }

  lemma SetLastInspected(world: World, s0: CliState, steps: seq<Step>, k: nat, handle: Text, j: nat)
    requires k <= |steps|
    ensures SetLast(Inspections(world, s0, steps, handle), Losses(world, s0, steps, handle), k, j) <==>
      InspectedAt(world, s0, steps, k, handle, j)
  {
  }

  lemma MarkedExactly(world: World, s0: CliState, steps: seq<Step>, k: nat, handle: Text)
    requires k <= |steps| && !Marked(s0, handle)
    ensures MarkedAt(world, s0, steps, handle, k) <==> exists j: nat :: InspectedAt(world, s0, steps, k, handle, j)
  {
    var marks, sets := Marks(world, s0, steps, handle), Inspections(world, s0, steps, handle);
    var clears := Losses(world, s0, steps, handle);
    forall i: nat | i < |steps| ensures marks[i + 1] <==> sets[i] || (marks[i] && !clears[i]) {
      MarkedStep(world, s0, steps, handle, i);
    }
    MarkLasts(marks, sets, clears, k);
    forall j: nat ensures SetLast(sets, clears, k, j) <==> InspectedAt(world, s0, steps, k, handle, j) {
      SetLastInspected(world, s0, steps, k, handle, j);
    }
  }

  // Whatever calls the port gets, in any order, the start command is issued for a container exactly if an inspection of it
  // through this port passed before, it was neither removed nor created anew since, and it is found ready.
  lemma StartsInspected(world: World, s0: CliState, steps: seq<Step>, k: nat, handle: Text)
    requires k <= |steps| && !Marked(s0, handle)
    ensures
      var state := StateAt(world, s0, steps, k);
      Starts(world, state, handle) <==>
        && (exists j: nat :: InspectedAt(world, s0, steps, k, handle, j))
        && world(state.turn).first.Some? && world(state.turn).first.value.status == CreatedStatus
  {
    MarkedExactly(world, s0, steps, k, handle);
  }
}
