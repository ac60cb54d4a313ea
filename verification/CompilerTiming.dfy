/**
 Exclusive-time accounting on a stack of frames (packages/compiler/src/compiler-timing.ts). Clock readings are reals
 and arrive with the work that is measured; a failing operation is measured like any other.
 */
module CompilerTiming {
  import opened Wrappers

  datatype Phase =
    Discovery | FormIndexValidation | RuleEvaluation | SourceRead | TemplateRead | TypescriptExtraction | TemplateExtraction

  // The values of the record of durations, one for each phase.
  type Durations = seq<real>

  const PHASES: nat := 7

  function Place(phase: Phase): (i: nat)
    ensures i < PHASES
  {
    match phase
    case Discovery => 0
    case FormIndexValidation => 1
    case RuleEvaluation => 2
    case SourceRead => 3
    case TemplateRead => 4
    case TemplateExtraction => 5
    case TypescriptExtraction => 6
  }

  function NoTime(): (d: Durations)
    ensures |d| == PHASES && forall i :: 0 <= i < PHASES ==> d[i] == 0.0
  {
    seq(PHASES, i => 0.0)
  }

  function Added(d: Durations, phase: Phase, time: real): Durations
    requires |d| == PHASES
  {
    d[Place(phase) := d[Place(phase)] + time]
  }

  // Time added for one phase is added to that phase and no other.
  lemma AddedExact(d: Durations, phase: Phase, time: real, other: Phase)
    requires |d| == PHASES
    ensures Added(d, phase, time)[Place(other)] == d[Place(other)] + if other == phase then time else 0.0
  {
  }

  function Plus(a: Durations, b: Durations): (r: Durations)
    requires |a| == |b|
    ensures |r| == |a| && forall i :: 0 <= i < |r| ==> r[i] == a[i] + b[i]
  {
    seq(|a|, i requires 0 <= i < |a| => a[i] + b[i])
  }

  function Total(d: Durations): real {
    if d == [] then 0.0 else Total(d[..|d| - 1]) + d[|d| - 1]
  }

  lemma {:induction false} NothingTotal(d: Durations)
    requires forall i :: 0 <= i < |d| ==> d[i] == 0.0
    ensures Total(d) == 0.0
  {
    if d != [] {
      NothingTotal(d[..|d| - 1]);
    }
  }

  lemma {:induction false} PlusTotal(a: Durations, b: Durations)
    requires |a| == |b|
    ensures Total(Plus(a, b)) == Total(a) + Total(b)
  {
    if a != [] {
      PlusTotal(a[..|a| - 1], b[..|b| - 1]);
      assert Plus(a, b)[..|a| - 1] == Plus(a[..|a| - 1], b[..|b| - 1]);
    }
  }

  lemma {:induction false} UpdatedTotal(d: Durations, i: nat, time: real)
    requires i < |d|
    ensures Total(d[i := d[i] + time]) == Total(d) + time
  {
    var rest := d[..|d| - 1];
    if i < |rest| {
      UpdatedTotal(rest, i, time);
      assert d[i := d[i] + time][..|d| - 1] == rest[i := rest[i] + time];
    } else {
      assert d[i := d[i] + time][..|d| - 1] == rest;
    }
  }

  lemma AddedTotal(d: Durations, phase: Phase, time: real)
    requires |d| == PHASES
    ensures Total(Added(d, phase, time)) == Total(d) + time
  {
    UpdatedTotal(d, Place(phase), time);
  }

  lemma PlusAssociative(a: Durations, b: Durations, c: Durations)
    requires |a| == |b| == |c|
    ensures Plus(Plus(a, b), c) == Plus(a, Plus(b, c))
  {
  }

  lemma PlusAdded(a: Durations, b: Durations, phase: Phase, time: real)
    requires |a| == |b| == PHASES
    ensures Added(Plus(a, b), phase, time) == Plus(a, Added(b, phase, time))
  {
  }

  lemma PlusNothing(d: Durations)
    requires |d| == PHASES
    ensures Plus(d, NoTime()) == d == Plus(NoTime(), d)
  {
  }

  // A measured operation: its phase, the clock before and after it, and the measurements made while it ran.
  datatype Work = Work(phase: Phase, startedAt: real, finishedAt: real, nested: seq<Work>)

  function Elapsed(work: Work): real {
    work.finishedAt - work.startedAt
  }

  function ElapsedSum(works: seq<Work>, k: nat): real
    requires k <= |works|
  {
    if k == 0 then 0.0 else ElapsedSum(works, k - 1) + Elapsed(works[k - 1])
  }

  // The clock never runs backwards and the nested measurements follow one another.
  ghost predicate SeriallyNested(work: Work)
    decreases work, 0
  {
    work.startedAt <= work.finishedAt && InSequence(work.nested, work.startedAt, work.finishedAt)
  }

  ghost predicate InSequence(works: seq<Work>, from: real, to: real)
    decreases works, 1
  {
    && from <= to
    && (forall i :: 0 <= i < |works| ==> from <= works[i].startedAt && works[i].finishedAt <= to && SeriallyNested(works[i]))
    && (forall i :: 0 < i < |works| ==> works[i - 1].finishedAt <= works[i].startedAt)
  }

  // The time each phase has to itself: what its measurements took less what was measured inside them.
  function Exclusive(work: Work): (d: Durations)
    ensures |d| == PHASES
    decreases work, 0
  {
    Added(ExclusiveSum(work.nested, |work.nested|), work.phase, Elapsed(work) - ElapsedSum(work.nested, |work.nested|))
  }

  function ExclusiveSum(works: seq<Work>, k: nat): (d: Durations)
    requires k <= |works|
    ensures |d| == PHASES
    decreases works, k
  {
    if k == 0 then NoTime()
    else
      var last := works[k - 1];
      Plus(ExclusiveSum(works, k - 1), Exclusive(last))
  }

  // Exclusive times add up: over all phases they are the elapsed time, whatever is nested.
  lemma {:induction false} ExclusiveAddsUp(work: Work)
    ensures Total(Exclusive(work)) == Elapsed(work)
    decreases work, 0
  {
    ExclusiveSumAddsUp(work.nested, |work.nested|);
    AddedTotal(ExclusiveSum(work.nested, |work.nested|), work.phase, Elapsed(work) - ElapsedSum(work.nested, |work.nested|));
  }

  lemma {:induction false} ExclusiveSumAddsUp(works: seq<Work>, k: nat)
    requires k <= |works|
    ensures Total(ExclusiveSum(works, k)) == ElapsedSum(works, k)
    decreases works, k
  {
    if k > 0 {
      var last := works[k - 1];
      ExclusiveSumAddsUp(works, k - 1);
      ExclusiveAddsUp(last);
      PlusTotal(ExclusiveSum(works, k - 1), Exclusive(last));
    } else {
      NothingTotal(NoTime());
    }
  }

  // What is measured inside an interval, one after the other, takes no longer than the interval.
  lemma {:induction false} NestedFits(works: seq<Work>, from: real, to: real, k: nat)
    requires k <= |works| && InSequence(works, from, to)
    ensures 0.0 <= ElapsedSum(works, k) <= (if k == 0 then 0.0 else works[k - 1].finishedAt - from)
    ensures from <= (if k == 0 then from else works[k - 1].finishedAt) <= to
  {
    if k > 0 {
      NestedFits(works, from, to, k - 1);
      var last := works[k - 1];
      assert from <= last.startedAt && SeriallyNested(last);
      assert k > 1 ==> works[k - 1 - 1].finishedAt <= last.startedAt;
    }
  }

  // No phase is charged a negative time.
  lemma {:induction false} ExclusiveNotNegative(work: Work, phase: Phase)
    requires SeriallyNested(work)
    ensures Exclusive(work)[Place(phase)] >= 0.0
    decreases work, 0
  {
    NestedFits(work.nested, work.startedAt, work.finishedAt, |work.nested|);
    ExclusiveSumNotNegative(work.nested, |work.nested|, phase, work.startedAt, work.finishedAt);
  }

  lemma {:induction false} ExclusiveSumNotNegative(works: seq<Work>, k: nat, phase: Phase, from: real, to: real)
    requires k <= |works| && InSequence(works, from, to)
    ensures ExclusiveSum(works, k)[Place(phase)] >= 0.0
    decreases works, k
  {
    if k > 0 {
      var last := works[k - 1];
      ExclusiveSumNotNegative(works, k - 1, phase, from, to);
      ExclusiveNotNegative(last, phase);
    }
  }

  // ----- The class -----

  // A frame is told apart from all others by its number.
  datatype Frame = Frame(id: nat, childDuration: real)

  datatype TimingError = NotNestedSerially

  datatype Metrics = Metrics(totalDuration: real, phaseDuration: Durations, other: real)

  function NotBelowZero(x: real): real {
    if x < 0.0 then 0.0 else x
  }

  // The open frames once a nested measurement of this length is over.
  function Charged(open: seq<Frame>, elapsed: real): seq<Frame> {
    if open == [] then []
    else open[..|open| - 1] + [open[|open| - 1].(childDuration := open[|open| - 1].childDuration + elapsed)]
  }

  // The time measured inside open frames.
  function ChildTime(frames: seq<Frame>): real {
    if frames == [] then 0.0 else ChildTime(frames[..|frames| - 1]) + frames[|frames| - 1].childDuration
  }

  lemma ChargedTime(open: seq<Frame>, elapsed: real)
    ensures ChildTime(Charged(open, elapsed)) == ChildTime(open) + (if open == [] then 0.0 else elapsed)
  {
    if open != [] {
      assert Charged(open, elapsed)[..|open| - 1] == open[..|open| - 1];
    }
  }

  lemma ChargedTwice(open: seq<Frame>, a: real, b: real)
    ensures Charged(Charged(open, a), b) == Charged(open, a + b)
  {
  }

  lemma ChargedNothing(open: seq<Frame>)
    ensures Charged(open, 0.0) == open
  {
  }

  lemma PushedTime(enclosing: seq<Frame>, id: nat)
    ensures ChildTime(enclosing + [Frame(id, 0.0)]) == ChildTime(enclosing)
  {
    assert (enclosing + [Frame(id, 0.0)])[..|enclosing|] == enclosing;
  }

  lemma PushedCharged(enclosing: seq<Frame>, id: nat, elapsed: real)
    ensures Charged(enclosing + [Frame(id, 0.0)], elapsed) == enclosing + [Frame(id, elapsed)]
  {
    assert (enclosing + [Frame(id, 0.0)])[..|enclosing|] == enclosing;
  }

  lemma MeasuredInside(work: Work)
    requires SeriallyNested(work)
    ensures InSequence(work.nested, work.startedAt, work.finishedAt)
    ensures ElapsedSum(work.nested, |work.nested|) <= Elapsed(work)
  {
    NestedFits(work.nested, work.startedAt, work.finishedAt, |work.nested|);
  }

  // What the measurements inside the work and its own time come to.
  lemma MeasuredWhole(before: Durations, work: Work, inside: real, after: Durations)
    requires |before| == PHASES && inside == ElapsedSum(work.nested, |work.nested|) <= Elapsed(work)
    requires after == Added(Plus(before, ExclusiveSum(work.nested, |work.nested|)), work.phase, NotBelowZero(Elapsed(work) - inside))
    ensures after == Plus(before, Exclusive(work))
  {
    PlusAdded(before, ExclusiveSum(work.nested, |work.nested|), work.phase, Elapsed(work) - inside);
  }

  class CompilerTiming {
    var durations: Durations
    var frames: seq<Frame>
    var nextId: nat
    ghost var finished: real  // what the measurements that were in no other took

    constructor ()
      ensures Valid() && Conserved() && frames == [] && finished == 0.0 && durations == NoTime()
    {
      NothingTotal(NoTime());
      durations := NoTime();
      frames := [];
      nextId := 0;
      finished := 0.0;
    }

    ghost predicate Valid()
      reads this
    {
      |durations| == PHASES && forall i :: 0 <= i < |frames| ==> frames[i].id < nextId
    }

    // No time is lost or counted twice: the phases hold what the finished measurements took, and what was measured so far
    // inside those still open.
    ghost predicate Conserved()
      reads this
    {
      Total(durations) == finished + ChildTime(frames)
    }

    // The top frame has to be the one that is finished. It is gone even when it is not.
    method FinishMeasurement(phase: Phase, startedAt: real, finishedAt: real, frame: nat) returns (r: Result<(), TimingError>)
      requires frames != []
      requires Valid()
      modifies this
      ensures Valid()
      ensures r.Success? <==> old(frames)[|old(frames)| - 1].id == frame
      ensures r.Failure? ==>
        durations == old(durations) && finished == old(finished) && frames == old(frames)[..|old(frames)| - 1]
      ensures |old(durations)| == PHASES
      ensures r.Success? ==>
        var own, elapsed := old(frames)[|old(frames)| - 1], finishedAt - startedAt;
        && durations == Added(old(durations), phase, NotBelowZero(elapsed - own.childDuration))
        && frames == Charged(old(frames)[..|old(frames)| - 1], elapsed)
        && finished == old(finished) + (if |old(frames)| == 1 then elapsed else 0.0)
      ensures r.Success? && old(Conserved()) && old(frames)[|old(frames)| - 1].childDuration <= finishedAt - startedAt ==> Conserved()
      ensures nextId == old(nextId)
    {
      var elapsed := finishedAt - startedAt;
      var active := frames[|frames| - 1];
      frames := frames[..|frames| - 1];
      if active.id != frame {
        return Failure(NotNestedSerially);
      }
      Charge(phase, elapsed, active.childDuration);
      r := Success(());
    }

    // What the phases hold beyond what was finished and what was measured inside open frames.
    ghost function Surplus(): real
      reads this
    {
      Total(durations) - finished - ChildTime(frames)
    }

    // The phase gets its own time and the parent, if there is one, the whole.
    method Charge(phase: Phase, elapsed: real, inside: real)
      requires Valid()
      modifies this`durations, this`frames, this`finished
      ensures Valid()
      ensures |old(durations)| == PHASES && durations == Added(old(durations), phase, NotBelowZero(elapsed - inside))
      ensures frames == Charged(old(frames), elapsed)
      ensures finished == old(finished) + (if old(frames) == [] then elapsed else 0.0)
      ensures inside <= elapsed ==> Surplus() == old(Surplus()) - inside
    {
      AddedTotal(durations, phase, NotBelowZero(elapsed - inside));
      ChargedTime(frames, elapsed);
      durations := Added(durations, phase, NotBelowZero(elapsed - inside));
      finished := finished + (if frames == [] then elapsed else 0.0);
      frames := Charged(frames, elapsed);
    }

    // Measuring serially nested work charges every phase its exclusive time, never clamps, charges the enclosing frame the
    // whole time, and conserves time at every step on the way.
    method Measure(work: Work) returns (r: Result<(), TimingError>)
      requires Valid() && SeriallyNested(work)
      modifies this
      ensures Valid() && r.Success? && |old(durations)| == PHASES
      ensures durations == Plus(old(durations), Exclusive(work))
      ensures frames == Charged(old(frames), Elapsed(work))
      ensures finished == old(finished) + (if old(frames) == [] then Elapsed(work) else 0.0)
      ensures old(Conserved()) ==> Conserved()
      ensures nextId > old(nextId)
      decreases work, 1
    {
      ghost var before, enclosing := durations, frames;
      MeasuredInside(work);
      var frame := Run(work);
      r := Close(work, frame, before, enclosing);
    }

    // The frame of an operation that has run is finished.
    method Close(work: Work, frame: nat, ghost before: Durations, ghost enclosing: seq<Frame>) returns (r: Result<(), TimingError>)
      requires Valid() && |before| == PHASES && ElapsedSum(work.nested, |work.nested|) <= Elapsed(work)
      requires durations == Plus(before, ExclusiveSum(work.nested, |work.nested|))
      requires frames == enclosing + [Frame(frame, ElapsedSum(work.nested, |work.nested|))]
      modifies this
      ensures Valid() && r.Success?
      ensures durations == Plus(before, Exclusive(work))
      ensures frames == Charged(enclosing, Elapsed(work))
      ensures finished == old(finished) + (if enclosing == [] then Elapsed(work) else 0.0)
      ensures old(Conserved()) ==> Conserved()
      ensures nextId == old(nextId)
    {
      ghost var inside := ElapsedSum(work.nested, |work.nested|);
      assert frames[|frames| - 1] == Frame(frame, inside) && frames[..|frames| - 1] == enclosing;
      r := FinishMeasurement(work.phase, work.startedAt, work.finishedAt, frame);
      MeasuredWhole(before, work, inside, durations);
    }

    // The frame is opened and the operation runs in it.
    method Run(work: Work) returns (frame: nat)
      requires Valid() && InSequence(work.nested, work.startedAt, work.finishedAt)
      modifies this
      ensures Valid() && |old(durations)| == PHASES
      ensures durations == Plus(old(durations), ExclusiveSum(work.nested, |work.nested|))
      ensures frames == old(frames) + [Frame(frame, ElapsedSum(work.nested, |work.nested|))]
      ensures finished == old(finished) && (old(Conserved()) ==> Conserved())
      ensures nextId > old(nextId)
      decreases work, 0
    {
      frame := Open();
      Perform(work.nested, work.startedAt, work.finishedAt);
      PushedCharged(old(frames), frame, ElapsedSum(work.nested, |work.nested|));
    }

    method Open() returns (frame: nat)
      requires Valid()
      modifies this`frames, this`nextId
      ensures Valid() && nextId > old(nextId)
      ensures frames == old(frames) + [Frame(frame, 0.0)]
      ensures old(Conserved()) ==> Conserved()
    {
      frame := nextId;
      nextId := nextId + 1;
      PushedTime(frames, frame);
      frames := frames + [Frame(frame, 0.0)];
    }

    // The measured operation runs: it makes its own measurements, one after the other, inside the open frame.
    method Perform(works: seq<Work>, from: real, to: real)
      requires Valid() && InSequence(works, from, to) && frames != []
      modifies this
      ensures Valid() && |old(durations)| == PHASES
      ensures durations == Plus(old(durations), ExclusiveSum(works, |works|))
      ensures frames == Charged(old(frames), ElapsedSum(works, |works|))
      ensures finished == old(finished) && (old(Conserved()) ==> Conserved())
      ensures nextId >= old(nextId)
      decreases works
    {
      ghost var before, open := durations, frames;
      ChargedNothing(open);
      PlusNothing(before);
      for k := 0 to |works|
        invariant Valid() && nextId >= old(nextId)
        invariant frames == Charged(open, ElapsedSum(works, k))
        invariant durations == Plus(before, ExclusiveSum(works, k))
        invariant finished == old(finished) && (old(Conserved()) ==> Conserved())
      {
        assert SeriallyNested(works[k]);
        PlusAssociative(before, ExclusiveSum(works, k), Exclusive(works[k]));
        ChargedTwice(open, ElapsedSum(works, k), Elapsed(works[k]));
        var inner := Measure(works[k]);
      }
    }

    // What is left over is reported as `other`.
    method Snapshot(totalDuration: real) returns (metrics: Metrics)
      ensures metrics.totalDuration == totalDuration && metrics.phaseDuration == durations
      ensures Total(metrics.phaseDuration) + metrics.other == if Total(durations) <= totalDuration then totalDuration else Total(durations)
      ensures metrics.other >= 0.0
    {
      metrics := Metrics(totalDuration, durations, NotBelowZero(totalDuration - Total(durations)));
    }
  }

  // A run of top-level measurements: the phases hold exactly the time the run took, and with `other` they make up any
  // total that covers it.
  method MeasureRun(works: seq<Work>, from: real, to: real) returns (metrics: Metrics)
    requires InSequence(works, from, to)
    ensures metrics.phaseDuration == ExclusiveSum(works, |works|)
    ensures Total(metrics.phaseDuration) == ElapsedSum(works, |works|)
    ensures Total(metrics.phaseDuration) + metrics.other == to - from == metrics.totalDuration
  {
    var timing := new CompilerTiming();
    for k := 0 to |works|
      invariant timing.Valid() && timing.Conserved() && timing.frames == [] && timing.finished == ElapsedSum(works, k)
      invariant timing.durations == ExclusiveSum(works, k)
    {
      assert SeriallyNested(works[k]);
      PlusNothing(ExclusiveSum(works, k));
      var r := timing.Measure(works[k]);
    }
    ExclusiveSumAddsUp(works, |works|);
    NestedFits(works, from, to, |works|);
    metrics := timing.Snapshot(to - from);
  }
}
