/**
 What a trial report and merged evidence hold, told of the trials alone
 (internal/fixture-kit/src/agent-trial.ts, internal/agent-runner/src/execution-descriptor.ts).
 */
module AgentReports {
  import opened Wrappers
  import opened Texts
  import opened Sequences
  import opened Sorting
  import opened AgentTrials

  // ----- Outcomes -----

  // What went wrong with a trial, the first of these: nothing was detected, protected files changed, the agent did not finish,
  // the meaning changed, the check failed. An unfinished trial whose check passes failed only if its meaning changed.
  lemma CategoryMeans(t: Trial)
    ensures
      var guarded := t.detectionPassed && t.protectedFilesChanged == [];
      && (ClassifyFailure(t) == Some(DiagnosticNotProduced) <==> !t.detectionPassed)
      && (ClassifyFailure(t) == Some(ContractWeakened) <==> t.detectionPassed && t.protectedFilesChanged != [])
      && (ClassifyFailure(t) == Some(SemanticRegression) <==>
            guarded && !t.semanticCheckPassed && (t.adapterCompleted || t.checkPassed))
      && (ClassifyFailure(t) == Some(AgentError) <==>
            guarded && !t.adapterCompleted && (t.semanticCheckPassed || !t.checkPassed))
      && (ClassifyFailure(t) == Some(CheckFailed) <==>
            guarded && t.adapterCompleted && t.semanticCheckPassed && !t.checkPassed)
      && (ClassifyFailure(t) == None <==> guarded && t.adapterCompleted && t.semanticCheckPassed && t.checkPassed)
  {
  }

  // ----- Groups -----

  // The places of the trials with a property.
  ghost function Places(trials: seq<Trial>, keep: Trial -> bool): set<int> {
    set i | 0 <= i < |trials| && keep(trials[i])
  }

  ghost function InGroup(baseline: Text, mutation: Text): Trial -> bool {
    (t: Trial) => t.baselineId == baseline && t.mutationId == mutation
  }

  ghost function RepairedIn(baseline: Text, mutation: Text): Trial -> bool {
    (t: Trial) => t.baselineId == baseline && t.mutationId == mutation && t.repaired
  }

  lemma {:induction false} FilterSize(keep: Trial -> bool, trials: seq<Trial>)
    ensures |Filter(keep, trials)| == |Places(trials, keep)|
  {
    if trials == [] {
      assert Places(trials, keep) == {};
    } else {
      var k := |trials| - 1;
      FilterSize(keep, trials[..k]);
      assert Places(trials, keep) == Places(trials[..k], keep) + (if keep(trials[k]) then {k} else {});
    }
  }

  lemma {:induction false} FilterTwice(first: Trial -> bool, second: Trial -> bool, both: Trial -> bool, trials: seq<Trial>)
    requires forall t :: both(t) <==> first(t) && second(t)
    ensures Filter(second, Filter(first, trials)) == Filter(both, trials)
  {
    if trials != [] {
      var rest, last := trials[..|trials| - 1], trials[|trials| - 1];
      FilterTwice(first, second, both, rest);
      if first(last) {
        FilterAppend(second, Filter(first, rest), last);
      }
    }
  }

  // The metrics of the trials of one baseline and mutation, of which there are some.
  ghost predicate Measures(trials: seq<Trial>, m: MetricGroup) {
    var group := InGroup(m.baselineId, m.mutationId);
    && (exists t :: t in trials && group(t))
    && m.trialCount == |Places(trials, group)|
    && m.repairedCount == |Places(trials, RepairedIn(m.baselineId, m.mutationId))|
    && (m.anyTrialRepaired <==> exists t :: t in trials && group(t) && t.repaired)
    && (m.allTrialsRepaired <==> forall t :: t in trials && group(t) ==> t.repaired)
  }

  lemma {:induction false} AllKept(keep: Trial -> bool, s: seq<Trial>)
    ensures |Filter(keep, s)| <= |s|
    ensures |Filter(keep, s)| == |s| <==> forall t :: t in s ==> keep(t)
  {
    if s != [] {
      var rest, last := s[..|s| - 1], s[|s| - 1];
      AllKept(keep, rest);
      assert s == rest + [last];
    }
  }

  lemma GroupCounts(trials: seq<Trial>, key: Key)
    ensures |Filter(HasKey(key), trials)| == |Places(trials, InGroup(key.0, key.1))|
    ensures |Filter(IsRepaired, Filter(HasKey(key), trials))| == |Places(trials, RepairedIn(key.0, key.1))|
  {
    var inGroup, repairedIn := InGroup(key.0, key.1), RepairedIn(key.0, key.1);
    FilterSize(HasKey(key), trials);
    assert Places(trials, HasKey(key)) == Places(trials, inGroup);
    FilterTwice(HasKey(key), IsRepaired, repairedIn, trials);
    FilterSize(repairedIn, trials);
  }

  lemma GroupFlags(trials: seq<Trial>, key: Key)
    ensures var group := Filter(HasKey(key), trials);
      && (|Filter(IsRepaired, group)| > 0 <==> exists t :: t in trials && InGroup(key.0, key.1)(t) && t.repaired)
      && (|Filter(IsRepaired, group)| == |group| <==> forall t :: t in trials && InGroup(key.0, key.1)(t) ==> t.repaired)
  {
    var group := Filter(HasKey(key), trials);
    AllKept(IsRepaired, group);
    SomeKept(IsRepaired, group);
    assert forall t :: t in group <==> t in trials && InGroup(key.0, key.1)(t);
  }

  lemma SomeKept(keep: Trial -> bool, s: seq<Trial>)
    ensures |Filter(keep, s)| > 0 <==> exists t :: t in s && keep(t)
  {
    if |Filter(keep, s)| > 0 {
      assert Filter(keep, s)[0] in s;
    }
  }

  lemma MetricMeasures(trials: seq<Trial>, key: Key, t: Trial)
    requires t in trials && KeyOf(t) == key
    ensures Measures(trials, MetricOf(trials)(key))
  {
    GroupCounts(trials, key);
    GroupFlags(trials, key);
    assert InGroup(key.0, key.1)(t);
  }

  function MetricKey(m: MetricGroup): Key {
    (m.baselineId, m.mutationId)
  }

  // One group for each baseline and mutation that some trial has, in order of the mutation.
  ghost predicate GroupsAre(metrics: seq<MetricGroup>, trials: seq<Trial>) {
    AllMeasure(metrics, trials) && AllGrouped(metrics, trials) && GroupsOnce(metrics) && MutationsOrdered(metrics)
  }

  ghost predicate AllMeasure(metrics: seq<MetricGroup>, trials: seq<Trial>) {
    forall m :: m in metrics ==> Measures(trials, m)
  }

  ghost predicate AllGrouped(metrics: seq<MetricGroup>, trials: seq<Trial>) {
    forall t :: t in trials ==> exists m :: m in metrics && m.baselineId == t.baselineId && m.mutationId == t.mutationId
  }

  ghost predicate GroupsOnce(metrics: seq<MetricGroup>) {
    forall i, j :: 0 <= i < j < |metrics| ==>
      metrics[i].baselineId != metrics[j].baselineId || metrics[i].mutationId != metrics[j].mutationId
  }

  ghost predicate MutationsOrdered(metrics: seq<MetricGroup>) {
    forall i, j :: 0 <= i < j < |metrics| ==> !Less(metrics[j].mutationId, metrics[i].mutationId)
  }

  lemma MetricOrderTotal()
    ensures TotalPreorder(MetricAtMost)
  {
    TextOrderTotal();
    forall a: MetricGroup, b: MetricGroup ensures MetricAtMost(a, b) || MetricAtMost(b, a) {
      assert TextAtMost(a.mutationId, b.mutationId) || TextAtMost(b.mutationId, a.mutationId);
    }
    forall a: MetricGroup, b: MetricGroup, c: MetricGroup | MetricAtMost(a, b) && MetricAtMost(b, c) ensures MetricAtMost(a, c) {
      assert TextAtMost(a.mutationId, b.mutationId) && TextAtMost(b.mutationId, c.mutationId);
    }
  }

  lemma KeysMeasure(trials: seq<Trial>, keys: seq<Key>)
    requires keys == Deduplicate(Map(KeyOf, trials))
    ensures AllMeasure(Map(MetricOf(trials), keys), trials)
  {
    var all, metrics := Map(KeyOf, trials), Map(MetricOf(trials), keys);
    forall m | m in metrics ensures Measures(trials, m) {
      var i :| 0 <= i < |metrics| && metrics[i] == m;
      assert keys[i] in keys && keys[i] in all;
      var k :| 0 <= k < |trials| && all[k] == keys[i];
      MetricMeasures(trials, keys[i], trials[k]);
    }
  }

  lemma KeysGroup(trials: seq<Trial>, keys: seq<Key>)
    requires keys == Deduplicate(Map(KeyOf, trials))
    ensures AllGrouped(Map(MetricOf(trials), keys), trials)
  {
    var all, metrics := Map(KeyOf, trials), Map(MetricOf(trials), keys);
    forall t | t in trials ensures exists m :: m in metrics && m.baselineId == t.baselineId && m.mutationId == t.mutationId {
      var k :| 0 <= k < |trials| && trials[k] == t;
      assert all[k] == KeyOf(t) && KeyOf(t) in keys;
      var i :| 0 <= i < |keys| && keys[i] == KeyOf(t);
      assert metrics[i] in metrics && MetricKey(metrics[i]) == KeyOf(t);
    }
  }

  lemma SortedGroups(metrics: seq<MetricGroup>, trials: seq<Trial>)
    requires AllMeasure(metrics, trials) && AllGrouped(metrics, trials)
    requires forall i, j :: 0 <= i < j < |metrics| ==> MetricKey(metrics[i]) != MetricKey(metrics[j])
    ensures GroupsAre(Sort(MetricAtMost, metrics), trials)
  {
    var sorted := Sort(MetricAtMost, metrics);
    SortPermutes(MetricAtMost, metrics);
    SortedOnce(metrics, sorted);
    SortedByMutation(metrics);
    GroupedAlike(metrics, sorted, trials);
  }

  lemma GroupedAlike(metrics: seq<MetricGroup>, sorted: seq<MetricGroup>, trials: seq<Trial>)
    requires AllGrouped(metrics, trials) && forall m :: m in sorted <==> m in metrics
    ensures AllGrouped(sorted, trials)
  {
    forall t | t in trials ensures exists m :: m in sorted && m.baselineId == t.baselineId && m.mutationId == t.mutationId {
      var m :| m in metrics && m.baselineId == t.baselineId && m.mutationId == t.mutationId;
      assert m in sorted;
    }
  }

  lemma SortedOnce(metrics: seq<MetricGroup>, sorted: seq<MetricGroup>)
    requires forall i, j :: 0 <= i < j < |metrics| ==> MetricKey(metrics[i]) != MetricKey(metrics[j])
    requires multiset(sorted) == multiset(metrics)
    ensures GroupsOnce(sorted)
  {
    DistinctKeysPermute(MetricKey, metrics, sorted);
    forall i, j | 0 <= i < j < |sorted| ensures MetricKey(sorted[i]) != MetricKey(sorted[j]) {
    }
  }

  lemma SortedByMutation(metrics: seq<MetricGroup>)
    ensures MutationsOrdered(Sort(MetricAtMost, metrics))
  {
    var sorted := Sort(MetricAtMost, metrics);
    MetricOrderTotal();
    SortSorts(MetricAtMost, metrics);
    forall i, j | 0 <= i < j < |sorted| ensures !Less(sorted[j].mutationId, sorted[i].mutationId) {
      assert MetricAtMost(sorted[i], sorted[j]);
    }
  }

  lemma GroupsExact(trials: seq<Trial>)
    ensures GroupsAre(Metrics(trials), trials)
  {
    var keys := Deduplicate(Map(KeyOf, trials));
    var metrics := Map(MetricOf(trials), keys);
    KeysMeasure(trials, keys);
    KeysGroup(trials, keys);
    forall i, j | 0 <= i < j < |metrics| ensures MetricKey(metrics[i]) != MetricKey(metrics[j]) {
      assert MetricKey(metrics[i]) == keys[i] && MetricKey(metrics[j]) == keys[j];
    }
    SortedGroups(metrics, trials);
  }

  // ----- The report -----

  ghost function Failed(category: Category): Trial -> bool {
    (t: Trial) => t.failureCategory == Some(category)
  }

  ghost function Repaired(): Trial -> bool {
    (t: Trial) => t.repaired
  }

  ghost predicate SummaryIs(summary: Summary, trials: seq<Trial>) {
    && summary.trialCount == |trials|
    && summary.repairedCount == |Places(trials, Repaired())|
    && summary.failedCount == |trials| - summary.repairedCount
    && forall c: Category :: c in summary.failureCounts && summary.failureCounts[c] == |Places(trials, Failed(c))|
  }

  ghost predicate TrialsAscend(trials: seq<Trial>) {
    forall i, j :: 0 <= i < j < |trials| ==> Less(trials[i].trialId, trials[j].trialId)
  }

  // The trials in order of their ids, with their groups and summary.
  ghost predicate ReportIs(report: Report, trials: seq<Trial>, producerVersion: Text) {
    && report.producerVersion == producerVersion
    && multiset(report.trials) == multiset(trials) && TrialsAscend(report.trials)
    && GroupsAre(report.metrics, report.trials) && SummaryIs(report.summary, report.trials)
  }

  lemma SummaryExact(trials: seq<Trial>)
    ensures SummaryIs(SummaryOf(trials), trials)
  {
    FilterSize(IsRepaired, trials);
    assert Places(trials, IsRepaired) == Places(trials, Repaired());
    forall c: Category ensures |Filter(HasCategory(c), trials)| == |Places(trials, Failed(c))| {
      FilterSize(HasCategory(c), trials);
      assert Places(trials, HasCategory(c)) == Places(trials, Failed(c));
    }
  }

  lemma TrialsSorted(trials: seq<Trial>)
    requires DistinctIds(trials)
    ensures TrialsAscend(Sort(TrialAtMost, trials))
  {
    var sorted := Sort(TrialAtMost, trials);
    SortPermutes(TrialAtMost, trials);
    SameIds(trials, sorted);
    TrialOrderTotal();
    SortSorts(TrialAtMost, trials);
    forall i, j | 0 <= i < j < |sorted| ensures Less(sorted[i].trialId, sorted[j].trialId) {
      assert TrialAtMost(sorted[i], sorted[j]);
      LessTotal(sorted[i].trialId, sorted[j].trialId);
    }
  }

  // A report is made exactly if no trial id is repeated, and then it is that of the trials.
  lemma ReportExact(trials: seq<Trial>, producerVersion: Text)
    ensures CreateAgentTrialReport(trials, producerVersion).Some? <==>
      forall i, j :: 0 <= i < j < |trials| ==> trials[i].trialId != trials[j].trialId
    ensures CreateAgentTrialReport(trials, producerVersion).Some? ==>
      ReportIs(CreateAgentTrialReport(trials, producerVersion).value, trials, producerVersion)
  {
    if DistinctIds(trials) {
      var sorted := Sort(TrialAtMost, trials);
      SortPermutes(TrialAtMost, trials);
      TrialsSorted(trials);
      GroupsExact(sorted);
      SummaryExact(sorted);
    }
  }

  // ----- Merging -----

  // All trials of all evidence, once for each time they occur.
  ghost function TrialsOf(items: seq<Evidence>): multiset<Trial> {
    if items == [] then multiset{} else multiset(items[0].report.trials) + TrialsOf(items[1..])
  }

  lemma {:induction false} AllTrialsAre(items: seq<Evidence>)
    ensures multiset(AllTrials(items)) == TrialsOf(items)
  {
    if items != [] {
      AllTrialsAre(items[1..]);
      AllTrialsConcat([items[0]], items[1..]);
      assert items == [items[0]] + items[1..] && [items[0]][..0] == [];
    }
  }

  // No two of all the trials have one id.
  ghost predicate IdsOnce(trials: multiset<Trial>) {
    && (forall t :: t in trials ==> trials[t] == 1)
    && (forall s, t :: s in trials && t in trials && s.trialId == t.trialId ==> s == t)
  }

  lemma IdsExact(trials: seq<Trial>)
    ensures DistinctIds(trials) <==> IdsOnce(multiset(trials))
  {
    if DistinctIds(trials) {
      forall t | t in multiset(trials) ensures multiset(trials)[t] == 1 {
        var i: nat :| i < |trials| && trials[i] == t;
        assert forall i, j :: 0 <= i < j < |trials| ==> TrialIdOf(trials[i]) != TrialIdOf(trials[j]);
        OnceIn(TrialIdOf, trials, i);
      }
      forall s, t | s in multiset(trials) && t in multiset(trials) && s.trialId == t.trialId ensures s == t {
        var i :| 0 <= i < |trials| && trials[i] == s;
        var j :| 0 <= j < |trials| && trials[j] == t;
      }
    }
    if IdsOnce(multiset(trials)) {
      forall i, j | 0 <= i < j < |trials| ensures trials[i].trialId != trials[j].trialId {
        assert trials[i] in multiset(trials) && trials[j] in multiset(trials);
        if trials[i] == trials[j] {
          TwiceIn(trials, i, j);
        }
      }
    }
  }

  // The trial states the outcome it should.
  ghost predicate OutcomeRight(t: Trial) {
    t.failureCategory == ClassifyFailure(t) && (t.repaired <==> t.failureCategory == None)
  }

  // The evidence's trials state the outcomes they should, and its report is the one they give.
  ghost predicate EvidenceRight(e: Evidence) {
    && (forall t :: t in e.report.trials ==> OutcomeRight(t))
    && CreateAgentTrialReport(e.report.trials, e.report.producerVersion) == Some(e.report)
  }

  // There is evidence, all of it right, of one execution and one producer, and with some trials, none of them twice.
  ghost predicate Cohort(items: seq<Evidence>) {
    && items != [] && (forall e :: e in items ==> EvidenceRight(e))
    && (forall d, e :: d in items && e in items ==> Alike(d, e))
    && (exists e :: e in items && e.report.trials != [])
    && IdsOnce(TrialsOf(items))
  }

  lemma {:induction false} SomeTrials(items: seq<Evidence>)
    ensures AllTrials(items) != [] <==> exists e :: e in items && e.report.trials != []
  {
    if items != [] {
      var rest, last := items[..|items| - 1], items[|items| - 1];
      SomeTrials(rest);
      assert items == rest + [last];
    }
  }

  lemma EvidenceExact(e: Evidence)
    ensures ValidEvidence(e) <==> EvidenceRight(e)
  {
    if ValidEvidence(e) {
      forall t | t in e.report.trials ensures OutcomeRight(t) {
        var i :| 0 <= i < |e.report.trials| && e.report.trials[i] == t;
        assert ValidTrial(e.report.trials[i]);
      }
    }
    if EvidenceRight(e) {
      forall i | 0 <= i < |e.report.trials| ensures ValidTrial(e.report.trials[i]) {
        assert OutcomeRight(e.report.trials[i]);
      }
    }
  }

  lemma {:induction false} AllRight(items: seq<Evidence>)
    ensures AllValid(items) <==> forall e :: e in items ==> EvidenceRight(e)
  {
    if items != [] {
      var rest, last := items[..|items| - 1], items[|items| - 1];
      assert items == rest + [last];
      AllRight(rest);
      EvidenceExact(last);
      assert AllValid(items) <==> AllValid(rest) && ValidEvidence(last);
    }
  }

  ghost predicate Alike(d: Evidence, e: Evidence) {
    d.execution == e.execution && d.report.producerVersion == e.report.producerVersion
  }

  lemma OneOrigin(items: seq<Evidence>)
    requires items != []
    ensures OneCohort(items, items[0].execution, items[0].report.producerVersion) <==>
      forall d, e :: d in items && e in items ==> Alike(d, e)
  {
    if OneCohort(items, items[0].execution, items[0].report.producerVersion) {
      forall e | e in items ensures Alike(e, items[0]) {
        var i :| 0 <= i < |items| && items[i] == e;
      }
    }
    if forall d, e :: d in items && e in items ==> Alike(d, e) {
      forall i | 0 <= i < |items| ensures Alike(items[i], items[0]) {
        assert items[i] in items && items[0] in items;
      }
    }
  }

  lemma CohortExact(items: seq<Evidence>)
    ensures Mergeable(items) <==> Cohort(items)
  {
    AllTrialsAre(items);
    IdsExact(AllTrials(items));
    SomeTrials(items);
    AllRight(items);
    if items != [] {
      OneOrigin(items);
    }
  }

  // Evidence is merged exactly if it is of one cohort, and the merged report is that of all its trials.
  lemma MergeExact(items: seq<Evidence>)
    ensures MergeAgentTrialEvidence(items).Some? <==> Cohort(items)
    ensures MergeAgentTrialEvidence(items).Some? ==>
      var merged := MergeAgentTrialEvidence(items).value;
      && (forall e :: e in items ==> merged.execution == e.execution && merged.report.producerVersion == e.report.producerVersion)
      && multiset(merged.report.trials) == TrialsOf(items)
      && ReportIs(merged.report, merged.report.trials, merged.report.producerVersion)
  {
    CohortExact(items);
    if Mergeable(items) {
      AllTrialsAre(items);
      ReportExact(AllTrials(items), items[0].report.producerVersion);
      assert items[0] in items;
    }
  }
}
