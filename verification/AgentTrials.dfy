/**
 Trial reports with derived metrics, and merging the evidence of one cohort
 (internal/fixture-kit/src/agent-trial.ts and internal/agent-runner/src/execution-descriptor.ts).
 */
module AgentTrials {
  import opened Wrappers
  import opened Texts
  import opened Sequences
  import opened Sorting

  datatype Category = AgentError | CheckFailed | ContractWeakened | DiagnosticNotProduced | SemanticRegression

  datatype Trial = Trial(
    trialId: Text,
    mutationId: Text,
    baselineId: Text,
    detectionPassed: bool,
    adapterCompleted: bool,
    checkPassed: bool,
    protectedFilesChanged: seq<Text>,
    semanticCheckPassed: bool,
    repaired: bool,
    failureCategory: Option<Category>,
    evidence: Text)

  type Key = (Text, Text)

  datatype MetricGroup = MetricGroup(
    mutationId: Text,
    baselineId: Text,
    trialCount: nat,
    repairedCount: nat,
    anyTrialRepaired: bool,
    allTrialsRepaired: bool)

  datatype Report = Report(
    producerVersion: Text,
    trials: seq<Trial>,
    metrics: seq<MetricGroup>,
    summary: Summary)

  datatype Summary = Summary(trialCount: nat, repairedCount: nat, failedCount: int, failureCounts: map<Category, nat>)

  function ClassifyFailure(t: Trial): Option<Category> {
    if !t.detectionPassed then Some(DiagnosticNotProduced)
    else if |t.protectedFilesChanged| > 0 then Some(ContractWeakened)
    else if !t.adapterCompleted then Some(if t.checkPassed && !t.semanticCheckPassed then SemanticRegression else AgentError)
    else if !t.semanticCheckPassed then Some(SemanticRegression)
    else if !t.checkPassed then Some(CheckFailed)
    else None
  }

  // What validateTrial demands of the outcome a trial states.
  predicate ValidTrial(t: Trial) {
    t.failureCategory == ClassifyFailure(t) && (t.repaired <==> ClassifyFailure(t).None?)
  }

  // A trial counts as repaired exactly if everything it was checked for holds.
  lemma RepairedMeans(t: Trial)
    requires ValidTrial(t)
    ensures t.repaired <==>
      t.detectionPassed && t.protectedFilesChanged == [] && t.adapterCompleted && t.semanticCheckPassed && t.checkPassed
  {
  }

  // ----- The report -----

  predicate TrialAtMost(a: Trial, b: Trial) {
    TextAtMost(a.trialId, b.trialId)
  }

  function TrialIdOf(t: Trial): Text {
    t.trialId
  }

  function KeyOf(t: Trial): Key {
    (t.baselineId, t.mutationId)
  }

  function HasKey(key: Key): Trial -> bool {
    t => KeyOf(t) == key
  }

  predicate IsRepaired(t: Trial) {
    t.repaired
  }

  function HasCategory(category: Category): Trial -> bool {
    (t: Trial) => t.failureCategory == Some(category)
  }

  predicate MetricAtMost(a: MetricGroup, b: MetricGroup) {
    TextAtMost(a.mutationId, b.mutationId)
  }

  function GroupMetric(key: Key, group: seq<Trial>): MetricGroup {
    var repaired := |Filter(IsRepaired, group)|;
    MetricGroup(key.1, key.0, |group|, repaired, repaired > 0, repaired == |group|)
  }

  function MetricOf(trials: seq<Trial>): Key -> MetricGroup {
    key => GroupMetric(key, Filter(HasKey(key), trials))
  }

  // The groups in the order their keys first occur, then sorted by mutation.
  function Metrics(sorted: seq<Trial>): seq<MetricGroup> {
    Sort(MetricAtMost, Map(MetricOf(sorted), Deduplicate(Map(KeyOf, sorted))))
  }

  predicate DistinctIds(trials: seq<Trial>) {
    forall i, j :: 0 <= i < j < |trials| ==> trials[i].trialId != trials[j].trialId
  }

  function FailureCounts(trials: seq<Trial>): (counts: map<Category, nat>)
    ensures forall c: Category :: c in counts
  {
    map c: Category | true :: c := |Filter(HasCategory(c), trials)|
  }

  function CreateAgentTrialReport(trials: seq<Trial>, producerVersion: Text): Option<Report> {
    if !DistinctIds(trials) then None
    else
      var sorted := Sort(TrialAtMost, trials);
      Some(Report(producerVersion, sorted, Metrics(sorted), SummaryOf(sorted)))
  }

  function SummaryOf(trials: seq<Trial>): Summary {
    var repaired := |Filter(IsRepaired, trials)|;
    Summary(|trials|, repaired, |trials| - repaired, FailureCounts(trials))
  }

  lemma TrialOrderTotal()
    ensures TotalPreorder(TrialAtMost)
  {
    TextOrderTotal();
    forall a: Trial, b: Trial ensures TrialAtMost(a, b) || TrialAtMost(b, a) {
      assert TextAtMost(a.trialId, b.trialId) || TextAtMost(b.trialId, a.trialId);
    }
    forall a: Trial, b: Trial, c: Trial | TrialAtMost(a, b) && TrialAtMost(b, c) ensures TrialAtMost(a, c) {
      assert TextAtMost(a.trialId, b.trialId) && TextAtMost(b.trialId, c.trialId);
    }
  }

  lemma SameIds(a: seq<Trial>, b: seq<Trial>)
    requires multiset(a) == multiset(b)
    ensures DistinctIds(a) <==> DistinctIds(b)
  {
    if DistinctIds(a) {
      DistinctKeysPermute(TrialIdOf, a, b);
      assert forall i, j :: 0 <= i < j < |b| ==> TrialIdOf(b[i]) != TrialIdOf(b[j]);
    }
    if DistinctIds(b) {
      DistinctKeysPermute(TrialIdOf, b, a);
      assert forall i, j :: 0 <= i < j < |a| ==> TrialIdOf(a[i]) != TrialIdOf(a[j]);
    }
  }

  // The order in which trials are handed over does not matter.
  lemma ReportOfPermutation(a: seq<Trial>, b: seq<Trial>, producerVersion: Text)
    requires multiset(a) == multiset(b)
    ensures CreateAgentTrialReport(a, producerVersion) == CreateAgentTrialReport(b, producerVersion)
  {
    SameIds(a, b);
    if DistinctIds(a) {
      TrialOrderTotal();
      forall x, y | x in a && y in a && TrialAtMost(x, y) && TrialAtMost(y, x)
        ensures x == y
      {
        LessTotal(x.trialId, y.trialId);
      }
      SortInvariant(TrialAtMost, a, b);
    }
  }

  // A report is what creating one from its own trials gives, so a created report validates.
  lemma ReportOfItself(trials: seq<Trial>, producerVersion: Text)
    requires DistinctIds(trials)
    ensures
      var report := CreateAgentTrialReport(trials, producerVersion);
      CreateAgentTrialReport(report.value.trials, producerVersion) == report
  {
    var sorted := Sort(TrialAtMost, trials);
    TrialOrderTotal();
    SortPermutes(TrialAtMost, trials);
    ReportOfPermutation(trials, sorted, producerVersion);
  }

  // ----- The grouping loop -----

  // The groups made so far, with their keys in the order they first occurred.
  ghost predicate Grouped(trials: seq<Trial>, order: seq<Key>, groups: map<Key, seq<Trial>>) {
    && order == Deduplicate(Map(KeyOf, trials))
    && (forall k :: k in groups <==> k in order)
    && GroupsOf(trials, groups)
  }

  ghost predicate GroupsOf(trials: seq<Trial>, groups: map<Key, seq<Trial>>) {
    forall k :: k in groups ==> groups[k] == Filter(HasKey(k), trials)
  }

  lemma GroupedAgain(trials: seq<Trial>, t: Trial, order: seq<Key>, groups: map<Key, seq<Trial>>)
    requires Grouped(trials, order, groups) && KeyOf(t) in groups
    ensures Grouped(trials + [t], order, groups[KeyOf(t) := groups[KeyOf(t)] + [t]])
  {
    KeysStep(trials, t);
    GroupsAgain(trials, t, groups);
  }

  lemma GroupsAgain(trials: seq<Trial>, t: Trial, groups: map<Key, seq<Trial>>)
    requires GroupsOf(trials, groups) && KeyOf(t) in groups
    ensures GroupsOf(trials + [t], groups[KeyOf(t) := groups[KeyOf(t)] + [t]])
  {
    forall k | k in groups ensures Filter(HasKey(k), trials + [t]) == if k == KeyOf(t) then groups[k] + [t] else groups[k] {
      GroupStep(trials, t, k);
    }
  }

  lemma GroupStep(trials: seq<Trial>, t: Trial, key: Key)
    ensures Filter(HasKey(key), trials + [t]) ==
      if key == KeyOf(t) then Filter(HasKey(key), trials) + [t] else Filter(HasKey(key), trials)
  {
    FilterAppend(HasKey(key), trials, t);
    assert Filter(HasKey(key), trials) + [] == Filter(HasKey(key), trials);
  }

  lemma GroupedFirst(trials: seq<Trial>, t: Trial, order: seq<Key>, groups: map<Key, seq<Trial>>)
    requires Grouped(trials, order, groups) && KeyOf(t) !in groups
    ensures Grouped(trials + [t], order + [KeyOf(t)], groups[KeyOf(t) := [t]])
  {
    KeysStep(trials, t);
    FirstOfKey(trials, t);
    GroupsFirst(trials, t, groups);
  }

  lemma GroupsFirst(trials: seq<Trial>, t: Trial, groups: map<Key, seq<Trial>>)
    requires GroupsOf(trials, groups) && KeyOf(t) !in groups && Filter(HasKey(KeyOf(t)), trials + [t]) == [t]
    ensures GroupsOf(trials + [t], groups[KeyOf(t) := [t]])
  {
    forall k | k in groups ensures Filter(HasKey(k), trials + [t]) == groups[k] {
      GroupStep(trials, t, k);
    }
  }

  lemma FirstOfKey(trials: seq<Trial>, t: Trial)
    requires KeyOf(t) !in Deduplicate(Map(KeyOf, trials))
    ensures Filter(HasKey(KeyOf(t)), trials + [t]) == [t]
  {
    NoneWithKey(trials, KeyOf(t));
    GroupStep(trials, t, KeyOf(t));
    assert [] + [t] == [t];
  }

  lemma NoneWithKey(trials: seq<Trial>, key: Key)
    requires key !in Deduplicate(Map(KeyOf, trials))
    ensures Filter(HasKey(key), trials) == []
  {
    forall t | t in trials
      ensures KeyOf(t) != key
    {
      var i :| 0 <= i < |trials| && trials[i] == t;
      assert Map(KeyOf, trials)[i] == KeyOf(t);
    }
  }

  lemma KeysStep(trials: seq<Trial>, t: Trial)
    ensures
      var before := Deduplicate(Map(KeyOf, trials));
      Deduplicate(Map(KeyOf, trials + [t])) == if KeyOf(t) in before then before else before + [KeyOf(t)]
  {
    var keys := Map(KeyOf, trials + [t]);
    assert keys[..|keys| - 1] == Map(KeyOf, trials);
  }

  method GroupTrials(trials: seq<Trial>) returns (order: seq<Key>, groups: map<Key, seq<Trial>>)
    ensures Grouped(trials, order, groups)
  {
    order, groups := [], map[];
    for i := 0 to |trials|
      invariant Grouped(trials[..i], order, groups)
    {
      var t := trials[i];
      assert trials[..i + 1] == trials[..i] + [t];
      if KeyOf(t) in groups {
        GroupedAgain(trials[..i], t, order, groups);
        groups := groups[KeyOf(t) := groups[KeyOf(t)] + [t]];
      } else {
        GroupedFirst(trials[..i], t, order, groups);
        order, groups := order + [KeyOf(t)], groups[KeyOf(t) := [t]];
      }
    }
    assert trials[..|trials|] == trials;
  }

  method RejectDuplicateIds(sorted: seq<Trial>) returns (duplicate: bool)
    ensures duplicate <==> !DistinctIds(sorted)
  {
    var seenTrialIds: set<Text> := {};
    for i := 0 to |sorted|
      invariant seenTrialIds == set j | 0 <= j < i :: sorted[j].trialId
      invariant forall j, k :: 0 <= j < k < i ==> sorted[j].trialId != sorted[k].trialId
    {
      if sorted[i].trialId in seenTrialIds {
        return true;
      }
      seenTrialIds := seenTrialIds + {sorted[i].trialId};
    }
    duplicate := false;
  }

  method GroupMetrics(ghost sorted: seq<Trial>, order: seq<Key>, groups: map<Key, seq<Trial>>) returns (metrics: seq<MetricGroup>)
    requires forall i :: 0 <= i < |order| ==> order[i] in groups && groups[order[i]] == Filter(HasKey(order[i]), sorted)
    ensures metrics == Map(MetricOf(sorted), order)
  {
    metrics := [];
    for i := 0 to |order|
      invariant |metrics| == i && forall j :: 0 <= j < i ==> metrics[j] == MetricOf(sorted)(order[j])
    {
      metrics := metrics + [GroupMetric(order[i], groups[order[i]])];
      assert metrics[i] == MetricOf(sorted)(order[i]);
    }
  }

  // Duplicates are looked for in the sorted trials, which are then grouped.
  method BuildAgentTrialReport(trials: seq<Trial>, producerVersion: Text) returns (r: Option<Report>)
    ensures r == CreateAgentTrialReport(trials, producerVersion)
  {
    var sorted := Sort(TrialAtMost, trials);
    SortPermutes(TrialAtMost, trials);
    SameIds(trials, sorted);
    var duplicate := RejectDuplicateIds(sorted);
    if duplicate {
      return None;
    }
    var order, groups := GroupTrials(sorted);
    var metrics := GroupMetrics(sorted, order, groups);
    r := Some(Report(producerVersion, sorted, Sort(MetricAtMost, metrics), SummaryOf(sorted)));
  }

  // ----- Counts -----

  function TrialTotal(metrics: seq<MetricGroup>): nat {
    if metrics == [] then 0 else TrialTotal(metrics[..|metrics| - 1]) + metrics[|metrics| - 1].trialCount
  }

  function RepairedTotal(metrics: seq<MetricGroup>): nat {
    if metrics == [] then 0 else RepairedTotal(metrics[..|metrics| - 1]) + metrics[|metrics| - 1].repairedCount
  }

  function CountWithin(keep: Trial -> bool, keys: seq<Key>, trials: seq<Trial>): nat {
    if keys == [] then 0
    else CountWithin(keep, keys[..|keys| - 1], trials) + |Filter(keep, Filter(HasKey(keys[|keys| - 1]), trials))|
  }

  lemma {:induction false} CountAppend(keep: Trial -> bool, keys: seq<Key>, trials: seq<Trial>, t: Trial)
    requires Distinct(keys)
    ensures CountWithin(keep, keys, trials + [t]) ==
      CountWithin(keep, keys, trials) + if KeyOf(t) in keys && keep(t) then 1 else 0
  {
    if keys != [] {
      var rest, last := keys[..|keys| - 1], keys[|keys| - 1];
      assert keys == rest + [last];
      CountAppend(keep, rest, trials, t);
      FilterAppend(HasKey(last), trials, t);
      if KeyOf(t) == last {
        assert last !in rest;
        FilterAppend(keep, Filter(HasKey(last), trials), t);
      }
    }
  }

  // Distinct keys that cover all trials split them: the parts' counts add up to the whole's.
  lemma {:induction false} CountsAddUp(keep: Trial -> bool, keys: seq<Key>, trials: seq<Trial>)
    requires Distinct(keys) && forall t :: t in trials ==> KeyOf(t) in keys
    ensures CountWithin(keep, keys, trials) == |Filter(keep, trials)|
  {
    if trials == [] {
      CountNone(keep, keys);
    } else {
      var rest, last := trials[..|trials| - 1], trials[|trials| - 1];
      assert trials == rest + [last];
      CountsAddUp(keep, keys, rest);
      CountAppend(keep, keys, rest, last);
    }
  }

  lemma {:induction false} CountNone(keep: Trial -> bool, keys: seq<Key>)
    ensures CountWithin(keep, keys, []) == 0
  {
    if keys != [] {
      CountNone(keep, keys[..|keys| - 1]);
    }
  }

  predicate Any(t: Trial) {
    true
  }

  lemma {:induction false} FilterAny(s: seq<Trial>)
    ensures Filter(Any, s) == s
  {
    if s != [] {
      FilterAny(s[..|s| - 1]);
      assert s == s[..|s| - 1] + [s[|s| - 1]];
    }
  }

  lemma {:induction false} TotalsOfGroups(keys: seq<Key>, trials: seq<Trial>)
    ensures TrialTotal(Map(MetricOf(trials), keys)) == CountWithin(Any, keys, trials)
    ensures RepairedTotal(Map(MetricOf(trials), keys)) == CountWithin(IsRepaired, keys, trials)
  {
    if keys != [] {
      var rest, last := keys[..|keys| - 1], keys[|keys| - 1];
      TotalsOfGroups(rest, trials);
      var metrics := Map(MetricOf(trials), keys);
      assert metrics[..|metrics| - 1] == Map(MetricOf(trials), rest);
      FilterAny(Filter(HasKey(last), trials));
    }
  }

  lemma TotalsAppend(s: seq<MetricGroup>, x: MetricGroup)
    ensures TrialTotal(s + [x]) == TrialTotal(s) + x.trialCount && RepairedTotal(s + [x]) == RepairedTotal(s) + x.repairedCount
  {
    assert (s + [x])[..|s + [x]| - 1] == s;
  }

  lemma {:induction false} TotalsConcat(a: seq<MetricGroup>, b: seq<MetricGroup>)
    ensures TrialTotal(a + b) == TrialTotal(a) + TrialTotal(b) && RepairedTotal(a + b) == RepairedTotal(a) + RepairedTotal(b)
  {
    if b == [] {
      assert a + b == a;
    } else {
      var rest, last := b[..|b| - 1], b[|b| - 1];
      assert a + b == (a + rest) + [last] && b == rest + [last];
      TotalsAppend(a + rest, last);
      TotalsAppend(rest, last);
      TotalsConcat(a, rest);
    }
  }

  lemma {:induction false} TotalsInsert(x: MetricGroup, s: seq<MetricGroup>)
    ensures TrialTotal(Insert(MetricAtMost, x, s)) == x.trialCount + TrialTotal(s)
    ensures RepairedTotal(Insert(MetricAtMost, x, s)) == x.repairedCount + RepairedTotal(s)
  {
    TotalsAppend([], x);
    assert [] + [x] == [x];
    if s != [] {
      assert s == [s[0]] + s[1..];
      TotalsConcat([x], s);
      TotalsConcat([s[0]], s[1..]);
      TotalsInsert(x, s[1..]);
      TotalsConcat([s[0]], Insert(MetricAtMost, x, s[1..]));
    }
  }

  lemma {:induction false} TotalsSorted(s: seq<MetricGroup>)
    ensures TrialTotal(Sort(MetricAtMost, s)) == TrialTotal(s) && RepairedTotal(Sort(MetricAtMost, s)) == RepairedTotal(s)
  {
    if s != [] {
      TotalsSorted(s[1..]);
      TotalsInsert(s[0], Sort(MetricAtMost, s[1..]));
      assert s == [s[0]] + s[1..];
      TotalsConcat([s[0]], s[1..]);
      TotalsAppend([], s[0]);
      assert [] + [s[0]] == [s[0]];
    }
  }

  // Every trial is in exactly one group: the groups' counts add up to the report's.
  lemma GroupsAddUp(trials: seq<Trial>, producerVersion: Text)
    requires DistinctIds(trials)
    ensures
      var report := CreateAgentTrialReport(trials, producerVersion).value;
      TrialTotal(report.metrics) == |report.trials| == |trials| && RepairedTotal(report.metrics) == report.summary.repairedCount
  {
    var sorted := Sort(TrialAtMost, trials);
    var keys := Deduplicate(Map(KeyOf, sorted));
    SortPermutes(TrialAtMost, trials);
    forall t | t in sorted ensures KeyOf(t) in keys {
      var i :| 0 <= i < |sorted| && sorted[i] == t;
      assert Map(KeyOf, sorted)[i] == KeyOf(t);
    }
    TotalsSorted(Map(MetricOf(sorted), keys));
    TotalsOfGroups(keys, sorted);
    CountsAddUp(Any, keys, sorted);
    CountsAddUp(IsRepaired, keys, sorted);
    FilterAny(sorted);
  }

  function FailureTotal(counts: map<Category, nat>): nat
    requires forall c: Category :: c in counts
  {
    counts[AgentError] + counts[CheckFailed] + counts[ContractWeakened] + counts[DiagnosticNotProduced] + counts[SemanticRegression]
  }

  lemma {:induction false} OutcomesAddUp(trials: seq<Trial>)
    requires forall t :: t in trials ==> ValidTrial(t)
    ensures FailureTotal(FailureCounts(trials)) + |Filter(IsRepaired, trials)| == |trials|
  {
    if trials != [] {
      var rest, last := trials[..|trials| - 1], trials[|trials| - 1];
      assert trials == rest + [last];
      assert last in trials;
      OutcomesAddUp(rest);
    }
  }

  // On validated trials, the failures by category and the repaired trials make up all of them.
  lemma SummaryAddsUp(trials: seq<Trial>, producerVersion: Text)
    requires DistinctIds(trials) && forall t :: t in trials ==> ValidTrial(t)
    ensures
      var report := CreateAgentTrialReport(trials, producerVersion).value;
      && FailureTotal(report.summary.failureCounts) == report.summary.failedCount
      && report.summary.failedCount + report.summary.repairedCount == report.summary.trialCount == |trials|
  {
    SortPermutes(TrialAtMost, trials);
    OutcomesAddUp(Sort(TrialAtMost, trials));
  }

  // ----- Merging the evidence of a cohort -----

  // The execution stands for its serialised descriptor, of which the fingerprint is a function.
  datatype Evidence = Evidence(execution: Text, report: Report)

  // Its trials are valid and its report is the one they give.
  predicate ValidEvidence(e: Evidence) {
    && (forall i :: 0 <= i < |e.report.trials| ==> ValidTrial(e.report.trials[i]))
    && CreateAgentTrialReport(e.report.trials, e.report.producerVersion) == Some(e.report)
  }

  predicate AllValid(items: seq<Evidence>) {
    forall i :: 0 <= i < |items| ==> ValidEvidence(items[i])
  }

  function AllTrials(items: seq<Evidence>): seq<Trial> {
    if items == [] then [] else AllTrials(items[..|items| - 1]) + items[|items| - 1].report.trials
  }

  predicate OneCohort(items: seq<Evidence>, execution: Text, producerVersion: Text) {
    forall i :: 0 <= i < |items| ==> items[i].execution == execution && items[i].report.producerVersion == producerVersion
  }

  // There is evidence, all of it valid and of one execution and producer, with some trials and no trial twice.
  predicate Mergeable(items: seq<Evidence>) {
    && items != [] && AllValid(items)
    && OneCohort(items, items[0].execution, items[0].report.producerVersion)
    && AllTrials(items) != [] && DistinctIds(AllTrials(items))
  }

  function MergeAgentTrialEvidence(items: seq<Evidence>): Option<Evidence> {
    if !Mergeable(items) then None
    else Some(Evidence(items[0].execution, CreateAgentTrialReport(AllTrials(items), items[0].report.producerVersion).value))
  }

  lemma {:induction false} AllTrialsConcat(a: seq<Evidence>, b: seq<Evidence>)
    ensures AllTrials(a + b) == AllTrials(a) + AllTrials(b)
  {
    if b == [] {
      assert a + b == a;
    } else {
      var rest, last := b[..|b| - 1], b[|b| - 1];
      assert (a + b)[..|a + b| - 1] == a + rest;
      AllTrialsConcat(a, rest);
      ConcatAssociative(AllTrials(a), AllTrials(rest), last.report.trials);
    }
  }

  lemma AllTrialsMiddle(before: seq<Evidence>, e: Evidence, after: seq<Evidence>)
    ensures multiset(AllTrials(before + [e] + after)) == multiset(AllTrials(before + after)) + multiset(e.report.trials)
  {
    AllTrialsConcat(before, after);
    AllTrialsConcat(before + [e], after);
    assert (before + [e])[..|before + [e]| - 1] == before;
  }

  lemma OneRemoved(a: seq<Evidence>, b: seq<Evidence>) returns (j: nat)
    requires multiset(a) == multiset(b) && a != []
    ensures j < |b| && b[j] == a[|a| - 1] && b == b[..j] + [b[j]] + b[j + 1..]
    ensures multiset(a[..|a| - 1]) == multiset(b[..j] + b[j + 1..])
  {
    var rest, last := a[..|a| - 1], a[|a| - 1];
    assert a == rest + [last];
    assert last in multiset(b);
    j :| 0 <= j < |b| && b[j] == last;
    assert b == b[..j] + [last] + b[j + 1..];
    assert multiset(rest) == multiset(a) - multiset{last};
    assert multiset(b[..j] + b[j + 1..]) == multiset(b) - multiset{last};
  }

  lemma {:induction false} AllTrialsPermuted(a: seq<Evidence>, b: seq<Evidence>)
    requires multiset(a) == multiset(b)
    ensures multiset(AllTrials(a)) == multiset(AllTrials(b))
    decreases |a|
  {
    if a == [] {
      assert |multiset(b)| == 0;
    } else {
      var j := OneRemoved(a, b);
      AllTrialsPermuted(a[..|a| - 1], b[..j] + b[j + 1..]);
      AllTrialsMiddle(b[..j], b[j], b[j + 1..]);
    }
  }

  lemma ValidPermuted(a: seq<Evidence>, b: seq<Evidence>)
    requires multiset(a) == multiset(b) && AllValid(a)
    ensures AllValid(b)
  {
    forall i | 0 <= i < |b|
      ensures ValidEvidence(b[i])
    {
      assert b[i] in multiset(a);
      var j :| 0 <= j < |a| && a[j] == b[i];
    }
  }

  lemma CohortPermuted(a: seq<Evidence>, b: seq<Evidence>)
    requires multiset(a) == multiset(b) && a != [] && b != []
    requires OneCohort(a, a[0].execution, a[0].report.producerVersion)
    ensures OneCohort(b, b[0].execution, b[0].report.producerVersion)
    ensures a[0].execution == b[0].execution && a[0].report.producerVersion == b[0].report.producerVersion
  {
    forall i | 0 <= i < |b|
      ensures b[i].execution == a[0].execution && b[i].report.producerVersion == a[0].report.producerVersion
    {
      assert b[i] in multiset(a);
      var j :| 0 <= j < |a| && a[j] == b[i];
    }
  }

  lemma MergeablePermuted(a: seq<Evidence>, b: seq<Evidence>)
    requires multiset(a) == multiset(b) && Mergeable(a)
    ensures Mergeable(b) && b[0].execution == a[0].execution && b[0].report.producerVersion == a[0].report.producerVersion
  {
    assert |multiset(a)| == |a| && |multiset(b)| == |b|;
    ValidPermuted(a, b);
    CohortPermuted(a, b);
    AllTrialsPermuted(a, b);
    SameIds(AllTrials(a), AllTrials(b));
    assert |multiset(AllTrials(a))| == |AllTrials(a)| && |multiset(AllTrials(b))| == |AllTrials(b)|;
  }

  // Merging does not depend on the order of the evidence.
  lemma MergeOrderIndependent(a: seq<Evidence>, b: seq<Evidence>)
    requires multiset(a) == multiset(b)
    ensures MergeAgentTrialEvidence(a) == MergeAgentTrialEvidence(b)
  {
    if Mergeable(a) {
      MergeablePermuted(a, b);
      AllTrialsPermuted(a, b);
      ReportOfPermutation(AllTrials(a), AllTrials(b), a[0].report.producerVersion);
    } else if Mergeable(b) {
      MergeablePermuted(b, a);
    }
  }

  // Two merged halves merge to what the whole merges to, or neither can be merged.
  lemma MergeAssociative(a: seq<Evidence>, b: seq<Evidence>)
    requires Mergeable(a) && Mergeable(b)
    ensures MergeAgentTrialEvidence([MergeAgentTrialEvidence(a).value, MergeAgentTrialEvidence(b).value]) == MergeAgentTrialEvidence(a + b)
  {
    var x, y := MergeAgentTrialEvidence(a).value, MergeAgentTrialEvidence(b).value;
    MergedValid(a);
    MergedValid(b);
    HalvesCohort(a, b, x, y);
    HalvesTrials(a, b, x, y);
    WholeValid(a, b);
    BothValid(x, y);
    assert (a + b)[0] == a[0];
    SameMergeable([x, y], a + b);
    if Mergeable(a + b) {
      ReportOfPermutation(AllTrials([x, y]), AllTrials(a + b), x.report.producerVersion);
    }
  }

  lemma SameMergeable(a: seq<Evidence>, b: seq<Evidence>)
    requires a != [] && b != [] && AllValid(a) && AllValid(b)
    requires a[0].execution == b[0].execution && a[0].report.producerVersion == b[0].report.producerVersion
    requires OneCohort(a, a[0].execution, a[0].report.producerVersion) <==> OneCohort(b, b[0].execution, b[0].report.producerVersion)
    requires multiset(AllTrials(a)) == multiset(AllTrials(b)) && |AllTrials(a)| == |AllTrials(b)|
    ensures Mergeable(a) <==> Mergeable(b)
  {
    SameIds(AllTrials(a), AllTrials(b));
  }

  lemma WholeValid(a: seq<Evidence>, b: seq<Evidence>)
    requires AllValid(a) && AllValid(b)
    ensures AllValid(a + b)
  {
  }

  lemma BothValid(x: Evidence, y: Evidence)
    requires ValidEvidence(x) && ValidEvidence(y)
    ensures AllValid([x, y])
  {
  }

  lemma HalvesTrials(a: seq<Evidence>, b: seq<Evidence>, x: Evidence, y: Evidence)
    requires x.report.trials == Sort(TrialAtMost, AllTrials(a)) && y.report.trials == Sort(TrialAtMost, AllTrials(b))
    ensures multiset(AllTrials([x, y])) == multiset(AllTrials(a + b))
    ensures |AllTrials([x, y])| == |AllTrials(a + b)|
  {
    AllTrialsConcat(a, b);
    AllTrialsTwo(x, y);
    SortPermutes(TrialAtMost, AllTrials(a));
    SortPermutes(TrialAtMost, AllTrials(b));
  }

  lemma {:induction false} AllTrialsValid(items: seq<Evidence>, t: Trial)
    requires AllValid(items) && t in AllTrials(items)
    ensures ValidTrial(t)
  {
    var rest, last := items[..|items| - 1], items[|items| - 1];
    if t in last.report.trials {
      assert ValidEvidence(last);
    } else {
      AllTrialsValid(rest, t);
    }
  }

  // What was merged is valid evidence again.
  lemma MergedValid(items: seq<Evidence>)
    requires MergeAgentTrialEvidence(items).Some?
    ensures ValidEvidence(MergeAgentTrialEvidence(items).value)
  {
    var merged, trials := MergeAgentTrialEvidence(items).value, AllTrials(items);
    ReportOfItself(trials, merged.report.producerVersion);
    MergedTrialsValid(items, trials);
  }

  lemma MergedTrialsValid(items: seq<Evidence>, trials: seq<Trial>)
    requires trials == AllTrials(items) && AllValid(items)
    ensures forall t :: t in Sort(TrialAtMost, trials) ==> ValidTrial(t)
  {
    SortPermutes(TrialAtMost, trials);
    forall t | t in Sort(TrialAtMost, trials) ensures ValidTrial(t) {
      AllTrialsValid(items, t);
    }
  }

  lemma AllTrialsTwo(x: Evidence, y: Evidence)
    ensures AllTrials([x, y]) == x.report.trials + y.report.trials
  {
    assert [x, y][..1] == [x] && [x][..0] == [];
    assert AllTrials([x]) == x.report.trials;
  }

  lemma HalvesCohort(a: seq<Evidence>, b: seq<Evidence>, x: Evidence, y: Evidence)
    requires a != [] && b != []
    requires OneCohort(a, x.execution, x.report.producerVersion) && OneCohort(b, y.execution, y.report.producerVersion)
    ensures OneCohort([x, y], x.execution, x.report.producerVersion) <==> OneCohort(a + b, x.execution, x.report.producerVersion)
  {
    var whole := a + b;
    if OneCohort(whole, x.execution, x.report.producerVersion) {
      assert whole[|a|] == b[0];
    }
    if OneCohort([x, y], x.execution, x.report.producerVersion) {
      assert [x, y][1] == y;
      forall i | 0 <= i < |whole|
        ensures whole[i].execution == x.execution && whole[i].report.producerVersion == x.report.producerVersion
      {
        assert whole[i] == if i < |a| then a[i] else b[i - |a|];
      }
    }
  }
}
