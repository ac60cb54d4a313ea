/**
 The order a canonical manifest is in, and that it is the manifest itself but for that order
 (packages/contract/src/runtime-manifest.ts, canonicalRuntimeManifest).
 */
module ManifestOrder {
  import opened Wrappers
  import opened Texts
  import opened Sequences
  import opened Sorting
  import opened Contracts
  import opened ContractValidation
  import opened RuntimeManifest
  import opened ManifestBehaviour

  // The same texts, and none before its predecessor.
  ghost predicate TextsOrdered(ordered: seq<Text>, texts: seq<Text>) {
    multiset(ordered) == multiset(texts) && forall i, j :: 0 <= i < j < |ordered| ==> !Less(ordered[j], ordered[i])
  }

  ghost predicate BindingsOrdered(ordered: seq<Binding>, bindings: seq<Binding>) {
    multiset(ordered) == multiset(bindings) && forall i, j :: 0 <= i < j < |ordered| ==> Less(ordered[i].name, ordered[j].name)
  }

  ghost predicate IgnoredOrdered(ordered: Option<seq<IgnoredField>>, ignored: Option<seq<IgnoredField>>) {
    match (ordered, ignored)
    case (None, None) => true
    case (Some(x), Some(y)) => multiset(x) == multiset(y) && forall i, j :: 0 <= i < j < |x| ==> Less(x[i].name, x[j].name)
    case _ => false
  }

  // The same contract with its lists in order.
  ghost predicate InputOrdered(ordered: InputContract, input: InputContract) {
    && ordered.properties == input.properties && TextsOrdered(ordered.required, input.required)
    && BindingsOrdered(ordered.bindings, input.bindings) && IgnoredOrdered(ordered.ignored, input.ignored)
  }

  ghost predicate ActionOrdered(ordered: Action, action: Action) {
    && ordered.id == action.id && ordered.path == action.path && ordered.handlerId == action.handlerId
    && InputOrdered(ordered.input, action.input)
  }

  ghost predicate PathsAscend(paths: seq<Text>) {
    forall i, j :: 0 <= i < j < |paths| ==> Less(paths[i], paths[j])
  }

  // The same actions in order of their paths, each with its own lists in order.
  ghost predicate ActionsOrdered(ordered: seq<Action>, actions: seq<Action>) {
    && PathsAscend(Map((a: Action) => a.path, ordered))
    && exists x: seq<Action> :: multiset(x) == multiset(actions) && |x| == |ordered|
         && forall i :: 0 <= i < |x| ==> ActionOrdered(ordered[i], x[i])
  }

  ghost predicate ManifestOrdered(ordered: Manifest, manifest: Manifest) {
    && ordered.producerName == manifest.producerName && ordered.producerVersion == manifest.producerVersion
    && multiset(ordered.pages) == multiset(manifest.pages) && PathsAscend(Map((p: Page) => p.path, ordered.pages))
    && ActionsOrdered(ordered.actions, manifest.actions)
  }

  lemma PairStrict(a: (Text, Text), b: (Text, Text))
    requires PairAtMost(a, b) && a.0 != b.0
    ensures Less(a.0, b.0)
  {
    CompareTotal(a.0, b.0);
  }

  lemma BindingsSorted(bindings: seq<Binding>)
    requires forall i, j :: 0 <= i < j < |bindings| ==> bindings[i].name != bindings[j].name
    ensures BindingsOrdered(Sort(BindingAtMost, bindings), bindings)
  {
    var sorted := Sort(BindingAtMost, bindings);
    OrdersTotal();
    SortSorts(BindingAtMost, bindings);
    SortPermutes(BindingAtMost, bindings);
    DistinctKeysPermute((b: Binding) => b.name, bindings, sorted);
    forall i, j | 0 <= i < j < |sorted| ensures Less(sorted[i].name, sorted[j].name) {
      assert BindingAtMost(sorted[i], sorted[j]);
      PairStrict((sorted[i].name, PathKey(sorted[i].path)), (sorted[j].name, PathKey(sorted[j].path)));
    }
  }

  lemma IgnoredSorted(ignored: seq<IgnoredField>)
    requires forall i, j :: 0 <= i < j < |ignored| ==> ignored[i].name != ignored[j].name
    ensures IgnoredOrdered(Some(Sort(IgnoredAtMost, ignored)), Some(ignored))
  {
    var sorted := Sort(IgnoredAtMost, ignored);
    OrdersTotal();
    SortSorts(IgnoredAtMost, ignored);
    SortPermutes(IgnoredAtMost, ignored);
    DistinctKeysPermute((f: IgnoredField) => f.name, ignored, sorted);
    forall i, j | 0 <= i < j < |sorted| ensures Less(sorted[i].name, sorted[j].name) {
      assert IgnoredAtMost(sorted[i], sorted[j]);
      PairStrict((sorted[i].name, sorted[i].consumer), (sorted[j].name, sorted[j].consumer));
    }
  }

  lemma RequiredSorted(required: seq<Text>)
    ensures TextsOrdered(Sort(TextAtMost, required), required)
  {
    TextOrderTotal();
    SortSorts(TextAtMost, required);
    SortPermutes(TextAtMost, required);
    var sorted := Sort(TextAtMost, required);
    forall i, j | 0 <= i < j < |sorted| ensures !Less(sorted[j], sorted[i]) {
      assert TextAtMost(sorted[i], sorted[j]);
    }
  }

  lemma ActionCanonical(action: Action)
    requires InputSound(action.input)
    ensures ActionOrdered(CanonicalAction(action), action)
  {
    RequiredSorted(action.input.required);
    BindingsSorted(action.input.bindings);
    if action.input.ignored.Some? {
      IgnoredSorted(action.input.ignored.value);
    }
  }

  lemma PagesSorted(pages: seq<Page>)
    requires Distinct(Map((p: Page) => p.path, pages))
    ensures PathsAscend(Map((p: Page) => p.path, Sort(PageAtMost, pages)))
  {
    var sorted := Sort(PageAtMost, pages);
    OrdersTotal();
    SortSorts(PageAtMost, pages);
    SortPermutes(PageAtMost, pages);
    PathsApart((p: Page) => p.path, pages, sorted);
    forall i, j | 0 <= i < j < |sorted| ensures Less(sorted[i].path, sorted[j].path) {
      assert PageAtMost(sorted[i], sorted[j]);
      PairStrict((sorted[i].path, sorted[i].id), (sorted[j].path, sorted[j].id));
    }
  }

  lemma PathsApart<T>(key: T -> Text, s: seq<T>, t: seq<T>)
    requires Distinct(Map(key, s)) && multiset(s) == multiset(t)
    ensures forall i, j :: 0 <= i < j < |t| ==> key(t[i]) != key(t[j])
  {
    forall i, j | 0 <= i < j < |s| ensures key(s[i]) != key(s[j]) {
      assert Map(key, s)[i] != Map(key, s)[j];
    }
    DistinctKeysPermute(key, s, t);
  }

  lemma ActionsSorted(actions: seq<Action>)
    requires Distinct(Map((a: Action) => a.path, actions)) && forall a :: a in actions ==> InputSound(a.input)
    ensures ActionsOrdered(Map(CanonicalAction, Sort(ActionAtMost, actions)), actions)
  {
    var sorted := Sort(ActionAtMost, actions);
    var ordered := Map(CanonicalAction, sorted);
    OrdersTotal();
    SortSorts(ActionAtMost, actions);
    SortPermutes(ActionAtMost, actions);
    PathsApart((a: Action) => a.path, actions, sorted);
    forall i, j | 0 <= i < j < |sorted| ensures Less(sorted[i].path, sorted[j].path) {
      assert ActionAtMost(sorted[i], sorted[j]);
      PairStrict((sorted[i].path, sorted[i].id), (sorted[j].path, sorted[j].id));
    }
    forall i | 0 <= i < |sorted| ensures ActionOrdered(ordered[i], sorted[i]) {
      assert sorted[i] in sorted;
      ActionCanonical(sorted[i]);
    }
  }

  // The canonical form of a sound manifest is the manifest itself with pages, actions and their lists in order.
  lemma CanonicalOrdered(manifest: Manifest)
    requires ManifestSound(manifest) && ActionsSound(manifest)
    ensures ManifestOrdered(Canonical(manifest), manifest)
  {
    SortPermutes(PageAtMost, manifest.pages);
    PagesSorted(manifest.pages);
    ActionsSorted(manifest.actions);
  }
}
