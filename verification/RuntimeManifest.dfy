/**
 The runtime manifest, its canonical form (packages/contract/src/runtime-manifest.ts), and the dispatch of the
 reference runtime over it (packages/reference-runtime/src/runtime.ts).
 */
module RuntimeManifest {
  import opened Wrappers
  import opened Texts
  import opened Sequences
  import opened Sorting
  import opened Contracts
  import opened ContractValidation
  import opened RuntimeForm

  datatype Page = Page(id: Text, path: Text, html: Text)

  datatype Action = Action(id: Text, path: Text, handlerId: Text, input: InputContract)

  datatype Manifest = Manifest(producerName: Text, producerVersion: Text, pages: seq<Page>, actions: seq<Action>)

  // compareText on a first key, then on a second one.
  predicate PairAtMost(a: (Text, Text), b: (Text, Text)) {
    var byFirst := CompareText(a.0, b.0);
    if byFirst != 0 then byFirst < 0 else CompareText(a.1, b.1) <= 0
  }

  predicate PageAtMost(a: Page, b: Page) {
    PairAtMost((a.path, a.id), (b.path, b.id))
  }

  predicate ActionAtMost(a: Action, b: Action) {
    PairAtMost((a.path, a.id), (b.path, b.id))
  }

  predicate BindingAtMost(a: Binding, b: Binding) {
    PairAtMost((a.name, PathKey(a.path)), (b.name, PathKey(b.path)))
  }

  predicate IgnoredAtMost(a: IgnoredField, b: IgnoredField) {
    PairAtMost((a.name, a.consumer), (b.name, b.consumer))
  }

  // The properties are a map, so sorting their keys is the identity here.
  function CanonicalInput(input: InputContract): InputContract {
    InputContract(
      input.properties,
      Sort(TextAtMost, input.required),
      Sort(BindingAtMost, input.bindings),
      match input.ignored
      case None => None
      case Some(fields) => Some(Sort(IgnoredAtMost, fields)))
  }

  function CanonicalAction(action: Action): Action {
    Action(action.id, action.path, action.handlerId, CanonicalInput(action.input))
  }

  function Canonical(manifest: Manifest): Manifest {
    Manifest(
      manifest.producerName,
      manifest.producerVersion,
      Sort(PageAtMost, manifest.pages),
      Map(CanonicalAction, Sort(ActionAtMost, manifest.actions)))
  }

  // ----- The semantic rules of a manifest -----

  ghost predicate ManifestSound(manifest: Manifest) {
    && Distinct(Ids(manifest))
    && Distinct(Map((p: Page) => p.path, manifest.pages))
    && Distinct(Map((a: Action) => a.path, manifest.actions))
    && Distinct(Map((a: Action) => a.handlerId, manifest.actions))
  }

  function Ids(manifest: Manifest): seq<Text> {
    Map((p: Page) => p.id, manifest.pages) + Map((a: Action) => a.id, manifest.actions)
  }

  // collectUnique over a list of keys: how many keys were seen before.
  method CollectUnique(keys: seq<Text>, start: set<Text>) returns (repeated: nat, seen: set<Text>)
    ensures repeated == 0 <==> Distinct(keys) && forall k :: k in keys ==> k !in start
    ensures seen == start + Elements(keys)
  {
    repeated, seen := 0, start;
    for i := 0 to |keys|
      invariant seen == start + Elements(keys[..i])
      invariant repeated == 0 <==> Distinct(keys[..i]) && forall k :: k in keys[..i] ==> k !in start
    {
      assert keys[..i + 1] == keys[..i] + [keys[i]];
      if keys[i] in seen {
        repeated := repeated + 1;
      }
      seen := seen + {keys[i]};
    }
    assert keys[..|keys|] == keys;
  }

  method ManifestSemanticIssues(manifest: Manifest) returns (issues: nat)
    ensures issues == 0 <==> ManifestSound(manifest)
  {
    var pageIds, ids := CollectUnique(Map((p: Page) => p.id, manifest.pages), {});
    var pageRoutes, _ := CollectUnique(Map((p: Page) => p.path, manifest.pages), {});
    var actionIds, _ := CollectUnique(Map((a: Action) => a.id, manifest.actions), ids);
    var actionRoutes, _ := CollectUnique(Map((a: Action) => a.path, manifest.actions), {});
    var handlers, _ := CollectUnique(Map((a: Action) => a.handlerId, manifest.actions), {});
    DistinctConcat(Map((p: Page) => p.id, manifest.pages), Map((a: Action) => a.id, manifest.actions));
    issues := pageIds + pageRoutes + actionIds + actionRoutes + handlers;
  }

  lemma DistinctConcat(a: seq<Text>, b: seq<Text>)
    ensures Distinct(a + b) <==> Distinct(a) && Distinct(b) && forall k :: k in b ==> k !in Elements(a)
  {
    var all := a + b;
    if Distinct(all) {
      assert forall i :: 0 <= i < |a| ==> all[i] == a[i];
      assert forall j :: 0 <= j < |b| ==> all[|a| + j] == b[j];
      forall k | k in b ensures k !in Elements(a) {
        var j :| 0 <= j < |b| && b[j] == k;
        assert forall i :: 0 <= i < |a| ==> all[i] != all[|a| + j];
      }
      forall i, j | 0 <= i < j < |b| ensures b[i] != b[j] {
        assert all[|a| + i] != all[|a| + j];
      }
    } else if Distinct(a) && Distinct(b) {
      var i, j :| 0 <= i < j < |all| && all[i] == all[j];
      assert i < |a| <= j;
      assert b[j - |a|] in b && b[j - |a|] in Elements(a);
    }
  }

  // ----- Dispatch -----

  // new Map(actions by path).get(path): the last action of the path.
  function ActionAt(actions: seq<Action>, path: Text): (r: Option<Action>)
    ensures r.Some? ==> r.value in actions && r.value.path == path
    ensures r.None? ==> forall a :: a in actions ==> a.path != path
  {
    if actions == [] then None
    else if actions[|actions| - 1].path == path then Some(actions[|actions| - 1])
    else ActionAt(actions[..|actions| - 1], path)
  }

  function PageAt(pages: seq<Page>, path: Text): (r: Option<Page>)
    ensures r.Some? ==> r.value in pages && r.value.path == path
    ensures r.None? ==> forall p :: p in pages ==> p.path != path
  {
    if pages == [] then None
    else if pages[|pages| - 1].path == path then Some(pages[|pages| - 1])
    else PageAt(pages[..|pages| - 1], path)
  }

  datatype Verb = Get | Post | OtherVerb

  // What the runtime does with a request whose body has already been read into fields and passed the guard.
  datatype Response =
    | ServePage(html: Text)
    | Handled(actionId: Text, handlerId: Text, path: Text, input: map<Text, Value>)
    | Refused
    | ServerError
    | MethodNotAllowed(get: bool, post: bool)
    | NotFound

  function HandleAction(host: Host, action: Action, fields: RawFields): Response {
    if !RawFieldsAccepted(action.input, fields) then Refused
    else
      match DecodedInput(host, action.input, fields)
      case Failure(BadRequest) => Refused
      case Failure(_) => ServerError
      case Success(input) => Handled(action.id, action.handlerId, action.path, input)
  }

  function Handle(host: Host, manifest: Manifest, verb: Verb, path: Text, fields: RawFields): Response {
    var page, action := PageAt(manifest.pages, path), ActionAt(manifest.actions, path);
    if verb == Get && page.Some? then ServePage(page.value.html)
    else if verb == Post && action.Some? then HandleAction(host, action.value, fields)
    else if page.Some? || action.Some? then MethodNotAllowed(page.Some?, action.Some?)
    else NotFound
  }

  ghost predicate PagesMapped(pages: seq<Page>, mapped: map<Text, Page>) {
    && (forall path :: PageAt(pages, path) == if path in mapped then Some(mapped[path]) else None)
    && (Distinct(Map((p: Page) => p.path, pages)) ==> |mapped| == |pages|)
  }

  ghost predicate ActionsMapped(actions: seq<Action>, mapped: map<Text, Action>) {
    && (forall path :: ActionAt(actions, path) == if path in mapped then Some(mapped[path]) else None)
    && (Distinct(Map((a: Action) => a.path, actions)) ==> |mapped| == |actions|)
  }

  lemma PageMapped(pages: seq<Page>, page: Page, mapped: map<Text, Page>)
    requires PagesMapped(pages, mapped)
    ensures PagesMapped(pages + [page], mapped[page.path := page])
  {
    var all := pages + [page];
    assert all[..|all| - 1] == pages;
    var paths := Map((p: Page) => p.path, all);
    if Distinct(paths) {
      PrefixDistinct(paths, |pages|);
      assert paths[..|pages|] == Map((p: Page) => p.path, pages);
    }
  }

  lemma ActionMapped(actions: seq<Action>, action: Action, mapped: map<Text, Action>)
    requires ActionsMapped(actions, mapped)
    ensures ActionsMapped(actions + [action], mapped[action.path := action])
  {
    var all := actions + [action];
    assert all[..|all| - 1] == actions;
    var paths := Map((a: Action) => a.path, all);
    if Distinct(paths) {
      PrefixDistinct(paths, |actions|);
      assert paths[..|actions|] == Map((a: Action) => a.path, actions);
    }
  }

  lemma PrefixDistinct(s: seq<Text>, k: nat)
    requires k <= |s| && Distinct(s)
    ensures Distinct(s[..k])
  {
  }

  method PageRoutes(pages: seq<Page>) returns (mapped: map<Text, Page>)
    ensures PagesMapped(pages, mapped)
  {
    mapped := map[];
    for k := 0 to |pages|
      invariant PagesMapped(pages[..k], mapped)
    {
      PageMapped(pages[..k], pages[k], mapped);
      assert pages[..k + 1] == pages[..k] + [pages[k]];
      mapped := mapped[pages[k].path := pages[k]];
    }
    assert pages[..|pages|] == pages;
  }

  method ActionRoutes(actions: seq<Action>) returns (mapped: map<Text, Action>)
    ensures ActionsMapped(actions, mapped)
  {
    mapped := map[];
    for k := 0 to |actions|
      invariant ActionsMapped(actions[..k], mapped)
    {
      ActionMapped(actions[..k], actions[k], mapped);
      assert actions[..k + 1] == actions[..k] + [actions[k]];
      mapped := mapped[actions[k].path := actions[k]];
    }
    assert actions[..|actions|] == actions;
  }

  // The maps the runtime builds once; no entry is lost when the manifest is sound.
  method BuildRoutes(manifest: Manifest) returns (pages: map<Text, Page>, actions: map<Text, Action>)
    ensures forall path :: PageAt(manifest.pages, path) == if path in pages then Some(pages[path]) else None
    ensures forall path :: ActionAt(manifest.actions, path) == if path in actions then Some(actions[path]) else None
    ensures ManifestSound(manifest) ==> |pages| == |manifest.pages| && |actions| == |manifest.actions|
  {
    pages := PageRoutes(manifest.pages);
    actions := ActionRoutes(manifest.actions);
  }

  // validateRegistry: the sorted handler ids of the manifest are the sorted names of the registry.
  predicate RegistryMatches(manifest: Manifest, registry: seq<Text>) {
    Sort(TextAtMost, Map((a: Action) => a.handlerId, manifest.actions)) == Sort(TextAtMost, registry)
  }
}
