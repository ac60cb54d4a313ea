/**
 Canonicalising a manifest is idempotent, and changes what a request can observe only where decoding fails in two ways and
 the order of the bindings decides in which.
 */
module ManifestBehaviour {
  import opened Wrappers
  import opened Texts
  import opened Sequences
  import opened Sorting
  import opened PlainObjects
  import opened Contracts
  import opened ContractValidation
  import opened RuntimeForm
  import opened DecodeConformance
  import opened RuntimeManifest

  lemma PairOrderTotal(a: (Text, Text), b: (Text, Text), c: (Text, Text))
    ensures PairAtMost(a, b) || PairAtMost(b, a)
    ensures PairAtMost(a, b) && PairAtMost(b, c) ==> PairAtMost(a, c)
    ensures PairAtMost(a, b) && PairAtMost(b, a) ==> a == b
  {
    CompareTotal(a.0, b.0);
    CompareTotal(b.0, c.0);
    CompareTotal(a.0, c.0);
    CompareTotal(a.1, b.1);
    CompareTotal(b.1, c.1);
    CompareTotal(a.1, c.1);
    CompareChain(a.0, b.0, c.0);
    CompareChain(a.1, b.1, c.1);
  }

  lemma OrdersTotal()
    ensures TotalPreorder(PageAtMost) && TotalPreorder(ActionAtMost)
    ensures TotalPreorder(BindingAtMost) && TotalPreorder(IgnoredAtMost)
  {
    forall a, b, c ensures (PageAtMost(a, b) || PageAtMost(b, a)) && (PageAtMost(a, b) && PageAtMost(b, c) ==> PageAtMost(a, c)) {
      PairOrderTotal((a.path, a.id), (b.path, b.id), (c.path, c.id));
    }
    forall a, b, c ensures (ActionAtMost(a, b) || ActionAtMost(b, a)) && (ActionAtMost(a, b) && ActionAtMost(b, c) ==> ActionAtMost(a, c)) {
      PairOrderTotal((a.path, a.id), (b.path, b.id), (c.path, c.id));
    }
    forall a, b, c ensures (BindingAtMost(a, b) || BindingAtMost(b, a)) && (BindingAtMost(a, b) && BindingAtMost(b, c) ==> BindingAtMost(a, c)) {
      PairOrderTotal((a.name, PathKey(a.path)), (b.name, PathKey(b.path)), (c.name, PathKey(c.path)));
    }
    forall a, b, c ensures (IgnoredAtMost(a, b) || IgnoredAtMost(b, a)) && (IgnoredAtMost(a, b) && IgnoredAtMost(b, c) ==> IgnoredAtMost(a, c)) {
      PairOrderTotal((a.name, a.consumer), (b.name, b.consumer), (c.name, c.consumer));
    }
  }

  // ----- One action -----

  lemma SortedBindings(bindings: seq<Binding>)
    requires forall i, j :: 0 <= i < j < |bindings| ==> bindings[i].name != bindings[j].name && bindings[i].path != bindings[j].path
    ensures
      var sorted := Sort(BindingAtMost, bindings);
      && (forall b :: b in sorted <==> b in bindings)
      && (forall i, j :: 0 <= i < j < |sorted| ==> sorted[i].name != sorted[j].name && sorted[i].path != sorted[j].path)
  {
    SortPermutes(BindingAtMost, bindings);
    DistinctKeysPermute((b: Binding) => b.name, bindings, Sort(BindingAtMost, bindings));
    DistinctKeysPermute((b: Binding) => b.path, bindings, Sort(BindingAtMost, bindings));
  }

  lemma SortedIgnored(fields: seq<IgnoredField>)
    requires forall i, j :: 0 <= i < j < |fields| ==> fields[i].name != fields[j].name
    ensures
      var sorted := Sort(IgnoredAtMost, fields);
      && (forall f :: f in sorted <==> f in fields)
      && (forall i, j :: 0 <= i < j < |sorted| ==> sorted[i].name != sorted[j].name)
  {
    SortPermutes(IgnoredAtMost, fields);
    DistinctKeysPermute((f: IgnoredField) => f.name, fields, Sort(IgnoredAtMost, fields));
  }

  // Soundness is about which bindings, required and ignored names there are, not about their order.
  lemma SoundInAnyOrder(a: InputContract, b: InputContract)
    requires InputSound(a) && a.properties == b.properties
    requires forall p :: p in b.required ==> p in a.required
    requires forall x :: x in b.bindings <==> x in a.bindings
    requires forall i, j :: 0 <= i < j < |b.bindings| ==> b.bindings[i].name != b.bindings[j].name && b.bindings[i].path != b.bindings[j].path
    requires forall f :: f in IgnoredFields(b) ==> f in IgnoredFields(a)
    requires forall i, j :: 0 <= i < j < |IgnoredFields(b)| ==> IgnoredFields(b)[i].name != IgnoredFields(b)[j].name
    ensures InputSound(b)
  {
  }

  lemma CanonicalInputSound(input: InputContract)
    requires InputSound(input)
    ensures InputSound(CanonicalInput(input))
  {
    SortPermutes(TextAtMost, input.required);
    SortedBindings(input.bindings);
    SortedIgnored(IgnoredFields(input));
    SoundInAnyOrder(input, CanonicalInput(input));
  }

  lemma BindingOfSorted(bindings: seq<Binding>, name: Text)
    requires forall i, j :: 0 <= i < j < |bindings| ==> bindings[i].name != bindings[j].name
    ensures BindingOf(Sort(BindingAtMost, bindings), name) == BindingOf(bindings, name)
  {
    var sorted := Sort(BindingAtMost, bindings);
    SortPermutes(BindingAtMost, bindings);
    DistinctKeysPermute(BindingName, bindings, sorted);
    assert forall i, j :: 0 <= i < j < |sorted| ==> BindingName(sorted[i]) != BindingName(sorted[j]);
    var found := BindingOf(bindings, name);
    if found.Some? {
      BindingNamed(sorted, found.value);
    }
  }

  function BindingName(b: Binding): Text {
    b.name
  }

  lemma BindingOfCanonical(input: InputContract, name: Text)
    requires InputSound(input)
    ensures BindingOf(CanonicalInput(input).bindings, name) == BindingOf(input.bindings, name)
  {
    BindingOfSorted(input.bindings, name);
  }

  // The same raw fields are accepted.
  lemma CanonicalAccepts(input: InputContract, fields: RawFields)
    requires InputSound(input)
    ensures RawFieldsAccepted(CanonicalInput(input), fields) <==> RawFieldsAccepted(input, fields)
  {
    SortPermutes(IgnoredAtMost, IgnoredFields(input));
    forall name | name in fields
      ensures FieldAccepted(CanonicalInput(input), name, fields[name]) <==> FieldAccepted(input, name, fields[name])
    {
      BindingOfCanonical(input, name);
    }
  }

  // What InputDecoded says determines the decoded map.
  lemma DecodedAtUnique(host: Host, input: InputContract, fields: RawFields, a: map<Text, Value>, b: map<Text, Value>, p: Text)
    requires InputSound(input) && InputDecoded(host, input, fields, a) && InputDecoded(host, input, fields, b)
    requires p in input.properties
    ensures Lookup(a, p) == Lookup(b, p)
  {
    var binding :| binding in input.bindings && binding.path == [p];
    assert BindingDecoded(host, fields, binding, Lookup(a, binding.path[0]));
    assert BindingDecoded(host, fields, binding, Lookup(b, binding.path[0]));
    if binding.name in fields {
      DecodesToUnique(host, fields[binding.name], binding.decode, Lookup(a, p).value, Lookup(b, p).value);
    }
  }

  lemma SameLookups(a: map<Text, Value>, b: map<Text, Value>)
    requires forall p :: Lookup(a, p) == Lookup(b, p)
    ensures a == b
  {
    forall p ensures p in a <==> p in b {
      assert Lookup(a, p) == Lookup(b, p);
    }
    forall p | p in a ensures a[p] == b[p] {
      assert Lookup(a, p) == Lookup(b, p);
    }
  }

  // The bindings determine what is decoded.
  lemma InputDecodedUnique(host: Host, input: InputContract, fields: RawFields, a: map<Text, Value>, b: map<Text, Value>)
    requires InputSound(input) && InputDecoded(host, input, fields, a) && InputDecoded(host, input, fields, b)
    ensures a == b
  {
    forall p ensures Lookup(a, p) == Lookup(b, p) {
      if p in input.properties {
        DecodedAtUnique(host, input, fields, a, b, p);
      }
    }
    SameLookups(a, b);
  }

  // The same contract but for the order of its bindings and required names.
  ghost predicate SameMembers(a: InputContract, b: InputContract) {
    && a.properties == b.properties
    && (forall x :: x in a.bindings <==> x in b.bindings)
    && (forall p :: p in a.required <==> p in b.required)
  }

  lemma SameBinding(host: Host, a: InputContract, b: InputContract, fields: RawFields, binding: Binding)
    requires SameMembers(a, b)
    ensures DecodeBinding(host, a, fields, binding) == DecodeBinding(host, b, fields, binding)
  {
  }

  lemma SameDecoding(host: Host, a: InputContract, b: InputContract, fields: RawFields, decoded: map<Text, Value>)
    requires InputSound(b) && SameMembers(a, b) && DecodedBy(host, a, fields, a.bindings, decoded)
    ensures DecodedInput(host, b, fields).Success? && DecodedBy(host, a, fields, a.bindings, DecodedInput(host, b, fields).value)
  {
    InputDecodes(host, b, fields);
    forall x | x in b.bindings ensures DecodeBinding(host, b, fields, x).Success? {
      SameBinding(host, a, b, fields, x);
      assert Contributes(host, a, fields, x, decoded);
    }
    var r := DecodedInput(host, b, fields);
    assert r.Success?;
    forall x | x in a.bindings ensures Contributes(host, a, fields, x, r.value) {
      SameBinding(host, a, b, fields, x);
      assert Contributes(host, b, fields, x, r.value);
    }
  }

  lemma DecodedByUnique(host: Host, input: InputContract, fields: RawFields, a: map<Text, Value>, b: map<Text, Value>)
    requires DecodedBy(host, input, fields, input.bindings, a) && DecodedBy(host, input, fields, input.bindings, b)
    ensures a == b
  {
    forall p ensures Lookup(a, p) == Lookup(b, p) {
      if x :| x in input.bindings && x.path == [p] {
        assert Contributes(host, input, fields, x, a) && Contributes(host, input, fields, x, b);
      }
    }
    SameLookups(a, b);
  }

  lemma SameSuccess(host: Host, a: InputContract, b: InputContract, fields: RawFields)
    requires InputSound(a) && InputSound(b) && SameMembers(a, b) && DecodedInput(host, a, fields).Success?
    ensures DecodedInput(host, b, fields) == DecodedInput(host, a, fields)
  {
    InputDecodes(host, a, fields);
    var decoded := DecodedInput(host, a, fields).value;
    SameDecoding(host, a, b, fields, decoded);
    DecodedByUnique(host, a, fields, decoded, DecodedInput(host, b, fields).value);
  }

  // In both orders of the bindings the same trouble comes first, if there is any.
  ghost predicate SameFirst(host: Host, a: InputContract, b: InputContract, fields: RawFields)
    requires InputSound(a) && InputSound(b)
  {
    forall error :: FailsFirst(host, a, fields, a.bindings, error) <==> FailsFirst(host, b, fields, b.bindings, error)
  }

  // What two contracts with the same members decode to differs at most in its failure.
  lemma SameOutcome(host: Host, a: InputContract, b: InputContract, fields: RawFields)
    requires InputSound(a) && InputSound(b) && SameMembers(a, b)
    ensures DecodedInput(host, a, fields) == DecodedInput(host, b, fields)
      || (DecodedInput(host, a, fields).Failure? && DecodedInput(host, b, fields).Failure?)
  {
    if DecodedInput(host, a, fields).Success? {
      SameSuccess(host, a, b, fields);
    } else if DecodedInput(host, b, fields).Success? {
      SameSuccess(host, b, a, fields);
    }
  }

  lemma EqualThenSameFirst(host: Host, a: InputContract, b: InputContract, fields: RawFields)
    requires InputSound(a) && RawFieldsAccepted(a, fields)
    requires InputSound(b) && RawFieldsAccepted(b, fields)
    requires DecodedInput(host, a, fields) == DecodedInput(host, b, fields)
    ensures SameFirst(host, a, b, fields)
  {
    forall error ensures FailsFirst(host, a, fields, a.bindings, error) <==> FailsFirst(host, b, fields, b.bindings, error) {
      FailsExactly(host, a, fields, error);
      FailsExactly(host, b, fields, error);
    }
  }

  // Two contracts with the same members, and accepted fields: they decode alike exactly if the same trouble comes first.
  lemma OrderOfBindings(host: Host, a: InputContract, b: InputContract, fields: RawFields)
    requires InputSound(a) && RawFieldsAccepted(a, fields)
    requires InputSound(b) && RawFieldsAccepted(b, fields)
    requires SameMembers(a, b)
    ensures DecodedInput(host, a, fields) == DecodedInput(host, b, fields) <==> SameFirst(host, a, b, fields)
  {
    SameOutcome(host, a, b, fields);
    if DecodedInput(host, a, fields) == DecodedInput(host, b, fields) {
      EqualThenSameFirst(host, a, b, fields);
    } else {
      var error := DecodedInput(host, a, fields).error;
      FailsExactly(host, a, fields, error);
      FailsExactly(host, b, fields, error);
    }
  }

  lemma CanonicalMembers(input: InputContract)
    ensures SameMembers(CanonicalInput(input), input)
  {
    SortPermutes(BindingAtMost, input.bindings);
    SortPermutes(TextAtMost, input.required);
  }

  // The same fields decode to the same input, or fail alike, exactly if the same trouble comes first in both orders.
  lemma CanonicalDecodes(host: Host, input: InputContract, fields: RawFields)
    requires InputSound(input) && RawFieldsAccepted(input, fields)
    ensures InputSound(CanonicalInput(input))
    ensures DecodedInput(host, CanonicalInput(input), fields) == DecodedInput(host, input, fields) <==>
      SameFirst(host, CanonicalInput(input), input, fields)
  {
    CanonicalInputSound(input);
    CanonicalAccepts(input, fields);
    CanonicalMembers(input);
    OrderOfBindings(host, CanonicalInput(input), input, fields);
  }

  lemma CanonicalInputIdempotent(input: InputContract)
    ensures CanonicalInput(CanonicalInput(input)) == CanonicalInput(input)
  {
    OrdersTotal();
    TextOrderTotal();
    SortIdempotent(TextAtMost, input.required);
    SortIdempotent(BindingAtMost, input.bindings);
    SortIdempotent(IgnoredAtMost, IgnoredFields(input));
  }

  // ----- The whole manifest -----

  ghost predicate ActionsSound(manifest: Manifest) {
    forall a :: a in manifest.actions ==> InputSound(a.input)
  }

  lemma CanonicalIdempotent(manifest: Manifest)
    ensures Canonical(Canonical(manifest)) == Canonical(manifest)
  {
    OrdersTotal();
    SortIdempotent(PageAtMost, manifest.pages);
    var sorted := Sort(ActionAtMost, manifest.actions);
    SortSorts(ActionAtMost, manifest.actions);
    var mapped := Map(CanonicalAction, sorted);
    SortOfSorted(ActionAtMost, mapped);
    var again := Map(CanonicalAction, mapped);
    forall i | 0 <= i < |sorted| ensures again[i] == mapped[i] {
      CanonicalInputIdempotent(sorted[i].input);
    }
    assert again == mapped;
  }

  lemma ActionAtMember(actions: seq<Action>, action: Action)
    requires action in actions && Distinct(Map((a: Action) => a.path, actions))
    ensures ActionAt(actions, action.path) == Some(action)
  {
    var found := ActionAt(actions, action.path);
    var paths := Map((a: Action) => a.path, actions);
    var i :| 0 <= i < |actions| && actions[i] == action;
    var j :| 0 <= j < |actions| && actions[j] == found.value;
    assert paths[i] == paths[j];
  }

  lemma PageAtMember(pages: seq<Page>, page: Page)
    requires page in pages && Distinct(Map((p: Page) => p.path, pages))
    ensures PageAt(pages, page.path) == Some(page)
  {
    var found := PageAt(pages, page.path);
    var paths := Map((p: Page) => p.path, pages);
    var i :| 0 <= i < |pages| && pages[i] == page;
    var j :| 0 <= j < |pages| && pages[j] == found.value;
    assert paths[i] == paths[j];
  }

  lemma DistinctMapPermutes<T(!new), K>(key: T -> K, s: seq<T>, t: seq<T>)
    requires multiset(s) == multiset(t) && Distinct(Map(key, s))
    ensures Distinct(Map(key, t))
  {
    forall i, j | 0 <= i < j < |s| ensures key(s[i]) != key(s[j]) {
      assert Map(key, s)[i] != Map(key, s)[j];
    }
    DistinctKeysPermute(key, s, t);
  }

  lemma CanonicalPageAt(manifest: Manifest, path: Text)
    requires ManifestSound(manifest)
    ensures PageAt(Canonical(manifest).pages, path) == PageAt(manifest.pages, path)
  {
    SortPermutes(PageAtMost, manifest.pages);
    DistinctMapPermutes((p: Page) => p.path, manifest.pages, Canonical(manifest).pages);
    var found := PageAt(manifest.pages, path);
    if found.Some? {
      PageAtMember(Canonical(manifest).pages, found.value);
    }
  }

  lemma CanonicalActionAt(manifest: Manifest, path: Text)
    requires ManifestSound(manifest)
    ensures ActionAt(Canonical(manifest).actions, path)
         == match ActionAt(manifest.actions, path)
            case None => None
            case Some(action) => Some(CanonicalAction(action))
  {
    var sorted, mapped := Sort(ActionAtMost, manifest.actions), Canonical(manifest).actions;
    SortPermutes(ActionAtMost, manifest.actions);
    DistinctMapPermutes((a: Action) => a.path, manifest.actions, sorted);
    assert Map((a: Action) => a.path, mapped) == Map((a: Action) => a.path, sorted);
    var found := ActionAt(manifest.actions, path);
    if found.Some? {
      var i :| 0 <= i < |sorted| && sorted[i] == found.value;
      assert mapped[i] == CanonicalAction(found.value);
      ActionAtMember(mapped, mapped[i]);
    } else {
      forall a | a in mapped ensures a.path != path {
        var i :| 0 <= i < |mapped| && mapped[i] == a;
        assert sorted[i] in manifest.actions;
      }
    }
  }

  // Either both contracts come to a refusal first or neither does.
  ghost predicate RefusedAlike(host: Host, a: InputContract, b: InputContract, fields: RawFields)
    requires InputSound(a) && InputSound(b)
  {
    RawFieldsAccepted(a, fields) ==>
      (FailsFirst(host, a, fields, a.bindings, BadRequest) <==> FailsFirst(host, b, fields, b.bindings, BadRequest))
  }

  lemma SameFailureKind(host: Host, a: Action, b: Action, fields: RawFields)
    requires a.id == b.id && a.handlerId == b.handlerId && a.path == b.path
    requires RawFieldsAccepted(a.input, fields) <==> RawFieldsAccepted(b.input, fields)
    requires DecodedInput(host, a.input, fields) == DecodedInput(host, b.input, fields)
      || (DecodedInput(host, a.input, fields).Failure? && DecodedInput(host, b.input, fields).Failure?)
    ensures HandleAction(host, a, fields) == HandleAction(host, b, fields) <==>
      (RawFieldsAccepted(b.input, fields) ==>
        (DecodedInput(host, b.input, fields) == Failure(BadRequest) <==> DecodedInput(host, a.input, fields) == Failure(BadRequest)))
  {
  }

  lemma CanonicalOutcome(host: Host, input: InputContract, fields: RawFields)
    requires InputSound(input)
    ensures DecodedInput(host, CanonicalInput(input), fields) == DecodedInput(host, input, fields)
      || (DecodedInput(host, CanonicalInput(input), fields).Failure? && DecodedInput(host, input, fields).Failure?)
  {
    CanonicalInputSound(input);
    CanonicalMembers(input);
    SameOutcome(host, CanonicalInput(input), input, fields);
  }

  lemma CanonicalActionHandles(host: Host, action: Action, fields: RawFields)
    requires InputSound(action.input)
    ensures InputSound(CanonicalInput(action.input))
    ensures HandleAction(host, CanonicalAction(action), fields) == HandleAction(host, action, fields) <==>
      RefusedAlike(host, action.input, CanonicalInput(action.input), fields)
  {
    var input := action.input;
    CanonicalInputSound(input);
    CanonicalAccepts(input, fields);
    CanonicalOutcome(host, input, fields);
    SameFailureKind(host, CanonicalAction(action), action, fields);
    if RawFieldsAccepted(input, fields) {
      FailsExactly(host, input, fields, BadRequest);
      FailsExactly(host, CanonicalInput(input), fields, BadRequest);
    }
  }

  // Where two manifests have the same page and both have an action or neither, only the action can tell them apart.
  lemma SameDispatch(host: Host, a: Manifest, b: Manifest, verb: Verb, path: Text, fields: RawFields)
    requires PageAt(a.pages, path) == PageAt(b.pages, path)
    requires ActionAt(a.actions, path).Some? <==> ActionAt(b.actions, path).Some?
    ensures Handle(host, a, verb, path, fields) == Handle(host, b, verb, path, fields) <==>
      (verb == Post && ActionAt(b.actions, path).Some? ==>
        HandleAction(host, ActionAt(a.actions, path).value, fields) == HandleAction(host, ActionAt(b.actions, path).value, fields))
  {
  }

  lemma InputsSound(manifest: Manifest)
    requires ActionsSound(manifest)
    ensures forall a :: a in manifest.actions ==> InputSound(a.input) && InputSound(CanonicalInput(a.input))
  {
    forall a | a in manifest.actions ensures InputSound(a.input) && InputSound(CanonicalInput(a.input)) {
      CanonicalInputSound(a.input);
    }
  }

  // A request gets the same response from a manifest and from its canonical form, exactly unless it is for an action where
  // one order of the bindings comes to a refusal first and the other to a server error.
  lemma CanonicalHandles(host: Host, manifest: Manifest, verb: Verb, path: Text, fields: RawFields)
    requires ManifestSound(manifest) && ActionsSound(manifest)
    ensures forall a :: a in manifest.actions ==> InputSound(a.input) && InputSound(CanonicalInput(a.input))
    ensures Handle(host, Canonical(manifest), verb, path, fields) == Handle(host, manifest, verb, path, fields) <==>
      (verb == Post && ActionAt(manifest.actions, path).Some? ==>
        var input := ActionAt(manifest.actions, path).value.input;
        RefusedAlike(host, input, CanonicalInput(input), fields))
  {
    CanonicalPageAt(manifest, path);
    CanonicalActionAt(manifest, path);
    InputsSound(manifest);
    SameDispatch(host, Canonical(manifest), manifest, verb, path, fields);
    var action := ActionAt(manifest.actions, path);
    if action.Some? {
      CanonicalActionHandles(host, action.value, fields);
    }
  }

  // Trouble that is no refusal comes first.
  ghost predicate FaultFirst(host: Host, input: InputContract, fields: RawFields)
    requires InputSound(input)
  {
    exists error :: error != BadRequest && FailsFirst(host, input, fields, input.bindings, error)
  }

  // A sound manifest answers with a server error exactly where a binding to a reserved property, or one to a repeated field
  // that reads an inherited member, comes before any binding that refuses.
  lemma ServerErrorExactly(host: Host, manifest: Manifest, verb: Verb, path: Text, fields: RawFields)
    requires ManifestSound(manifest) && ActionsSound(manifest)
    ensures Handle(host, manifest, verb, path, fields) == ServerError <==>
      && verb == Post && ActionAt(manifest.actions, path).Some?
      && var input := ActionAt(manifest.actions, path).value.input;
         RawFieldsAccepted(input, fields) && FaultFirst(host, input, fields)
  {
    var action := ActionAt(manifest.actions, path);
    if action.Some? {
      ActionFails(host, action.value, fields);
    }
  }

  lemma ActionFails(host: Host, action: Action, fields: RawFields)
    requires InputSound(action.input)
    ensures HandleAction(host, action, fields) == ServerError <==>
      RawFieldsAccepted(action.input, fields) && FaultFirst(host, action.input, fields)
  {
    if RawFieldsAccepted(action.input, fields) {
      FaultExactly(host, action.input, fields);
    }
  }

  lemma FaultExactly(host: Host, input: InputContract, fields: RawFields)
    requires InputSound(input) && RawFieldsAccepted(input, fields)
    ensures FaultFirst(host, input, fields) <==>
      DecodedInput(host, input, fields).Failure? && DecodedInput(host, input, fields).error != BadRequest
  {
    if error :| error != BadRequest && FailsFirst(host, input, fields, input.bindings, error) {
      FailsExactly(host, input, fields, error);
    }
    if DecodedInput(host, input, fields).Failure? {
      FailsExactly(host, input, fields, DecodedInput(host, input, fields).error);
    }
  }

  // No property is reserved and no binding to a repeated field has a name that every object inherits: the guard an author
  // can check once.
  ghost predicate PlainInput(input: InputContract) {
    NoReservedProperty(input) && forall b :: b in input.bindings && b.decode.Repeat? ==> b.name !in INHERITED_NAMES
  }

  lemma PlainRefuses(host: Host, input: InputContract, fields: RawFields, error: RuntimeFailure)
    requires InputSound(input) && PlainInput(input) && FailsFirst(host, input, fields, input.bindings, error)
    ensures error == BadRequest
  {
    var k :| 0 <= k < |input.bindings| && FirstTrouble(host, input, fields, input.bindings, k, error);
    assert input.bindings[k] in input.bindings && !Unsafe(input.bindings[k]);
  }

  lemma PlainNoFault(host: Host, input: InputContract, fields: RawFields)
    requires InputSound(input) && PlainInput(input)
    ensures !FaultFirst(host, input, fields)
  {
    if error :| error != BadRequest && FailsFirst(host, input, fields, input.bindings, error) {
      PlainRefuses(host, input, fields, error);
    }
  }

  lemma PlainActionHandles(host: Host, action: Action, fields: RawFields)
    requires InputSound(action.input) && PlainInput(action.input)
    ensures HandleAction(host, CanonicalAction(action), fields) == HandleAction(host, action, fields) != ServerError
  {
    var input := action.input;
    CanonicalInputSound(input);
    CanonicalMembers(input);
    PlainNoFault(host, input, fields);
    PlainNoFault(host, CanonicalInput(input), fields);
    ActionFails(host, action, fields);
    ActionFails(host, CanonicalAction(action), fields);
    CanonicalAccepts(input, fields);
    CanonicalOutcome(host, input, fields);
    SameFailureKind(host, CanonicalAction(action), action, fields);
  }

  // Then no request at all meets a server error, or a difference between the manifest and its canonical form.
  lemma PlainHandles(host: Host, manifest: Manifest, verb: Verb, path: Text, fields: RawFields)
    requires ManifestSound(manifest) && ActionsSound(manifest) && forall a :: a in manifest.actions ==> PlainInput(a.input)
    ensures Handle(host, manifest, verb, path, fields) != ServerError
    ensures Handle(host, Canonical(manifest), verb, path, fields) == Handle(host, manifest, verb, path, fields)
  {
    CanonicalPageAt(manifest, path);
    CanonicalActionAt(manifest, path);
    SameDispatch(host, Canonical(manifest), manifest, verb, path, fields);
    var action := ActionAt(manifest.actions, path);
    if action.Some? {
      PlainActionHandles(host, action.value, fields);
    }
  }

  // The registry test passes exactly when the registry names each handler of the manifest once and nothing else.
  lemma RegistryExact(manifest: Manifest, registry: seq<Text>)
    requires ManifestSound(manifest) && Distinct(registry)
    ensures RegistryMatches(manifest, registry) <==>
      Elements(registry) == Elements(Map((a: Action) => a.handlerId, manifest.actions))
  {
    var expected := Map((a: Action) => a.handlerId, manifest.actions);
    TextOrderTotal();
    SortPermutes(TextAtMost, expected);
    SortPermutes(TextAtMost, registry);
    if RegistryMatches(manifest, registry) {
      assert forall x :: x in registry <==> x in expected;
    }
    if Elements(registry) == Elements(expected) {
      DistinctMultiset(registry);
      DistinctMultiset(expected);
      assert multiset(registry) == multiset(expected);
      SortInvariant(TextAtMost, registry, expected);
    }
  }

  lemma DistinctMultiset(s: seq<Text>)
    requires Distinct(s)
    ensures multiset(s) == multiset(Elements(s))
  {
    forall x ensures multiset(s)[x] == multiset(Elements(s))[x] {
      if x in s {
        var i :| 0 <= i < |s| && s[i] == x;
        OnceIn((t: Text) => t, s, i);
      }
    }
  }
}
