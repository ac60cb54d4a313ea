/** The input contract of an action: its schema and its form codec (packages/contract/src/types.ts). */
module Contracts {
  import opened Wrappers
  import opened Texts

  datatype ScalarDecoder =
    | TextDecoder(trim: bool, rejectEmpty: bool)
    | IntegerDecoder
    | DecimalDecoder
    | CheckboxDecoder(trueValues: seq<Text>, missing: bool)
    | EnumDecoder(values: seq<Text>)

  datatype Decoder = Single(decoder: ScalarDecoder) | Repeat(items: ScalarDecoder)

  datatype Binding = Binding(name: Text, path: seq<Text>, decode: Decoder)

  datatype IgnoredField = IgnoredField(name: Text, consumer: Text)

  datatype ScalarSchema =
    | StringSchema(minLength: Option<nat>, maxLength: Option<nat>)
    | IntegerSchema(minimum: Option<real>, maximum: Option<real>)
    | NumberSchema(minimum: Option<real>, maximum: Option<real>)
    | BooleanSchema
    | EnumSchema(values: seq<Text>)

  datatype PropertySchema =
    | ScalarProperty(schema: ScalarSchema)
    | ArrayProperty(items: ScalarSchema, minItems: Option<nat>, maxItems: Option<nat>)

  datatype InputContract = InputContract(
    properties: map<Text, PropertySchema>,
    required: seq<Text>,
    bindings: seq<Binding>,
    ignored: Option<seq<IgnoredField>>)

  function IgnoredFields(input: InputContract): seq<IgnoredField> {
    if input.ignored.Some? then input.ignored.value else []
  }

  // new Map(bindings by name).get(name): the last binding of the name.
  function BindingOf(bindings: seq<Binding>, name: Text): (r: Option<Binding>)
    ensures r.Some? ==> r.value in bindings && r.value.name == name
    ensures r.None? ==> forall b :: b in bindings ==> b.name != name
  {
    if bindings == [] then None
    else if bindings[|bindings| - 1].name == name then Some(bindings[|bindings| - 1])
    else BindingOf(bindings[..|bindings| - 1], name)
  }

  predicate IsIgnored(input: InputContract, name: Text) {
    exists f :: f in IgnoredFields(input) && f.name == name
  }
}

/** The semantic rules of a feature contract (packages/contract/src/validate.ts). */
module ContractValidation {
  import opened Wrappers
  import opened Texts
  import opened Sequences
  import opened Sorting
  import opened Contracts

  datatype Issue =
    | RequiredUndeclared(index: nat)
    | BoundsReversed(property: Text)
    | BindingPathInvalid(index: nat)
    | DecoderIncompatible(index: nat)
    | BindingNameRepeated(index: nat)
    | BindingPathRepeated(index: nat)
    | PropertyUnbound(property: Text)
    | IgnoredNameBound(index: nat)
    | IgnoredNameRepeated(index: nat)

  predicate ScalarMatches(decoder: ScalarDecoder, schema: ScalarSchema) {
    match decoder
    case TextDecoder(_, _) => schema.StringSchema?
    case IntegerDecoder => schema.IntegerSchema?
    case DecimalDecoder => schema.NumberSchema?
    case CheckboxDecoder(_, _) => schema.BooleanSchema?
    case EnumDecoder(values) => schema.EnumSchema? && values == schema.values
  }

  predicate DecoderMatchesSchema(decoder: Decoder, schema: PropertySchema) {
    match decoder
    case Single(d) => schema.ScalarProperty? && ScalarMatches(d, schema.schema)
    case Repeat(items) => schema.ArrayProperty? && ScalarMatches(items, schema.items)
  }

  predicate Reversed<T>(low: Option<T>, high: Option<T>, above: (T, T) -> bool) {
    low.Some? && high.Some? && above(low.value, high.value)
  }

  predicate BoundsOrdered(schema: PropertySchema) {
    match schema
    case ArrayProperty(_, low, high) => !Reversed(low, high, (a: nat, b: nat) => a > b)
    case ScalarProperty(StringSchema(low, high)) => !Reversed(low, high, (a: nat, b: nat) => a > b)
    case ScalarProperty(IntegerSchema(low, high)) => !Reversed(low, high, (a: real, b: real) => a > b)
    case ScalarProperty(NumberSchema(low, high)) => !Reversed(low, high, (a: real, b: real) => a > b)
    case ScalarProperty(_) => true
  }

  predicate OwnsProperty(input: InputContract, binding: Binding) {
    |binding.path| == 1 && binding.path[0] in input.properties
  }

  // What an action whose contract has no semantic issue satisfies.
  ghost predicate InputSound(input: InputContract) {
    && (forall p :: p in input.required ==> p in input.properties)
    && (forall p :: p in input.properties ==> BoundsOrdered(input.properties[p]))
    && (forall b :: b in input.bindings ==>
          OwnsProperty(input, b) && DecoderMatchesSchema(b.decode, input.properties[b.path[0]]))
    && (forall i, j :: 0 <= i < j < |input.bindings| ==>
          input.bindings[i].name != input.bindings[j].name && input.bindings[i].path != input.bindings[j].path)
    && (forall p :: p in input.properties ==> exists b :: b in input.bindings && b.path == [p])
    && (forall f :: f in IgnoredFields(input) ==> forall b :: b in input.bindings ==> b.name != f.name)
    && (forall i, j :: 0 <= i < j < |IgnoredFields(input)| ==> IgnoredFields(input)[i].name != IgnoredFields(input)[j].name)
  }

  // ----- What each issue says -----

  // A decoder fits a schema of its own kind, and a choice the same choices.
  ghost predicate Fits(decoder: ScalarDecoder, schema: ScalarSchema) {
    || (decoder.TextDecoder? && schema.StringSchema?)
    || (decoder.IntegerDecoder? && schema.IntegerSchema?)
    || (decoder.DecimalDecoder? && schema.NumberSchema?)
    || (decoder.CheckboxDecoder? && schema.BooleanSchema?)
    || (decoder.EnumDecoder? && schema.EnumSchema? && decoder.values == schema.values)
  }

  ghost predicate DecoderFits(decoder: Decoder, schema: PropertySchema) {
    || (decoder.Single? && schema.ScalarProperty? && Fits(decoder.decoder, schema.schema))
    || (decoder.Repeat? && schema.ArrayProperty? && Fits(decoder.items, schema.items))
  }

  // A lower bound is above the upper one.
  ghost predicate Contradicts(schema: PropertySchema) {
    match schema
    case ArrayProperty(_, Some(low), Some(high)) => low > high
    case ScalarProperty(StringSchema(Some(low), Some(high))) => low > high
    case ScalarProperty(IntegerSchema(Some(low), Some(high))) => low > high
    case ScalarProperty(NumberSchema(Some(low), Some(high))) => low > high
    case _ => false
  }

  // The elements of a path with NUL between them.
  ghost function Joined(path: seq<Text>): Text {
    if path == [] then []
    else if |path| == 1 then path[0]
    else Joined(path[..|path| - 1]) + [0] + path[|path| - 1]
  }

  ghost predicate Declares(input: InputContract, path: seq<Text>) {
    |path| == 1 && path[0] in input.properties
  }

  // The issue is one the contract has.
  ghost predicate Holds(input: InputContract, issue: Issue) {
    var required, bindings, ignored := input.required, input.bindings, IgnoredFields(input);
    match issue
    case RequiredUndeclared(k) => k < |required| && required[k] !in input.properties
    case BoundsReversed(property) => property in input.properties && Contradicts(input.properties[property])
    case BindingPathInvalid(k) => k < |bindings| && !Declares(input, bindings[k].path)
    case DecoderIncompatible(k) =>
      && k < |bindings| && Declares(input, bindings[k].path)
      && !DecoderFits(bindings[k].decode, input.properties[bindings[k].path[0]])
    case BindingNameRepeated(k) => k < |bindings| && exists i :: 0 <= i < k && bindings[i].name == bindings[k].name
    case BindingPathRepeated(k) => k < |bindings| && exists i :: 0 <= i < k && Joined(bindings[i].path) == Joined(bindings[k].path)
    case PropertyUnbound(property) => property in input.properties && forall b :: b in bindings ==> b.path != [property]
    case IgnoredNameBound(k) => k < |ignored| && exists b :: b in bindings && b.name == ignored[k].name
    case IgnoredNameRepeated(k) => k < |ignored| && exists i :: 0 <= i < k && ignored[i].name == ignored[k].name
  }

  lemma DecoderExact(decoder: Decoder, schema: PropertySchema)
    ensures DecoderMatchesSchema(decoder, schema) <==> DecoderFits(decoder, schema)
  {
  }

  lemma BoundsExact(schema: PropertySchema)
    ensures BoundsOrdered(schema) <==> !Contradicts(schema)
  {
  }

  // The path key joins the elements of a path with a NUL; two one-element paths share a key iff they are equal,
  // and a path of another length is an issue by itself.
  function PathKey(path: seq<Text>): Text {
    if path == [] then []
    else if |path| == 1 then path[0]
    else path[0] + [0] + PathKey(path[1..])
  }

  lemma {:induction false} KeyAppend(path: seq<Text>, last: Text)
    requires path != []
    ensures PathKey(path + [last]) == PathKey(path) + [0] + last
  {
    if |path| == 1 {
      assert (path + [last])[1..] == [last];
    } else {
      assert (path + [last])[1..] == path[1..] + [last];
      KeyAppend(path[1..], last);
    }
  }

  lemma {:induction false} KeyExact(path: seq<Text>)
    ensures PathKey(path) == Joined(path)
  {
    if |path| > 1 {
      KeyExact(path[..|path| - 1]);
      KeyAppend(path[..|path| - 1], path[|path| - 1]);
      assert path == path[..|path| - 1] + [path[|path| - 1]];
    }
  }

  // ----- The issues as they are collected -----

  method RequiredIssues(input: InputContract) returns (issues: seq<Issue>)
    ensures forall x :: x in issues <==> x.RequiredUndeclared? && Holds(input, x)
  {
    issues := [];
    for i := 0 to |input.required|
      invariant forall x :: x in issues <==> x.RequiredUndeclared? && x.index < i && Holds(input, x)
    {
      if input.required[i] !in input.properties {
        issues := issues + [RequiredUndeclared(i)];
      }
    }
  }

  // The names of the declared properties, in order.
  method SortedProperties(input: InputContract) returns (names: seq<Text>)
    ensures forall p :: p in names <==> p in input.properties
    ensures forall i, j :: 0 <= i < j < |names| ==> Less(names[i], names[j])
  {
    var listed: seq<Text> := [];
    var remaining := input.properties.Keys;
    while remaining != {}
      invariant remaining <= input.properties.Keys
      invariant forall p :: p in listed <==> p in input.properties && p !in remaining
      invariant forall i, j :: 0 <= i < j < |listed| ==> listed[i] != listed[j]
    {
      var property :| property in remaining;
      remaining := remaining - {property};
      listed := listed + [property];
    }
    names := Sort(TextAtMost, listed);
    SortedStrictly(listed, names);
  }

  lemma SortedStrictly(listed: seq<Text>, names: seq<Text>)
    requires names == Sort(TextAtMost, listed) && forall i, j :: 0 <= i < j < |listed| ==> listed[i] != listed[j]
    ensures forall p :: p in names <==> p in listed
    ensures forall i, j :: 0 <= i < j < |names| ==> Less(names[i], names[j])
  {
    SortPermutes(TextAtMost, listed);
    DistinctPermute(listed, names);
    TextOrderTotal();
    SortSorts(TextAtMost, listed);
    forall i, j | 0 <= i < j < |names| ensures Less(names[i], names[j]) {
      assert TextAtMost(names[i], names[j]);
      LessTotal(names[i], names[j]);
    }
  }

  method BoundsIssues(input: InputContract) returns (issues: seq<Issue>)
    ensures forall x :: x in issues <==> x.BoundsReversed? && Holds(input, x)
    ensures forall i, j :: 0 <= i < j < |issues| ==> Less(issues[i].property, issues[j].property)
  {
    var names := SortedProperties(input);
    issues := [];
    for k := 0 to |names|
      invariant forall x :: x in issues <==> x.BoundsReversed? && x.property in names[..k] && Holds(input, x)
      invariant forall i, j :: 0 <= i < j < |issues| ==> Less(issues[i].property, issues[j].property)
    {
      assert names[..k + 1] == names[..k] + [names[k]];
      BoundsExact(input.properties[names[k]]);
      if !BoundsOrdered(input.properties[names[k]]) {
        assert forall x :: x in issues ==> Less(x.property, names[k]);
        issues := issues + [BoundsReversed(names[k])];
      }
    }
    assert names[..|names|] == names;
  }

  ghost predicate BindingIssue(issue: Issue) {
    issue.BindingPathInvalid? || issue.DecoderIncompatible? || issue.BindingNameRepeated? || issue.BindingPathRepeated?
  }

  // The issues of one binding, given the names and path keys of those before it.
  method IssuesOfBinding(input: InputContract, k: nat, names: set<Text>, paths: set<Text>) returns (issues: seq<Issue>)
    requires k < |input.bindings|
    requires forall n :: n in names <==> exists i :: 0 <= i < k && input.bindings[i].name == n
    requires forall n :: n in paths <==> exists i :: 0 <= i < k && PathKey(input.bindings[i].path) == n
    ensures forall x :: x in issues <==> BindingIssue(x) && x.index == k && Holds(input, x)
  {
    var binding := input.bindings[k];
    issues := [];
    if !OwnsProperty(input, binding) {
      issues := issues + [BindingPathInvalid(k)];
    } else if !DecoderMatchesSchema(binding.decode, input.properties[binding.path[0]]) {
      issues := issues + [DecoderIncompatible(k)];
    }
    if binding.name in names {
      issues := issues + [BindingNameRepeated(k)];
    }
    if PathKey(binding.path) in paths {
      issues := issues + [BindingPathRepeated(k)];
    }
    if OwnsProperty(input, binding) {
      DecoderExact(binding.decode, input.properties[binding.path[0]]);
    }
    KeyRepeats(input.bindings, k);
  }

  lemma KeyRepeats(bindings: seq<Binding>, k: nat)
    requires k < |bindings|
    ensures (exists i :: 0 <= i < k && PathKey(bindings[i].path) == PathKey(bindings[k].path)) <==>
      exists i :: 0 <= i < k && Joined(bindings[i].path) == Joined(bindings[k].path)
  {
    forall i | 0 <= i <= k ensures PathKey(bindings[i].path) == Joined(bindings[i].path) {
      KeyExact(bindings[i].path);
    }
  }

  method BindingIssues(input: InputContract) returns (issues: seq<Issue>, names: set<Text>, bound: set<Text>)
    ensures forall x :: x in issues <==> BindingIssue(x) && Holds(input, x)
    ensures forall n :: n in names <==> exists b :: b in input.bindings && b.name == n
    ensures forall p :: p in bound <==> exists b :: b in input.bindings && Declares(input, b.path) && b.path[0] == p
  {
    issues, names, bound := [], {}, {};
    var paths: set<Text> := {};
    for k := 0 to |input.bindings|
      invariant forall x :: x in issues <==> BindingIssue(x) && x.index < k && Holds(input, x)
      invariant forall n :: n in names <==> exists i :: 0 <= i < k && input.bindings[i].name == n
      invariant forall n :: n in paths <==> exists i :: 0 <= i < k && PathKey(input.bindings[i].path) == n
      invariant forall p :: p in bound <==>
        exists i :: 0 <= i < k && Declares(input, input.bindings[i].path) && input.bindings[i].path[0] == p
    {
      var binding := input.bindings[k];
      var found := IssuesOfBinding(input, k, names, paths);
      issues := issues + found;
      if OwnsProperty(input, binding) {
        bound := bound + {binding.path[0]};
      }
      names, paths := names + {binding.name}, paths + {PathKey(binding.path)};
    }
  }

  method UnboundIssues(input: InputContract, bound: set<Text>) returns (issues: seq<Issue>)
    requires forall p :: p in bound <==> exists b :: b in input.bindings && Declares(input, b.path) && b.path[0] == p
    ensures forall x :: x in issues <==> x.PropertyUnbound? && Holds(input, x)
    ensures forall i, j :: 0 <= i < j < |issues| ==> Less(issues[i].property, issues[j].property)
  {
    var names := SortedProperties(input);
    issues := [];
    for k := 0 to |names|
      invariant forall x :: x in issues <==> x.PropertyUnbound? && x.property in names[..k] && Holds(input, x)
      invariant forall i, j :: 0 <= i < j < |issues| ==> Less(issues[i].property, issues[j].property)
    {
      assert names[..k + 1] == names[..k] + [names[k]];
      PropertyBound(input, bound, names[k]);
      if names[k] !in bound {
        assert forall x :: x in issues ==> Less(x.property, names[k]);
        issues := issues + [PropertyUnbound(names[k])];
      }
    }
    assert names[..|names|] == names;
  }

  lemma PropertyBound(input: InputContract, bound: set<Text>, property: Text)
    requires forall p :: p in bound <==> exists b :: b in input.bindings && Declares(input, b.path) && b.path[0] == p
    requires property in input.properties
    ensures property in bound <==> exists b :: b in input.bindings && b.path == [property]
  {
    if property in bound {
      var b :| b in input.bindings && Declares(input, b.path) && b.path[0] == property;
      assert b.path == [property];
    }
    if b :| b in input.bindings && b.path == [property] {
      assert Declares(input, b.path) && b.path[0] == property;
    }
  }

  ghost predicate IgnoredIssue(issue: Issue) {
    issue.IgnoredNameBound? || issue.IgnoredNameRepeated?
  }

  method IgnoredIssues(input: InputContract, names: set<Text>) returns (issues: seq<Issue>)
    requires forall n :: n in names <==> exists b :: b in input.bindings && b.name == n
    ensures forall x :: x in issues <==> IgnoredIssue(x) && Holds(input, x)
  {
    var ignored := IgnoredFields(input);
    issues := [];
    var seen: set<Text> := {};
    for k := 0 to |ignored|
      invariant forall n :: n in seen <==> exists i :: 0 <= i < k && ignored[i].name == n
      invariant forall x :: x in issues <==> IgnoredIssue(x) && x.index < k && Holds(input, x)
    {
      if ignored[k].name in names {
        issues := issues + [IgnoredNameBound(k)];
      }
      if ignored[k].name in seen {
        issues := issues + [IgnoredNameRepeated(k)];
      }
      seen := seen + {ignored[k].name};
    }
  }

  // A contract has no issue exactly if the runtime can rely on it.
  lemma SoundExactly(input: InputContract)
    ensures (forall x :: !Holds(input, x)) <==> InputSound(input)
  {
    if InputSound(input) {
      forall x ensures !Holds(input, x) {
        SoundHoldsNot(input, x);
      }
    }
    if forall x :: !Holds(input, x) {
      SilentFields(input);
      SilentBindings(input);
      SilentIgnored(input);
    }
  }

  lemma SoundHoldsNot(input: InputContract, x: Issue)
    requires InputSound(input)
    ensures !Holds(input, x)
  {
    match x
    case RequiredUndeclared(k) =>
    case BoundsReversed(property) =>
      if property in input.properties {
        BoundsExact(input.properties[property]);
      }
    case BindingPathInvalid(k) => SoundBinding(input, k);
    case DecoderIncompatible(k) => SoundBinding(input, k);
    case BindingNameRepeated(k) => SoundBinding(input, k);
    case BindingPathRepeated(k) => SoundBinding(input, k);
    case _ =>
  }

  lemma SoundBinding(input: InputContract, k: nat)
    requires InputSound(input)
    ensures forall x :: BindingIssue(x) && x.index == k ==> !Holds(input, x)
  {
    if k < |input.bindings| {
      var b := input.bindings[k];
      assert b in input.bindings;
      DecoderExact(b.decode, input.properties[b.path[0]]);
      forall i | 0 <= i < k ensures Joined(input.bindings[i].path) != Joined(b.path) {
        SinglePaths(input, input.bindings[i], b);
      }
    }
  }

  lemma SinglePaths(input: InputContract, a: Binding, b: Binding)
    requires OwnsProperty(input, a) && OwnsProperty(input, b) && a.path != b.path
    ensures Joined(a.path) != Joined(b.path)
  {
    assert a.path == [a.path[0]] && b.path == [b.path[0]];
  }

  lemma SilentFields(input: InputContract)
    requires forall x :: !Holds(input, x)
    ensures forall p :: p in input.required ==> p in input.properties
    ensures forall p :: p in input.properties ==> BoundsOrdered(input.properties[p])
    ensures forall p :: p in input.properties ==> exists b :: b in input.bindings && b.path == [p]
  {
    forall p | p in input.required ensures p in input.properties {
      var k: nat :| k < |input.required| && input.required[k] == p;
      assert !Holds(input, RequiredUndeclared(k));
    }
    forall p | p in input.properties
      ensures BoundsOrdered(input.properties[p]) && exists b :: b in input.bindings && b.path == [p]
    {
      BoundsExact(input.properties[p]);
      assert !Holds(input, BoundsReversed(p)) && !Holds(input, PropertyUnbound(p));
    }
  }

  lemma SilentBindings(input: InputContract)
    requires forall x :: !Holds(input, x)
    ensures forall b :: b in input.bindings ==>
      OwnsProperty(input, b) && DecoderMatchesSchema(b.decode, input.properties[b.path[0]])
    ensures forall i, j :: 0 <= i < j < |input.bindings| ==>
      input.bindings[i].name != input.bindings[j].name && input.bindings[i].path != input.bindings[j].path
  {
    var bindings := input.bindings;
    forall b | b in bindings ensures OwnsProperty(input, b) && DecoderMatchesSchema(b.decode, input.properties[b.path[0]]) {
      var k: nat :| k < |bindings| && bindings[k] == b;
      assert !Holds(input, BindingPathInvalid(k)) && !Holds(input, DecoderIncompatible(k));
      DecoderExact(b.decode, input.properties[b.path[0]]);
    }
    forall i, j | 0 <= i < j < |bindings| ensures bindings[i].name != bindings[j].name && bindings[i].path != bindings[j].path {
      assert !Holds(input, BindingNameRepeated(j)) && !Holds(input, BindingPathRepeated(j));
    }
  }

  lemma SilentIgnored(input: InputContract)
    requires forall x :: !Holds(input, x)
    ensures forall f :: f in IgnoredFields(input) ==> forall b :: b in input.bindings ==> b.name != f.name
    ensures forall i, j :: 0 <= i < j < |IgnoredFields(input)| ==> IgnoredFields(input)[i].name != IgnoredFields(input)[j].name
  {
    var ignored := IgnoredFields(input);
    forall f | f in ignored ensures forall b :: b in input.bindings ==> b.name != f.name {
      var k: nat :| k < |ignored| && ignored[k] == f;
      assert !Holds(input, IgnoredNameBound(k));
    }
    forall i, j | 0 <= i < j < |ignored| ensures ignored[i].name != ignored[j].name {
      assert !Holds(input, IgnoredNameRepeated(j));
    }
  }

  // Exactly the issues the contract has are reported, and none exactly for the contracts the runtime can rely on.
  method ActionSemanticIssues(input: InputContract) returns (issues: seq<Issue>)
    ensures forall x :: x in issues <==> Holds(input, x)
    ensures issues == [] <==> InputSound(input)
  {
    var required := RequiredIssues(input);
    var bounds := BoundsIssues(input);
    var bindings, names, bound := BindingIssues(input);
    var unbound := UnboundIssues(input, bound);
    var ignored := IgnoredIssues(input, names);
    issues := required + bounds + bindings + unbound + ignored;
    SoundExactly(input);
    assert issues != [] ==> issues[0] in issues;
  }
}
