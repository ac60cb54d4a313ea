/** What decoding promises for actions whose contract has no semantic issue. */
module DecodeConformance {
  import opened Wrappers
  import opened Texts
  import opened Contracts
  import opened ContractValidation
  import opened Numerals
  import opened PlainObjects
  import opened RuntimeForm
  import opened DecodedValues

  ghost predicate NoReservedProperty(input: InputContract) {
    forall p :: p in input.properties ==> p !in RESERVED_NAMES
  }

  // Every submitted value is in the decoded one: the only value of a single field, all values of a repeated field.
  ghost predicate DecodesTo(host: Host, values: seq<Text>, decoder: Decoder, value: Value) {
    match decoder
    case Single(scalar) =>
      |values| == 1 && value.One? && StandsFor(host, values[0], scalar, value.scalar)
    case Repeat(items) =>
      && value.Many? && |value.items| == |values|
      && forall i :: 0 <= i < |values| ==> StandsFor(host, values[i], items, value.items[i])
  }

  predicate IsCheckbox(binding: Binding) {
    binding.decode.Single? && binding.decode.decoder.CheckboxDecoder?
  }

  // A binding lets the decoding go on.
  ghost predicate BindingAccepts(host: Host, input: InputContract, fields: RawFields, binding: Binding)
    requires OwnsProperty(input, binding)
  {
    if binding.name in fields then
      exists value ::
        DecodesTo(host, fields[binding.name], binding.decode, value) && Allowed(value, input.properties[binding.path[0]])
    else IsCheckbox(binding) || binding.path[0] !in input.required
  }

  function Lookup(decoded: map<Text, Value>, property: Text): Option<Value> {
    if property in decoded then Some(decoded[property]) else None
  }

  // What a decoded input holds for the property of one binding.
  ghost predicate BindingDecoded(host: Host, fields: RawFields, binding: Binding, held: Option<Value>) {
    if binding.name in fields then
      held.Some? && DecodesTo(host, fields[binding.name], binding.decode, held.value)
    else if IsCheckbox(binding) then held == Some(One(Bool(binding.decode.decoder.missing)))
    else held == None
  }

  ghost predicate InputDecoded(host: Host, input: InputContract, fields: RawFields, decoded: map<Text, Value>) {
    && (forall p :: p in decoded ==> p in input.properties && Allowed(decoded[p], input.properties[p]))
    && (forall p :: p in input.required ==> p in decoded)
    && (forall b :: b in input.bindings ==> OwnsProperty(input, b) && BindingDecoded(host, fields, b, Lookup(decoded, b.path[0])))
  }

  // A decoder that matches a schema produces values of the schema's kind, so the runtime's kind tests never fail.
  lemma KindAlwaysFits(host: Host, text: Text, decoder: ScalarDecoder, schema: ScalarSchema)
    requires ScalarMatches(decoder, schema)
    ensures match DecodeScalar(host, text, decoder)
      case Some(value) => KindFits(value, schema)
      case None => true
  {
    if decoder == IntegerDecoder && DecodeInteger(text).Some? {
      assert (DecodeInteger(text).value as real).Floor == DecodeInteger(text).value;
    }
  }

  lemma {:induction false} ItemsDecode(host: Host, values: seq<Text>, decoder: ScalarDecoder)
    ensures match DecodeItems(host, values, decoder)
      case Some(items) => DecodesTo(host, values, Repeat(decoder), Many(items))
      case None => exists i :: 0 <= i < |values| && DecodeScalar(host, values[i], decoder) == None
  {
    if values != [] {
      var rest, last := values[..|values| - 1], values[|values| - 1];
      ItemsDecode(host, rest, decoder);
      if DecodeScalar(host, last, decoder).Some? {
        ScalarExact(host, last, decoder, DecodeScalar(host, last, decoder).value);
      }
    }
  }

  lemma ScalarDecodes(host: Host, text: Text, decoder: ScalarDecoder)
    ensures match DecodeScalar(host, text, decoder)
      case Some(value) => StandsFor(host, text, decoder, value)
      case None => forall value :: !StandsFor(host, text, decoder, value)
  {
    forall value ensures DecodeScalar(host, text, decoder) == Some(value) <==> StandsFor(host, text, decoder, value) {
      ScalarExact(host, text, decoder, value);
    }
  }

  lemma ValueDecodes(host: Host, values: seq<Text>, decoder: Decoder)
    requires decoder.Single? ==> |values| == 1
    ensures match DecodeValue(host, values, decoder)
      case Some(value) => DecodesTo(host, values, decoder, value)
      case None => forall value :: !DecodesTo(host, values, decoder, value)
  {
    if decoder.Repeat? {
      ItemsDecode(host, values, decoder.items);
      if i :| 0 <= i < |values| && DecodeScalar(host, values[i], decoder.items) == None {
        ScalarDecodes(host, values[i], decoder.items);
      }
    } else {
      ScalarDecodes(host, values[0], decoder.decoder);
    }
  }

  // A text stands for one value at most.
  lemma StandsForOne(host: Host, text: Text, decoder: ScalarDecoder, a: Scalar, b: Scalar)
    requires StandsFor(host, text, decoder, a) && StandsFor(host, text, decoder, b)
    ensures a == b
  {
    ScalarExact(host, text, decoder, a);
    ScalarExact(host, text, decoder, b);
  }

  lemma DecodesToUnique(host: Host, values: seq<Text>, decoder: Decoder, a: Value, b: Value)
    requires DecodesTo(host, values, decoder, a) && DecodesTo(host, values, decoder, b)
    ensures a == b
  {
    if decoder.Repeat? {
      forall i | 0 <= i < |values| ensures a.items[i] == b.items[i] {
        StandsForOne(host, values[i], decoder.items, a.items[i], b.items[i]);
      }
      assert a.items == b.items;
    } else {
      StandsForOne(host, values[0], decoder.decoder, a.scalar, b.scalar);
    }
  }

  lemma BindingNamed(bindings: seq<Binding>, binding: Binding)
    requires binding in bindings && forall i, j :: 0 <= i < j < |bindings| ==> bindings[i].name != bindings[j].name
    ensures BindingOf(bindings, binding.name) == Some(binding)
  {
    var found := BindingOf(bindings, binding.name);
    var i :| 0 <= i < |bindings| && bindings[i] == binding;
    var j :| 0 <= j < |bindings| && bindings[j] == found.value;
  }

  // What decoding one binding should give: never a server error, and a failure exactly when it does not accept.
  ghost predicate OutcomeFine(host: Host, input: InputContract, fields: RawFields, binding: Binding) {
    && OwnsProperty(input, binding)
    && match DecodeBinding(host, input, fields, binding)
       case Failure(error) => error == BadRequest && !BindingAccepts(host, input, fields, binding)
       case Success(found) =>
         && BindingAccepts(host, input, fields, binding)
         && (found.Some? ==> Allowed(found.value, input.properties[binding.path[0]]))
         && BindingDecoded(host, fields, binding, found)
  }

  // ----- Names that every object has -----

  // The field was not submitted, but its name is that of a member of Object.prototype.
  predicate ReadsInherited(fields: RawFields, binding: Binding) {
    FieldAt(fields, binding.name) == Inherited
  }

  // The property is one that the runtime never sets.
  predicate Unsafe(binding: Binding)
    requires binding.path != []
  {
    binding.path[0] in RESERVED_NAMES
  }

  // The inherited member is taken for the values of a repeated field.
  predicate Faults(fields: RawFields, binding: Binding) {
    ReadsInherited(fields, binding) && binding.decode.Repeat?
  }

  // The empty text stands for nothing the property allows.
  ghost predicate EmptyRefused(host: Host, input: InputContract, binding: Binding)
    requires OwnsProperty(input, binding)
  {
    NothingAllowed(host, input, binding, [[]])
  }

  // The texts stand for nothing the property allows.
  ghost predicate NothingAllowed(host: Host, input: InputContract, binding: Binding, values: seq<Text>)
    requires OwnsProperty(input, binding)
  {
    forall value :: DecodesTo(host, values, binding.decode, value) ==> !Allowed(value, input.properties[binding.path[0]])
  }

  // Taking the absent field for an empty text makes no difference.
  ghost predicate Harmless(host: Host, input: InputContract, binding: Binding)
    requires OwnsProperty(input, binding)
  {
    && binding.decode.Single?
    && if binding.decode.decoder.CheckboxDecoder?
       then [] in binding.decode.decoder.trueValues && binding.decode.decoder.missing
       else binding.path[0] in input.required && EmptyRefused(host, input, binding)
  }

  // What a sound contract and accepted fields promise for one binding.
  ghost predicate Ready(input: InputContract, fields: RawFields, binding: Binding) {
    && OwnsProperty(input, binding)
    && DecoderMatchesSchema(binding.decode, input.properties[binding.path[0]])
    && (binding.name in fields && binding.decode.Single? ==> |fields[binding.name]| == 1)
  }

  lemma BindingReady(input: InputContract, fields: RawFields, binding: Binding)
    requires InputSound(input) && RawFieldsAccepted(input, fields)
    requires binding in input.bindings
    ensures Ready(input, fields, binding)
  {
    if binding.name in fields {
      BindingNamed(input.bindings, binding);
      assert FieldAccepted(input, binding.name, fields[binding.name]);
    }
  }

  // The runtime decodes what was submitted to the one value it stands for, if any.
  lemma SubmittedDecodes(host: Host, values: seq<Text>, decoder: Decoder)
    requires decoder.Single? ==> |values| == 1
    ensures forall value :: DecodesTo(host, values, decoder, value) <==> DecodeValue(host, values, decoder) == Some(value)
  {
    ValueDecodes(host, values, decoder);
    var decoded := DecodeValue(host, values, decoder);
    forall value | DecodesTo(host, values, decoder, value) ensures decoded == Some(value) {
      DecodesToUnique(host, values, decoder, value, decoded.value);
    }
  }

  // What a binding to an undeclared property comes to, which a sound contract does not have: a configuration failure, unless an
  // inherited member is taken for its schema, which lets no value pass and fails otherwise for a text than for the rest.
  lemma UndeclaredFails(host: Host, input: InputContract, fields: RawFields, binding: Binding)
    requires |binding.path| == 1 && binding.path[0] !in input.properties
    requires binding.name in fields && (binding.decode.Single? ==> |fields[binding.name]| == 1)
    ensures DecodeBinding(host, input, fields, binding) == Failure(
      if binding.path[0] in RESERVED_NAMES || binding.path[0] !in INHERITED_NAMES then Configuration
      else if exists text :: DecodesTo(host, fields[binding.name], binding.decode, One(Str(text))) then TypeFault
      else BadRequest)
  {
    SubmittedDecodes(host, fields[binding.name], binding.decode);
  }

  lemma FoundExact(host: Host, input: InputContract, binding: Binding, values: seq<Text>)
    requires OwnsProperty(input, binding) && (binding.decode.Single? ==> |values| == 1)
    ensures match DecodeFound(host, input, binding, values)
      case Failure(error) => error == BadRequest && NothingAllowed(host, input, binding, values)
      case Success(found) =>
        && found.Some? && DecodesTo(host, values, binding.decode, found.value)
        && Allowed(found.value, input.properties[binding.path[0]]) && !NothingAllowed(host, input, binding, values)
  {
    SubmittedDecodes(host, values, binding.decode);
    var decoded := DecodeValue(host, values, binding.decode);
    if decoded.Some? {
      ConformsExact(decoded.value, input.properties[binding.path[0]]);
    }
  }

  lemma EmptyFound(host: Host, input: InputContract, binding: Binding)
    requires OwnsProperty(input, binding) && binding.decode.Single?
    ensures DecodeFound(host, input, binding, []) == DecodeFound(host, input, binding, [[]])
  {
  }

  lemma SubmittedOutcome(host: Host, input: InputContract, fields: RawFields, binding: Binding)
    requires Ready(input, fields, binding) && !Unsafe(binding) && binding.name in fields
    ensures OutcomeFine(host, input, fields, binding)
  {
    FoundExact(host, input, binding, fields[binding.name]);
  }

  lemma InheritedOutcome(host: Host, input: InputContract, fields: RawFields, binding: Binding)
    requires Ready(input, fields, binding) && !Unsafe(binding) && ReadsInherited(fields, binding)
    ensures OutcomeFine(host, input, fields, binding) <==> Harmless(host, input, binding)
  {
    if binding.decode.Single? {
      EmptyFound(host, input, binding);
      FoundExact(host, input, binding, [[]]);
    }
  }

  // Decoding one binding gives what it should exactly if its property is not reserved, and its field was submitted, or its
  // name is no inherited one, or taking it for empty makes no difference.
  lemma BindingOutcome(host: Host, input: InputContract, fields: RawFields, binding: Binding)
    requires Ready(input, fields, binding)
    ensures OutcomeFine(host, input, fields, binding) <==>
      !Unsafe(binding) && (!ReadsInherited(fields, binding) || Harmless(host, input, binding))
  {
    if Unsafe(binding) {
    } else if binding.name in fields {
      SubmittedOutcome(host, input, fields, binding);
    } else if ReadsInherited(fields, binding) {
      InheritedOutcome(host, input, fields, binding);
    }
  }

  // ----- All bindings -----

  ghost predicate AllAccept(host: Host, input: InputContract, fields: RawFields, bindings: seq<Binding>) {
    forall b :: b in bindings ==> OwnsProperty(input, b) && BindingAccepts(host, input, fields, b)
  }

  ghost predicate SomeRefuses(host: Host, input: InputContract, fields: RawFields, bindings: seq<Binding>) {
    exists b :: b in bindings && OwnsProperty(input, b) && !BindingAccepts(host, input, fields, b)
  }

  ghost predicate PathsDistinct(bindings: seq<Binding>) {
    forall i, j :: 0 <= i < j < |bindings| ==> bindings[i].path != bindings[j].path
  }

  // The decoded map holds what each binding contributes, and nothing else.
  ghost predicate DecodedBy(host: Host, input: InputContract, fields: RawFields, bindings: seq<Binding>, decoded: map<Text, Value>) {
    && (forall b :: b in bindings ==> Contributes(host, input, fields, b, decoded))
    && (forall p :: p in decoded ==> exists b :: b in bindings && b.path == [p])
  }

  ghost predicate Contributes(host: Host, input: InputContract, fields: RawFields, binding: Binding, decoded: map<Text, Value>) {
    && |binding.path| == 1
    && DecodeBinding(host, input, fields, binding) == Success(Lookup(decoded, binding.path[0]))
  }

  // The binding at `k` is the first to fail, with this error.
  ghost predicate FailsAt(host: Host, input: InputContract, fields: RawFields, bindings: seq<Binding>, k: nat, error: RuntimeFailure) {
    && k < |bindings| && DecodeBinding(host, input, fields, bindings[k]) == Failure(error)
    && forall j :: 0 <= j < k ==> DecodeBinding(host, input, fields, bindings[j]).Success?
  }

  ghost predicate BindingsResult(host: Host, input: InputContract, fields: RawFields, bindings: seq<Binding>,
                                 r: Result<map<Text, Value>, RuntimeFailure>)
  {
    match r
    case Failure(error) => exists k: nat :: FailsAt(host, input, fields, bindings, k, error)
    case Success(decoded) => DecodedBy(host, input, fields, bindings, decoded)
  }

  lemma {:induction false} BindingsDecode(host: Host, input: InputContract, fields: RawFields, bindings: seq<Binding>)
    requires PathsDistinct(bindings) && forall b :: b in bindings ==> |b.path| == 1
    ensures BindingsResult(host, input, fields, bindings, DecodeBindings(host, input, fields, bindings))
  {
    if bindings != [] {
      var earlier, binding := bindings[..|bindings| - 1], bindings[|bindings| - 1];
      assert bindings == earlier + [binding];
      BindingsDecode(host, input, fields, earlier);
      var before := DecodeBindings(host, input, fields, earlier);
      var found := DecodeBinding(host, input, fields, binding);
      if before.Failure? {
        var k: nat :| FailsAt(host, input, fields, earlier, k, before.error);
        assert FailsAt(host, input, fields, bindings, k, before.error);
      } else if found.Failure? {
        forall j | 0 <= j < |bindings| - 1 ensures DecodeBinding(host, input, fields, bindings[j]).Success? {
          assert Contributes(host, input, fields, earlier[j], before.value);
        }
        assert FailsAt(host, input, fields, bindings, |bindings| - 1, found.error);
      } else {
        DecodedStep(host, input, fields, earlier, binding, before.value, found.value);
      }
    }
  }

  lemma DecodedStep(host: Host, input: InputContract, fields: RawFields, earlier: seq<Binding>, binding: Binding,
                    before: map<Text, Value>, found: Option<Value>)
    requires DecodedBy(host, input, fields, earlier, before)
    requires |binding.path| == 1 && forall b :: b in earlier ==> b.path != binding.path
    requires DecodeBinding(host, input, fields, binding) == Success(found)
    ensures DecodedBy(host, input, fields, earlier + [binding],
                      if found.Some? then before[binding.path[0] := found.value] else before)
  {
    var property := binding.path[0];
    var after := if found.Some? then before[property := found.value] else before;
    assert binding.path == [property];
    assert property !in before;
    assert Lookup(after, property) == found;
    forall b | b in earlier ensures Contributes(host, input, fields, b, after) {
      assert b.path == [b.path[0]];
      assert Contributes(host, input, fields, b, before);
    }
    assert binding in earlier + [binding];
    forall p | p in after ensures exists b :: b in earlier + [binding] && b.path == [p] {
      if p in before {
        var b :| b in earlier && b.path == [p];
        assert b in earlier + [binding];
      }
    }
  }

  // The final required test of the decoder never fails for a sound contract.
  lemma RequiredDecoded(host: Host, input: InputContract, fields: RawFields, decoded: map<Text, Value>, property: Text)
    requires InputSound(input) && property in input.required
    requires DecodedBy(host, input, fields, input.bindings, decoded)
    ensures property in decoded
  {
    var b :| b in input.bindings && b.path == [property];
    RequiredContributes(host, input, fields, b, decoded);
  }

  // A binding of a required property contributes a value or fails.
  lemma RequiredContributes(host: Host, input: InputContract, fields: RawFields, binding: Binding, decoded: map<Text, Value>)
    requires Contributes(host, input, fields, binding, decoded) && binding.path[0] in input.required
    ensures binding.path[0] in decoded
  {
  }

  lemma InputDecodes(host: Host, input: InputContract, fields: RawFields)
    requires InputSound(input)
    ensures BindingsResult(host, input, fields, input.bindings, DecodedInput(host, input, fields))
  {
    BindingsDecode(host, input, fields, input.bindings);
    var decoded := DecodeBindings(host, input, fields, input.bindings);
    if decoded.Success? {
      forall p | p in input.required ensures p in decoded.value {
        RequiredDecoded(host, input, fields, decoded.value, p);
      }
    }
  }

  // ----- The decoded input -----

  // What decoding should give: a refusal if some binding does not accept, and otherwise only declared properties, every
  // required one, all in kind and bounds, and every submitted bound value.
  ghost predicate OutcomeStated(host: Host, input: InputContract, fields: RawFields) {
    match DecodedInput(host, input, fields)
    case Failure(error) => error == BadRequest && SomeRefuses(host, input, fields, input.bindings)
    case Success(decoded) => InputDecoded(host, input, fields, decoded) && AllAccept(host, input, fields, input.bindings)
  }

  ghost predicate NoneMisread(host: Host, input: InputContract, fields: RawFields) {
    forall b :: b in input.bindings ==> OwnsProperty(input, b) && (!ReadsInherited(fields, b) || Harmless(host, input, b))
  }

  // For a sound contract, decoding accepted fields gives what it should unless a field that was not submitted is misread.
  lemma DecodedInputConforms(host: Host, input: InputContract, fields: RawFields)
    requires InputSound(input) && NoReservedProperty(input) && RawFieldsAccepted(input, fields)
    requires NoneMisread(host, input, fields)
    ensures OutcomeStated(host, input, fields)
  {
    forall b | b in input.bindings ensures OutcomeFine(host, input, fields, b) {
      BindingReady(input, fields, b);
      BindingOutcome(host, input, fields, b);
    }
    InputDecodes(host, input, fields);
    var r := DecodedInput(host, input, fields);
    if r.Success? {
      FineDecoded(host, input, fields, r.value);
    } else {
      var k: nat :| FailsAt(host, input, fields, input.bindings, k, r.error);
      assert OutcomeFine(host, input, fields, input.bindings[k]);
    }
  }

  lemma FineDecoded(host: Host, input: InputContract, fields: RawFields, decoded: map<Text, Value>)
    requires InputSound(input) && DecodedBy(host, input, fields, input.bindings, decoded)
    requires forall b :: b in input.bindings ==> OutcomeFine(host, input, fields, b)
    ensures InputDecoded(host, input, fields, decoded) && AllAccept(host, input, fields, input.bindings)
  {
    forall b | b in input.bindings
      ensures BindingAccepts(host, input, fields, b) && BindingDecoded(host, fields, b, Lookup(decoded, b.path[0]))
    {
      assert Contributes(host, input, fields, b, decoded) && OutcomeFine(host, input, fields, b);
    }
    forall p | p in decoded ensures p in input.properties && Allowed(decoded[p], input.properties[p]) {
      var b :| b in input.bindings && b.path == [p];
      assert Contributes(host, input, fields, b, decoded) && OutcomeFine(host, input, fields, b);
    }
    forall p | p in input.required ensures p in decoded {
      RequiredDecoded(host, input, fields, decoded, p);
    }
  }

  // The texts submitted for a binding, or the empty text taken for them, stand for nothing its property allows.
  ghost predicate Refuses(host: Host, input: InputContract, fields: RawFields, binding: Binding)
    requires OwnsProperty(input, binding)
  {
    match FieldAt(fields, binding.name)
    case Absent => !IsCheckbox(binding) && binding.path[0] in input.required
    case Inherited => binding.decode.Single? && EmptyRefused(host, input, binding)
    case Submitted(values) => NothingAllowed(host, input, binding, values)
  }

  // What ends the decoding at a binding, if anything does.
  ghost function Trouble(host: Host, input: InputContract, fields: RawFields, binding: Binding): Option<RuntimeFailure>
    requires OwnsProperty(input, binding)
  {
    if Unsafe(binding) then Some(Configuration)
    else if Faults(fields, binding) then Some(TypeFault)
    else if Refuses(host, input, fields, binding) then Some(BadRequest)
    else None
  }

  lemma TroubleExact(host: Host, input: InputContract, fields: RawFields, binding: Binding)
    requires Ready(input, fields, binding)
    ensures match DecodeBinding(host, input, fields, binding)
      case Success(_) => Trouble(host, input, fields, binding) == None
      case Failure(error) => Trouble(host, input, fields, binding) == Some(error)
  {
    if binding.name in fields {
      FoundExact(host, input, binding, fields[binding.name]);
    } else if binding.decode.Single? {
      EmptyFound(host, input, binding);
      FoundExact(host, input, binding, [[]]);
    }
  }

  // The first binding with any trouble has this one.
  ghost predicate FailsFirst(host: Host, input: InputContract, fields: RawFields, bindings: seq<Binding>, error: RuntimeFailure)
    requires forall b :: b in bindings ==> OwnsProperty(input, b)
  {
    exists k :: 0 <= k < |bindings| && FirstTrouble(host, input, fields, bindings, k, error)
  }

  ghost predicate FirstTrouble(host: Host, input: InputContract, fields: RawFields, bindings: seq<Binding>, k: int, error: RuntimeFailure)
    requires 0 <= k < |bindings| && forall b :: b in bindings ==> OwnsProperty(input, b)
  {
    && Trouble(host, input, fields, bindings[k]) == Some(error)
    && forall j :: 0 <= j < k ==> Trouble(host, input, fields, bindings[j]) == None
  }

  ghost predicate AllReady(input: InputContract, fields: RawFields, bindings: seq<Binding>) {
    forall b :: b in bindings ==> Ready(input, fields, b)
  }

  lemma BindingsReady(input: InputContract, fields: RawFields)
    requires InputSound(input) && RawFieldsAccepted(input, fields)
    ensures AllReady(input, fields, input.bindings)
  {
    forall b | b in input.bindings ensures Ready(input, fields, b) {
      BindingReady(input, fields, b);
    }
  }

  lemma FailsAtTrouble(host: Host, input: InputContract, fields: RawFields, bindings: seq<Binding>, k: nat, error: RuntimeFailure)
    requires AllReady(input, fields, bindings) && FailsAt(host, input, fields, bindings, k, error)
    ensures FirstTrouble(host, input, fields, bindings, k, error)
  {
    forall j | 0 <= j <= k
      ensures Ready(input, fields, bindings[j])
      ensures DecodeBinding(host, input, fields, bindings[j]).Success? ==> Trouble(host, input, fields, bindings[j]) == None
    {
      TroubleExact(host, input, fields, bindings[j]);
    }
    TroubleExact(host, input, fields, bindings[k]);
  }

  lemma FirstUnique(host: Host, input: InputContract, fields: RawFields, bindings: seq<Binding>, a: RuntimeFailure, b: RuntimeFailure)
    requires AllReady(input, fields, bindings)
    requires FailsFirst(host, input, fields, bindings, a) && FailsFirst(host, input, fields, bindings, b)
    ensures a == b
  {
    var j :| 0 <= j < |bindings| && FirstTrouble(host, input, fields, bindings, j, a);
    var k :| 0 <= k < |bindings| && FirstTrouble(host, input, fields, bindings, k, b);
    assert j == k;
  }

  lemma NothingFails(host: Host, input: InputContract, fields: RawFields, bindings: seq<Binding>, decoded: map<Text, Value>)
    requires AllReady(input, fields, bindings) && DecodedBy(host, input, fields, bindings, decoded)
    ensures forall b :: b in bindings ==> Trouble(host, input, fields, b) == None
  {
    forall b | b in bindings ensures Trouble(host, input, fields, b) == None {
      assert Contributes(host, input, fields, b, decoded);
      TroubleExact(host, input, fields, b);
    }
  }

  lemma FailsFirstWith(host: Host, input: InputContract, fields: RawFields, error: RuntimeFailure)
    requires InputSound(input) && AllReady(input, fields, input.bindings)
    requires DecodedInput(host, input, fields) == Failure(error)
    ensures FailsFirst(host, input, fields, input.bindings, error)
  {
    InputDecodes(host, input, fields);
    var k: nat :| FailsAt(host, input, fields, input.bindings, k, error);
    FailsAtTrouble(host, input, fields, input.bindings, k, error);
  }

  lemma SuccessNotFirst(host: Host, input: InputContract, fields: RawFields, error: RuntimeFailure)
    requires InputSound(input) && AllReady(input, fields, input.bindings) && DecodedInput(host, input, fields).Success?
    ensures !FailsFirst(host, input, fields, input.bindings, error)
  {
    InputDecodes(host, input, fields);
    NothingFails(host, input, fields, input.bindings, DecodedInput(host, input, fields).value);
  }

  // Decoding accepted fields under a sound contract fails exactly if some binding has trouble, and as the first of them does.
  lemma FailsExactly(host: Host, input: InputContract, fields: RawFields, error: RuntimeFailure)
    requires InputSound(input) && RawFieldsAccepted(input, fields)
    ensures DecodedInput(host, input, fields) == Failure(error) <==> FailsFirst(host, input, fields, input.bindings, error)
  {
    BindingsReady(input, fields);
    match DecodedInput(host, input, fields)
    case Success(_) => SuccessNotFirst(host, input, fields, error);
    case Failure(first) =>
      FailsFirstWith(host, input, fields, first);
      if FailsFirst(host, input, fields, input.bindings, error) {
        FirstUnique(host, input, fields, input.bindings, first, error);
      }
  }

  lemma StatedThenRead(host: Host, input: InputContract, fields: RawFields)
    requires InputSound(input) && RawFieldsAccepted(input, fields)
    requires AllAccept(host, input, fields, input.bindings) && OutcomeStated(host, input, fields)
    ensures NoReservedProperty(input) && NoneMisread(host, input, fields)
  {
    InputDecodes(host, input, fields);
    var decoded := DecodedInput(host, input, fields).value;
    forall b | b in input.bindings
      ensures !Unsafe(b) && (!ReadsInherited(fields, b) || Harmless(host, input, b))
    {
      assert Contributes(host, input, fields, b, decoded);
      assert BindingDecoded(host, fields, b, Lookup(decoded, b.path[0]));
      BindingReady(input, fields, b);
      BindingOutcome(host, input, fields, b);
    }
    forall p | p in input.properties ensures p !in RESERVED_NAMES {
      var b :| b in input.bindings && b.path == [p];
      assert !Unsafe(b);
    }
  }

  lemma RefusalStated(host: Host, input: InputContract, fields: RawFields)
    requires InputSound(input) && !AllAccept(host, input, fields, input.bindings)
    ensures OutcomeStated(host, input, fields) <==> DecodedInput(host, input, fields) == Failure(BadRequest)
  {
  }

  // Where every binding accepts, decoding gives what it should exactly if no property is reserved and no field misread;
  // where one does not, exactly if a refusal comes before any other trouble.
  lemma StatedExactly(host: Host, input: InputContract, fields: RawFields)
    requires InputSound(input) && RawFieldsAccepted(input, fields)
    ensures OutcomeStated(host, input, fields) <==>
      if AllAccept(host, input, fields, input.bindings) then NoReservedProperty(input) && NoneMisread(host, input, fields)
      else FailsFirst(host, input, fields, input.bindings, BadRequest)
  {
    if AllAccept(host, input, fields, input.bindings) {
      if NoReservedProperty(input) && NoneMisread(host, input, fields) {
        DecodedInputConforms(host, input, fields);
      }
      if OutcomeStated(host, input, fields) {
        StatedThenRead(host, input, fields);
      }
    } else {
      FailsExactly(host, input, fields, BadRequest);
      RefusalStated(host, input, fields);
    }
  }
}
