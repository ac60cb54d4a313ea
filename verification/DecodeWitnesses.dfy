/**
 Sound contracts that the runtime does not serve as declared: their fields are named like members of Object.prototype and
 misread when they are not submitted, or their properties have names it never sets.
 */
module DecodeWitnesses {
  import opened Wrappers
  import opened Texts
  import opened PlainObjects
  import opened Contracts
  import opened ContractValidation
  import opened RuntimeForm
  import opened DecodeConformance
  import opened RuntimeManifest
  import opened Sorting

  const TO_STRING: Text := Codes("toString")
  const PROPERTY: Text := Codes("n")
  const OTHER_PROPERTY: Text := Codes("m")
  const QUANTITY: Text := Codes("q")

  // One required text property, bound to the field toString.
  const TEXT_CONTRACT := InputContract(
    map[PROPERTY := ScalarProperty(StringSchema(None, None))],
    [PROPERTY],
    [Binding(TO_STRING, [PROPERTY], Single(TextDecoder(false, false)))],
    None)

  // One optional property, bound to the repeated field toString.
  const REPEAT_CONTRACT := InputContract(
    map[PROPERTY := ArrayProperty(StringSchema(None, None), None, None)],
    [],
    [Binding(TO_STRING, [PROPERTY], Repeat(TextDecoder(false, false)))],
    None)

  lemma ToStringInherited()
    ensures TO_STRING in INHERITED_NAMES
    ensures PROPERTY !in RESERVED_NAMES && OTHER_PROPERTY !in RESERVED_NAMES && QUANTITY !in INHERITED_NAMES
  {
    assert |PROPERTY| == |OTHER_PROPERTY| == |QUANTITY| == 1;
    forall name | name in INHERITED_NAMES ensures |name| > 1 {
    }
  }

  // A request without the required field should be refused; it is decoded with an empty text in its place.
  lemma RequiredTextMissing(host: Host)
    ensures InputSound(TEXT_CONTRACT) && NoReservedProperty(TEXT_CONTRACT) && RawFieldsAccepted(TEXT_CONTRACT, map[])
    ensures DecodedInput(host, TEXT_CONTRACT, map[]) == Success(map[PROPERTY := One(Str([]))])
    ensures !OutcomeStated(host, TEXT_CONTRACT, map[])
  {
    ToStringInherited();
    var binding := TEXT_CONTRACT.bindings[0];
    assert TEXT_CONTRACT.bindings[..0] == [];
    assert DecodeBindings(host, TEXT_CONTRACT, map[], []) == Success(map[]);
  }

  // A request without the optional repeated field should decode to nothing; it is answered with a server error.
  lemma RepeatedFieldMissing(host: Host)
    ensures InputSound(REPEAT_CONTRACT) && NoReservedProperty(REPEAT_CONTRACT) && RawFieldsAccepted(REPEAT_CONTRACT, map[])
    ensures DecodedInput(host, REPEAT_CONTRACT, map[]) == Failure(TypeFault)
  {
    ToStringInherited();
    assert REPEAT_CONTRACT.bindings[..0] == [];
    assert DecodeBindings(host, REPEAT_CONTRACT, map[], []) == Success(map[]);
  }

  // One optional text property with a name the runtime never sets, bound to the field q.
  const RESERVED_CONTRACT := InputContract(
    map[CONSTRUCTOR := ScalarProperty(StringSchema(None, None))],
    [],
    [Binding(QUANTITY, [CONSTRUCTOR], Single(TextDecoder(false, false)))],
    None)

  // Whatever is submitted for it, the request is answered with a server error.
  lemma ReservedPropertyBound(host: Host, fields: RawFields)
    ensures InputSound(RESERVED_CONTRACT)
    ensures DecodedInput(host, RESERVED_CONTRACT, fields) == Failure(Configuration)
  {
    assert RESERVED_CONTRACT.bindings[..0] == [];
    assert DecodeBindings(host, RESERVED_CONTRACT, fields, []) == Success(map[]);
  }

  const REPEAT_BINDING := Binding(TO_STRING, [PROPERTY], Repeat(TextDecoder(false, false)))
  const INTEGER_BINDING := Binding(QUANTITY, [OTHER_PROPERTY], Single(IntegerDecoder))

  // An optional array bound to the repeated field toString, then a required integer bound to q.
  const ORDERED_CONTRACT := InputContract(
    map[
      PROPERTY := ArrayProperty(StringSchema(None, None), None, None),
      OTHER_PROPERTY := ScalarProperty(IntegerSchema(None, None))],
    [OTHER_PROPERTY],
    [REPEAT_BINDING, INTEGER_BINDING],
    None)

  // Sorting the bindings puts q first, and a request with neither field is refused instead of answered with a server error.
  lemma OrderObservable(host: Host)
    ensures InputSound(ORDERED_CONTRACT) && NoReservedProperty(ORDERED_CONTRACT) && RawFieldsAccepted(ORDERED_CONTRACT, map[])
    ensures DecodedInput(host, ORDERED_CONTRACT, map[]) == Failure(TypeFault)
    ensures DecodedInput(host, CanonicalInput(ORDERED_CONTRACT), map[]) == Failure(BadRequest)
  {
    ToStringInherited();
    OrderedSound();
    DecodePair(host, ORDERED_CONTRACT, REPEAT_BINDING, INTEGER_BINDING);
    SortPair();
    DecodePair(host, CanonicalInput(ORDERED_CONTRACT), INTEGER_BINDING, REPEAT_BINDING);
  }

  lemma OrderedSound()
    ensures InputSound(ORDERED_CONTRACT)
  {
    assert PROPERTY[0] != OTHER_PROPERTY[0];
    assert |TO_STRING| != |QUANTITY|;
    assert forall i :: 0 <= i < 2 ==> ORDERED_CONTRACT.bindings[i] in ORDERED_CONTRACT.bindings;
    assert ORDERED_CONTRACT.bindings[0].path == [PROPERTY] && ORDERED_CONTRACT.bindings[1].path == [OTHER_PROPERTY];
  }

  lemma DecodePair(host: Host, input: InputContract, a: Binding, b: Binding)
    requires input.bindings == [a, b] && DecodeBinding(host, input, map[], a).Failure?
    ensures DecodedInput(host, input, map[]).Failure?
    ensures DecodedInput(host, input, map[]).error == DecodeBinding(host, input, map[], a).error
  {
    var none: seq<Binding> := [];
    assert [a, b][..1] == [a] && [a][..0] == none;
    assert DecodeBindings(host, input, map[], none) == Success(map[]);
    assert DecodeBindings(host, input, map[], [a]).Failure?;
  }

  lemma SortPair()
    ensures CanonicalInput(ORDERED_CONTRACT).bindings == [INTEGER_BINDING, REPEAT_BINDING]
    ensures CanonicalInput(ORDERED_CONTRACT).required == [OTHER_PROPERTY]
  {
    var bindings, none: seq<Binding> := [REPEAT_BINDING, INTEGER_BINDING], [];
    assert bindings[1..] == [INTEGER_BINDING] && [INTEGER_BINDING][1..] == none && [REPEAT_BINDING][1..] == none;
    assert Sort(BindingAtMost, none) == none;
    assert Sort(BindingAtMost, [INTEGER_BINDING]) == Insert(BindingAtMost, INTEGER_BINDING, none) == [INTEGER_BINDING];
    assert QUANTITY[0] < TO_STRING[0];
    assert Less(QUANTITY, TO_STRING) && !Less(TO_STRING, QUANTITY);
    assert !BindingAtMost(REPEAT_BINDING, INTEGER_BINDING);
    assert Insert(BindingAtMost, REPEAT_BINDING, [INTEGER_BINDING])
        == [INTEGER_BINDING] + Insert(BindingAtMost, REPEAT_BINDING, none);
    assert Insert(BindingAtMost, REPEAT_BINDING, none) == [REPEAT_BINDING];
    assert Sort(BindingAtMost, bindings) == Insert(BindingAtMost, bindings[0], Sort(BindingAtMost, bindings[1..]));
    var properties, empty: seq<Text> := [OTHER_PROPERTY], [];
    assert properties[1..] == empty;
    assert Sort(TextAtMost, empty) == empty;
  }
}
