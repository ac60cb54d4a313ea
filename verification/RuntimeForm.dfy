/** Field checking and decoding in the reference runtime (packages/reference-runtime/src/form.ts). */
module RuntimeForm {
  import opened Wrappers
  import opened Texts
  import opened PlainObjects
  import opened Contracts
  import opened Numerals

  // The submitted fields: names to values, in submission order per name.
  type RawFields = map<Text, seq<Text>>

  // Every JSON number is a number, whatever decoder it came from.
  datatype Scalar = Str(text: Text) | Num(number: real) | Bool(truth: bool)

  datatype Value = One(scalar: Scalar) | Many(items: seq<Scalar>)

  // A request is refused (400), too long (413), or ends in a server error (500): a contract the runtime cannot work with,
  // or an operation on something that is not what the code takes it for.
  datatype RuntimeFailure = BadRequest | TooManyFields | Configuration | TypeFault

  // String.prototype.trim, and the decimal pattern followed by Number and the finiteness test, as parameters.
  datatype Host = Host(trim: Text -> Text, decimal: Text -> Option<real>)

  const RESERVED_NAMES: set<Text> := {PROTO, CONSTRUCTOR, Codes("prototype")}

  // ----- The fields of an entry list -----

  type Entry = (Text, Text)

  datatype Limits = Limits(maxFields: nat, maxFieldBytes: nat)

  predicate IsHighSurrogate(u: CodeUnit) {
    0xD800 <= u < 0xDC00
  }

  predicate IsLowSurrogate(u: CodeUnit) {
    0xDC00 <= u < 0xE000
  }

  // The bytes TextEncoder makes of a text; a lone surrogate is replaced by a character of three bytes.
  function Utf8Length(s: Text): nat {
    if s == [] then 0
    else if |s| > 1 && IsHighSurrogate(s[0]) && IsLowSurrogate(s[1]) then 4 + Utf8Length(s[2..])
    else (if s[0] < 0x80 then 1 else if s[0] < 0x800 then 2 else 3) + Utf8Length(s[1..])
  }

  predicate IsShort(limits: Limits, entry: Entry) {
    Utf8Length(entry.0) <= limits.maxFieldBytes && Utf8Length(entry.1) <= limits.maxFieldBytes
  }

  predicate EntryReadable(limits: Limits, entry: Entry) {
    entry.0 != [] && entry.0 !in RESERVED_NAMES && IsShort(limits, entry)
  }

  predicate AllReadable(limits: Limits, entries: seq<Entry>) {
    forall e :: e in entries ==> EntryReadable(limits, e)
  }

  function ValuesOf(entries: seq<Entry>, name: Text): seq<Text> {
    if entries == [] then []
    else
      var last := entries[|entries| - 1];
      ValuesOf(entries[..|entries| - 1], name) + if last.0 == name then [last.1] else []
  }

  function Names(entries: seq<Entry>): set<Text> {
    set e | e in entries :: e.0
  }

  // The entries grouped by name.
  function FieldsOf(entries: seq<Entry>): RawFields {
    map name | name in Names(entries) :: ValuesOf(entries, name)
  }

  lemma {:induction false} NamesExact(entries: seq<Entry>, name: Text)
    ensures name in Names(entries) <==> ValuesOf(entries, name) != []
  {
    if entries != [] {
      var before, last := entries[..|entries| - 1], entries[|entries| - 1];
      NamesExact(before, name);
      assert entries == before + [last];
      assert name in Names(entries) <==> name in Names(before) || name == last.0;
    }
  }

  lemma ValuesAppend(entries: seq<Entry>, entry: Entry, name: Text)
    ensures ValuesOf(entries + [entry], name) ==
      if entry.0 == name then ValuesOf(entries, name) + [entry.1] else ValuesOf(entries, name)
  {
    assert (entries + [entry])[..|entries + [entry]| - 1] == entries;
    assert ValuesOf(entries, name) + [] == ValuesOf(entries, name);
  }

  lemma NamesAppend(entries: seq<Entry>, entry: Entry)
    ensures Names(entries + [entry]) == Names(entries) + {entry.0}
  {
    var all := entries + [entry];
    assert entry in all && forall e :: e in all <==> e in entries || e == entry;
  }

  function With(fields: RawFields, entry: Entry): RawFields {
    fields[entry.0 := (if entry.0 in fields then fields[entry.0] else []) + [entry.1]]
  }

  lemma FieldsAppend(entries: seq<Entry>, entry: Entry)
    ensures FieldsOf(entries + [entry]) == With(FieldsOf(entries), entry)
  {
    var left, right := FieldsOf(entries + [entry]), With(FieldsOf(entries), entry);
    NamesAppend(entries, entry);
    assert left.Keys == right.Keys;
    forall name | name in left ensures left[name] == right[name] {
      FieldAppended(entries, entry, name);
    }
  }

  lemma FieldAppended(entries: seq<Entry>, entry: Entry, name: Text)
    requires name in Names(entries) || name == entry.0
    ensures ValuesOf(entries + [entry], name) == With(FieldsOf(entries), entry)[name]
  {
    ValuesAppend(entries, entry, name);
    NamesExact(entries, name);
    assert [] + [entry.1] == [entry.1];
  }

  // Reading fails exactly if there are too many entries, or a name is empty or reserved, or a name or value is too long;
  // otherwise it groups the entries by name.
  method ReadFields(limits: Limits, entries: seq<Entry>) returns (r: Result<RawFields, RuntimeFailure>)
    ensures r ==
      if |entries| > limits.maxFields then Failure(TooManyFields)
      else if AllReadable(limits, entries) then Success(FieldsOf(entries))
      else Failure(BadRequest)
  {
    if |entries| > limits.maxFields {
      return Failure(TooManyFields);
    }
    var fields: RawFields := map[];
    for k := 0 to |entries|
      invariant AllReadable(limits, entries[..k])
      invariant fields == FieldsOf(entries[..k])
    {
      var (name, value) := entries[k];
      if name == [] || name in RESERVED_NAMES || Utf8Length(name) > limits.maxFieldBytes || Utf8Length(value) > limits.maxFieldBytes {
        assert !EntryReadable(limits, entries[k]);
        return Failure(BadRequest);
      }
      assert entries[..k + 1] == entries[..k] + [entries[k]];
      FieldsAppend(entries[..k], entries[k]);
      fields := fields[name := (if name in fields then fields[name] else []) + [value]];
    }
    assert entries[..|entries|] == entries;
    r := Success(fields);
  }

  // ----- Which fields are accepted -----

  // One field passes: it is bound or ignored, and has a single value unless it is bound to a repeat decoder.
  predicate FieldAccepted(input: InputContract, name: Text, values: seq<Text>) {
    var binding := BindingOf(input.bindings, name);
    && (binding.Some? || IsIgnored(input, name))
    && ((binding.Some? && binding.value.decode.Repeat?) || |values| == 1)
  }

  predicate RawFieldsAccepted(input: InputContract, fields: RawFields) {
    forall name :: name in fields ==> FieldAccepted(input, name, fields[name])
  }

  method ValidateRawFields(input: InputContract, fields: RawFields) returns (accepted: bool)
    ensures accepted <==> RawFieldsAccepted(input, fields)
  {
    var bindings: map<Text, Binding> := map[];
    for k := 0 to |input.bindings|
      invariant forall n :: n in bindings <==> BindingOf(input.bindings[..k], n).Some?
      invariant forall n :: n in bindings ==> bindings[n] == BindingOf(input.bindings[..k], n).value
    {
      assert input.bindings[..k + 1][..k] == input.bindings[..k];
      bindings := bindings[input.bindings[k].name := input.bindings[k]];
    }
    assert input.bindings[..|input.bindings|] == input.bindings;
    var ignored := set f | f in IgnoredFields(input) :: f.name;
    var remaining := fields.Keys;
    while remaining != {}
      invariant remaining <= fields.Keys
      invariant forall n :: n in fields && n !in remaining ==> FieldAccepted(input, n, fields[n])
    {
      var name :| name in remaining;
      remaining := remaining - {name};
      if name !in bindings && name !in ignored {
        return false;
      }
      if (name !in bindings || !bindings[name].decode.Repeat?) && |fields[name]| != 1 {
        return false;
      }
    }
    return true;
  }

  // The entries are read and every field passes.
  predicate Accepts(limits: Limits, input: InputContract, entries: seq<Entry>) {
    |entries| <= limits.maxFields && AllReadable(limits, entries) && RawFieldsAccepted(input, FieldsOf(entries))
  }

  method TakeFields(limits: Limits, input: InputContract, entries: seq<Entry>) returns (taken: Option<RawFields>)
    ensures taken == if Accepts(limits, input, entries) then Some(FieldsOf(entries)) else None
  {
    var fields := ReadFields(limits, entries);
    if fields.Failure? {
      return None;
    }
    var accepted := ValidateRawFields(input, fields.value);
    taken := if accepted then Some(fields.value) else None;
  }

  // ----- Decoding -----

  function DecodeScalar(host: Host, value: Text, decoder: ScalarDecoder): Option<Scalar> {
    match decoder
    case TextDecoder(trim, rejectEmpty) =>
      var decoded := if trim then host.trim(value) else value;
      if rejectEmpty && decoded == [] then None else Some(Str(decoded))
    case IntegerDecoder =>
      (match DecodeInteger(value)
       case Some(n) => Some(Num(n as real))
       case None => None)
    case DecimalDecoder =>
      (match host.decimal(value)
       case Some(x) => Some(Num(x))
       case None => None)
    case CheckboxDecoder(trueValues, _) => if value in trueValues then Some(Bool(true)) else None
    case EnumDecoder(values) => if value in values then Some(Str(value)) else None
  }

  function DecodeItems(host: Host, values: seq<Text>, decoder: ScalarDecoder): Option<seq<Scalar>> {
    if values == [] then Some([])
    else
      match DecodeItems(host, values[..|values| - 1], decoder)
      case None => None
      case Some(before) =>
        match DecodeScalar(host, values[|values| - 1], decoder)
        case None => None
        case Some(item) => Some(before + [item])
  }

  function DecodeValue(host: Host, values: seq<Text>, decoder: Decoder): Option<Value> {
    match decoder
    case Repeat(items) =>
      (match DecodeItems(host, values, items)
       case Some(decoded) => Some(Many(decoded))
       case None => None)
    case Single(scalar) =>
      (match DecodeScalar(host, if values == [] then [] else values[0], scalar)
       case Some(decoded) => Some(One(decoded))
       case None => None)
  }

  // [...value].length: a surrogate pair is one character.
  function CharacterCount(s: Text): nat {
    if s == [] then 0
    else if |s| > 1 && IsHighSurrogate(s[0]) && IsLowSurrogate(s[1]) then 1 + CharacterCount(s[2..])
    else 1 + CharacterCount(s[1..])
  }

  predicate IsSafeInteger(x: real) {
    x == x.Floor as real && -MAX_SAFE_INTEGER <= x.Floor <= MAX_SAFE_INTEGER
  }

  predicate Within(x: real, low: Option<real>, high: Option<real>) {
    (low.Some? ==> low.value <= x) && (high.Some? ==> x <= high.value)
  }

  predicate CountWithin(n: nat, low: Option<nat>, high: Option<nat>) {
    (low.Some? ==> low.value <= n) && (high.Some? ==> n <= high.value)
  }

  predicate KindFits(value: Scalar, schema: ScalarSchema) {
    match schema
    case StringSchema(_, _) => value.Str?
    case IntegerSchema(_, _) => value.Num? && IsSafeInteger(value.number)
    case NumberSchema(_, _) => value.Num?
    case BooleanSchema => value.Bool?
    case EnumSchema(values) => value.Str? && value.text in values
  }

  predicate BoundsFit(value: Scalar, schema: ScalarSchema)
    requires KindFits(value, schema)
  {
    match schema
    case StringSchema(low, high) => CountWithin(CharacterCount(value.text), low, high)
    case IntegerSchema(low, high) => Within(value.number, low, high)
    case NumberSchema(low, high) => Within(value.number, low, high)
    case _ => true
  }

  predicate ScalarConforms(value: Scalar, schema: ScalarSchema) {
    KindFits(value, schema) && BoundsFit(value, schema)
  }

  predicate Conforms(value: Value, schema: PropertySchema) {
    match schema
    case ScalarProperty(scalar) => value.One? && ScalarConforms(value.scalar, scalar)
    case ArrayProperty(items, low, high) =>
      && value.Many? && CountWithin(|value.items|, low, high)
      && forall v :: v in value.items ==> ScalarConforms(v, items)
  }

  // What looking a name up among the submitted fields finds. Of a member of Object.prototype the program reads the first
  // element and, for a repeated field, calls `map`: the one is undefined and the other no function.
  datatype Found = Submitted(values: seq<Text>) | Inherited | Absent

  function FieldAt(fields: RawFields, name: Text): Found {
    if name in fields then Submitted(fields[name]) else if name in INHERITED_NAMES then Inherited else Absent
  }

  // The schema of an undeclared property with an inherited name is a function, of no kind and with no values.
  function CheckValue(input: InputContract, property: Text, value: Value): Result<Option<Value>, RuntimeFailure> {
    if property in input.properties then
      if Conforms(value, input.properties[property]) then Success(Some(value)) else Failure(BadRequest)
    else if value.One? && value.scalar.Str? then Failure(TypeFault)
    else Failure(BadRequest)
  }

  function DecodeFound(host: Host, input: InputContract, binding: Binding, values: seq<Text>): Result<Option<Value>, RuntimeFailure>
    requires binding.path != []
  {
    match DecodeValue(host, values, binding.decode)
    case None => Failure(BadRequest)
    case Some(value) => CheckValue(input, binding.path[0], value)
  }

  // What one binding contributes: nothing, a value for its property, or a failure of the whole decoding.
  function DecodeBinding(host: Host, input: InputContract, fields: RawFields, binding: Binding)
    : Result<Option<Value>, RuntimeFailure>
  {
    if |binding.path| != 1 || binding.path[0] in RESERVED_NAMES then Failure(Configuration)
    else if binding.path[0] !in input.properties && binding.path[0] !in INHERITED_NAMES then Failure(Configuration)
    else
      match FieldAt(fields, binding.name)
      case Absent =>
        if binding.decode.Single? && binding.decode.decoder.CheckboxDecoder?
        then Success(Some(One(Bool(binding.decode.decoder.missing))))
        else if binding.path[0] in input.required then Failure(BadRequest)
        else Success(None)
      case Inherited => if binding.decode.Repeat? then Failure(TypeFault) else DecodeFound(host, input, binding, [])
      case Submitted(values) => DecodeFound(host, input, binding, values)
  }

  function DecodeBindings(host: Host, input: InputContract, fields: RawFields, bindings: seq<Binding>)
    : (r: Result<map<Text, Value>, RuntimeFailure>)
  {
    if bindings == [] then Success(map[])
    else
      var binding := bindings[|bindings| - 1];
      var before :- DecodeBindings(host, input, fields, bindings[..|bindings| - 1]);
      var found :- DecodeBinding(host, input, fields, binding);
      Success(if found.Some? then before[binding.path[0] := found.value] else before)
  }

  function DecodedInput(host: Host, input: InputContract, fields: RawFields): Result<map<Text, Value>, RuntimeFailure> {
    var decoded :- DecodeBindings(host, input, fields, input.bindings);
    if forall p :: p in input.required ==> p in decoded then Success(decoded) else Failure(BadRequest)
  }

  lemma {:induction false} DecodeBindingsFailure(host: Host, input: InputContract, fields: RawFields, bindings: seq<Binding>, k: nat)
    requires k <= |bindings| && DecodeBindings(host, input, fields, bindings[..k]).Failure?
    ensures DecodeBindings(host, input, fields, bindings) == DecodeBindings(host, input, fields, bindings[..k])
  {
    if k == |bindings| {
      assert bindings[..k] == bindings;
    } else {
      assert bindings[..|bindings| - 1][..k] == bindings[..k];
      DecodeBindingsFailure(host, input, fields, bindings[..|bindings| - 1], k);
    }
  }

  method DecodeActionInput(host: Host, input: InputContract, fields: RawFields)
    returns (r: Result<map<Text, Value>, RuntimeFailure>)
    ensures r == DecodedInput(host, input, fields)
  {
    var decoded :- DecodeEach(host, input, fields);
    for k := 0 to |input.required|
      invariant forall j :: 0 <= j < k ==> input.required[j] in decoded
    {
      if input.required[k] !in decoded {
        return Failure(BadRequest);
      }
    }
    r := Success(decoded);
  }

  method DecodeEach(host: Host, input: InputContract, fields: RawFields) returns (r: Result<map<Text, Value>, RuntimeFailure>)
    ensures r == DecodeBindings(host, input, fields, input.bindings)
  {
    var decoded: map<Text, Value> := map[];
    for k := 0 to |input.bindings|
      invariant DecodeBindings(host, input, fields, input.bindings[..k]) == Success(decoded)
    {
      var binding := input.bindings[k];
      assert input.bindings[..k + 1][..k] == input.bindings[..k];
      var found := DecodeBinding(host, input, fields, binding);
      if found.Failure? {
        DecodeBindingsFailure(host, input, fields, input.bindings, k + 1);
        return Failure(found.error);
      }
      if found.value.Some? {
        decoded := decoded[binding.path[0] := found.value.value];
      }
    }
    assert input.bindings[..|input.bindings|] == input.bindings;
    r := Success(decoded);
  }
}
