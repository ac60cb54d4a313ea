/**
 What a submitted text stands for under a decoder, and which values a schema allows, told without the runtime's own decoding and
 checking (packages/reference-runtime/src/form.ts, decodeScalar and validateSchemaValue).
 */
module DecodedValues {
  import opened Wrappers
  import opened Texts
  import opened PlainObjects
  import opened Contracts
  import opened Numerals
  import opened RuntimeForm

  // ----- Lengths of texts -----

  // How many code units of the text are at least this big.
  ghost function UnitsFrom(s: Text, low: nat): nat {
    if s == [] then 0 else UnitsFrom(s[..|s| - 1], low) + (if s[|s| - 1] >= low then 1 else 0)
  }

  // The unit at `i` is a high surrogate and the next one a low one.
  ghost predicate PairAt(s: Text, i: int) {
    0 <= i < |s| - 1 && 0xD800 <= s[i] <= 0xDBFF && 0xDC00 <= s[i + 1] <= 0xDFFF
  }

  ghost function Pairs(s: Text): nat {
    if s == [] then 0 else Pairs(s[..|s| - 1]) + (if PairAt(s, |s| - 2) then 1 else 0)
  }

  // The characters of a text: a surrogate pair is one.
  ghost function Characters(s: Text): int {
    |s| - Pairs(s)
  }

  // The bytes of a text in UTF-8: one to three a unit, but four a surrogate pair.
  ghost function Bytes(s: Text): int {
    |s| + UnitsFrom(s, 0x80) + UnitsFrom(s, 0x800) - 2 * Pairs(s)
  }

  lemma {:induction false} UnitsHead(x: CodeUnit, s: Text, low: nat)
    ensures UnitsFrom([x] + s, low) == (if x >= low then 1 else 0) + UnitsFrom(s, low)
  {
    var all := [x] + s;
    if s == [] {
      assert all[..|all| - 1] == [];
    } else {
      assert all[..|all| - 1] == [x] + s[..|s| - 1];
      UnitsHead(x, s[..|s| - 1], low);
    }
  }

  lemma {:induction false} PairsHead(x: CodeUnit, s: Text)
    ensures Pairs([x] + s) == (if PairAt([x] + s, 0) then 1 else 0) + Pairs(s)
  {
    var all := [x] + s;
    if s == [] {
      assert all[..|all| - 1] == [];
    } else {
      assert all[..|all| - 1] == [x] + s[..|s| - 1];
      PairsHead(x, s[..|s| - 1]);
      assert PairAt(all, |all| - 2) <==> (if |s| == 1 then PairAt(all, 0) else PairAt(s, |s| - 2));
    }
  }

  lemma TextHead(s: Text)
    requires s != []
    ensures Characters(s) == 1 + Characters(s[1..]) - (if PairAt(s, 0) then 1 else 0)
    ensures Bytes(s) == 1 + (if s[0] >= 0x80 then 1 else 0) + (if s[0] >= 0x800 then 1 else 0)
                        + Bytes(s[1..]) - (if PairAt(s, 0) then 2 else 0)
  {
    assert s == [s[0]] + s[1..];
    UnitsHead(s[0], s[1..], 0x80);
    UnitsHead(s[0], s[1..], 0x800);
    PairsHead(s[0], s[1..]);
  }

  lemma {:induction false} LengthsExact(s: Text)
    ensures CharacterCount(s) == Characters(s)
    ensures Utf8Length(s) == Bytes(s)
  {
    if s != [] {
      TextHead(s);
      if PairAt(s, 0) {
        TextHead(s[1..]);
        assert s[1..][1..] == s[2..];
        LengthsExact(s[2..]);
      } else {
        LengthsExact(s[1..]);
      }
    }
  }

  // ----- Decoders -----

  // The texts a decoder takes, and the value each of them stands for.
  ghost predicate StandsFor(host: Host, text: Text, decoder: ScalarDecoder, value: Scalar) {
    match decoder
    case TextDecoder(trim, rejectEmpty) =>
      value == Str(if trim then host.trim(text) else text) && (rejectEmpty ==> value.text != [])
    case IntegerDecoder => exists k: int :: IsNumeralOf(text, k) && value == Num(k as real)
    case DecimalDecoder => host.decimal(text).Some? && value == Num(host.decimal(text).value)
    case CheckboxDecoder(trueValues, _) => text in trueValues && value == Bool(true)
    case EnumDecoder(values) => text in values && value == Str(text)
  }

  // The text is how a safe integer is printed, or "-0" for zero.
  ghost predicate IsNumeralOf(text: Text, k: int) {
    -9007199254740991 <= k <= 9007199254740991 && (text == PrintInteger(k) || (k == 0 && text == Codes("-0")))
  }

  lemma ScalarExact(host: Host, text: Text, decoder: ScalarDecoder, value: Scalar)
    ensures DecodeScalar(host, text, decoder) == Some(value) <==> StandsFor(host, text, decoder, value)
  {
    if decoder == IntegerDecoder {
      assert Codes("-0") == [MINUS, ZERO];
      forall k: int ensures DecodeInteger(text) == Some(k) <==> IsNumeralOf(text, k) {
        DecodeIntegerExact(text, k);
      }
    }
  }

  // ----- Schemas -----

  ghost predicate IsSafely(x: real, k: int) {
    -9007199254740991 <= k <= 9007199254740991 && x == k as real
  }

  ghost predicate AllowedScalar(value: Scalar, schema: ScalarSchema) {
    match schema
    case StringSchema(low, high) =>
      && value.Str?
      && (low.Some? ==> Characters(value.text) >= low.value)
      && (high.Some? ==> Characters(value.text) <= high.value)
    case IntegerSchema(low, high) =>
      && value.Num?
      && (exists k: int :: IsSafely(value.number, k))
      && (low.Some? ==> value.number >= low.value)
      && (high.Some? ==> value.number <= high.value)
    case NumberSchema(low, high) =>
      && value.Num?
      && (low.Some? ==> value.number >= low.value)
      && (high.Some? ==> value.number <= high.value)
    case BooleanSchema => value.Bool?
    case EnumSchema(values) => value.Str? && value.text in values
  }

  ghost predicate Allowed(value: Value, schema: PropertySchema) {
    match schema
    case ScalarProperty(scalar) => value.One? && AllowedScalar(value.scalar, scalar)
    case ArrayProperty(items, low, high) =>
      && value.Many?
      && (low.Some? ==> |value.items| >= low.value) && (high.Some? ==> |value.items| <= high.value)
      && forall i :: 0 <= i < |value.items| ==> AllowedScalar(value.items[i], items)
  }

  lemma SafeIntegerExact(x: real)
    ensures IsSafeInteger(x) <==> exists k: int :: IsSafely(x, k)
  {
    if IsSafeInteger(x) {
      assert IsSafely(x, x.Floor);
    }
    if k: int :| IsSafely(x, k) {
      assert (k as real).Floor == k;
    }
  }

  lemma ScalarAllowed(value: Scalar, schema: ScalarSchema)
    ensures ScalarConforms(value, schema) <==> AllowedScalar(value, schema)
  {
    if value.Str? {
      LengthsExact(value.text);
    } else if value.Num? {
      SafeIntegerExact(value.number);
    }
  }

  lemma ConformsExact(value: Value, schema: PropertySchema)
    ensures Conforms(value, schema) <==> Allowed(value, schema)
  {
    if schema.ScalarProperty? && value.One? {
      ScalarAllowed(value.scalar, schema.schema);
    } else if schema.ArrayProperty? && value.Many? {
      forall i | 0 <= i < |value.items| ensures ScalarConforms(value.items[i], schema.items) <==> AllowedScalar(value.items[i], schema.items) {
        ScalarAllowed(value.items[i], schema.items);
      }
      assert (forall v :: v in value.items ==> ScalarConforms(v, schema.items)) <==>
        (forall i :: 0 <= i < |value.items| ==> ScalarConforms(value.items[i], schema.items));
    }
  }
}
