/** What the metadata codec guarantees: distinct discriminants, exact layouts, and that
    encoding and decoding are inverse to each other in both directions. */
module MetadataProofs {
  import opened Wire
  import opened Primitives
  import opened Metadata

  /** Every discriminant is distinct: primitive kinds lie below the vector discriminant,
      and the struct discriminant is the vector one plus one, with no wrap-around. */
  lemma DiscriminantsDistinct(k: XbfPrimitiveMetadata)
    ensures Discriminant(k) < VEC_METADATA_DISCRIMINANT
    ensures STRUCT_METADATA_DISCRIMINANT == VEC_METADATA_DISCRIMINANT + 1
    ensures Discriminant(k) != STRUCT_METADATA_DISCRIMINANT
  {
  }

  /** Two kinds with the same discriminant are the same kind. */
  lemma DiscriminantInjective(a: XbfPrimitiveMetadata, b: XbfPrimitiveMetadata)
    requires Discriminant(a) == Discriminant(b)
    ensures a == b
  {
    assert PRIMITIVE_KINDS[Discriminant(a)] == a;
  }

  /** Decoding an encoded shape gives it back and leaves the rest unread. */
  lemma {:induction false} MetadataRoundTrip(m: XbfMetadata, rest: Bytes)
    requires EncodableMetadata(m)
    ensures DecodeMetadata(EncodeMetadata(m) + rest) == Ok((m, rest))
    decreases m, 2, 0
  {
    var input := EncodeMetadata(m) + rest;
    match m
    case Primitive(k) =>
      assert input[0] == Discriminant(k) && input[1..] == rest;
      DiscriminantsDistinct(k);
      DiscriminantInjective(k, PRIMITIVE_KINDS[Discriminant(k)]);
    case Vec(vm) =>
      assert input[1..] == EncodeMetadata(vm.elem) + rest;
      MetadataRoundTrip(vm.elem, rest);
    case Struct(sm) =>
      assert EncodeMetadata(m) == [STRUCT_METADATA_DISCRIMINANT] + EncodeStructBody(sm);
      assert input == [STRUCT_METADATA_DISCRIMINANT] + (EncodeStructBody(sm) + rest);
      StructBodyRoundTrip(sm, rest);
  }

  /** Decoding an encoded struct body (its discriminant already consumed) gives the struct back. */
  lemma {:induction false} StructBodyRoundTrip(sm: XbfStructMetadata, rest: Bytes)
    requires EncodableStruct(sm)
    ensures DecodeStructMetadata(EncodeStructBody(sm) + rest) == Ok((sm, rest))
    decreases sm, 1, 0
  {
    var fieldBytes := EncodeFieldsFrom(sm, 0) + rest;
    var afterName := LE(|sm.fields|, 2) + fieldBytes;
    assert EncodeStructBody(sm) + rest == EncodeString(sm.name) + afterName;
    StringRoundTrip(sm.name, afterName);
    UintRoundTrip(|sm.fields|, 2, fieldBytes);
    FieldsRoundTrip(sm, 0, rest);
    assert sm.fields[0..] == sm.fields;
  }

  /** Decoding the encoded fields from position i yields exactly those fields. */
  lemma {:induction false} FieldsRoundTrip(sm: XbfStructMetadata, i: nat, rest: Bytes)
    requires EncodableStruct(sm) && i <= |sm.fields|
    ensures DecodeFields(|sm.fields| - i, EncodeFieldsFrom(sm, i) + rest) == Ok((sm.fields[i..], rest))
    decreases sm, 0, |sm.fields| - i
  {
    if i < |sm.fields| {
      var later := EncodeFieldsFrom(sm, i + 1) + rest;
      MetadataRoundTrip(sm.fields[i].1, later);
      FieldsRoundTrip(sm, i + 1, rest);
      FieldsCons(sm, i, rest, later);
    } else {
      assert EncodeFieldsFrom(sm, i) + rest == rest;
      assert sm.fields[i..] == [];
    }
  }

  /** The field loop's step: field i decodes from its own bytes, then the later fields do. */
  lemma FieldsCons(sm: XbfStructMetadata, i: nat, rest: Bytes, later: Bytes)
    requires i < |sm.fields| && |sm.fields[i].0| < 0x1_0000
    requires later == EncodeFieldsFrom(sm, i + 1) + rest
    requires DecodeMetadata(EncodeMetadata(sm.fields[i].1) + later) == Ok((sm.fields[i].1, later))
    requires DecodeFields(|sm.fields| - (i + 1), later) == Ok((sm.fields[i + 1..], rest))
    ensures DecodeFields(|sm.fields| - i, EncodeFieldsFrom(sm, i) + rest) == Ok((sm.fields[i..], rest))
  {
    FieldStep(|sm.fields| - i, sm.fields[i].0, EncodeMetadata(sm.fields[i].1), sm.fields[i].1,
      later, sm.fields[i + 1..], rest);
    FieldsFromUnfold(sm, i, rest);
    SliceCons(sm.fields, i);
  }

  /** The encoded fields from position i: the name and shape of field i, then the later fields. */
  lemma FieldsFromUnfold(sm: XbfStructMetadata, i: nat, rest: Bytes)
    requires i < |sm.fields|
    ensures EncodeFieldsFrom(sm, i) + rest
      == EncodeString(sm.fields[i].0) + (EncodeMetadata(sm.fields[i].1) + (EncodeFieldsFrom(sm, i + 1) + rest))
  {
  }

  /** One step of the field loop: a name followed by a shape that decodes on its own, then
      the later fields. */
  lemma FieldStep(n: nat, name: Bytes, shape: Bytes, m: XbfMetadata, later: Bytes,
                  tail: seq<(Bytes, XbfMetadata)>, rest: Bytes)
    requires n > 0 && |name| < 0x1_0000
    requires DecodeMetadata(shape + later) == Ok((m, later))
    requires DecodeFields(n - 1, later) == Ok((tail, rest))
    ensures DecodeFields(n, EncodeString(name) + (shape + later)) == Ok(([(name, m)] + tail, rest))
  {
    StringRoundTrip(name, shape + later);
  }

  /** Whatever decodes as a shape is an encodable shape, and the bytes consumed are its encoding. */
  lemma {:induction false} DecodedMetadataEncodes(input: Bytes)
    requires DecodeMetadata(input).Ok?
    ensures EncodableMetadata(DecodeMetadata(input).value.0)
    ensures input == EncodeMetadata(DecodeMetadata(input).value.0) + DecodeMetadata(input).value.1
    decreases |input|, 3, 0
  {
    if input[0] == VEC_METADATA_DISCRIMINANT {
      DecodedVecEncodes(input);
    } else if input[0] == STRUCT_METADATA_DISCRIMINANT {
      DecodedStructTagEncodes(input);
    } else {
      var (m, rest) := DecodeMetadata(input).value;
      assert Discriminant(m.kind) == input[0];
      assert input == [input[0]] + input[1..];
    }
  }

  lemma {:induction false} DecodedVecEncodes(input: Bytes)
    requires DecodeMetadata(input).Ok? && input[0] == VEC_METADATA_DISCRIMINANT
    ensures EncodableMetadata(DecodeMetadata(input).value.0)
    ensures input == EncodeMetadata(DecodeMetadata(input).value.0) + DecodeMetadata(input).value.1
    decreases |input|, 2, 0
  {
    var tail := input[1..];
    var (elem, rest) := DecodeMetadata(tail).value;
    assert DecodeMetadata(input) == Ok((Vec(XbfVecMetadata(elem)), rest));
    DecodedMetadataEncodes(tail);
    assert input == [VEC_METADATA_DISCRIMINANT] + (EncodeMetadata(elem) + rest);
  }

  lemma {:induction false} DecodedStructTagEncodes(input: Bytes)
    requires DecodeMetadata(input).Ok? && input[0] == STRUCT_METADATA_DISCRIMINANT
    ensures EncodableMetadata(DecodeMetadata(input).value.0)
    ensures input == EncodeMetadata(DecodeMetadata(input).value.0) + DecodeMetadata(input).value.1
    decreases |input|, 2, 0
  {
    StructTagUnfold(input);
    DecodedStructEncodes(input[1..]);
    var (sm, rest) := DecodeStructMetadata(input[1..]).value;
    StructTagStep(input, sm, rest);
  }

  /** The struct discriminant followed by a struct body is that struct's full encoding. */
  lemma StructTagStep(input: Bytes, sm: XbfStructMetadata, rest: Bytes)
    requires input != [] && input[0] == STRUCT_METADATA_DISCRIMINANT
    requires input[1..] == EncodeStructBody(sm) + rest && EncodableStruct(sm)
    ensures input == EncodeMetadata(Struct(sm)) + rest && EncodableMetadata(Struct(sm))
  {
    assert input == [input[0]] + input[1..];
  }

  /** A leading struct discriminant: the shape is the struct body that follows it. */
  lemma StructTagUnfold(input: Bytes)
    requires input != [] && input[0] == STRUCT_METADATA_DISCRIMINANT
    ensures var d := DecodeStructMetadata(input[1..]);
      DecodeMetadata(input) == if d.Ok? then Ok((Struct(d.value.0), d.value.1)) else Err(d.error)
  {
  }

  /** Whatever decodes as a struct body is an encodable struct, and the bytes consumed are its body. */
  lemma {:induction false} DecodedStructEncodes(input: Bytes)
    requires DecodeStructMetadata(input).Ok?
    ensures EncodableStruct(DecodeStructMetadata(input).value.0)
    ensures input == EncodeStructBody(DecodeStructMetadata(input).value.0) + DecodeStructMetadata(input).value.1
    decreases |input|, 1, 0
  {
    var (sm, rest) := DecodeStructMetadata(input).value;
    var afterName, afterCount := StructBodyInverse(input);
    DecodedStringEncodes(input);
    DecodedFieldsEncode(sm, 0, |sm.fields|, afterCount);
    BodyUnfold(sm, rest);
    assert afterName == LE(|sm.fields|, 2) + afterCount;
  }

  /** Taking apart a successfully decoded struct body: name, count, then the fields. */
  lemma StructBodyInverse(input: Bytes) returns (afterName: Bytes, afterCount: Bytes)
    requires DecodeStructMetadata(input).Ok?
    ensures var (sm, rest) := DecodeStructMetadata(input).value;
      && DecodeString(input) == Ok((sm.name, afterName))
      && |sm.fields| < 0x1_0000
      && afterName == LE(|sm.fields|, 2) + afterCount
      && DecodeFields(|sm.fields|, afterCount) == Ok((sm.fields, rest))
      && sm.fields[0..] == sm.fields
  {
    afterName := DecodeString(input).value.1;
    var count := DecodeUint(2, afterName).value.0;
    afterCount := DecodeUint(2, afterName).value.1;
    DecodedUintEncodes(2, afterName);
  }

  /** The encoded struct body, associated to the right. */
  lemma BodyUnfold(sm: XbfStructMetadata, rest: Bytes)
    requires |sm.fields| < 0x1_0000
    ensures EncodeStructBody(sm) + rest
      == EncodeString(sm.name) + (LE(|sm.fields|, 2) + (EncodeFieldsFrom(sm, 0) + rest))
  {
  }

  /** Decoded fields are encodable, and the bytes consumed are their encoding, wherever
      they sit in an enclosing struct. */
  lemma {:induction false} DecodedFieldsEncode(sm: XbfStructMetadata, i: nat, n: nat, input: Bytes)
    requires DecodeFields(n, input).Ok?
    requires i <= |sm.fields| && sm.fields[i..] == DecodeFields(n, input).value.0
    ensures forall j | i <= j < |sm.fields| ::
      |sm.fields[j].0| < 0x1_0000 && EncodableMetadata(sm.fields[j].1)
    ensures input == EncodeFieldsFrom(sm, i) + DecodeFields(n, input).value.1
    decreases |input|, 0, n
  {
    var (fs, rest) := DecodeFields(n, input).value;
    if n == 0 {
      assert EncodeFieldsFrom(sm, i) == [];
    } else {
      var name, afterName, m, afterField := FieldStepInverse(n, input);
      var tail := DecodeFields(n - 1, afterField).value.0;
      assert fs == [(name, m)] + tail;
      assert fs[1..] == tail;
      assert sm.fields[i] == fs[0] == (name, m);
      assert sm.fields[i + 1..] == sm.fields[i..][1..] == tail;
      assert |afterField| < |input|;
      assert DecodeFields(n - 1, afterField).Ok?;
      assert i + 1 <= |sm.fields|;
      assert sm.fields[i + 1..] == DecodeFields(n - 1, afterField).value.0;
      DecodedFieldsEncode(sm, i + 1, n - 1, afterField);
      DecodedStringEncodes(input);
      DecodedMetadataEncodes(afterName);
      FieldsFromUnfold(sm, i, rest);
    }
  }

  /** Taking apart one successful step of the field loop. */
  lemma FieldStepInverse(n: nat, input: Bytes) returns (name: Bytes, afterName: Bytes, m: XbfMetadata, afterField: Bytes)
    requires n > 0 && DecodeFields(n, input).Ok?
    ensures DecodeString(input) == Ok((name, afterName))
    ensures DecodeMetadata(afterName) == Ok((m, afterField))
    ensures DecodeFields(n - 1, afterField).Ok?
    ensures DecodeFields(n, input).value.0 == [(name, m)] + DecodeFields(n - 1, afterField).value.0
    ensures DecodeFields(n, input).value.1 == DecodeFields(n - 1, afterField).value.1
  {
    name, afterName := DecodeString(input).value.0, DecodeString(input).value.1;
    m, afterField := DecodeMetadata(afterName).value.0, DecodeMetadata(afterName).value.1;
  }

  /** A failed read of any field name or field shape fails the whole struct: no partial
      struct is returned, and the error is the failed read's. */
  lemma {:induction false} FieldFailureAborts(n: nat, input: Bytes)
    requires n > 0
    ensures DecodeString(input).Err? ==> DecodeFields(n, input) == Err(DecodeString(input).error)
    ensures DecodeString(input).Ok? && DecodeMetadata(DecodeString(input).value.1).Err? ==>
      DecodeFields(n, input) == Err(DecodeMetadata(DecodeString(input).value.1).error)
  {
  }

  /** A count below 256 is written as its own byte followed by a zero byte. */
  lemma ShortPrefix(n: nat)
    requires n < 256
    ensures LE(n % 0x1_0000, 2) == [n, 0]
  {
    assert LE(n / 256, 1) == [0] + LE(0, 0);
  }

  const I32_SHAPE: XbfMetadata := Primitive(XbfPrimitiveMetadata.I32)
  const I32_TAG: u8 := Discriminant(XbfPrimitiveMetadata.I32)

  /** The struct { a: i32, b: u64 } named "test_struct". */
  const TEST_STRUCT := XbfStructMetadata(
    [0x74, 0x65, 0x73, 0x74, 0x5f, 0x73, 0x74, 0x72, 0x75, 0x63, 0x74],
    [([0x61], I32_SHAPE), ([0x62], Primitive(XbfPrimitiveMetadata.U64))])

  /** The layout of TEST_STRUCT: discriminant, name, field count 2, then each field's
      name and kind discriminant. */
  lemma StructLayoutExample()
    ensures EncodeStructMetadata(TEST_STRUCT)
      == [STRUCT_METADATA_DISCRIMINANT] + [11, 0] + TEST_STRUCT.name + [2, 0]
         + [1, 0, 0x61, I32_TAG] + [1, 0, 0x62, Discriminant(XbfPrimitiveMetadata.U64)]
  {
    var sm := TEST_STRUCT;
    var fields := [1, 0, 0x61, I32_TAG] + [1, 0, 0x62, Discriminant(XbfPrimitiveMetadata.U64)];
    assert EncodeStructBody(sm) == [11, 0] + sm.name + [2, 0] + fields by {
      ShortPrefix(11);
      ShortPrefix(2);
      TestFieldsLayout();
      assert EncodeString(sm.name) == [11, 0] + sm.name;
    }
    var head := [STRUCT_METADATA_DISCRIMINANT] + [11, 0] + sm.name + [2, 0];
    assert [STRUCT_METADATA_DISCRIMINANT] + ([11, 0] + sm.name + [2, 0] + fields) == head + fields;
  }

  lemma TestFieldsLayout()
    ensures EncodeFieldsFrom(TEST_STRUCT, 0)
      == [1, 0, 0x61, I32_TAG] + [1, 0, 0x62, Discriminant(XbfPrimitiveMetadata.U64)]
  {
    var sm := TEST_STRUCT;
    ShortPrefix(1);
    assert EncodeString([0x61]) == [1, 0, 0x61];
    assert EncodeString([0x62]) == [1, 0, 0x62];
    assert EncodeFieldsFrom(sm, 2) == [];
    assert EncodeFieldsFrom(sm, 1)
      == EncodeString([0x62]) + EncodeMetadata(Primitive(XbfPrimitiveMetadata.U64)) + EncodeFieldsFrom(sm, 2)
      == [1, 0, 0x62, Discriminant(XbfPrimitiveMetadata.U64)];
    assert EncodeFieldsFrom(sm, 0) == EncodeString([0x61]) + EncodeMetadata(I32_SHAPE) + EncodeFieldsFrom(sm, 1);
  }

  /** The struct named "inner" with one field d: i32. */
  const INNER := XbfStructMetadata([0x69, 0x6e, 0x6e, 0x65, 0x72], [([0x64], I32_SHAPE)])
  const INNER_BYTES: Bytes := [STRUCT_METADATA_DISCRIMINANT] + [5, 0] + INNER.name + [1, 0] + [1, 0, 0x64, I32_TAG]

  /** The struct named "test" with fields a: i32, b: vector of i32, c: INNER. */
  const NESTED := XbfStructMetadata([0x74, 0x65, 0x73, 0x74], [
    ([0x61], I32_SHAPE),
    ([0x62], Vec(XbfVecMetadata(I32_SHAPE))),
    ([0x63], Struct(INNER))])

  lemma InnerLayout()
    ensures EncodeMetadata(Struct(INNER)) == INNER_BYTES
  {
    ShortPrefix(1);
    ShortPrefix(5);
    assert EncodeString([0x64]) == [1, 0, 0x64];
    assert EncodeString(INNER.name) == [5, 0] + INNER.name;
    assert EncodeFieldsFrom(INNER, 1) == [];
    assert EncodeFieldsFrom(INNER, 0) == EncodeString([0x64]) + EncodeMetadata(I32_SHAPE) + EncodeFieldsFrom(INNER, 1)
      == [1, 0, 0x64, I32_TAG];
    assert EncodeStructBody(INNER) == [5, 0] + INNER.name + [1, 0] + [1, 0, 0x64, I32_TAG];
  }

  /** The nested layout: a vector field writes the vector discriminant then its element
      shape, and a struct field writes its own full encoding, discriminant included. */
  lemma NestedLayoutExample()
    ensures EncodeStructMetadata(NESTED)
      == [STRUCT_METADATA_DISCRIMINANT] + ([4, 0] + NESTED.name + [3, 0]
         + ([1, 0, 0x61, I32_TAG]
            + [1, 0, 0x62, VEC_METADATA_DISCRIMINANT, I32_TAG]
            + [1, 0, 0x63] + INNER_BYTES))
  {
    ShortPrefix(4);
    ShortPrefix(3);
    assert EncodeString(NESTED.name) == [4, 0] + NESTED.name;
    NestedFieldsLayout();
  }

  lemma NestedFieldsLayout()
    ensures EncodeFieldsFrom(NESTED, 0)
      == [1, 0, 0x61, I32_TAG] + [1, 0, 0x62, VEC_METADATA_DISCRIMINANT, I32_TAG] + [1, 0, 0x63] + INNER_BYTES
  {
    var sm := NESTED;
    var b, c := [1, 0, 0x62, VEC_METADATA_DISCRIMINANT, I32_TAG], [1, 0, 0x63];
    ShortPrefix(1);
    NestedLaterFields();
    assert EncodeString([0x61]) == [1, 0, 0x61];
    assert EncodeFieldsFrom(sm, 0) == [1, 0, 0x61] + [I32_TAG] + (b + c + INNER_BYTES);
  }

  lemma NestedLaterFields()
    ensures EncodeFieldsFrom(NESTED, 1)
      == [1, 0, 0x62, VEC_METADATA_DISCRIMINANT, I32_TAG] + [1, 0, 0x63] + INNER_BYTES
  {
    var sm := NESTED;
    ShortPrefix(1);
    InnerLayout();
    assert EncodeString([0x62]) == [1, 0, 0x62];
    assert EncodeString([0x63]) == [1, 0, 0x63];
    assert EncodeMetadata(Vec(XbfVecMetadata(I32_SHAPE))) == [VEC_METADATA_DISCRIMINANT, I32_TAG];
    assert EncodeFieldsFrom(sm, 3) == [];
    assert EncodeFieldsFrom(sm, 2) == [1, 0, 0x63] + INNER_BYTES + [];
    assert EncodeFieldsFrom(sm, 1)
      == [1, 0, 0x62] + [VEC_METADATA_DISCRIMINANT, I32_TAG] + ([1, 0, 0x63] + INNER_BYTES);
  }

  /** The nested example reads back through the shape decoder as the same struct. */
  lemma NestedRoundTripExample()
    ensures DecodeMetadata(EncodeStructMetadata(NESTED)) == Ok((Struct(NESTED), []))
  {
    assert EncodableStruct(INNER);
    assert EncodableStruct(NESTED);
    MetadataRoundTrip(Struct(NESTED), []);
    assert EncodeStructMetadata(NESTED) + [] == EncodeStructMetadata(NESTED);
  }
}
