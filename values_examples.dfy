/** The struct constructor and the struct value codec on the values of the library's own
    documentation and tests. */
module ValuesExamples {
  import opened Wire
  import opened Primitives
  import opened Metadata
  import opened MetadataProofs
  import opened Values
  import opened ValuesProofs

  const U64_SHAPE: XbfMetadata := XbfMetadata.Primitive(XbfPrimitiveMetadata.U64)
  const STRING_SHAPE: XbfMetadata := XbfMetadata.Primitive(XbfPrimitiveMetadata.String)

  const I32_42: XbfType := XbfType.Primitive(XbfPrimitive.I32(42))

  /** new accepts i32 42 and u64 69 for the fields a: i32, b: u64. */
  method NewAcceptsExample() returns (r: Result<XbfStruct, StructFieldMismatchError>)
    ensures r == Ok(XbfStruct(TEST_STRUCT, [I32_42, XbfType.Primitive(XbfPrimitive.U64(69))]))
  {
    r := New(TEST_STRUCT, [I32_42, XbfType.Primitive(XbfPrimitive.U64(69))]);
  }

  /** new refuses a string for field a, naming a, its declared i32 and the supplied string. */
  method NewRejectsFirstExample() returns (r: Result<XbfStruct, StructFieldMismatchError>)
    ensures r == Err(StructFieldMismatchError([0x61], I32_SHAPE, STRING_SHAPE))
  {
    var fields := [XbfType.Primitive(XbfPrimitive.String([0x68, 0x69])), XbfType.Primitive(XbfPrimitive.U64(69))];
    r := New(TEST_STRUCT, fields);
    assert !FieldMatches(TEST_STRUCT, fields, 0);
  }

  /** new refuses an i64 for field b once a has matched. */
  method NewRejectsSecondExample() returns (r: Result<XbfStruct, StructFieldMismatchError>)
    ensures r == Err(StructFieldMismatchError([0x62], U64_SHAPE, XbfMetadata.Primitive(XbfPrimitiveMetadata.I64)))
  {
    var fields := [I32_42, XbfType.Primitive(XbfPrimitive.I64(42))];
    r := New(TEST_STRUCT, fields);
    assert FieldMatches(TEST_STRUCT, fields, 0) && !FieldMatches(TEST_STRUCT, fields, 1);
  }

  /** new compares only as many pairs as the shorter side has: one value for two fields is
      accepted, and the struct it builds does not read back from its own bytes. */
  method NewAcceptsMissingField() returns (r: Result<XbfStruct, StructFieldMismatchError>)
    ensures r.Ok? && r.value.fields == [I32_42]
    ensures DecodeStructValue(r.value.metadata, EncodeStructValue(r.value)) == Err(UnexpectedEof)
  {
    r := New(TEST_STRUCT, [I32_42]);
    MissingFieldFails();
  }

  lemma MissingFieldFails()
    ensures EncodeStructValue(NewUnchecked(TEST_STRUCT, [I32_42])) == [42, 0, 0, 0]
    ensures DecodeStructValue(TEST_STRUCT, [42, 0, 0, 0]) == Err(UnexpectedEof)
  {
    I32Bytes();
    var s := NewUnchecked(TEST_STRUCT, [I32_42]);
    assert EncodeFieldValuesFrom(s, 1) == [];
    assert EncodeFieldValuesFrom(s, 0) == EncodeType(I32_42) + EncodeFieldValuesFrom(s, 1);
    assert EncodeStructValue(s) == [42, 0, 0, 0] + [];
    SecondFieldMissing();
  }

  /** After a: 42i32 the input is empty, and b: u64 cannot be read from it. */
  lemma SecondFieldMissing()
    ensures DecodeStructValue(TEST_STRUCT, [42, 0, 0, 0]) == Err(UnexpectedEof)
  {
    var input: Bytes := [42, 0, 0, 0];
    I32Bytes();
    assert input == EncodePrimitive(XbfPrimitive.I32(42)) + [];
    PrimitiveProofs.PrimitiveRoundTrip(XbfPrimitive.I32(42), []);
    assert DecodeType(I32_SHAPE, input) == Ok((I32_42, []));
    FieldValueFailureAborts(TEST_STRUCT, 1, []);
  }

  /** The same values through the length-checking constructor: refused, with both counts. */
  method NewExactRejectsMissingField() returns (r: Result<XbfStruct, StructNewError>)
    ensures r == Err(FieldCountMismatch(2, 1))
  {
    r := NewExact(TEST_STRUCT, [I32_42]);
  }

  lemma I32Bytes()
    ensures EncodePrimitive(XbfPrimitive.I32(42)) == [42, 0, 0, 0]
  {
    assert LE(42, 4) == [42, 0, 0, 0];
  }

  /** The struct { a: i32 } named "test_struct". */
  const A_STRUCT := XbfStructMetadata(TEST_STRUCT.name, [([0x61], I32_SHAPE)])

  /** A struct's bytes are its field values only: { a: 42i32 } is the four bytes of 42, and
      those four bytes read back with its shape as the same struct, whose shape is the one
      it was built with. */
  lemma SingleFieldExample()
    ensures EncodeStructValue(XbfStruct(A_STRUCT, [I32_42])) == [42, 0, 0, 0]
    ensures DecodeStructValue(A_STRUCT, [42, 0, 0, 0]) == Ok((XbfStruct(A_STRUCT, [I32_42]), []))
    ensures GetMetadata(XbfStruct(A_STRUCT, [I32_42])) == A_STRUCT
  {
    var s := XbfStruct(A_STRUCT, [I32_42]);
    I32Bytes();
    assert EncodeFieldValuesFrom(s, 1) == [];
    assert EncodeFieldValuesFrom(s, 0) == EncodeType(I32_42) + EncodeFieldValuesFrom(s, 1);
    assert EncodeStructValue(s) == [42, 0, 0, 0] + [];
    assert Conforms(I32_42);
    CheckedRoundTrip(A_STRUCT, [I32_42], []);
    assert [42, 0, 0, 0] + [] == [42, 0, 0, 0];
  }

  /** The vector of i32 holding one 42, and the struct test { a: i32, b: vec<i32>, c: test_struct { a: i32 } }. */
  const I32_VEC := XbfVecMetadata(I32_SHAPE)
  const VEC_42 := XbfVec(I32_VEC, [I32_42])
  const INNER_42 := XbfStruct(A_STRUCT, [I32_42])
  const OUTER := XbfStructMetadata([0x74, 0x65, 0x73, 0x74], [
    ([0x61], I32_SHAPE), ([0x62], XbfMetadata.Vec(I32_VEC)), ([0x63], XbfMetadata.Struct(A_STRUCT))])
  const OUTER_FIELDS := [I32_42, XbfType.Vec(VEC_42), XbfType.Struct(INNER_42)]

  /** The nested struct's bytes are its three field values' bytes back to back: no names,
      no count and no discriminants. */
  lemma NestedValueLayout()
    ensures EncodeStructValue(XbfStruct(OUTER, OUTER_FIELDS))
      == EncodePrimitive(XbfPrimitive.I32(42)) + EncodeVecValue(VEC_42) + EncodeStructValue(INNER_42)
  {
    var s := XbfStruct(OUTER, OUTER_FIELDS);
    assert EncodeFieldValuesFrom(s, 3) == [];
    assert EncodeFieldValuesFrom(s, 2) == EncodeType(XbfType.Struct(INNER_42)) + [];
    assert EncodeFieldValuesFrom(s, 1) == EncodeType(XbfType.Vec(VEC_42)) + EncodeFieldValuesFrom(s, 2);
    assert EncodeFieldValuesFrom(s, 0) == EncodeType(I32_42) + EncodeFieldValuesFrom(s, 1);
  }

  /** The nested struct's bytes read back with its shape as the same struct. */
  lemma NestedValueRoundTrip()
    ensures DecodeStructValue(OUTER, EncodeStructValue(XbfStruct(OUTER, OUTER_FIELDS)))
      == Ok((XbfStruct(OUTER, OUTER_FIELDS), []))
  {
    var s := XbfStruct(OUTER, OUTER_FIELDS);
    assert ConformsVec(VEC_42);
    assert ConformsStruct(INNER_42);
    assert AllPairsMatch(OUTER, OUTER_FIELDS);
    CheckedRoundTrip(OUTER, OUTER_FIELDS, []);
    assert EncodeStructValue(s) + [] == EncodeStructValue(s);
  }
}
