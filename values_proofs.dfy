/** What the value codec and the struct constructors guarantee: a well-formed value reads
    back with its own shape, whatever decodes is well formed and is exactly the bytes it
    consumed, and the checked constructor accepts exactly the pairwise-matching values. */
module ValuesProofs {
  import opened Wire
  import opened Primitives
  import opened PrimitiveProofs
  import opened Metadata
  import opened Values

  /** Reading a well-formed value's bytes with the value's own shape gives the value back
      and leaves the rest unread. */
  lemma {:induction false} ValueRoundTrip(v: XbfType, rest: Bytes)
    requires Conforms(v)
    ensures DecodeType(MetadataOf(v), EncodeType(v) + rest) == Ok((v, rest))
    decreases v, 2, 0
  {
    match v
    case Primitive(p) => PrimitiveRoundTrip(p, rest);
    case Vec(xv) => VecRoundTrip(xv, rest);
    case Struct(s) => StructRoundTrip(s, rest);
  }

  /** Reading a well-formed struct's field values with its own shape gives the struct back. */
  lemma {:induction false} StructRoundTrip(s: XbfStruct, rest: Bytes)
    requires ConformsStruct(s)
    ensures DecodeStructValue(s.metadata, EncodeStructValue(s) + rest) == Ok((s, rest))
    decreases s, 1, 0
  {
    FieldValuesRoundTrip(s, 0, rest);
    assert s.fields[0..] == s.fields;
  }

  lemma {:induction false} FieldValuesRoundTrip(s: XbfStruct, i: nat, rest: Bytes)
    requires ConformsStruct(s) && i <= |s.fields|
    ensures DecodeFieldValues(s.metadata, i, EncodeFieldValuesFrom(s, i) + rest) == Ok((s.fields[i..], rest))
    decreases s, 0, |s.fields| - i
  {
    if i < |s.fields| {
      var v := s.fields[i];
      var later := EncodeFieldValuesFrom(s, i + 1) + rest;
      ValueRoundTrip(v, later);
      FieldValuesRoundTrip(s, i + 1, rest);
      assert EncodeFieldValuesFrom(s, i) + rest == EncodeType(v) + later;
      assert [v] + s.fields[i + 1..] == s.fields[i..];
    } else {
      assert EncodeFieldValuesFrom(s, i) + rest == rest;
      assert s.fields[i..] == [];
    }
  }

  /** Reading a well-formed vector's bytes with its element shape gives the vector back. */
  lemma {:induction false} VecRoundTrip(xv: XbfVec, rest: Bytes)
    requires ConformsVec(xv)
    ensures DecodeVecValue(xv.metadata, EncodeVecValue(xv) + rest) == Ok((xv, rest))
    decreases xv, 1, 0
  {
    ElementsRoundTrip(xv, 0, rest);
    assert xv.elements[0..] == xv.elements;
    VecCount(xv, rest);
  }

  /** The count prefix of a well-formed vector reads back as its length. */
  lemma VecCount(xv: XbfVec, rest: Bytes)
    requires |xv.elements| < Pow256(8)
    ensures DecodeUint(8, EncodeVecValue(xv) + rest) == Ok((|xv.elements|, EncodeElementsFrom(xv, 0) + rest))
  {
    var elementBytes := EncodeElementsFrom(xv, 0) + rest;
    assert EncodeVecValue(xv) + rest == LE(|xv.elements|, 8) + elementBytes;
    UintRoundTrip(|xv.elements|, 8, elementBytes);
  }

  lemma {:induction false} ElementsRoundTrip(xv: XbfVec, i: nat, rest: Bytes)
    requires ConformsVec(xv) && i <= |xv.elements|
    ensures DecodeElements(xv.metadata, |xv.elements|, i, EncodeElementsFrom(xv, i) + rest)
      == Ok((xv.elements[i..], rest))
    decreases xv, 0, |xv.elements| - i
  {
    if i < |xv.elements| {
      var v := xv.elements[i];
      var later := EncodeElementsFrom(xv, i + 1) + rest;
      ValueRoundTrip(v, later);
      ElementsRoundTrip(xv, i + 1, rest);
      assert EncodeElementsFrom(xv, i) + rest == EncodeType(v) + later;
      assert [v] + xv.elements[i + 1..] == xv.elements[i..];
    } else {
      assert EncodeElementsFrom(xv, i) + rest == rest;
      assert xv.elements[i..] == [];
    }
  }

  /** Whatever decodes with shape m is well formed, and the read consumed exactly as many
      bytes as the value encodes to. */
  lemma {:induction false} DecodedConforms(m: XbfMetadata, input: Bytes)
    requires DecodeType(m, input).Ok?
    ensures Conforms(DecodeType(m, input).value.0)
    ensures Consumed(input, EncodeType(DecodeType(m, input).value.0), DecodeType(m, input).value.1)
    decreases m, 2, 0
  {
    match m
    case Primitive(k) =>
      DecodedPrimitiveEncodes(k, input);
    case Vec(vm) =>
      DecodedVecConforms(vm, input);
    case Struct(sm) =>
      DecodedStructConforms(sm, input);
  }

  /** A read that left rest behind took as many bytes from the front of input as bs holds. */
  predicate Consumed(input: Bytes, bs: Bytes, rest: Bytes)
  {
    |bs| + |rest| == |input| && rest == input[|bs|..]
  }

  lemma ConsumedChain(input: Bytes, first: Bytes, middle: Bytes, second: Bytes, rest: Bytes)
    requires Consumed(input, first, middle) && Consumed(middle, second, rest)
    ensures Consumed(input, first + second, rest)
  {
    assert input[|first|..][|second|..] == input[|first| + |second|..];
  }

  /** A decoded value re-encodes to bytes that read back as the same value: decoding is
      canonical, even where the input was not (a boolean byte other than 0 or 1). */
  lemma DecodeReencode(m: XbfMetadata, input: Bytes, rest: Bytes)
    requires DecodeType(m, input).Ok?
    ensures DecodeType(m, EncodeType(DecodeType(m, input).value.0) + rest) == Ok((DecodeType(m, input).value.0, rest))
  {
    DecodedConforms(m, input);
    ValueRoundTrip(DecodeType(m, input).value.0, rest);
  }

  lemma {:induction false} DecodedStructConforms(sm: XbfStructMetadata, input: Bytes)
    requires DecodeStructValue(sm, input).Ok?
    ensures ConformsStruct(DecodeStructValue(sm, input).value.0)
    ensures Consumed(input, EncodeStructValue(DecodeStructValue(sm, input).value.0), DecodeStructValue(sm, input).value.1)
    decreases sm, 1, 0
  {
    var (s, rest) := DecodeStructValue(sm, input).value;
    assert DecodeFieldValues(sm, 0, input) == Ok((s.fields, rest));
    assert s.fields[0..] == s.fields;
    DecodedFieldValuesConform(s, 0, input);
  }

  /** One step of reading field values: the value of field i, then the values after it. */
  lemma FieldValueStep(sm: XbfStructMetadata, i: nat, input: Bytes) returns (v: XbfType, afterValue: Bytes)
    requires i < |sm.fields| && DecodeFieldValues(sm, i, input).Ok?
    ensures DecodeType(sm.fields[i].1, input) == Ok((v, afterValue))
    ensures DecodeFieldValues(sm, i + 1, afterValue).Ok?
    ensures DecodeFieldValues(sm, i, input).value.0 == [v] + DecodeFieldValues(sm, i + 1, afterValue).value.0
    ensures DecodeFieldValues(sm, i, input).value.1 == DecodeFieldValues(sm, i + 1, afterValue).value.1
  {
    var d := DecodeType(sm.fields[i].1, input);
    v, afterValue := d.value.0, d.value.1;
  }

  /** The field values decoded from position i are well formed and of their fields' shapes,
      and the read consumed exactly their encoding's length. */
  lemma {:induction false} DecodedFieldValuesConform(s: XbfStruct, i: nat, input: Bytes)
    requires |s.fields| == |s.metadata.fields| && i <= |s.fields|
    requires DecodeFieldValues(s.metadata, i, input).Ok?
    requires s.fields[i..] == DecodeFieldValues(s.metadata, i, input).value.0
    ensures forall j | i <= j < |s.fields| ::
      MetadataOf(s.fields[j]) == s.metadata.fields[j].1 && Conforms(s.fields[j])
    ensures Consumed(input, EncodeFieldValuesFrom(s, i), DecodeFieldValues(s.metadata, i, input).value.1)
    decreases s.metadata, 0, |s.fields| - i
  {
    if i < |s.fields| {
      var v, afterValue := FieldValueStep(s.metadata, i, input);
      var tail := DecodeFieldValues(s.metadata, i + 1, afterValue).value.0;
      assert s.fields[i..] == [v] + tail;
      assert s.fields[i] == v;
      assert s.fields[i + 1..] == s.fields[i..][1..];
      DecodedFieldValuesConform(s, i + 1, afterValue);
      DecodedConforms(s.metadata.fields[i].1, input);
      ConsumedChain(input, EncodeType(v), afterValue, EncodeFieldValuesFrom(s, i + 1),
        DecodeFieldValues(s.metadata, i + 1, afterValue).value.1);
    } else {
      assert EncodeFieldValuesFrom(s, i) == [];
    }
  }

  lemma {:induction false} DecodedVecConforms(vm: XbfVecMetadata, input: Bytes)
    requires DecodeVecValue(vm, input).Ok?
    ensures ConformsVec(DecodeVecValue(vm, input).value.0)
    ensures Consumed(input, EncodeVecValue(DecodeVecValue(vm, input).value.0), DecodeVecValue(vm, input).value.1)
    decreases vm, 1, 0
  {
    var (xv, rest) := DecodeVecValue(vm, input).value;
    var count, afterCount := VecCountStep(vm, input);
    assert xv.elements[0..] == xv.elements;
    DecodedElementsConform(xv, 0, afterCount);
    assert |xv.elements| % Pow256(8) == count;
    ConsumedChain(input, LE(count, 8), afterCount, EncodeElementsFrom(xv, 0), rest);
  }

  /** The count a vector read starts with, and what follows it. */
  lemma VecCountStep(vm: XbfVecMetadata, input: Bytes) returns (count: nat, afterCount: Bytes)
    requires DecodeVecValue(vm, input).Ok?
    ensures count < Pow256(8)
    ensures Consumed(input, LE(count, 8), afterCount)
    ensures DecodeElements(vm, count, 0, afterCount)
      == Ok((DecodeVecValue(vm, input).value.0.elements, DecodeVecValue(vm, input).value.1))
  {
    var d := DecodeUint(8, input);
    count, afterCount := d.value.0, d.value.1;
    DecodedUintEncodes(8, input);
  }

  /** One step of reading elements: the first, then the rest. */
  lemma ElementStep(vm: XbfVecMetadata, n: nat, i: nat, input: Bytes) returns (v: XbfType, afterValue: Bytes)
    requires i < n && DecodeElements(vm, n, i, input).Ok?
    ensures DecodeType(vm.elem, input) == Ok((v, afterValue))
    ensures DecodeElements(vm, n, i + 1, afterValue).Ok?
    ensures DecodeElements(vm, n, i, input).value.0 == [v] + DecodeElements(vm, n, i + 1, afterValue).value.0
    ensures DecodeElements(vm, n, i, input).value.1 == DecodeElements(vm, n, i + 1, afterValue).value.1
  {
    var d := DecodeType(vm.elem, input);
    v, afterValue := d.value.0, d.value.1;
  }

  /** The elements decoded from position i are well formed and of the element shape, and
      the read consumed exactly their encoding's length. */
  lemma {:induction false} DecodedElementsConform(xv: XbfVec, i: nat, input: Bytes)
    requires i <= |xv.elements|
    requires DecodeElements(xv.metadata, |xv.elements|, i, input).Ok?
    requires xv.elements[i..] == DecodeElements(xv.metadata, |xv.elements|, i, input).value.0
    ensures forall j | i <= j < |xv.elements| ::
      MetadataOf(xv.elements[j]) == xv.metadata.elem && Conforms(xv.elements[j])
    ensures Consumed(input, EncodeElementsFrom(xv, i), DecodeElements(xv.metadata, |xv.elements|, i, input).value.1)
    decreases xv.metadata, 0, |xv.elements| - i
  {
    var n := |xv.elements|;
    if i < n {
      var v, afterValue := ElementStep(xv.metadata, n, i, input);
      assert xv.elements[i..] == [v] + DecodeElements(xv.metadata, n, i + 1, afterValue).value.0;
      assert xv.elements[i] == v;
      assert xv.elements[i + 1..] == xv.elements[i..][1..];
      DecodedElementsConform(xv, i + 1, afterValue);
      DecodedConforms(xv.metadata.elem, input);
      ConsumedChain(input, EncodeType(v), afterValue, EncodeElementsFrom(xv, i + 1),
        DecodeElements(xv.metadata, n, i + 1, afterValue).value.1);
    } else {
      assert EncodeElementsFrom(xv, i) == [];
    }
  }

  /** A struct built unchecked from values that match their fields pairwise, one per field,
      each well formed, is well formed: it reads back from its own field values with the
      shape get_metadata returns. */
  lemma CheckedRoundTrip(metadata: XbfStructMetadata, fields: seq<XbfType>, rest: Bytes)
    requires AllPairsMatch(metadata, fields) && |fields| == |metadata.fields|
    requires forall i | 0 <= i < |fields| :: Conforms(fields[i])
    ensures ConformsStruct(NewUnchecked(metadata, fields))
    ensures var s := NewUnchecked(metadata, fields);
      DecodeStructValue(GetMetadata(s), EncodeStructValue(s) + rest) == Ok((s, rest))
  {
    var s := NewUnchecked(metadata, fields);
    forall i | 0 <= i < |fields|
      ensures MetadataOf(s.fields[i]) == s.metadata.fields[i].1 && Conforms(s.fields[i])
    {
      assert FieldMatches(metadata, fields, i);
    }
    StructRoundTrip(s, rest);
  }

  /** A decoded value's shape, derived from the value alone, is the shape it was read with. */
  lemma DecodedMetadataIsInput(m: XbfMetadata, input: Bytes)
    requires DecodeType(m, input).Ok?
    ensures MetadataOf(DecodeType(m, input).value.0) == m
    ensures DecodeType(m, input) == DecodeType(MetadataOf(DecodeType(m, input).value.0), input)
  {
  }

  /** A decoded struct carries exactly the shape it was read with, and has one value per field. */
  lemma DecodedStructShape(sm: XbfStructMetadata, input: Bytes)
    requires DecodeStructValue(sm, input).Ok?
    ensures GetMetadata(DecodeStructValue(sm, input).value.0) == sm
    ensures StructMetadataFrom(DecodeStructValue(sm, input).value.0) == sm
    ensures |DecodeStructValue(sm, input).value.0.fields| == |sm.fields|
  {
  }

  /** A failed read of any field value fails the whole struct, with that read's error. */
  lemma {:induction false} FieldValueFailureAborts(sm: XbfStructMetadata, i: nat, input: Bytes)
    requires i < |sm.fields| && DecodeType(sm.fields[i].1, input).Err?
    ensures DecodeFieldValues(sm, i, input) == Err(DecodeType(sm.fields[i].1, input).error)
  {
  }

  /** Writing two lists back to back is writing their concatenation. */
  lemma {:induction false} EncodeListAppend(a: seq<XbfType>, b: seq<XbfType>)
    ensures EncodeList(a + b) == EncodeList(a) + EncodeList(b)
  {
    if a == [] {
      assert a + b == b;
    } else {
      assert (a + b)[0] == a[0] && (a + b)[1..] == a[1..] + b;
      EncodeListAppend(a[1..], b);
    }
  }

  /** The field values from position i onwards are those fields written back to back. */
  lemma {:induction false} FieldValuesLayout(s: XbfStruct, i: nat)
    requires i <= |s.fields|
    ensures EncodeFieldValuesFrom(s, i) == EncodeList(s.fields[i..])
    decreases |s.fields| - i
  {
    if i < |s.fields| {
      assert s.fields[i..][1..] == s.fields[i + 1..];
      FieldValuesLayout(s, i + 1);
    }
  }

  /** The elements from position i onwards are those elements written back to back. */
  lemma {:induction false} ElementsLayout(xv: XbfVec, i: nat)
    requires i <= |xv.elements|
    ensures EncodeElementsFrom(xv, i) == EncodeList(xv.elements[i..])
    decreases |xv.elements| - i
  {
    if i < |xv.elements| {
      assert xv.elements[i..][1..] == xv.elements[i + 1..];
      ElementsLayout(xv, i + 1);
    }
  }

  /** A struct value is its field values back to back: no count, no names, no shape. */
  lemma StructValueLayout(s: XbfStruct)
    ensures EncodeStructValue(s) == EncodeList(s.fields)
  {
    FieldValuesLayout(s, 0);
    assert s.fields[0..] == s.fields;
  }

  /** A vector value is its 64-bit little-endian element count, then its elements back to back. */
  lemma VecValueLayout(xv: XbfVec)
    ensures EncodeVecValue(xv) == LE(|xv.elements| % Pow256(8), 8) + EncodeList(xv.elements)
  {
    ElementsLayout(xv, 0);
    assert xv.elements[0..] == xv.elements;
  }

  /** The shape is not written: two structs with the same field values have the same bytes. */
  lemma StructBytesIgnoreShape(s: XbfStruct, t: XbfStruct)
    requires s.fields == t.fields
    ensures EncodeStructValue(s) == EncodeStructValue(t)
  {
    StructValueLayout(s);
    StructValueLayout(t);
  }
}
