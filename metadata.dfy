/**
  XBF metadata: the shape of a value. A shape is a primitive kind, a vector
  of one element shape, or a named struct with named, ordered field shapes.
  An encoded shape starts with one discriminant byte. The primitive kinds
  come first, then the vector discriminant, then the struct discriminant.
 */
module Metadata {
  import opened Wire
  import opened Primitives

  datatype XbfMetadata =
    | Primitive(kind: XbfPrimitiveMetadata)
    | Vec(vec: XbfVecMetadata)
    | Struct(strct: XbfStructMetadata)

  datatype XbfVecMetadata = XbfVecMetadata(elem: XbfMetadata)

  /** A struct's name and its fields in wire order. The datatype constructor is XbfStructMetadata::new. */
  datatype XbfStructMetadata = XbfStructMetadata(name: Bytes, fields: seq<(Bytes, XbfMetadata)>)

  /** The vector discriminant follows the primitive kinds. */
  const VEC_METADATA_DISCRIMINANT: u8 := |PRIMITIVE_KINDS|

  /** The struct discriminant is the vector discriminant plus one. */
  const STRUCT_METADATA_DISCRIMINANT: u8 := VEC_METADATA_DISCRIMINANT + 1

  /** The leading byte of a shape's encoding. */
  function Tag(m: XbfMetadata): (tag: u8)
    ensures m.Primitive? <==> tag < |PRIMITIVE_KINDS|
    ensures m.Vec? <==> tag == VEC_METADATA_DISCRIMINANT
    ensures m.Struct? <==> tag == STRUCT_METADATA_DISCRIMINANT
  {
    match m
    case Primitive(k) => Discriminant(k)
    case Vec(_) => VEC_METADATA_DISCRIMINANT
    case Struct(_) => STRUCT_METADATA_DISCRIMINANT
  }

  /** Every name and every field count fits the 16-bit prefix it is written with. */
  predicate EncodableMetadata(m: XbfMetadata)
    decreases m, 1
  {
    match m
    case Primitive(_) => true
    case Vec(vm) => EncodableMetadata(vm.elem)
    case Struct(sm) => EncodableStruct(sm)
  }

  predicate EncodableStruct(sm: XbfStructMetadata)
    decreases sm, 0
  {
    && |sm.name| < 0x1_0000
    && |sm.fields| < 0x1_0000
    && forall i | 0 <= i < |sm.fields| ::
         |sm.fields[i].0| < 0x1_0000 && EncodableMetadata(sm.fields[i].1)
  }

  /** serialize_base_metadata: the discriminant, then a vector's element shape or a struct's body. */
  function EncodeMetadata(m: XbfMetadata): (bs: Bytes)
    ensures |bs| >= 1 && bs[0] == Tag(m)
    decreases m, 2, 0
  {
    match m
    case Primitive(k) => [Discriminant(k)]
    case Vec(vm) => [VEC_METADATA_DISCRIMINANT] + EncodeMetadata(vm.elem)
    case Struct(sm) => EncodeStructMetadata(sm)
  }

  /** serialize_struct_metadata: discriminant, name, 16-bit field count, then each field's
      name and shape in declared order. The count is truncated to 16 bits. */
  function EncodeStructMetadata(sm: XbfStructMetadata): (bs: Bytes)
    ensures |bs| >= 5 && bs[0] == STRUCT_METADATA_DISCRIMINANT
    decreases sm, 1, 1
  {
    [STRUCT_METADATA_DISCRIMINANT] + EncodeStructBody(sm)
  }

  /** What follows the struct discriminant. */
  function EncodeStructBody(sm: XbfStructMetadata): (bs: Bytes)
    ensures |bs| >= 4
    decreases sm, 1, 0
  {
    EncodeString(sm.name) + LE(|sm.fields| % 0x1_0000, 2) + EncodeFieldsFrom(sm, 0)
  }

  /** The encoded fields from position i onwards. */
  function EncodeFieldsFrom(sm: XbfStructMetadata, i: nat): (bs: Bytes)
    ensures i < |sm.fields| ==> |bs| >= 3
    decreases sm, 0, |sm.fields| - i
  {
    if i >= |sm.fields| then []
    else EncodeString(sm.fields[i].0) + EncodeMetadata(sm.fields[i].1) + EncodeFieldsFrom(sm, i + 1)
  }

  /** deserialize_base_metadata: reads a discriminant and the shape it announces. */
  function DecodeMetadata(input: Bytes): (d: Decoded<XbfMetadata>)
    ensures d.Ok? ==> |d.value.1| < |input|
    ensures input == [] ==> d == Err(UnexpectedEof)
    ensures input != [] && input[0] < VEC_METADATA_DISCRIMINANT ==> d.Ok? && d.value.1 == input[1..]
    ensures input != [] && input[0] > STRUCT_METADATA_DISCRIMINANT ==>
      d == Err(UnknownDiscriminant(input[0]))
    decreases |input|, 2, 0
  {
    if input == [] then Err(UnexpectedEof)
    else
      var tag := input[0];
      if tag == VEC_METADATA_DISCRIMINANT then
        match DecodeMetadata(input[1..])
        case Err(e) => Err(e)
        case Ok((elem, rest)) => Ok((Vec(XbfVecMetadata(elem)), rest))
      else if tag == STRUCT_METADATA_DISCRIMINANT then
        match DecodeStructMetadata(input[1..])
        case Err(e) => Err(e)
        case Ok((sm, rest)) => Ok((Struct(sm), rest))
      else
        match KindFromDiscriminant(tag)
        case Err(e) => Err(e)
        case Ok(k) => Ok((Primitive(k), input[1..]))
  }

  /** deserialize_struct_metadata: the struct body, its discriminant already consumed. */
  function DecodeStructMetadata(input: Bytes): (d: Decoded<XbfStructMetadata>)
    ensures d.Ok? ==> |d.value.1| + 4 <= |input| && |d.value.0.fields| < 0x1_0000
    decreases |input|, 1, 0
  {
    match DecodeString(input)
    case Err(e) => Err(e)
    case Ok((name, afterName)) =>
      match DecodeUint(2, afterName)
      case Err(e) => Err(e)
      case Ok((count, afterCount)) =>
        match DecodeFields(count, afterCount)
        case Err(e) => Err(e)
        case Ok((fields, rest)) => Ok((XbfStructMetadata(name, fields), rest))
  }

  /** Reads n (name, shape) pairs in order; any failed read fails the whole sequence. */
  function DecodeFields(n: nat, input: Bytes): (d: Decoded<seq<(Bytes, XbfMetadata)>>)
    ensures d.Ok? ==> |d.value.0| == n && |d.value.1| <= |input|
    decreases |input|, 0, n
  {
    if n == 0 then Ok(([], input))
    else
      match DecodeString(input)
      case Err(e) => Err(e)
      case Ok((name, afterName)) =>
        match DecodeMetadata(afterName)
        case Err(e) => Err(e)
        case Ok((m, afterField)) => Prepend([(name, m)], DecodeFields(n - 1, afterField))
  }
}
