/**
  XBF values: a primitive, a vector of values of one element shape, or a struct
  whose field values line up with its shape's fields. A value's encoding carries
  no discriminant and no per-field framing; it is decoded with its shape in hand.
 */
module Values {
  import opened Wire
  import opened Primitives
  import opened Metadata

  datatype XbfType =
    | Primitive(p: XbfPrimitive)
    | Vec(v: XbfVec)
    | Struct(s: XbfStruct)

  /** A vector value: its element shape and its elements. */
  datatype XbfVec = XbfVec(metadata: XbfVecMetadata, elements: seq<XbfType>)

  /** A struct value: its shape and one value per field, in field order. */
  datatype XbfStruct = XbfStruct(metadata: XbfStructMetadata, fields: seq<XbfType>)

  /** The failure of the checked constructor: the field, its declared shape and the shape
      of the value supplied for it. */
  datatype StructFieldMismatchError =
    StructFieldMismatchError(fieldName: Bytes, expected: XbfMetadata, actual: XbfMetadata)

  /** The shape of a value, derived from the value alone. */
  function MetadataOf(v: XbfType): (m: XbfMetadata)
    ensures v.Primitive? <==> m.Primitive?
    ensures v.Vec? <==> m.Vec?
    ensures v.Struct? <==> m.Struct?
  {
    match v
    case Primitive(p) => XbfMetadata.Primitive(KindOf(p))
    case Vec(xv) => XbfMetadata.Vec(xv.metadata)
    case Struct(s) => XbfMetadata.Struct(s.metadata)
  }

  /** From<&XbfStruct> for XbfStructMetadata: the shape stored in the value. */
  function StructMetadataFrom(s: XbfStruct): (sm: XbfStructMetadata)
    ensures MetadataOf(XbfType.Struct(s)) == XbfMetadata.Struct(sm)
  {
    s.metadata
  }

  /** get_metadata: a copy of the shape the struct was built with. */
  function GetMetadata(s: XbfStruct): (sm: XbfStructMetadata)
    ensures sm == StructMetadataFrom(s)
  {
    s.metadata
  }

  /** new_unchecked: stores the shape and the values as given, without comparing them. */
  function NewUnchecked(metadata: XbfStructMetadata, fields: seq<XbfType>): (s: XbfStruct)
    ensures GetMetadata(s) == metadata && s.fields == fields
  {
    XbfStruct(metadata, fields)
  }

  /** Whether the value at position i has the shape declared for field i. */
  predicate FieldMatches(metadata: XbfStructMetadata, fields: seq<XbfType>, i: nat)
    requires i < |metadata.fields| && i < |fields|
  {
    MetadataOf(fields[i]) == metadata.fields[i].1
  }

  /** Every position present in both the declared fields and the supplied values matches. */
  predicate AllPairsMatch(metadata: XbfStructMetadata, fields: seq<XbfType>)
  {
    forall i | 0 <= i < |metadata.fields| && i < |fields| :: FieldMatches(metadata, fields, i)
  }

  /** The error reported for a mismatch at position i. */
  function MismatchAt(metadata: XbfStructMetadata, fields: seq<XbfType>, i: nat): (e: StructFieldMismatchError)
    requires i < |metadata.fields| && i < |fields|
    ensures e.fieldName == metadata.fields[i].0
    ensures e.expected == metadata.fields[i].1 && e.actual == MetadataOf(fields[i])
  {
    StructFieldMismatchError(metadata.fields[i].0, metadata.fields[i].1, MetadataOf(fields[i]))
  }

  /** XbfStruct::new: walks the declared fields and the values pairwise, stopping at the
      shorter of the two, and fails at the first value whose shape differs from its field's. */
  method New(metadata: XbfStructMetadata, fields: seq<XbfType>) returns (r: Result<XbfStruct, StructFieldMismatchError>)
    ensures r.Ok? <==> AllPairsMatch(metadata, fields)
    ensures r.Ok? ==> r.value == NewUnchecked(metadata, fields)
    ensures r.Err? ==> exists j | 0 <= j < |metadata.fields| && j < |fields| ::
      && !FieldMatches(metadata, fields, j)
      && (forall i | 0 <= i < j :: FieldMatches(metadata, fields, i))
      && r.error == MismatchAt(metadata, fields, j)
  {
    var n := if |metadata.fields| < |fields| then |metadata.fields| else |fields|;
    var i := 0;
    while i < n
      invariant 0 <= i <= n
      invariant forall j | 0 <= j < i :: FieldMatches(metadata, fields, j)
    {
      var (name, expected) := metadata.fields[i];
      var actual := MetadataOf(fields[i]);
      if expected != actual {
        assert !FieldMatches(metadata, fields, i);
        assert MismatchAt(metadata, fields, i) == StructFieldMismatchError(name, expected, actual);
        return Err(StructFieldMismatchError(name, expected, actual));
      }
      i := i + 1;
    }
    return Ok(XbfStruct(metadata, fields));
  }

  /** Why the length-checking constructor refused its values. */
  datatype StructNewError =
    | FieldMismatch(mismatch: StructFieldMismatchError)
    | FieldCountMismatch(expected: nat, actual: nat)

  /** The constructor with the check XbfStruct::new leaves out: the number of values must
      equal the number of declared fields before they are compared pairwise. */
  method NewExact(metadata: XbfStructMetadata, fields: seq<XbfType>) returns (r: Result<XbfStruct, StructNewError>)
    ensures r.Ok? <==> |fields| == |metadata.fields| && AllPairsMatch(metadata, fields)
    ensures r.Ok? ==> r.value == NewUnchecked(metadata, fields)
    ensures r.Ok? && (forall i | 0 <= i < |fields| :: Conforms(fields[i])) ==> ConformsStruct(r.value)
    ensures r.Err? && r.error.FieldCountMismatch? ==>
      r.error == FieldCountMismatch(|metadata.fields|, |fields|) && |fields| != |metadata.fields|
    ensures r.Err? && r.error.FieldMismatch? ==> exists j | 0 <= j < |fields| && j < |metadata.fields| ::
      !FieldMatches(metadata, fields, j) && r.error.mismatch == MismatchAt(metadata, fields, j)
  {
    if |fields| != |metadata.fields| {
      return Err(FieldCountMismatch(|metadata.fields|, |fields|));
    }
    var checked := New(metadata, fields);
    match checked
    case Ok(s) =>
      forall i | 0 <= i < |fields|
        ensures MetadataOf(s.fields[i]) == s.metadata.fields[i].1
      {
        assert FieldMatches(metadata, fields, i);
      }
      r := Ok(s);
    case Err(e) =>
      r := Err(FieldMismatch(e));
  }

  /** Whether a value is well formed: every struct has one value per field, each of the
      declared shape, every vector element has the element shape, and every length fits
      the prefix it is written with. */
  predicate Conforms(v: XbfType)
    decreases v, 2
  {
    match v
    case Primitive(p) => Encodable(p)
    case Vec(xv) => ConformsVec(xv)
    case Struct(s) => ConformsStruct(s)
  }

  predicate ConformsStruct(s: XbfStruct)
    decreases s, 1
  {
    && |s.fields| == |s.metadata.fields|
    && forall i | 0 <= i < |s.fields| ::
         MetadataOf(s.fields[i]) == s.metadata.fields[i].1 && Conforms(s.fields[i])
  }

  predicate ConformsVec(xv: XbfVec)
    decreases xv, 1
  {
    && |xv.elements| < Pow256(8)
    && forall i | 0 <= i < |xv.elements| ::
         MetadataOf(xv.elements[i]) == xv.metadata.elem && Conforms(xv.elements[i])
  }

  /** serialize_base_type: a value's bytes, without its shape. */
  function EncodeType(v: XbfType): (bs: Bytes)
    ensures !v.Struct? ==> |bs| >= 1
    ensures v.Vec? ==> |bs| >= 8
    decreases v, 2, 0
  {
    match v
    case Primitive(p) => EncodePrimitive(p)
    case Vec(xv) => EncodeVecValue(xv)
    case Struct(s) => EncodeStructValue(s)
  }

  /** serialize_struct_type: the field values back to back, with no count and no framing. */
  function EncodeStructValue(s: XbfStruct): (bs: Bytes)
    ensures s.fields == [] ==> bs == []
    decreases s, 1, 0
  {
    EncodeFieldValuesFrom(s, 0)
  }

  function EncodeFieldValuesFrom(s: XbfStruct, i: nat): (bs: Bytes)
    decreases s, 0, |s.fields| - i
  {
    if i >= |s.fields| then []
    else EncodeType(s.fields[i]) + EncodeFieldValuesFrom(s, i + 1)
  }

  /** serialize_vec_type: a 64-bit little-endian element count, then the elements back to back. */
  function EncodeVecValue(xv: XbfVec): (bs: Bytes)
    ensures |bs| >= 8
    decreases xv, 1, 0
  {
    LE(|xv.elements| % Pow256(8), 8) + EncodeElementsFrom(xv, 0)
  }

  function EncodeElementsFrom(xv: XbfVec, i: nat): (bs: Bytes)
    decreases xv, 0, |xv.elements| - i
  {
    if i >= |xv.elements| then []
    else EncodeType(xv.elements[i]) + EncodeElementsFrom(xv, i + 1)
  }

  /** Values written one after another, each without its shape: the reference reading of
      "back to back" that the struct and vector encoders are proved against. */
  function EncodeList(vs: seq<XbfType>): Bytes
  {
    if vs == [] then [] else EncodeType(vs[0]) + EncodeList(vs[1..])
  }

  /** deserialize_base_type: reads a value of shape m. */
  function DecodeType(m: XbfMetadata, input: Bytes): (d: Decoded<XbfType>)
    ensures d.Ok? ==> MetadataOf(d.value.0) == m && |d.value.1| <= |input|
    decreases m, 2, 0
  {
    match m
    case Primitive(k) =>
      (match DecodePrimitive(k, input)
       case Err(e) => Err(e)
       case Ok((p, rest)) => Ok((XbfType.Primitive(p), rest)))
    case Vec(vm) =>
      (match DecodeVecValue(vm, input)
       case Err(e) => Err(e)
       case Ok((xv, rest)) => Ok((XbfType.Vec(xv), rest)))
    case Struct(sm) =>
      (match DecodeStructValue(sm, input)
       case Err(e) => Err(e)
       case Ok((s, rest)) => Ok((XbfType.Struct(s), rest)))
  }

  /** deserialize_struct_type: one value per declared field, in order, each read with its
      field's shape; the result carries the given shape. */
  function DecodeStructValue(sm: XbfStructMetadata, input: Bytes): (d: Decoded<XbfStruct>)
    ensures d.Ok? ==> d.value.0.metadata == sm && |d.value.0.fields| == |sm.fields|
    ensures d.Ok? ==> |d.value.1| <= |input|
    decreases sm, 1, 0
  {
    match DecodeFieldValues(sm, 0, input)
    case Err(e) => Err(e)
    case Ok((vs, rest)) => Ok((NewUnchecked(sm, vs), rest))
  }

  /** Reads the values of the fields from position i onwards; any failed read fails them all. */
  function DecodeFieldValues(sm: XbfStructMetadata, i: nat, input: Bytes): (d: Decoded<seq<XbfType>>)
    requires i <= |sm.fields|
    ensures d.Ok? ==> |d.value.0| == |sm.fields| - i && |d.value.1| <= |input|
    decreases sm, 0, |sm.fields| - i
  {
    if i == |sm.fields| then Ok(([], input))
    else
      match DecodeType(sm.fields[i].1, input)
      case Err(e) => Err(e)
      case Ok((v, rest)) => Prepend([v], DecodeFieldValues(sm, i + 1, rest))
  }

  /** deserialize_vec_type: the element count, then that many values of the element shape. */
  function DecodeVecValue(vm: XbfVecMetadata, input: Bytes): (d: Decoded<XbfVec>)
    ensures d.Ok? ==> d.value.0.metadata == vm && |d.value.1| <= |input|
    decreases vm, 1, 0
  {
    match DecodeUint(8, input)
    case Err(e) => Err(e)
    case Ok((count, afterCount)) =>
      match DecodeElements(vm, count, 0, afterCount)
      case Err(e) => Err(e)
      case Ok((elems, rest)) => Ok((XbfVec(vm, elems), rest))
  }

  /** Reads the values of elements i to n - 1 of the element shape; any failed read fails them all. */
  function DecodeElements(vm: XbfVecMetadata, n: nat, i: nat, input: Bytes): (d: Decoded<seq<XbfType>>)
    requires i <= n
    ensures d.Ok? ==> |d.value.0| == n - i && |d.value.1| <= |input|
    decreases vm, 0, n - i
  {
    if i == n then Ok(([], input))
    else
      match DecodeType(vm.elem, input)
      case Err(e) => Err(e)
      case Ok((v, rest)) => Prepend([v], DecodeElements(vm, n, i + 1, rest))
  }

}
