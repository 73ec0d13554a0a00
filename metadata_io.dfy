/** The metadata codec over a writer and a reader, each operation proved equal to its encoding or decoding function. */
module MetadataIo {
  import opened Wire
  import opened Stream
  import opened Primitives
  import opened Metadata

  /** Writes a shape's encoding (serialize_base_metadata). */
  method SerializeMetadata(m: XbfMetadata, w: Writer)
    modifies w
    ensures w.bytes == old(w.bytes) + EncodeMetadata(m)
    decreases m, 2, 0
  {
    match m
    case Primitive(k) =>
      w.Write([Discriminant(k)]);
    case Vec(vm) =>
      w.Write([VEC_METADATA_DISCRIMINANT]);
      SerializeMetadata(vm.elem, w);
    case Struct(sm) =>
      SerializeStructMetadata(sm, w);
  }

  /** Writes a struct shape step by step (serialize_struct_metadata). */
  method SerializeStructMetadata(sm: XbfStructMetadata, w: Writer)
    modifies w
    ensures w.bytes == old(w.bytes) + EncodeStructMetadata(sm)
    decreases sm, 1, 0
  {
    w.Write([STRUCT_METADATA_DISCRIMINANT]);
    w.WriteString(sm.name);
    w.WriteUint(|sm.fields| % 0x1_0000, 2);
    SerializeFields(sm, w);
  }

  /** Writes each field's name and then its shape, in declared order. */
  method SerializeFields(sm: XbfStructMetadata, w: Writer)
    modifies w
    ensures w.bytes == old(w.bytes) + EncodeFieldsFrom(sm, 0)
    decreases sm, 0, 0
  {
    for i := 0 to |sm.fields|
      invariant old(w.bytes) + EncodeFieldsFrom(sm, 0) == w.bytes + EncodeFieldsFrom(sm, i)
    {
      ghost var before := w.bytes;
      w.WriteString(sm.fields[i].0);
      SerializeMetadata(sm.fields[i].1, w);
      WriteStep(before, EncodeString(sm.fields[i].0), EncodeMetadata(sm.fields[i].1), EncodeFieldsFrom(sm, i + 1));
    }
  }

  /** Reads a discriminant byte and the shape it announces (deserialize_base_metadata). */
  method DeserializeMetadata(r: Reader) returns (res: Result<XbfMetadata, DecodeError>)
    modifies r
    ensures WithRest(res, r.rest) == DecodeMetadata(old(r.rest))
    decreases |r.rest|, 2, 0
  {
    var tag := r.ReadExact(1);
    if tag.Err? {
      return Err(tag.error);
    }
    var t := tag.value[0];
    if t == VEC_METADATA_DISCRIMINANT {
      var elem := DeserializeMetadata(r);
      res := match elem
        case Ok(e) => Ok(Vec(XbfVecMetadata(e)))
        case Err(e) => Err(e);
    } else if t == STRUCT_METADATA_DISCRIMINANT {
      var sm := DeserializeStructMetadata(r);
      res := match sm
        case Ok(s) => Ok(Struct(s))
        case Err(e) => Err(e);
    } else {
      res := match KindFromDiscriminant(t)
        case Ok(k) => Ok(Primitive(k))
        case Err(e) => Err(e);
    }
  }

  /** Reads a struct body, its discriminant already consumed (deserialize_struct_metadata):
      the name, the field count, then that many fields pushed one by one. */
  method DeserializeStructMetadata(r: Reader) returns (res: Result<XbfStructMetadata, DecodeError>)
    modifies r
    ensures WithRest(res, r.rest) == DecodeStructMetadata(old(r.rest))
    decreases |r.rest|, 1, 0
  {
    var name := r.ReadString();
    if name.Err? {
      return Err(name.error);
    }
    var len := r.ReadUint(2);
    if len.Err? {
      return Err(len.error);
    }
    ghost var afterCount := r.rest;
    var count := len.value;
    var fields: seq<(Bytes, XbfMetadata)> := [];
    PrependNil(DecodeFields(count, afterCount));
    for i := 0 to count
      invariant DecodeFields(count, afterCount) == Prepend(fields, DecodeFields(count - i, r.rest))
      invariant |r.rest| <= |afterCount| < |old(r.rest)|
    {
      ghost var before := r.rest;
      var fieldName := r.ReadString();
      if fieldName.Err? {
        return Err(fieldName.error);
      }
      var fieldType := DeserializeMetadata(r);
      if fieldType.Err? {
        return Err(fieldType.error);
      }
      PrependAssoc(fields, [(fieldName.value, fieldType.value)], DecodeFields(count - i - 1, r.rest));
      fields := fields + [(fieldName.value, fieldType.value)];
    }
    PrependNil(DecodeFields(0, r.rest));
    assert fields + [] == fields;
    return Ok(XbfStructMetadata(name.value, fields));
  }
}
