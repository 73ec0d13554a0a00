/** The value codec over a writer and a reader, each operation proved equal to its encoding
    or decoding function. */
module ValuesIo {
  import opened Wire
  import opened Stream
  import opened Primitives
  import opened Metadata
  import opened Values

  /** Writes a value's bytes (serialize_base_type). */
  method SerializeType(v: XbfType, w: Writer)
    modifies w
    ensures w.bytes == old(w.bytes) + EncodeType(v)
    decreases v, 2, 0
  {
    match v
    case Primitive(p) => SerializePrimitive(p, w);
    case Vec(xv) => SerializeVec(xv, w);
    case Struct(s) => SerializeStruct(s, w);
  }

  /** Writes each field value in order (serialize_struct_type). */
  method SerializeStruct(s: XbfStruct, w: Writer)
    modifies w
    ensures w.bytes == old(w.bytes) + EncodeStructValue(s)
    decreases s, 1, 0
  {
    for i := 0 to |s.fields|
      invariant old(w.bytes) + EncodeFieldValuesFrom(s, 0) == w.bytes + EncodeFieldValuesFrom(s, i)
    {
      ghost var before := w.bytes;
      ghost var later := EncodeFieldValuesFrom(s, i + 1);
      assert EncodeFieldValuesFrom(s, i) == EncodeType(s.fields[i]) + later;
      SerializeType(s.fields[i], w);
      assert before + (EncodeType(s.fields[i]) + later) == w.bytes + later;
    }
  }

  /** Writes the element count and then each element in order (serialize_vec_type). */
  method SerializeVec(xv: XbfVec, w: Writer)
    modifies w
    ensures w.bytes == old(w.bytes) + EncodeVecValue(xv)
    decreases xv, 1, 0
  {
    var count := |xv.elements| % Pow256(8);
    ghost var start := w.bytes;
    w.WriteUint(count, 8);
    SerializeElements(xv, w);
    assert w.bytes == start + (LE(count, 8) + EncodeElementsFrom(xv, 0));
  }


  method SerializeElements(xv: XbfVec, w: Writer)
    modifies w
    ensures w.bytes == old(w.bytes) + EncodeElementsFrom(xv, 0)
    decreases xv, 0, 0
  {
    for i := 0 to |xv.elements|
      invariant old(w.bytes) + EncodeElementsFrom(xv, 0) == w.bytes + EncodeElementsFrom(xv, i)
    {
      ghost var before := w.bytes;
      ghost var later := EncodeElementsFrom(xv, i + 1);
      assert EncodeElementsFrom(xv, i) == EncodeType(xv.elements[i]) + later;
      SerializeType(xv.elements[i], w);
      assert before + (EncodeType(xv.elements[i]) + later) == w.bytes + later;
    }
  }

  /** Reads a value of shape m (deserialize_base_type). */
  method DeserializeType(m: XbfMetadata, r: Reader) returns (res: Result<XbfType, DecodeError>)
    modifies r
    ensures WithRest(res, r.rest) == DecodeType(m, old(r.rest))
    decreases m, 2, 0
  {
    match m
    case Primitive(k) =>
      var p := DeserializePrimitive(k, r);
      res := match p case Ok(x) => Ok(XbfType.Primitive(x)) case Err(e) => Err(e);
    case Vec(vm) =>
      var xv := DeserializeVec(vm, r);
      res := match xv case Ok(x) => Ok(XbfType.Vec(x)) case Err(e) => Err(e);
    case Struct(sm) =>
      var s := DeserializeStruct(sm, r);
      res := match s case Ok(x) => Ok(XbfType.Struct(x)) case Err(e) => Err(e);
  }

  /** Reads one value per declared field, pushing each in turn (deserialize_struct_type). */
  method DeserializeStruct(sm: XbfStructMetadata, r: Reader) returns (res: Result<XbfStruct, DecodeError>)
    modifies r
    ensures WithRest(res, r.rest) == DecodeStructValue(sm, old(r.rest))
    decreases sm, 1, 0
  {
    var fields: seq<XbfType> := [];
    PrependNil(DecodeFieldValues(sm, 0, r.rest));
    for i := 0 to |sm.fields|
      invariant DecodeFieldValues(sm, 0, old(r.rest)) == Prepend(fields, DecodeFieldValues(sm, i, r.rest))
    {
      var v := DeserializeType(sm.fields[i].1, r);
      if v.Err? {
        return Err(v.error);
      }
      PrependAssoc(fields, [v.value], DecodeFieldValues(sm, i + 1, r.rest));
      fields := fields + [v.value];
    }
    assert fields + [] == fields;
    return Ok(NewUnchecked(sm, fields));
  }

  /** Reads the element count and then that many elements of the element shape
      (deserialize_vec_type). */
  method DeserializeVec(vm: XbfVecMetadata, r: Reader) returns (res: Result<XbfVec, DecodeError>)
    modifies r
    ensures WithRest(res, r.rest) == DecodeVecValue(vm, old(r.rest))
    decreases vm, 1, 1
  {
    var count := r.ReadUint(8);
    if count.Err? {
      return Err(count.error);
    }
    var elements := DeserializeElements(vm, count.value, r);
    res := match elements case Ok(x) => Ok(XbfVec(vm, x)) case Err(e) => Err(e);
  }

  /** Reads n elements of the element shape, pushing each in turn. */
  method DeserializeElements(vm: XbfVecMetadata, n: nat, r: Reader) returns (res: Result<seq<XbfType>, DecodeError>)
    modifies r
    ensures WithRest(res, r.rest) == DecodeElements(vm, n, 0, old(r.rest))
    decreases vm, 1, 0
  {
    var elements: seq<XbfType> := [];
    PrependNil(DecodeElements(vm, n, 0, r.rest));
    for i := 0 to n
      invariant DecodeElements(vm, n, 0, old(r.rest)) == Prepend(elements, DecodeElements(vm, n, i, r.rest))
    {
      var v := DeserializeType(vm.elem, r);
      if v.Err? {
        return Err(v.error);
      }
      PrependAssoc(elements, [v.value], DecodeElements(vm, n, i + 1, r.rest));
      elements := elements + [v.value];
    }
    assert elements + [] == elements;
    return Ok(elements);
  }

}
