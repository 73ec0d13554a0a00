/**
  The sixteen XBF primitive kinds, their values, and the byte encoding of
  each value: fixed-width little-endian integers, 256-bit integers as four
  64-bit limbs, booleans as one byte and strings with a 16-bit length prefix.
 */
module Primitives {
  import opened Wire
  import opened Stream

  /** The primitive kinds in declaration order; a kind's discriminant is its position. */
  datatype XbfPrimitiveMetadata =
    | Bool | U8 | U16 | U32 | U64 | U128 | U256
    | I8 | I16 | I32 | I64 | I128 | I256
    | F32 | F64 | String

  const PRIMITIVE_KINDS: seq<XbfPrimitiveMetadata> := [
    XbfPrimitiveMetadata.Bool, XbfPrimitiveMetadata.U8, XbfPrimitiveMetadata.U16,
    XbfPrimitiveMetadata.U32, XbfPrimitiveMetadata.U64, XbfPrimitiveMetadata.U128,
    XbfPrimitiveMetadata.U256, XbfPrimitiveMetadata.I8, XbfPrimitiveMetadata.I16,
    XbfPrimitiveMetadata.I32, XbfPrimitiveMetadata.I64, XbfPrimitiveMetadata.I128,
    XbfPrimitiveMetadata.I256, XbfPrimitiveMetadata.F32, XbfPrimitiveMetadata.F64,
    XbfPrimitiveMetadata.String]

  /** Four 64-bit limbs, least significant first. */
  type Limbs = s: seq<u64> | |s| == 4 witness [0, 0, 0, 0]

  /** A primitive value; floats are kept as their IEEE-754 bit patterns. */
  datatype XbfPrimitive =
    | Bool(bool)
    | U8(u8) | U16(u16) | U32(u32) | U64(u64) | U128(u128) | U256(limbs: Limbs)
    | I8(i8) | I16(i16) | I32(i32) | I64(i64) | I128(i128) | I256(limbs: Limbs)
    | F32(u32) | F64(u64)
    | String(text: Bytes)

  /** The kind of a value: the metadata variant of the same name. */
  function KindOf(p: XbfPrimitive): (k: XbfPrimitiveMetadata)
    ensures k == XbfPrimitiveMetadata.String <==> p.String?
    ensures k == XbfPrimitiveMetadata.U256 <==> p.U256?
    ensures k == XbfPrimitiveMetadata.I256 <==> p.I256?
  {
    match p
    case Bool(_) => XbfPrimitiveMetadata.Bool
    case U8(_) => XbfPrimitiveMetadata.U8
    case U16(_) => XbfPrimitiveMetadata.U16
    case U32(_) => XbfPrimitiveMetadata.U32
    case U64(_) => XbfPrimitiveMetadata.U64
    case U128(_) => XbfPrimitiveMetadata.U128
    case U256(_) => XbfPrimitiveMetadata.U256
    case I8(_) => XbfPrimitiveMetadata.I8
    case I16(_) => XbfPrimitiveMetadata.I16
    case I32(_) => XbfPrimitiveMetadata.I32
    case I64(_) => XbfPrimitiveMetadata.I64
    case I128(_) => XbfPrimitiveMetadata.I128
    case I256(_) => XbfPrimitiveMetadata.I256
    case F32(_) => XbfPrimitiveMetadata.F32
    case F64(_) => XbfPrimitiveMetadata.F64
    case String(_) => XbfPrimitiveMetadata.String
  }

  /** The discriminant byte of a kind: its position in declaration order. */
  function Discriminant(k: XbfPrimitiveMetadata): (tag: u8)
    ensures tag < |PRIMITIVE_KINDS| && PRIMITIVE_KINDS[tag] == k
  {
    match k
    case Bool => 0
    case U8 => 1
    case U16 => 2
    case U32 => 3
    case U64 => 4
    case U128 => 5
    case U256 => 6
    case I8 => 7
    case I16 => 8
    case I32 => 9
    case I64 => 10
    case I128 => 11
    case I256 => 12
    case F32 => 13
    case F64 => 14
    case String => 15
  }

  /** The kind a discriminant byte names, if any. */
  function KindFromDiscriminant(tag: u8): (k: Result<XbfPrimitiveMetadata, DecodeError>)
    ensures k.Ok? <==> tag < |PRIMITIVE_KINDS|
    ensures k.Ok? ==> Discriminant(k.value) == tag
    ensures k.Err? ==> k.error == UnknownDiscriminant(tag)
  {
    if tag < |PRIMITIVE_KINDS| then
      var k := PRIMITIVE_KINDS[tag];
      assert PRIMITIVE_KINDS[Discriminant(k)] == k;
      Ok(k)
    else
      Err(UnknownDiscriminant(tag))
  }

  /** The kinds read as two's complement integers of at most 16 bytes. */
  predicate IsSigned(k: XbfPrimitiveMetadata)
  {
    k.I8? || k.I16? || k.I32? || k.I64? || k.I128?
  }

  /** The kinds read as unsigned patterns of at most 16 bytes: integers and float bits. */
  predicate IsUnsigned(k: XbfPrimitiveMetadata)
  {
    k.U8? || k.U16? || k.U32? || k.U64? || k.U128? || k.F32? || k.F64?
  }

  /** The number of bytes a value of a fixed-width kind occupies. */
  function FixedWidth(k: XbfPrimitiveMetadata): (n: nat)
    requires k != XbfPrimitiveMetadata.String
    ensures 0 < n <= 32
  {
    match k
    case Bool => 1
    case U8 => 1
    case U16 => 2
    case U32 => 4
    case U64 => 8
    case U128 => 16
    case U256 => 32
    case I8 => 1
    case I16 => 2
    case I32 => 4
    case I64 => 8
    case I128 => 16
    case I256 => 32
    case F32 => 4
    case F64 => 8
  }

  /** Whether a value can be written so that it reads back: only a string's length is limited. */
  predicate Encodable(p: XbfPrimitive)
  {
    p.String? ==> |p.text| < 0x1_0000
  }

  /** The limbs in order, eight little-endian bytes each. */
  function EncodeU64s(ls: seq<u64>): (bs: Bytes)
    ensures |bs| == 8 * |ls|
  {
    if ls == [] then [] else LE(ls[0], 8) + EncodeU64s(ls[1..])
  }

  /** Reads n little-endian 64-bit integers in a row. */
  function DecodeU64s(n: nat, input: Bytes): (d: Decoded<seq<u64>>)
    ensures d.Ok? <==> 8 * n <= |input|
    ensures d.Ok? ==> |d.value.0| == n && |d.value.1| + 8 * n == |input|
    ensures d.Err? ==> d.error == UnexpectedEof
  {
    if n == 0 then Ok(([], input))
    else
      match DecodeUint(8, input)
      case Err(e) => Err(e)
      case Ok((x, rest)) => Prepend([x as u64], DecodeU64s(n - 1, rest))
  }

  /** A successful read of limbs took exactly their encoding. */
  lemma {:induction false} DecodedU64sEncodes(n: nat, input: Bytes)
    requires DecodeU64s(n, input).Ok?
    ensures input == EncodeU64s(DecodeU64s(n, input).value.0) + DecodeU64s(n, input).value.1
  {
    if n > 0 {
      var x := DecodeUint(8, input).value.0;
      var after := DecodeUint(8, input).value.1;
      DecodedUintEncodes(8, input);
      DecodedU64sEncodes(n - 1, after);
      var ls := DecodeU64s(n - 1, after).value.0;
      assert DecodeU64s(n, input).value.0 == [x as u64] + ls;
      assert ([x as u64] + ls)[1..] == ls;
    }
  }

  /** The unsigned number whose little-endian bytes are written for a value of at most
      16 bytes: 1 or 0 for a boolean, the two's complement pattern of a signed integer,
      and the value itself, or the float's bit pattern, otherwise. */
  function Pattern(p: XbfPrimitive): (u: nat)
    requires !p.String? && !p.U256? && !p.I256?
    ensures u < Pow256(FixedWidth(KindOf(p)))
  {
    match p
    case Bool(b) => if b then 1 else 0
    case U8(x) => x
    case U16(x) => x
    case U32(x) => x
    case U64(x) => x
    case U128(x) => x
    case I8(x) => TwosComplement(x, 1)
    case I16(x) => TwosComplement(x, 2)
    case I32(x) => TwosComplement(x, 4)
    case I64(x) => TwosComplement(x, 8)
    case I128(x) => TwosComplement(x, 16)
    case F32(bits) => bits
    case F64(bits) => bits
  }

  /** The bytes serialize_primitive_type writes for a value: a string with its 16-bit length
      prefix, a 256-bit integer as its limbs, anything else as the little-endian bytes of its
      pattern in its kind's width. */
  function EncodePrimitive(p: XbfPrimitive): (bs: Bytes)
    ensures p.String? ==> |bs| == 2 + |p.text|
    ensures !p.String? ==> |bs| == FixedWidth(KindOf(p))
  {
    if p.String? then EncodeString(p.text)
    else if p.U256? || p.I256? then EncodeU64s(p.limbs)
    else LE(Pattern(p), FixedWidth(KindOf(p)))
  }

  /** The unsigned value, or float bit pattern, that the n-byte pattern x spells. */
  function UnsignedFromBits(k: XbfPrimitiveMetadata, x: nat): (p: XbfPrimitive)
    requires IsUnsigned(k)
    requires x < Pow256(FixedWidth(k))
    ensures KindOf(p) == k && !p.Bool? && !p.String? && !p.U256? && !p.I256? && Pattern(p) == x
  {
    match k
    case U8 => XbfPrimitive.U8(x)
    case U16 => XbfPrimitive.U16(x)
    case U32 => XbfPrimitive.U32(x)
    case U64 => XbfPrimitive.U64(x)
    case U128 => XbfPrimitive.U128(x)
    case F32 => XbfPrimitive.F32(x)
    case F64 => XbfPrimitive.F64(x)
  }

  /** The signed value whose two's complement pattern is u. */
  function SignedFromBits(k: XbfPrimitiveMetadata, u: nat): (p: XbfPrimitive)
    requires IsSigned(k)
    requires u < Pow256(FixedWidth(k))
    ensures KindOf(p) == k && !p.Bool? && !p.String? && !p.U256? && !p.I256? && Pattern(p) == u
  {
    var n := FixedWidth(k);
    var x := FromTwosComplement(u, n);
    TwosComplementOfFrom(u, n);
    match k
    case I8 => XbfPrimitive.I8(x)
    case I16 => XbfPrimitive.I16(x)
    case I32 => XbfPrimitive.I32(x)
    case I64 => XbfPrimitive.I64(x)
    case I128 => XbfPrimitive.I128(x)
  }

  lemma TwosComplementOfFrom(u: nat, n: nat)
    requires n > 0 && u < Pow256(n)
    ensures TwosComplement(FromTwosComplement(u, n), n) == u
  {
    Pow256Step(n);
  }

  /** The value deserialize_primitive_type reads for a kind. Every byte pattern is a
      value of its kind; the only failure is input that ends too early. */
  function DecodePrimitive(k: XbfPrimitiveMetadata, input: Bytes): (d: Decoded<XbfPrimitive>)
    ensures k != XbfPrimitiveMetadata.String ==> (d.Ok? <==> FixedWidth(k) <= |input|)
    ensures k == XbfPrimitiveMetadata.String ==>
      (d.Ok? <==> 2 <= |input| && 2 + FromLE(input[..2]) <= |input|)
    ensures d.Ok? ==> KindOf(d.value.0) == k && Encodable(d.value.0) && |d.value.1| < |input|
    ensures d.Err? ==> d.error == UnexpectedEof
  {
    if k == XbfPrimitiveMetadata.String then
      match DecodeString(input)
      case Err(e) => Err(e)
      case Ok((s, rest)) => Ok((XbfPrimitive.String(s), rest))
    else if k == XbfPrimitiveMetadata.U256 || k == XbfPrimitiveMetadata.I256 then
      match DecodeU64s(4, input)
      case Err(e) => Err(e)
      case Ok((ls, rest)) =>
        Ok((if k == XbfPrimitiveMetadata.U256 then XbfPrimitive.U256(ls) else XbfPrimitive.I256(ls), rest))
    else
      match DecodeUint(FixedWidth(k), input)
      case Err(e) => Err(e)
      case Ok((u, rest)) => Ok((FromBits(k, u), rest))
  }

  /** A successful read consumed as many bytes as the value it returns encodes to, and,
      for every kind but the boolean, exactly those bytes. */
  lemma DecodedPrimitiveEncodes(k: XbfPrimitiveMetadata, input: Bytes)
    requires DecodePrimitive(k, input).Ok?
    ensures var (p, rest) := DecodePrimitive(k, input).value;
      |EncodePrimitive(p)| + |rest| == |input| && rest == input[|EncodePrimitive(p)|..]
    ensures var (p, rest) := DecodePrimitive(k, input).value;
      k != XbfPrimitiveMetadata.Bool ==> input == EncodePrimitive(p) + rest
  {
    if k == XbfPrimitiveMetadata.String {
      DecodedStringEncodes(input);
    } else if k == XbfPrimitiveMetadata.U256 || k == XbfPrimitiveMetadata.I256 {
      DecodedU64sEncodes(4, input);
    } else {
      DecodedUintEncodes(FixedWidth(k), input);
    }
  }

  /** The value of a kind of at most 16 bytes whose little-endian pattern is u: a boolean
      is true exactly when the byte is non-zero, a signed integer is read as two's complement,
      anything else as the unsigned pattern itself. */
  function FromBits(k: XbfPrimitiveMetadata, u: nat): (p: XbfPrimitive)
    requires !k.String? && !k.U256? && !k.I256?
    requires u < Pow256(FixedWidth(k))
    ensures KindOf(p) == k && Encodable(p)
    ensures |EncodePrimitive(p)| == FixedWidth(k)
    ensures k != XbfPrimitiveMetadata.Bool ==> Pattern(p) == u
  {
    if k == XbfPrimitiveMetadata.Bool then XbfPrimitive.Bool(u != 0)
    else if IsSigned(k) then SignedFromBits(k, u)
    else UnsignedFromBits(k, u)
  }

  /** The integer a fixed-width value other than a 256-bit one holds: a boolean as 0 or 1,
      a float as its bit pattern. */
  function Scalar(p: XbfPrimitive): int
    requires !p.String? && !p.U256? && !p.I256?
  {
    match p
    case Bool(b) => if b then 1 else 0
    case U8(x) => x
    case U16(x) => x
    case U32(x) => x
    case U64(x) => x
    case U128(x) => x
    case I8(x) => x
    case I16(x) => x
    case I32(x) => x
    case I64(x) => x
    case I128(x) => x
    case F32(bits) => bits
    case F64(bits) => bits
  }

  /** A native Rust scalar that converts into a primitive value; there is no
      native 256-bit integer. */
  datatype Native =
    | NativeBool(bool)
    | NativeU8(u8) | NativeU16(u16) | NativeU32(u32) | NativeU64(u64) | NativeU128(u128)
    | NativeI8(i8) | NativeI16(i16) | NativeI32(i32) | NativeI64(i64) | NativeI128(i128)
    | NativeF32(u32) | NativeF64(u64)
    | NativeString(text: Bytes)

  /** The kind named after a native type (`u8` is `U8`, `f32` is `F32`, `String` is `String`). */
  function NativeKind(n: Native): (k: XbfPrimitiveMetadata)
    ensures k != XbfPrimitiveMetadata.U256 && k != XbfPrimitiveMetadata.I256
    ensures k == XbfPrimitiveMetadata.String <==> n.NativeString?
  {
    match n
    case NativeBool(_) => XbfPrimitiveMetadata.Bool
    case NativeU8(_) => XbfPrimitiveMetadata.U8
    case NativeU16(_) => XbfPrimitiveMetadata.U16
    case NativeU32(_) => XbfPrimitiveMetadata.U32
    case NativeU64(_) => XbfPrimitiveMetadata.U64
    case NativeU128(_) => XbfPrimitiveMetadata.U128
    case NativeI8(_) => XbfPrimitiveMetadata.I8
    case NativeI16(_) => XbfPrimitiveMetadata.I16
    case NativeI32(_) => XbfPrimitiveMetadata.I32
    case NativeI64(_) => XbfPrimitiveMetadata.I64
    case NativeI128(_) => XbfPrimitiveMetadata.I128
    case NativeF32(_) => XbfPrimitiveMetadata.F32
    case NativeF64(_) => XbfPrimitiveMetadata.F64
    case NativeString(_) => XbfPrimitiveMetadata.String
  }

  /** The integer a native scalar holds, in the same reading as `Scalar`. */
  function NativeScalar(n: Native): int
    requires !n.NativeString?
  {
    match n
    case NativeBool(b) => if b then 1 else 0
    case NativeU8(x) => x
    case NativeU16(x) => x
    case NativeU32(x) => x
    case NativeU64(x) => x
    case NativeU128(x) => x
    case NativeI8(x) => x
    case NativeI16(x) => x
    case NativeI32(x) => x
    case NativeI64(x) => x
    case NativeI128(x) => x
    case NativeF32(bits) => bits
    case NativeF64(bits) => bits
  }

  /** The From<native> conversions: the variant named after the native type, holding the
      native's own value. */
  function From(n: Native): (p: XbfPrimitive)
    ensures KindOf(p) == NativeKind(n)
    ensures !p.U256? && !p.I256?
    ensures p.String? <==> n.NativeString?
    ensures n.NativeString? ==> p.text == n.text
    ensures !n.NativeString? ==> Scalar(p) == NativeScalar(n)
  {
    match n
    case NativeBool(x) => XbfPrimitive.Bool(x)
    case NativeU8(x) => XbfPrimitive.U8(x)
    case NativeU16(x) => XbfPrimitive.U16(x)
    case NativeU32(x) => XbfPrimitive.U32(x)
    case NativeU64(x) => XbfPrimitive.U64(x)
    case NativeU128(x) => XbfPrimitive.U128(x)
    case NativeI8(x) => XbfPrimitive.I8(x)
    case NativeI16(x) => XbfPrimitive.I16(x)
    case NativeI32(x) => XbfPrimitive.I32(x)
    case NativeI64(x) => XbfPrimitive.I64(x)
    case NativeI128(x) => XbfPrimitive.I128(x)
    case NativeF32(x) => XbfPrimitive.F32(x)
    case NativeF64(x) => XbfPrimitive.F64(x)
    case NativeString(x) => XbfPrimitive.String(x)
  }

  /** Writes the encoding of p (serialize_primitive_type). */
  method SerializePrimitive(p: XbfPrimitive, w: Writer)
    modifies w
    ensures w.bytes == old(w.bytes) + EncodePrimitive(p)
  {
    if p.String? {
      w.WriteString(p.text);
    } else if p.U256? || p.I256? {
      WriteLimbs(p.limbs, w);
    } else {
      w.WriteUint(Pattern(p), FixedWidth(KindOf(p)));
    }
  }

  /** Writes each limb in array order. */
  method WriteLimbs(ls: Limbs, w: Writer)
    modifies w
    ensures w.bytes == old(w.bytes) + EncodeU64s(ls)
  {
    for i := 0 to 4
      invariant old(w.bytes) + EncodeU64s(ls) == w.bytes + EncodeU64s(ls[i..])
    {
      assert ls[i..][1..] == ls[i + 1..];
      w.WriteUint(ls[i], 8);
    }
  }

  /** Reads a value of kind k (deserialize_primitive_type). */
  method DeserializePrimitive(k: XbfPrimitiveMetadata, r: Reader) returns (res: Result<XbfPrimitive, DecodeError>)
    modifies r
    ensures WithRest(res, r.rest) == DecodePrimitive(k, old(r.rest))
  {
    if k == XbfPrimitiveMetadata.String {
      var s := r.ReadString();
      res := match s case Ok(x) => Ok(XbfPrimitive.String(x)) case Err(e) => Err(e);
    } else if k == XbfPrimitiveMetadata.U256 || k == XbfPrimitiveMetadata.I256 {
      var ls := ReadLimbs(r);
      res := match ls
        case Ok(x) => Ok(if k == XbfPrimitiveMetadata.U256 then XbfPrimitive.U256(x) else XbfPrimitive.I256(x))
        case Err(e) => Err(e);
    } else {
      var n := FixedWidth(k);
      var x := r.ReadUint(n);
      match x
      case Err(e) => return Err(e);
      case Ok(u) => res := Ok(FromBits(k, u));
    }
  }

  /** Fills a four-limb array in place, one 64-bit read per limb; a short read aborts. */
  method ReadLimbs(r: Reader) returns (res: Result<Limbs, DecodeError>)
    modifies r
    ensures WithRest(res, r.rest) == DecodeU64s(4, old(r.rest))
  {
    var data := new u64[4](_ => 0);
    PrependNil(DecodeU64s(4, r.rest));
    for i := 0 to 4
      invariant DecodeU64s(4, old(r.rest)) == Prepend(data[..i], DecodeU64s(4 - i, r.rest))
    {
      var x := r.ReadUint(8);
      if x.Err? {
        return Err(x.error);
      }
      data[i] := x.value;
      PrependAssoc(data[..i], [data[i]], DecodeU64s(4 - i - 1, r.rest));
      assert data[..i + 1] == data[..i] + [data[i]];
    }
    assert data[..4] == data[..] && data[..] + [] == data[..];
    return Ok(data[..]);
  }
}
