/** What the primitive codec guarantees: exact layouts, and that reading back what was written yields the same value. */
module PrimitiveProofs {
  import opened Wire
  import opened Primitives

  /** Decoding the limbs that were written gives them back, and nothing more is read. */
  lemma {:induction false} U64sRoundTrip(ls: seq<u64>, rest: Bytes)
    ensures DecodeU64s(|ls|, EncodeU64s(ls) + rest) == Ok((ls, rest))
  {
    if ls != [] {
      var tail := EncodeU64s(ls[1..]) + rest;
      assert EncodeU64s(ls) + rest == LE(ls[0], 8) + tail;
      UintRoundTrip(ls[0], 8, tail);
      assert DecodeUint(8, EncodeU64s(ls) + rest) == Ok((ls[0], tail));
      U64sRoundTrip(ls[1..], rest);
      assert DecodeU64s(|ls| - 1, tail) == Ok((ls[1..], rest));
      assert [ls[0]] + ls[1..] == ls;
      assert Prepend([ls[0]], Ok((ls[1..], rest))) == Ok((ls, rest));
      assert DecodeU64s(|ls|, EncodeU64s(ls) + rest) == Prepend([ls[0]], DecodeU64s(|ls| - 1, tail));
    } else {
      assert EncodeU64s(ls) + rest == rest;
    }
  }

  /** Round trip: a value read back with its own kind is the value written, and the
      bytes after it are left unread. */
  lemma PrimitiveRoundTrip(p: XbfPrimitive, rest: Bytes)
    requires Encodable(p)
    ensures DecodePrimitive(KindOf(p), EncodePrimitive(p) + rest) == Ok((p, rest))
  {
    if p.String? {
      StringRoundTrip(p.text, rest);
    } else if p.U256? || p.I256? {
      U64sRoundTrip(p.limbs, rest);
    } else {
      UintRoundTrip(Pattern(p), FixedWidth(KindOf(p)), rest);
      if p.I8? || p.I16? || p.I32? || p.I64? || p.I128? {
        SignedPatternRoundTrip(p);
      } else {
        UnsignedPatternRoundTrip(p);
      }
    }
  }

  /** An unsigned value, float or boolean is recovered from its own pattern. */
  lemma UnsignedPatternRoundTrip(p: XbfPrimitive)
    requires p.Bool? || p.U8? || p.U16? || p.U32? || p.U64? || p.U128? || p.F32? || p.F64?
    ensures FromBits(KindOf(p), Pattern(p)) == p
  {
  }

  /** A signed value is recovered from its two's complement pattern. */
  lemma SignedPatternRoundTrip(p: XbfPrimitive)
    requires p.I8? || p.I16? || p.I32? || p.I64? || p.I128?
    ensures FromBits(KindOf(p), Pattern(p)) == p
  {
    match p
    case I8(x) => TwosComplementRoundTrip(x, 1);
    case I16(x) => TwosComplementRoundTrip(x, 2);
    case I32(x) => TwosComplementRoundTrip(x, 4);
    case I64(x) => TwosComplementRoundTrip(x, 8);
    case I128(x) => TwosComplementRoundTrip(x, 16);
  }

  /** Limb j of a 256-bit value occupies bytes 8j to 8j+8, little-endian. */
  lemma {:induction false} LimbLayout(ls: seq<u64>, j: nat)
    requires j < |ls|
    ensures EncodeU64s(ls)[8 * j .. 8 * j + 8] == LE(ls[j], 8)
  {
    if j > 0 {
      LimbLayout(ls[1..], j - 1);
      assert EncodeU64s(ls)[8 * j .. 8 * j + 8] == EncodeU64s(ls[1..])[8 * (j - 1) .. 8 * (j - 1) + 8];
    }
  }

  /** U256 and I256 are both four limbs in array order, 32 bytes in all. */
  lemma WideLayout(ls: Limbs, j: nat)
    requires j < 4
    ensures |EncodePrimitive(XbfPrimitive.U256(ls))| == 32
    ensures EncodePrimitive(XbfPrimitive.U256(ls))[8 * j .. 8 * j + 8] == LE(ls[j], 8)
    ensures EncodePrimitive(XbfPrimitive.I256(ls)) == EncodePrimitive(XbfPrimitive.U256(ls))
  {
    LimbLayout(ls, j);
  }

  /** A boolean reads one byte and every byte is accepted: zero is false, anything else true. */
  lemma BoolDecodeAnyByte(b: u8, rest: Bytes)
    ensures DecodePrimitive(XbfPrimitiveMetadata.Bool, [b] + rest) == Ok((XbfPrimitive.Bool(b != 0), rest))
  {
    assert ([b] + rest)[..1] == [b] && ([b] + rest)[1..] == rest;
    assert FromLE([b]) == b + 256 * FromLE([]);
  }

  /** A kind needs its full width; any shorter input is an end-of-input error. */
  lemma ShortInputFails(k: XbfPrimitiveMetadata, input: Bytes)
    requires k != XbfPrimitiveMetadata.String && |input| < FixedWidth(k)
    ensures DecodePrimitive(k, input) == Err(UnexpectedEof)
  {
  }

  /** Booleans are one byte: 1 for true, 0 for false. */
  lemma BoolLayout()
    ensures EncodePrimitive(XbfPrimitive.Bool(true)) == [1]
    ensures EncodePrimitive(XbfPrimitive.Bool(false)) == [0]
  {
  }

  /** The little-endian layout the serde tests expect: 420 as a u16. */
  lemma U16Example()
    ensures EncodePrimitive(XbfPrimitive.U16(420)) == [0xA4, 0x01]
  {
    assert LE(420, 2) == [0xA4, 0x01];
  }

  /** 100000 as an i32. */
  lemma I32Example()
    ensures EncodePrimitive(XbfPrimitive.I32(100_000)) == [0xA0, 0x86, 0x01, 0x00]
  {
    assert LE(100_000, 4) == [0xA0, 0x86, 0x01, 0x00];
  }

  /** -1 as an i8 is its two's complement byte. */
  lemma I8Example()
    ensures EncodePrimitive(XbfPrimitive.I8(-1)) == [0xFF]
  {
    assert LE(0xFF, 1) == [0xFF];
  }

  /** A string is its 16-bit length, then its bytes. */
  lemma StringExample()
    ensures EncodePrimitive(XbfPrimitive.String([0x68, 0x69])) == [2, 0, 0x68, 0x69]
  {
    assert LE(2, 2) == [2, 0];
  }

  /** Different native values convert to different primitive values. */
  lemma FromInjective(a: Native, b: Native)
    requires From(a) == From(b)
    ensures a == b
  {
  }

  /** A primitive of the kind named after a native type and holding the native's value is
      the converted value: From's contract leaves no other choice. */
  lemma FromUnique(n: Native, p: XbfPrimitive)
    requires KindOf(p) == NativeKind(n)
    requires n.NativeString? ==> p.String? && p.text == n.text
    requires !n.NativeString? ==> !p.String? && !p.U256? && !p.I256? && Scalar(p) == NativeScalar(n)
    ensures p == From(n)
  {
  }
}
