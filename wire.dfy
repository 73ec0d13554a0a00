/**
  The little-endian byte codec the XBF format is built on: fixed-width
  unsigned and two's-complement integers, and byte strings with a 16-bit
  length prefix. Every decoder here returns the decoded value together with
  the unconsumed rest of its input, or an error.
 */
module Wire {

  type Bytes = seq<u8>

  /** Fixed-width native integer types, as unbounded integers with their range: an
      n-byte unsigned integer is below 256^n, an n-byte signed one lies in
      [-256^n / 2, 256^n / 2). A byte is a u8. */
  type u8 = x: int | 0 <= x < 0x100
  type u16 = x: int | 0 <= x < Pow256(2)
  type u32 = x: int | 0 <= x < Pow256(4)
  type u64 = x: int | 0 <= x < Pow256(8)
  type u128 = x: int | 0 <= x < Pow256(16)
  type i8 = x: int | -Pow256(1) <= 2 * x < Pow256(1)
  type i16 = x: int | -Pow256(2) <= 2 * x < Pow256(2)
  type i32 = x: int | -Pow256(4) <= 2 * x < Pow256(4)
  type i64 = x: int | -Pow256(8) <= 2 * x < Pow256(8)
  type i128 = x: int | -Pow256(16) <= 2 * x < Pow256(16)

  /** The two ways a read can fail: the input ends early, or a metadata tag is unknown. */
  datatype DecodeError = UnexpectedEof | UnknownDiscriminant(tag: u8)

  datatype Result<+T, +E> = Ok(value: T) | Err(error: E)

  /** A decoder's outcome: the value and the unconsumed input, or an error. */
  type Decoded<T> = Result<(T, Bytes), DecodeError>

  /** Pairs a reader's result with its remaining input; on an error the input is dropped. */
  function WithRest<T>(res: Result<T, DecodeError>, rest: Bytes): (d: Decoded<T>)
    ensures d.Ok? <==> res.Ok?
    ensures d.Ok? ==> d.value == (res.value, rest)
    ensures d.Err? ==> d.error == res.error
  {
    match res
    case Ok(v) => Ok((v, rest))
    case Err(e) => Err(e)
  }

  /** Puts already-decoded items in front of the items a later decode yields; errors pass through. */
  function Prepend<T>(xs: seq<T>, d: Decoded<seq<T>>): (r: Decoded<seq<T>>)
    ensures r.Ok? <==> d.Ok?
    ensures r.Ok? ==> r.value == (xs + d.value.0, d.value.1)
    ensures r.Err? ==> r.error == d.error
  {
    match d
    case Ok((ys, rest)) => Ok((xs + ys, rest))
    case Err(e) => Err(e)
  }

  lemma PrependAssoc<T>(xs: seq<T>, ys: seq<T>, d: Decoded<seq<T>>)
    ensures Prepend(xs, Prepend(ys, d)) == Prepend(xs + ys, d)
  {
    if d.Ok? {
      assert xs + (ys + d.value.0) == (xs + ys) + d.value.0;
    }
  }

  lemma PrependNil<T>(d: Decoded<seq<T>>)
    ensures Prepend([], d) == d
  {
    if d.Ok? {
      assert [] + d.value.0 == d.value.0;
    }
  }

  /** A non-empty suffix is its first item followed by the next suffix. */
  lemma SliceCons<T>(s: seq<T>, i: nat)
    requires i < |s|
    ensures s[i..] == [s[i]] + s[i + 1..]
  {
  }

  /** Writing a then b after before leaves the same pending bytes as writing a + b. */
  lemma WriteStep(before: Bytes, a: Bytes, b: Bytes, later: Bytes)
    ensures before + (a + b + later) == before + a + b + later
  {
  }

  /** 256 to the power n: one more than the largest value that fits in n bytes. */
  function Pow256(n: nat): (p: int)
    ensures p >= 1
  {
    match n
    case 0 => 1
    case 1 => 0x100
    case 2 => 0x1_0000
    case 4 => 0x1_0000_0000
    case 8 => 0x1_0000_0000_0000_0000
    case 16 => 0x1_0000_0000_0000_0000_0000_0000_0000_0000
    case _ => 256 * Pow256(n - 1)
  }

  /** One more byte multiplies the range by 256. */
  lemma Pow256Step(n: nat)
    requires n > 0
    ensures Pow256(n) == 256 * Pow256(n - 1)
  {
    if n == 4 {
      assert Pow256(3) == 0x100_0000;
    } else if n == 8 {
      assert Pow256(5) == 0x100_0000_0000;
      assert Pow256(6) == 0x1_0000_0000_0000;
      assert Pow256(7) == 0x100_0000_0000_0000;
    } else if n == 16 {
      assert Pow256(9) == 0x100_0000_0000_0000_0000;
      assert Pow256(10) == 0x1_0000_0000_0000_0000_0000;
      assert Pow256(11) == 0x100_0000_0000_0000_0000_0000;
      assert Pow256(12) == 0x1_0000_0000_0000_0000_0000_0000;
      assert Pow256(13) == 0x100_0000_0000_0000_0000_0000_0000;
      assert Pow256(14) == 0x1_0000_0000_0000_0000_0000_0000_0000;
      assert Pow256(15) == 0x100_0000_0000_0000_0000_0000_0000_0000;
    }
  }

  /** The n-byte little-endian encoding of x, least significant byte first. */
  function LE(x: nat, n: nat): (bs: Bytes)
    ensures |bs| == n
  {
    if n == 0 then [] else [x % 256] + LE(x / 256, n - 1)
  }

  /** The unsigned value of a little-endian byte sequence. */
  function FromLE(bs: Bytes): (x: nat)
    ensures x < Pow256(|bs|)
  {
    if bs == [] then 0
    else
      Pow256Step(|bs|);
      bs[0] + 256 * FromLE(bs[1..])
  }

  /** Reading back n little-endian bytes gives the value written, when it fits. */
  lemma {:induction false} FromLEOfLE(x: nat, n: nat)
    requires x < Pow256(n)
    ensures FromLE(LE(x, n)) == x
  {
    if n > 0 {
      var q, r := x / 256, x % 256;
      assert x == 256 * q + r;
      assert q < Pow256(n - 1) by {
        Pow256Step(n);
        assert 256 * q <= x < 256 * Pow256(n - 1);
      }
      FromLEOfLE(q, n - 1);
      var bs := LE(x, n);
      assert bs[0] == r && bs[1..] == LE(q, n - 1);
      assert FromLE(bs) == r + 256 * FromLE(bs[1..]);
    }
  }

  /** Writing the value of n bytes gives back the same n bytes. */
  lemma {:induction false} LEOfFromLE(bs: Bytes)
    ensures LE(FromLE(bs), |bs|) == bs
  {
    if bs != [] {
      LEOfFromLE(bs[1..]);
      var x, q, r := FromLE(bs), FromLE(bs[1..]), bs[0];
      assert x == r + 256 * q && 0 <= r < 256;
      DivModUnique(x, q, r);
      assert LE(x, |bs|) == [r] + LE(q, |bs| - 1);
      assert bs == [bs[0]] + bs[1..];
    }
  }

  lemma DivModUnique(x: nat, q: nat, r: nat)
    requires x == r + 256 * q && r < 256
    ensures x % 256 == r && x / 256 == q
  {
  }

  /** Two's complement of x in n bytes, as the unsigned value that is written. */
  function TwosComplement(x: int, n: nat): (u: nat)
    requires -Pow256(n) <= 2 * x < Pow256(n)
    ensures u < Pow256(n)
    ensures x >= 0 ==> u == x
  {
    if x < 0 then x + Pow256(n) else x
  }

  /** The signed value of an n-byte two's complement pattern. */
  function FromTwosComplement(u: nat, n: nat): (x: int)
    requires u < Pow256(n)
    ensures -Pow256(n) <= 2 * x < Pow256(n)
  {
    if 2 * u >= Pow256(n) then u - Pow256(n) else u
  }

  lemma TwosComplementRoundTrip(x: int, n: nat)
    requires n > 0
    requires -Pow256(n) <= 2 * x < Pow256(n)
    ensures FromTwosComplement(TwosComplement(x, n), n) == x
  {
    Pow256Step(n);
  }

  /** Reads exactly n bytes, or fails if fewer are left. */
  function Take(n: nat, input: Bytes): (d: Decoded<Bytes>)
    ensures d.Ok? <==> n <= |input|
    ensures d.Ok? ==> d.value.0 + d.value.1 == input && |d.value.0| == n
    ensures d.Err? ==> d.error == UnexpectedEof
  {
    if |input| < n then Err(UnexpectedEof) else Ok((input[..n], input[n..]))
  }

  /** Reads an n-byte little-endian unsigned integer. */
  function DecodeUint(n: nat, input: Bytes): (d: Decoded<nat>)
    ensures d.Ok? <==> n <= |input|
    ensures d.Ok? ==> d.value.0 < Pow256(n) && d.value.1 == input[n..]
    ensures d.Err? ==> d.error == UnexpectedEof
  {
    match Take(n, input)
    case Err(e) => Err(e)
    case Ok((bs, rest)) =>
      LEOfFromLE(bs);
      Ok((FromLE(bs), rest))
  }

  lemma UintRoundTrip(x: nat, n: nat, rest: Bytes)
    requires x < Pow256(n)
    ensures DecodeUint(n, LE(x, n) + rest) == Ok((x, rest))
  {
    assert (LE(x, n) + rest)[..n] == LE(x, n);
    assert (LE(x, n) + rest)[n..] == rest;
    FromLEOfLE(x, n);
  }

  /** A successful read took the little-endian bytes of the value it returns. */
  lemma DecodedUintEncodes(n: nat, input: Bytes)
    requires DecodeUint(n, input).Ok?
    ensures input == LE(DecodeUint(n, input).value.0, n) + DecodeUint(n, input).value.1
  {
    LEOfFromLE(input[..n]);
    assert input == input[..n] + input[n..];
  }

  /** A length-prefixed byte string: its length as a 2-byte LE count, then its bytes.
      The count is the length truncated to 16 bits, as a cast to u16 does. */
  function EncodeString(s: Bytes): (bs: Bytes)
    ensures |bs| == 2 + |s|
    ensures |s| < 0x1_0000 ==> bs[..2] == LE(|s|, 2) && bs[2..] == s
  {
    LE(|s| % 0x1_0000, 2) + s
  }

  /** Reads a 2-byte LE length, then that many bytes. */
  function DecodeString(input: Bytes): (d: Decoded<Bytes>)
    ensures d.Ok? <==> 2 <= |input| && 2 + FromLE(input[..2]) <= |input|
    ensures d.Ok? ==> |d.value.0| < 0x1_0000 && |d.value.1| + 2 <= |input|
    ensures d.Err? ==> d.error == UnexpectedEof
  {
    match DecodeUint(2, input)
    case Err(e) => Err(e)
    case Ok((len, afterLen)) =>
      assert afterLen == input[2..];
      match Take(len, afterLen)
      case Err(e) => Err(e)
      case Ok((s, rest)) =>
        assert Pow256(2) == 0x1_0000;
        assert input == input[..2] + afterLen;
        Ok((s, rest))
  }

  lemma StringRoundTrip(s: Bytes, rest: Bytes)
    requires |s| < 0x1_0000
    ensures DecodeString(EncodeString(s) + rest) == Ok((s, rest))
  {
    assert Pow256(2) == 0x1_0000;
    var input := EncodeString(s) + rest;
    assert input == LE(|s|, 2) + (s + rest);
    UintRoundTrip(|s|, 2, s + rest);
    assert (s + rest)[..|s|] == s && (s + rest)[|s|..] == rest;
  }

  /** A successful read took exactly the encoding of the string it returns. */
  lemma DecodedStringEncodes(input: Bytes)
    requires DecodeString(input).Ok?
    ensures input == EncodeString(DecodeString(input).value.0) + DecodeString(input).value.1
  {
    var (s, rest) := DecodeString(input).value;
    var len := DecodeUint(2, input).value.0;
    DecodedUintEncodes(2, input);
    assert Pow256(2) == 0x1_0000;
    assert input[2..] == s + rest;
    assert len == |s| && len % 0x1_0000 == len;
  }
}
