/**
  In-memory byte streams standing in for the `Write` and `Read` traits the
  codec is written against: a writer appends, a reader consumes from the
  front. A read that fails leaves the reader at an unspecified position.
 */
module Stream {
  import opened Wire

  /** A growable byte buffer; appending to it never fails. */
  class Writer {
    var bytes: Bytes

    constructor ()
      ensures bytes == []
    {
      bytes := [];
    }

    method Write(bs: Bytes)
      modifies this
      ensures bytes == old(bytes) + bs
    {
      bytes := bytes + bs;
    }

    /** Writes x as an n-byte little-endian unsigned integer. */
    method WriteUint(x: nat, n: nat)
      requires x < Pow256(n)
      modifies this
      ensures bytes == old(bytes) + LE(x, n)
    {
      Write(LE(x, n));
    }

    /** Writes s with its 16-bit length prefix. */
    method WriteString(s: Bytes)
      modifies this
      ensures bytes == old(bytes) + EncodeString(s)
    {
      WriteUint(|s| % 0x1_0000, 2);
      Write(s);
    }
  }

  /** A cursor over an input buffer; rest is what has not been read yet. */
  class Reader {
    var rest: Bytes

    constructor (input: Bytes)
      ensures rest == input
    {
      rest := input;
    }

    method ReadExact(n: nat) returns (res: Result<Bytes, DecodeError>)
      modifies this
      ensures WithRest(res, rest) == Take(n, old(rest))
    {
      if |rest| < n {
        return Err(UnexpectedEof);
      }
      res := Ok(rest[..n]);
      rest := rest[n..];
    }

    /** Reads an n-byte little-endian unsigned integer. */
    method ReadUint(n: nat) returns (res: Result<nat, DecodeError>)
      modifies this
      ensures WithRest(res, rest) == DecodeUint(n, old(rest))
    {
      var bs := ReadExact(n);
      match bs
      case Err(e) => return Err(e);
      case Ok(b) => return Ok(FromLE(b));
    }

    /** Reads a 16-bit length, then that many bytes. */
    method ReadString() returns (res: Result<Bytes, DecodeError>)
      modifies this
      ensures WithRest(res, rest) == DecodeString(old(rest))
    {
      var len := ReadUint(2);
      match len
      case Err(e) => return Err(e);
      case Ok(n) => res := ReadExact(n);
    }
  }
}
