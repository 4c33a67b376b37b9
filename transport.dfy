/** The half-duplex serial line beneath the engine, reduced to the byte-stream
    operations the engine uses: what is still to be read, and what was written. */
module Transport {
  import opened NetProtocol

  function Min(a: nat, b: nat): nat { if a <= b then a else b }

  class Rs485 {
    /** Bytes received from the bus and not yet read. */
    var input: seq<u8>
    /** Bytes written to the bus so far. */
    var output: seq<u8>

    constructor (pending: seq<u8>)
      ensures input == pending && output == []
    {
      input := pending;
      output := [];
    }

    /** `available()`: whether a byte is waiting. */
    method Available() returns (b: bool)
      ensures b <==> |input| > 0
    {
      b := |input| > 0;
    }

    /** `read()`: the next byte, or -1 (consuming nothing) when none is waiting. */
    method Read() returns (c: int)
      modifies this
      ensures output == old(output)
      ensures old(input) == [] ==> c == -1 && input == []
      ensures old(input) != [] ==> c == old(input)[0] && input == old(input)[1..]
    {
      if input == [] {
        c := -1;
      } else {
        c := input[0];
        input := input[1..];
      }
    }

    /** `readBytes(buf, n)`: copies the next `min(n, waiting)` bytes into the
        front of `buf` and returns how many it copied; a timed-out read is a short read. */
    method ReadBytes(buf: array<u8>, n: nat) returns (k: nat)
      requires n <= buf.Length
      modifies this, buf
      ensures k == Min(n, |old(input)|)
      ensures buf[..] == old(input)[..k] + old(buf[..])[k..]
      ensures input == old(input)[k..] && output == old(output)
    {
      k := Min(n, |input|);
      forall i | 0 <= i < k {
        buf[i] := input[i];
      }
      input := input[k..];
    }

    /** `write(bytes, n)`: appends the bytes to the line. */
    method Write(bytes: seq<u8>)
      modifies this
      ensures output == old(output) + bytes && input == old(input)
    {
      output := output + bytes;
    }
  }
}
