/** The two halves of a connection, as the engine's loops see them. */
module Sockets {
  import opened Bytes

  /**
   * The reading half. `data` is everything that will still arrive; after it the peer has closed the
   * connection (`clean`) or the connection fails. How the network splits `data` into reads is left open.
   */
  class Source {
    var data: bytes
    const clean: bool

    constructor (data: bytes, clean: bool)
      ensures this.data == data && this.clean == clean
    {
      this.data, this.clean := data, clean;
    }

    /** One `read` into a buffer with room for `max` bytes. Zero bytes mean end of file. */
    method Read(max: nat) returns (ok: bool, chunk: bytes)
      modifies this
      ensures chunk + data == old(data) && |chunk| <= max
      ensures old(data) == [] ==> ok == clean
      ensures old(data) != [] ==> ok && (max > 0 ==> chunk != [])
    {
      if data == [] {
        return clean, [];
      }
      var n: nat :| n <= max && n <= |data| && (max > 0 ==> n > 0);
      ok, chunk, data := true, data[..n], data[n..];
    }

    /** `read_exact`: reads until `n` bytes are there, and fails when the data ends before that. */
    method ReadExact(n: nat) returns (ok: bool, chunk: bytes)
      modifies this
      ensures ok <==> n <= |old(data)|
      ensures ok ==> chunk == old(data)[..n] && data == old(data)[n..]
      ensures !ok ==> data == []
    {
      chunk := [];
      while |chunk| < n
        invariant |chunk| <= n
        invariant chunk + data == old(data)
      {
        var more, got := Read(n - |chunk|);
        if got == [] {
          return false, chunk;
        }
        chunk := chunk + got;
      }
      ok := true;
    }
  }

  /**
   * The writing half: what has been written so far, and whether a write or the shutdown has failed, as each
   * may, after any part of its bytes.
   */
  class Sink {
    var written: bytes
    ghost var broken: bool

    constructor ()
      ensures written == [] && !broken
    {
      written, broken := [], false;
    }

    method WriteAll(b: bytes) returns (ok: bool)
      modifies this
      ensures ok ==> written == old(written) + b
      ensures old(written) <= written <= old(written) + b
      ensures broken == (old(broken) || !ok)
    {
      var n: nat :| n <= |b|;
      written := written + b[..n];
      ok := n == |b|;
      broken := broken || !ok;
      assert b[..n] <= b;
    }

    method Shutdown() returns (ok: bool)
      modifies this`broken
      ensures broken == (old(broken) || !ok)
    {
      ok := *;
      broken := broken || !ok;
    }
  }

  /**
   * `read_exact_to_buf`: the buffer grows to `needed` bytes if it is shorter, and nothing beyond that is
   * read. From `start` on, buffer and stream together are what they were.
   */
  method ReadExactToBuf(stream: Source, buf: bytes, needed: nat, ghost start: nat) returns (ok: bool, grown: bytes)
    requires start <= |buf|
    modifies stream
    ensures ok <==> needed <= |buf| + |old(stream.data)|
    ensures |buf| <= |grown|
    ensures ok ==> |grown| == if |buf| < needed then needed else |buf|
    ensures ok ==> grown[start..] + stream.data == buf[start..] + old(stream.data)
  {
    if |buf| < needed {
      var more: bytes;
      ok, more := stream.ReadExact(needed - |buf|);
      grown := buf + more;
    } else {
      ok, grown := true, buf;
    }
  }
}
