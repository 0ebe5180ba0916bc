/** Frames of the stream multiplexer on the wire: the writer's encoding and the reader's view of it. */
module MuxFrames {
  import opened Bytes
  import opened Sockets

  const ID_LIMIT := 0x4000_0000
  const MAX_PAYLOAD := 65535

  datatype Frame = Frame(streamId: u32, cmd: byte, payload: bytes)

  /** What a received byte stream holds: its complete frames and the bytes of an unfinished one. */
  datatype Received = Received(frames: seq<Frame>, rest: bytes)

  /** The stream id keeps its low 30 bits, the command moves to the top two. */
  function HeaderWord(f: Frame): (h: nat)
    ensures h < 0x1_0000_0000 && h % ID_LIMIT == f.streamId % ID_LIMIT && h / ID_LIMIT == f.cmd % 4
  {
    f.streamId % ID_LIMIT + (f.cmd % 4) * ID_LIMIT
  }

  function Encode(f: Frame): bytes {
    if |f.payload| > MAX_PAYLOAD then []
    else U32Bytes(HeaderWord(f)) + U16Bytes(|f.payload|) + f.payload
  }

  function EncodeAll(fs: seq<Frame>): bytes {
    if fs == [] then [] else Encode(fs[0]) + EncodeAll(fs[1..])
  }

  function Decode(b: bytes): Received
    decreases |b|
  {
    if |b| < 6 then Received([], b)
    else
      var len := U16(b[4], b[5]);
      if |b| < 6 + len then Received([], b)
      else
        var h := U32(b[0], b[1], b[2], b[3]);
        var tail := Decode(b[6 + len..]);
        Received([Frame(h % ID_LIMIT, h / ID_LIMIT, b[6..6 + len])] + tail.frames, tail.rest)
  }

  /** What the wire keeps of a frame: an oversized one vanishes, id and command are masked. */
  function Carried(f: Frame): seq<Frame> {
    if |f.payload| > MAX_PAYLOAD then [] else [Frame(f.streamId % ID_LIMIT, f.cmd % 4, f.payload)]
  }

  function OnWire(fs: seq<Frame>): seq<Frame> {
    if fs == [] then [] else Carried(fs[0]) + OnWire(fs[1..])
  }

  predicate Faithful(f: Frame) {
    |f.payload| <= MAX_PAYLOAD && f.streamId < ID_LIMIT && f.cmd < 4
  }

  lemma DecodeOneFrame(f: Frame, tail: bytes)
    ensures Decode(Encode(f) + tail) == Received(Carried(f) + Decode(tail).frames, Decode(tail).rest)
  {
    hide U16Bytes, U32Bytes, HeaderWord, U16, U32;
    if |f.payload| > MAX_PAYLOAD {
      assert Encode(f) + tail == tail;
    } else {
      var header := U32Bytes(HeaderWord(f)) + U16Bytes(|f.payload|);
      var b := header + f.payload + tail;
      assert Encode(f) + tail == b;
      assert U32(b[0], b[1], b[2], b[3]) == HeaderWord(f);
      assert U16(b[4], b[5]) == |f.payload|;
      assert b[6..6 + |f.payload|] == f.payload;
      assert b[6 + |f.payload|..] == tail;
    }
  }

  /** Reading back what was written: every frame the wire can carry, in order, then whatever follows. */
  lemma {:induction false} DecodeEncodeAll(fs: seq<Frame>, tail: bytes)
    ensures Decode(EncodeAll(fs) + tail) == Received(OnWire(fs) + Decode(tail).frames, Decode(tail).rest)
  {
    hide Decode, Encode, Carried;
    if fs == [] {
      assert EncodeAll(fs) + tail == tail;
    } else {
      var later := EncodeAll(fs[1..]) + tail;
      DecodeEncodeAll(fs[1..], tail);
      assert EncodeAll(fs) + tail == Encode(fs[0]) + later;
      DecodeOneFrame(fs[0], later);
      var first, others, ahead := Carried(fs[0]), OnWire(fs[1..]), Decode(tail).frames;
      assert first + (others + ahead) == first + others + ahead;
    }
  }

  lemma EncodeAllAppend(fs: seq<Frame>, f: Frame)
    ensures EncodeAll(fs + [f]) == EncodeAll(fs) + Encode(f)
  {
    hide Encode;
    if fs == [] {
      assert EncodeAll([f]) == Encode(f) + EncodeAll([]);
    } else {
      assert (fs + [f])[1..] == fs[1..] + [f];
      EncodeAllAppend(fs[1..], f);
    }
  }

  /** A frame survives the wire unchanged exactly when it is within the format's limits. */
  lemma {:induction false} OnWireExact(fs: seq<Frame>)
    ensures |OnWire(fs)| <= |fs|
    ensures OnWire(fs) == fs <==> forall f :: f in fs ==> Faithful(f)
  {
    if fs != [] {
      OnWireExact(fs[1..]);
      assert fs == [fs[0]] + fs[1..];
      if Faithful(fs[0]) {
        assert Carried(fs[0]) == [fs[0]];
        assert OnWire(fs)[1..] == OnWire(fs[1..]);
      } else if |OnWire(fs)| == |fs| {
        assert OnWire(fs)[0] == Carried(fs[0])[0] != fs[0];
      }
    }
  }

  /** Bytes that arrive later never change the frames already recovered. */
  lemma {:induction false} DecodeResumes(a: bytes, b: bytes)
    ensures Decode(a + b).frames == Decode(a).frames + Decode(Decode(a).rest + b).frames
    ensures Decode(a + b).rest == Decode(Decode(a).rest + b).rest
    decreases |a|
  {
    hide U16, U32, Decode;
    DecodeUnfolds(a);
    DecodeUnfolds(a + b);
    if |a| >= 6 && |a| >= 6 + U16(a[4], a[5]) {
      var len := U16(a[4], a[5]);
      DecodeResumes(a[6 + len..], b);
      SameStart(a, b, len);
      var first := [Frame(U32(a[0], a[1], a[2], a[3]) % ID_LIMIT, U32(a[0], a[1], a[2], a[3]) / ID_LIMIT, a[6..6 + len])];
      Regroup(first, Decode(a[6 + len..]).frames, Decode(Decode(a).rest + b).frames);
    }
  }

  lemma DecodeUnfolds(b: bytes)
    ensures Decode(b) ==
            if |b| < 6 || |b| < 6 + U16(b[4], b[5]) then Received([], b)
            else
              var len, h := U16(b[4], b[5]), U32(b[0], b[1], b[2], b[3]);
              var tail := Decode(b[6 + len..]);
              Received([Frame(h % ID_LIMIT, h / ID_LIMIT, b[6..6 + len])] + tail.frames, tail.rest)
  {
    hide U16, U32;
  }

  lemma SameStart(a: bytes, b: bytes, len: nat)
    requires 6 + len <= |a|
    ensures (a + b)[6 + len..] == a[6 + len..] + b && (a + b)[6..6 + len] == a[6..6 + len]
    ensures forall k :: 0 <= k < 6 ==> (a + b)[k] == a[k]
  {
  }

  lemma Regroup<T>(a: seq<T>, b: seq<T>, c: seq<T>)
    ensures a + (b + c) == a + b + c
  {
  }

  /**
   * A frame on the wire, byte by byte: the command in the top two bits of the first byte, 30 bits of stream
   * id, the payload's length in two bytes, and the payload. A payload beyond that length leaves no bytes.
   */
  lemma FrameBytes(f: Frame)
    ensures |f.payload| > 65535 ==> Encode(f) == []
    ensures |f.payload| <= 65535 ==>
            var e := Encode(f);
            && |e| == 6 + |f.payload| && e[6..] == f.payload
            && e[0] == f.cmd % 4 * 64 + f.streamId / 16777216 % 64 && e[1] == f.streamId / 65536 % 256
            && e[2] == f.streamId / 256 % 256 && e[3] == f.streamId % 256
            && e[4] == |f.payload| / 256 && e[5] == |f.payload| % 256
  {
    hide U16Bytes, U32Bytes, HeaderWord;
    HeaderBytes(f);
    if |f.payload| <= 65535 {
      LengthBytes(|f.payload|);
      assert Encode(f)[6..] == f.payload;
    }
  }

  lemma LengthBytes(n: nat)
    requires n <= 65535
    ensures U16Bytes(n)[0] == n / 256 && U16Bytes(n)[1] == n % 256
  {
    hide U16Bytes;
    BigEndian(n);
  }

  lemma HeaderBytes(f: Frame)
    ensures var w := U32Bytes(HeaderWord(f));
            && w[0] == f.cmd % 4 * 64 + f.streamId / 16777216 % 64 && w[1] == f.streamId / 65536 % 256
            && w[2] == f.streamId / 256 % 256 && w[3] == f.streamId % 256
  {
    hide U16Bytes, U32Bytes;
    var h := HeaderWord(f);
    WordBytes(f.streamId, f.cmd % 4);
    hide HeaderWord;
    BigEndian(h);
  }

  lemma WordBytes(id: u32, cmd: nat)
    requires cmd < 4
    ensures var h: nat := id % 0x4000_0000 + cmd * 0x4000_0000;
            && h / 16777216 == cmd * 64 + id / 16777216 % 64 && h / 65536 % 256 == id / 65536 % 256
            && h / 256 % 256 == id / 256 % 256 && h % 256 == id % 256
  {
    var top, low := id / 16777216, id % 16777216;
    var q, t := top / 64, top % 64;
    assert id == q * 0x4000_0000 + (t * 16777216 + low);
    LowBits(id, q, t * 16777216 + low);
    var h := cmd * 0x4000_0000 + (t * 16777216 + low);
    assert h == (cmd * 64 + t) * 16777216 + low;
    SameLowBytes(id, top, low);
    SameLowBytes(h, cmd * 64 + t, low);
  }

  lemma LowBits(n: nat, q: nat, r: nat)
    requires n == q * 0x4000_0000 + r && r < 0x4000_0000
    ensures n % 0x4000_0000 == r
  {
  }

  lemma SameLowBytes(n: nat, top: nat, low: nat)
    requires n == top * 16777216 + low && low < 16777216
    ensures n / 16777216 == top && n / 65536 % 256 == low / 65536
    ensures n / 256 % 256 == low / 256 % 256 && n % 256 == low % 256
  {
    assert n / 65536 == top * 256 + low / 65536;
    assert n / 256 == top * 65536 + low / 256;
    assert n / 256 == (top * 256) * 256 + low / 256;
    assert n == (top * 65536) * 256 + low;
  }

  /** Writes the header into `headerBuf`, then the payload; an oversized frame writes nothing. */
  method WriteFrame(writer: Sink, frame: Frame, headerBuf: array<byte>) returns (ok: bool)
    requires headerBuf.Length == 6
    modifies writer, headerBuf
    ensures ok ==> writer.written == old(writer.written) + Encode(frame)
    ensures old(writer.written) <= writer.written <= old(writer.written) + Encode(frame)
    ensures |frame.payload| > MAX_PAYLOAD ==> ok && writer.written == old(writer.written)
    ensures !ok ==> writer.broken
  {
    hide U16Bytes, U32Bytes, U16, U32;
    if |frame.payload| > MAX_PAYLOAD {
      return true;
    }
    var header := U32Bytes(frame.streamId % ID_LIMIT + (frame.cmd % 4) * ID_LIMIT);
    headerBuf[0], headerBuf[1], headerBuf[2], headerBuf[3] := header[0], header[1], header[2], header[3];
    var len := U16Bytes(|frame.payload|);
    headerBuf[4], headerBuf[5] := len[0], len[1];
    assert headerBuf[..] == header + len;
    ok := writer.WriteAll(headerBuf[..]);
    if ok && |frame.payload| > 0 {
      ok := writer.WriteAll(frame.payload);
    }
  }
}
