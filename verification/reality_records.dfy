/**
 * The Reality server before TLS: reassembling the ClientHello from the first records of a connection,
 * and handing the consumed bytes on, either to the TLS layer or to the fallback destination.
 */
module RealityRecords {
  import opened Bytes
  import opened Options
  import opened Sockets
  import opened ClientHellos

  const MAX_RECORDS := 8
  const MAX_TLS_RECORD := 18 * 1024
  const MAX_CLIENT_HELLO := 64 * 1024

  datatype ReadError = ClosedEarly | InvalidRecordLength | ClientHelloTooLarge

  datatype Record = Record(header: bytes, body: bytes)

  /**
   * What reading stops with: the records taken, and the five header bytes of a record of another type if
   * that is what ended it.
   */
  datatype Reading = Reading(records: seq<Record>, trailer: bytes)

  function Bodies(rs: seq<Record>): bytes {
    if rs == [] then [] else Bodies(rs[..|rs| - 1]) + rs[|rs| - 1].body
  }

  function OnWire(rs: seq<Record>): bytes {
    if rs == [] then [] else OnWire(rs[..|rs| - 1]) + (rs[|rs| - 1].header + rs[|rs| - 1].body)
  }

  function Consumed(r: Reading): bytes {
    OnWire(r.records) + r.trailer
  }

  /** Enough has arrived: a whole ClientHello, or something that is none. */
  predicate Settled(payload: bytes) {
    4 <= |payload| && (payload[0] != 1 || 4 + U24(payload[1], payload[2], payload[3]) <= |payload|)
  }

  /** Reads records off `s`, after those already taken. */
  function Reassemble(s: bytes, taken: seq<Record>): Result<Reading, ReadError>
    decreases |s|
  {
    if |taken| >= MAX_RECORDS || |Bodies(taken)| >= MAX_CLIENT_HELLO then Ok(Reading(taken, []))
    else if |s| < 5 then Err(ClosedEarly)
    else
      var len := U16(s[3], s[4]);
      if s[0] != 0x16 then Ok(Reading(taken, s[..5]))
      else if len == 0 || len > MAX_TLS_RECORD then Err(InvalidRecordLength)
      else if |Bodies(taken)| + len > MAX_CLIENT_HELLO then Err(ClientHelloTooLarge)
      else if |s| < 5 + len then Err(ClosedEarly)
      else
        var more := taken + [Record(s[..5], s[5..5 + len])];
        if Settled(Bodies(more)) then Ok(Reading(more, [])) else Reassemble(s[5 + len..], more)
  }

  /** One record off the stream. */
  lemma ReassembleOne(s: bytes, taken: seq<Record>, body: bytes)
    requires |taken| < MAX_RECORDS && |Bodies(taken)| + |body| <= MAX_CLIENT_HELLO
    requires 5 + |body| <= |s| && s[0] == 0x16 && U16(s[3], s[4]) == |body| && s[5..5 + |body|] == body
    requires 0 < |body| <= MAX_TLS_RECORD
    ensures var more := taken + [Record(s[..5], body)];
            Reassemble(s, taken) ==
            if Settled(Bodies(more)) then Ok(Reading(more, [])) else Reassemble(s[5 + |body|..], more)
  {
    hide U16, U24, Bodies, Settled;
  }

  /**
   * How reading ends: with eight records or 64 KiB it has enough; else it fails if the stream ends, if a
   * handshake record is empty or longer than 18 KiB, or would carry the total beyond 64 KiB; a header of
   * another type ends it and is kept.
   */
  lemma ReassembleEnds(s: bytes, taken: seq<Record>)
    ensures |taken| >= 8 || |Bodies(taken)| >= 65536 ==> Reassemble(s, taken) == Ok(Reading(taken, []))
    ensures |taken| < 8 && |Bodies(taken)| < 65536 ==>
              && (|s| < 5 ==> Reassemble(s, taken) == Err(ClosedEarly))
              && (5 <= |s| && s[0] != 22 ==> Reassemble(s, taken) == Ok(Reading(taken, s[..5])))
              && (5 <= |s| && s[0] == 22 ==>
                    var len := U16(s[3], s[4]);
                    var r := Reassemble(s, taken);
                    if len == 0 || len > 18432 then r == Err(InvalidRecordLength)
                    else if |Bodies(taken)| + len > 65536 then r == Err(ClientHelloTooLarge)
                    else |s| < 5 + len ==> r == Err(ClosedEarly))
  {
    hide U16, U24, Bodies, Settled;
  }

  predicate IsHandshake(r: Record) {
    |r.header| == 5 && r.header[0] == 0x16 && |r.body| == U16(r.header[3], r.header[4])
    && 0 < |r.body| <= MAX_TLS_RECORD
  }

  lemma AppendRecord(rs: seq<Record>, r: Record)
    ensures Bodies(rs + [r]) == Bodies(rs) + r.body
    ensures OnWire(rs + [r]) == OnWire(rs) + (r.header + r.body)
  {
    assert (rs + [r])[..|rs|] == rs;
  }

  /**
   * What a successful reassembly consumed is exactly a prefix of the stream, made of at most eight
   * non-empty handshake records and perhaps one foreign header; the payload stays within 64 KiB.
   */
  lemma {:induction false} ReassembleTakesRecords(s: bytes, taken: seq<Record>)
    requires |taken| <= MAX_RECORDS && |Bodies(taken)| <= MAX_CLIENT_HELLO
    requires forall r :: r in taken ==> IsHandshake(r)
    requires Reassemble(s, taken).Ok?
    ensures var r := Reassemble(s, taken).value;
            && OnWire(taken) <= Consumed(r) && Consumed(r) <= OnWire(taken) + s
            && |r.records| <= 8 && |Bodies(r.records)| <= 65536
            && (forall x :: x in r.records ==> IsHandshake(x))
            && (r.trailer == [] || (|r.trailer| == 5 && r.trailer[0] != 0x16))
    decreases |s|
  {
    hide U16, U24, Bodies, OnWire, Settled;
    var r := Reassemble(s, taken).value;
    if |taken| >= MAX_RECORDS || |Bodies(taken)| >= MAX_CLIENT_HELLO {
      assert OnWire(taken) + [] == OnWire(taken);
    } else if s[0] != 0x16 {
      assert OnWire(taken) + s == OnWire(taken) + s[..5] + s[5..];
    } else {
      var len := U16(s[3], s[4]);
      var record := Record(s[..5], s[5..5 + len]);
      var more := taken + [record];
      AppendRecord(taken, record);
      assert OnWire(more) + s[5 + len..] == OnWire(taken) + s;
      assert IsHandshake(record);
      if Settled(Bodies(more)) {
        assert OnWire(more) + [] == OnWire(more);
      } else {
        ReassembleTakesRecords(s[5 + len..], more);
      }
    }
  }

  function WireRecord(version: bytes, body: bytes): bytes {
    [0x16] + version + Vec16(body)
  }

  /** The records a client sends that splits a message into the given fragments. */
  function Fragmented(version: bytes, fragments: seq<bytes>): bytes {
    if fragments == [] then []
    else WireRecord(version, fragments[0]) + Fragmented(version, fragments[1..])
  }

  ghost predicate FragmentsOf(fragments: seq<bytes>, count: nat) {
    |fragments| <= count && forall f :: f in fragments ==> 0 < |f| <= 18432
  }

  /**
   * However a client splits a ClientHello of at most 64 KiB over at most eight records, the server
   * reassembles exactly that message, consumes exactly those records, and so parses the hello.
   */
  lemma FragmentedHelloIsParsed(h: ClientHello, version: bytes, fragments: seq<bytes>, rest: bytes)
    requires WellFormed(h) && |Encode(h)| <= 65536 && |version| == 2
    requires Concat(fragments) == Encode(h) && FragmentsOf(fragments, 8)
    ensures var r := Reassemble(Fragmented(version, fragments) + rest, []);
            && r.Ok? && Consumed(r.value) == Fragmented(version, fragments) && Bodies(r.value.records) == Encode(h)
            && Parse(Bodies(r.value.records)) ==
               Ok(Some(Info(h.sessionId, 39, h.random, ShareOf(h.extensions), NameOf(h.extensions))))
  {
    hide Encode, Parse, EncodeExtensions, Fragmented, Reassemble, Concat, ShareOf, NameOf, U24;
    Layout(h);
    assert fragments != [] by {
      NoFragments(version);
    }
    assert Bodies([]) + Concat(fragments) == Encode(h);
    ReassembleFragments(Encode(h), version, fragments, rest, []);
    assert OnWire([]) + Fragmented(version, fragments) == Fragmented(version, fragments);
    ParseEncode(h);
  }

  lemma {:induction false} ReassembleFragments(
    m: bytes, version: bytes, fragments: seq<bytes>, rest: bytes, taken: seq<Record>)
    requires 4 <= |m| <= MAX_CLIENT_HELLO && m[0] == 1 && 4 + U24(m[1], m[2], m[3]) == |m|
    requires |taken| <= MAX_RECORDS && |version| == 2
    requires fragments != [] && FragmentsOf(fragments, MAX_RECORDS - |taken|) && Bodies(taken) + Concat(fragments) == m
    ensures var r := Reassemble(Fragmented(version, fragments) + rest, taken);
            && r.Ok? && Bodies(r.value.records) == m
            && Consumed(r.value) == OnWire(taken) + Fragmented(version, fragments)
    decreases |fragments|
  {
    hide U16, U24, Bodies, OnWire, Reassemble, Settled, WireRecord, Concat, Fragmented;
    var f, later := fragments[0], fragments[1..];
    var s, tail := Fragmented(version, fragments) + rest, Fragmented(version, later) + rest;
    UnfoldFragments(version, fragments);
    assert s == WireRecord(version, f) + tail;
    assert f in fragments;
    FirstRecord(version, f, tail);
    var record := Record(s[..5], f);
    var more := taken + [record];
    AppendRecord(taken, record);
    assert Bodies(more) + Concat(later) == m;
    assert OnWire(more) + Fragmented(version, later) == OnWire(taken) + Fragmented(version, fragments);
    PrefixSettles(m, Bodies(more));
    ReassembleOne(s, taken, f);
    if later == [] {
      NoFragments(version);
      assert Bodies(more) == m && OnWire(more) + [] == OnWire(more);
    } else {
      assert |Concat(later)| > 0 by {
        assert later[0] in fragments;
        UnfoldFragments(version, later);
      }
      ReassembleFragments(m, version, later, rest, more);
    }
  }

  lemma UnfoldFragments(version: bytes, fragments: seq<bytes>)
    requires fragments != []
    ensures Fragmented(version, fragments) == WireRecord(version, fragments[0]) + Fragmented(version, fragments[1..])
    ensures Concat(fragments) == fragments[0] + Concat(fragments[1..])
  {
  }

  lemma NoFragments(version: bytes)
    ensures Fragmented(version, []) == [] && Concat([]) == []
  {
  }

  /** A proper prefix of a ClientHello never settles the matter; the whole message does. */
  lemma PrefixSettles(m: bytes, p: bytes)
    requires 4 <= |m| && m[0] == 1 && 4 + U24(m[1], m[2], m[3]) == |m| && p <= m
    ensures Settled(p) <==> p == m
  {
  }

  lemma FirstRecord(version: bytes, f: bytes, tail: bytes)
    requires |version| == 2 && |f| < 0x1_0000
    ensures var s := WireRecord(version, f) + tail;
            && 5 + |f| <= |s| && s[0] == 0x16 && U16(s[3], s[4]) == |f|
            && s[5..5 + |f|] == f && s[5 + |f|..] == tail && s[..5] + f == WireRecord(version, f)
  {
    hide U16, U16Bytes;
    var s := WireRecord(version, f) + tail;
    assert s[3] == U16Bytes(|f|)[0] && s[4] == U16Bytes(|f|)[1];
  }

  /** A handshake record (type 0x16), byte by byte. */
  lemma RecordBytes(version: bytes, body: bytes)
    ensures WireRecord(version, body) == [22] + version + U16Bytes(|body|) + body
  {
    hide U16Bytes;
  }

  /** Four bytes of a message that is no ClientHello (type 1) are enough to stop reading. */
  lemma OtherMessagesStopReading(version: bytes, body: bytes, rest: bytes)
    requires |version| == 2 && 4 <= |body| <= 18432 && body[0] != 1
    ensures Reassemble(WireRecord(version, body) + rest, []) ==
            Ok(Reading([Record(WireRecord(version, body)[..5], body)], []))
  {
    hide U16, U24, Reassemble, WireRecord;
    var s := WireRecord(version, body) + rest;
    NoRecords();
    FirstRecord(version, body, rest);
    AppendRecord([], Record(s[..5], body));
    assert [] + [Record(s[..5], body)] == [Record(s[..5], body)];
    ReassembleOne(s, [], body);
    assert s[..5] == WireRecord(version, body)[..5] by {
      RecordLength(version, body);
    }
    assert Bodies([Record(s[..5], body)]) == body;
  }

  lemma RecordLength(version: bytes, body: bytes)
    ensures |WireRecord(version, body)| == 3 + |version| + |body|
  {
  }

  // ---- The reading loop ----

  /** Grows the buffer until it holds `n` bytes beyond `start`; `None` when the connection ends first. */
  method FillTo(stream: Source, buffer: bytes, start: nat, n: nat, chunkSize: nat) returns (r: Option<bytes>)
    requires start == |buffer| && chunkSize > 0
    modifies stream
    ensures r.Some? <==> n <= |old(stream.data)|
    ensures r.Some? ==> r.value == buffer + old(stream.data)[..n] && stream.data == old(stream.data)[n..]
  {
    var b := buffer;
    while |b| - start < n
      invariant start <= |b| <= start + n
      invariant b + stream.data == buffer + old(stream.data)
    {
      var needed := n - (|b| - start);
      var _, chunk := stream.Read(if needed < chunkSize then needed else chunkSize);
      if chunk == [] {
        assert b == buffer + old(stream.data);
        return None;
      }
      b := b + chunk;
    }
    assert (b + stream.data)[start..] == old(stream.data);
    assert b[start..] + stream.data == old(stream.data);
    r := Some(b);
  }

  /** What reading one record off `s` comes to, with room for `room` body bytes: its body, or None for another type. */
  function FirstRecordOf(s: bytes, room: nat): Result<Option<bytes>, ReadError> {
    if |s| < 5 then Err(ClosedEarly)
    else
      var len := U16(s[3], s[4]);
      if s[0] != 0x16 then Ok(None)
      else if len == 0 || len > MAX_TLS_RECORD then Err(InvalidRecordLength)
      else if len > room then Err(ClientHelloTooLarge)
      else if |s| < 5 + len then Err(ClosedEarly)
      else Ok(Some(s[5..5 + len]))
  }

  /** One turn of the record loop, up to the record's last byte. */
  method ReadRecord(stream: Source, buffer: bytes, room: nat) returns (r: Result<(bytes, Option<bytes>), ReadError>)
    modifies stream
    ensures var s := old(stream.data);
            match FirstRecordOf(s, room)
            case Err(e) => r == Err(e)
            case Ok(None) => r == Ok((buffer + s[..5], None)) && stream.data == s[5..]
            case Ok(Some(body)) =>
              && r == Ok((buffer + s[..5] + body, Some(body))) && s == s[..5] + body + stream.data
              && stream.data == s[5 + |body|..]
  {
    hide U16;
    ghost var s := stream.data;
    var withHeader := FillTo(stream, buffer, |buffer|, 5, 5);
    if withHeader.None? {
      return Err(ClosedEarly);
    }
    var b := withHeader.value;
    var headerStart := |buffer|;
    assert b[headerStart] == s[0] && b[headerStart + 3] == s[3] && b[headerStart + 4] == s[4];
    var recordLen := U16(b[headerStart + 3], b[headerStart + 4]);
    if b[headerStart] != 0x16 {
      return Ok((b, None));
    }
    if recordLen == 0 || recordLen > MAX_TLS_RECORD {
      return Err(InvalidRecordLength);
    }
    if recordLen > room {
      return Err(ClientHelloTooLarge);
    }
    var payloadStart := |b|;
    var withBody := FillTo(stream, b, |b|, recordLen, 4096);
    if withBody.None? {
      return Err(ClosedEarly);
    }
    SliceOfTail(s, 5, 0, recordLen);
    assert withBody.value[payloadStart..] == s[5..5 + recordLen];
    r := Ok((withBody.value, Some(withBody.value[payloadStart..])));
  }

  lemma ReassembleByRecord(s: bytes, taken: seq<Record>)
    requires |taken| < MAX_RECORDS && |Bodies(taken)| < MAX_CLIENT_HELLO
    ensures match FirstRecordOf(s, MAX_CLIENT_HELLO - |Bodies(taken)|)
            case Err(e) => Reassemble(s, taken) == Err(e)
            case Ok(None) => 5 <= |s| && Reassemble(s, taken) == Ok(Reading(taken, s[..5]))
            case Ok(Some(body)) =>
              5 + |body| <= |s| && var more := taken + [Record(s[..5], body)];
              Reassemble(s, taken) ==
              if Settled(Bodies(more)) then Ok(Reading(more, [])) else Reassemble(s[5 + |body|..], more)
  {
    hide U16, U24, Bodies, Settled;
  }

  /** The record loop of `accept`: what it has buffered, and the handshake bytes in it. */
  method ReadHandshake(stream: Source) returns (r: Result<(bytes, bytes), ReadError>)
    modifies stream
    ensures var spec := Reassemble(old(stream.data), []);
            match r
            case Err(e) => spec == Err(e)
            case Ok((buffer, payload)) =>
              && spec.Ok? && buffer == Consumed(spec.value) && payload == Bodies(spec.value.records)
              && buffer + stream.data == old(stream.data)
  {
    hide U16, U24, Settled, Bodies, OnWire, Reassemble, FirstRecordOf;
    var buffer: bytes, payload: bytes := [], [];
    var recordCount := 0;
    ghost var taken: seq<Record> := [];
    NoRecords();
    while recordCount < MAX_RECORDS && |payload| < MAX_CLIENT_HELLO
      invariant recordCount == |taken| <= MAX_RECORDS
      invariant payload == Bodies(taken) && buffer == OnWire(taken)
      invariant buffer + stream.data == old(stream.data)
      invariant Reassemble(old(stream.data), []) == Reassemble(stream.data, taken)
      decreases MAX_RECORDS - recordCount
    {
      ghost var s := stream.data;
      ReassembleByRecord(s, taken);
      var read := ReadRecord(stream, buffer, MAX_CLIENT_HELLO - |payload|);
      if read.Err? {
        return Err(read.error);
      }
      var (grown, body) := read.value;
      if body.None? {
        assert s == s[..5] + stream.data;
        return Ok((grown, payload));
      }
      ghost var record := Record(s[..5], body.value);
      AppendRecord(taken, record);
      RegroupRecord(buffer, s[..5], body.value, stream.data);
      taken := taken + [record];
      buffer, payload := grown, payload + body.value;
      recordCount := recordCount + 1;
      if Settled(payload) {
        assert buffer + [] == buffer;
        return Ok((buffer, payload));
      }
    }
    assert buffer + [] == buffer;
    ReassembleEnds(stream.data, taken);
    r := Ok((buffer, payload));
  }

  lemma RegroupRecord(buffer: bytes, header: bytes, body: bytes, rest: bytes)
    ensures buffer + header + body == buffer + (header + body)
    ensures buffer + header + body + rest == buffer + (header + body + rest)
  {
  }

  lemma NoRecords()
    ensures Bodies([]) == [] && OnWire([]) == []
  {
  }

  // ---- Replay ----

  /** A connection whose consumed beginning is read again before the rest. */
  class PrefixedStream {
    const prefix: bytes
    var position: nat
    const inner: Source

    ghost predicate Valid()
      reads this
    {
      position <= |prefix|
    }

    ghost function Unread(): bytes
      requires Valid()
      reads this, inner
    {
      prefix[position..] + inner.data
    }

    constructor (prefix: bytes, inner: Source)
      ensures Valid() && Unread() == prefix + inner.data && this.inner == inner
    {
      this.prefix, this.inner, position := prefix, inner, 0;
    }

    method PollRead(room: nat) returns (ok: bool, data: bytes)
      requires Valid()
      modifies this`position, inner
      ensures Valid() && data + Unread() == old(Unread()) && |data| <= room
      ensures data == [] && room > 0 ==> Unread() == []
      ensures old(Unread()) != [] ==> ok
    {
      if position < |prefix| {
        var remaining := |prefix| - position;
        var n := if room < remaining then room else remaining;
        ok, data := true, prefix[position..position + n];
        position := position + n;
        return;
      }
      ok, data := inner.Read(room);
    }

    /** Reads with arbitrary non-empty buffers until the end. */
    method ReadToEnd() returns (data: bytes)
      requires Valid()
      modifies this`position, inner
      ensures Valid() && data == old(Unread())
    {
      data := [];
      while true
        invariant Valid() && data + Unread() == old(Unread())
        decreases |Unread()|
      {
        var room: nat :| room > 0;
        var _, more := PollRead(room);
        data := data + more;
        if more == [] {
          return;
        }
      }
    }
  }

  // ---- Accepting a connection ----

  datatype Accepted =
    | Rejected(error: ReadError)
    | Tls(info: Info)
    | NoCertificate(info: Info)
    | FellBack
    | FallbackFailed

  /** The first messages are a hello that names an allowed server and passes the cryptographic test. */
  ghost predicate Verified(payload: bytes, info: Info, lower: bytes -> bytes, serverNames: seq<bytes>,
                           verify: (Info, bytes) -> bool)
  {
    Parse(payload) == Ok(Some(info)) && NameAllowed(lower, serverNames, info.serverName) && verify(info, payload)
  }

  /** An empty list of names allows every client, also one that names no server. */
  ghost predicate NameAllowed(lower: bytes -> bytes, serverNames: seq<bytes>, name: Option<bytes>) {
    serverNames == [] || (name.Some? && exists s :: s in serverNames && lower(s) == lower(name.value))
  }

  /** Names compare lower-cased; a client without a name passes only if no names are configured. */
  lemma NameAllowedIs(lower: bytes -> bytes, serverNames: seq<bytes>, name: bytes)
    ensures NameAllowed(lower, serverNames, None) <==> serverNames == []
    ensures NameAllowed(lower, serverNames, Some(name)) <==>
            serverNames == [] || exists i :: 0 <= i < |serverNames| && lower(serverNames[i]) == lower(name)
  {
  }

  /** `fallback`: the bytes already consumed, then everything else the client sends. */
  method Fallback(stream: Source, prefix: bytes, dest: Sink) returns (ok: bool)
    modifies stream, dest
    ensures ok ==> dest.written == old(dest.written) + prefix + old(stream.data)
    ensures old(dest.written) <= dest.written <= old(dest.written) + prefix + old(stream.data)
    ensures !ok ==> dest.broken || (!stream.clean && stream.data == [])
  {
    ok := dest.WriteAll(prefix);
    while ok
      invariant ok ==> dest.written + stream.data == old(dest.written) + prefix + old(stream.data)
      invariant old(dest.written) <= dest.written <= old(dest.written) + prefix + old(stream.data)
      invariant !ok ==> dest.broken
      decreases |stream.data|, ok
    {
      var room: nat :| room > 0;
      var alive, chunk := stream.Read(room);
      if chunk == [] {
        return alive;
      }
      ok := dest.WriteAll(chunk);
    }
  }

  /**
   * `accept`, with lower-casing, the cryptographic test of the hello and the making of a certificate as
   * parameters. A client that passes both is read from the first byte on by the TLS layer; one that passes
   * only the test gets neither TLS nor the fallback; any other client's bytes all reach the fallback
   * destination, unless that fails.
   */
  method Accept(stream: Source, dest: Sink, serverNames: seq<bytes>, lower: bytes -> bytes,
                verify: (Info, bytes) -> bool, certify: Info -> bool)
    returns (r: Accepted, prefixed: PrefixedStream?)
    modifies stream, dest
    ensures var spec := Reassemble(old(stream.data), []);
            match r
            case Rejected(e) => spec == Err(e) && dest.written == old(dest.written)
            case Tls(info) =>
              && dest.written == old(dest.written)
              && spec.Ok? && Verified(Bodies(spec.value.records), info, lower, serverNames, verify) && certify(info)
              && prefixed != null && fresh(prefixed) && prefixed.Valid() && prefixed.Unread() == old(stream.data)
            case NoCertificate(info) =>
              && dest.written == old(dest.written)
              && spec.Ok? && Verified(Bodies(spec.value.records), info, lower, serverNames, verify) && !certify(info)
            case FellBack =>
              && dest.written == old(dest.written) + old(stream.data)
              && spec.Ok? && forall info :: !Verified(Bodies(spec.value.records), info, lower, serverNames, verify)
            case FallbackFailed =>
              && (dest.broken || (!stream.clean && stream.data == []))
              && old(dest.written) <= dest.written <= old(dest.written) + old(stream.data)
              && spec.Ok? && forall info :: !Verified(Bodies(spec.value.records), info, lower, serverNames, verify)
  {
    hide Reassemble, Parse, Bodies;
    prefixed := null;
    var read := ReadHandshake(stream);
    if read.Err? {
      return Rejected(read.error), null;
    }
    var (buffer, payload) := read.value;
    var parsed := ParseClientHello(payload);
    if parsed.Ok? && parsed.value.Some? {
      var info := parsed.value.value;
      var sniValid := serverNames == [];
      if serverNames != [] && info.serverName.Some? {
        sniValid := exists i :: 0 <= i < |serverNames| && lower(serverNames[i]) == lower(info.serverName.value);
      }
      assert sniValid <==> NameAllowed(lower, serverNames, info.serverName);
      if sniValid && verify(info, payload) {
        if !certify(info) {
          return NoCertificate(info), null;
        }
        prefixed := new PrefixedStream(buffer, stream);
        return Tls(info), prefixed;
      }
    }
    var ok := Fallback(stream, buffer, dest);
    assert ok ==> dest.written == old(dest.written) + (buffer + old(stream.data)[|buffer|..]);
    r := if ok then FellBack else FallbackFailed;
  }
}
