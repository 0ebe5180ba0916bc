/**
 * UDP over a stream: SOCKS5 datagrams are framed by the client with an association id, unframed by the
 * server, and replies travel back the same way.
 */
module UdpTunnel {
  import opened Bytes
  import opened Options
  import opened Sockets
  import opened Hosts

  datatype Packet = Packet(assoc: u16, target: Target, payload: bytes)

  /** A target and where it ends. */
  datatype Addressed = Addressed(target: Target, offset: nat)

  function HostBytes(h: Host): bytes {
    match h
    case V4(o) => [1] + o
    case V6(o) => [4] + o
    case Domain(name) => [3, |name| % 256] + name
  }

  /** Address type, address, port: the form SOCKS5 (section 7 of RFC 1928) and the tunnel share. */
  function Address(t: Target): bytes {
    HostBytes(t.host) + U16Bytes(t.port)
  }

  /** The length of an address header by its first bytes; `None` for an unknown or unfinished one. */
  function HeaderEnd(b: bytes): Option<nat> {
    if b == [] then None
    else if b[0] == 1 then Some(7)
    else if b[0] == 4 then Some(19)
    else if b[0] == 3 && 2 <= |b| then var len: nat := b[1]; Some(4 + len)
    else None
  }

  function ParseAddress(b: bytes): (r: Option<Addressed>)
    ensures r.Some? ==> 7 <= r.value.offset <= |b| || (r.value.target.host.Domain? && 4 <= r.value.offset <= |b|)
  {
    var end := HeaderEnd(b);
    if end.None? || |b| < end.value then None
    else
      var n := end.value;
      var port := U16(b[n - 2], b[n - 1]);
      if b[0] == 1 then Some(Addressed(Target(V4(b[1..5]), port), n))
      else if b[0] == 4 then Some(Addressed(Target(V6(b[1..17]), port), n))
      else if Utf8(b[2..n - 2]) then Some(Addressed(Target(Domain(b[2..n - 2]), port), n))
      else None
  }

  lemma Fields(head: bytes, name: bytes, port: bytes, rest: bytes)
    requires head != [] && |port| == 2
    ensures var b, n := head + name + port + rest, |head| + |name|;
            && b[..|head|] == head && b[|head|..n] == name && b[n] == port[0] && b[n + 1] == port[1] && b[0] == head[0]
            && |b| >= n + 2
  {
  }

  lemma ParseAddressBack(t: Target, rest: bytes)
    requires ValidHost(t.host)
    ensures ParseAddress(Address(t) + rest) == Some(Addressed(t, |Address(t)|))
    ensures HeaderEnd(Address(t) + rest) == Some(|Address(t)|)
  {
    hide U16, U16Bytes, Utf8, ParseAddress, HeaderEnd;
    match t.host {
      case V4(o) => LiteralBack(1, t, o, rest);
      case V6(o) => LiteralBack(4, t, o, rest);
      case Domain(name) => DomainBack(t, name, rest);
    }
  }

  lemma LiteralBack(kind: byte, t: Target, octets: bytes, rest: bytes)
    requires (t.host == V4(octets) && kind == 1) || (t.host == V6(octets) && kind == 4)
    requires ValidHost(t.host)
    ensures ParseAddress(Address(t) + rest) == Some(Addressed(t, |Address(t)|))
    ensures HeaderEnd(Address(t) + rest) == Some(|Address(t)|)
  {
    hide U16, U16Bytes, Utf8;
    Fields([kind], octets, U16Bytes(t.port), rest);
  }

  lemma DomainBack(t: Target, name: bytes, rest: bytes)
    requires t.host == Domain(name) && ValidHost(t.host)
    ensures ParseAddress(Address(t) + rest) == Some(Addressed(t, |Address(t)|))
    ensures HeaderEnd(Address(t) + rest) == Some(|Address(t)|)
  {
    hide U16, U16Bytes, Utf8;
    var b := Address(t) + rest;
    Fields([3, |name| % 256], name, U16Bytes(t.port), rest);
    assert b[1] == b[..2][1] == |name| % 256;
  }

  /** Parsing loses nothing: header and rest give the parsed bytes back. */
  lemma AddressOfParsed(b: bytes)
    requires ParseAddress(b).Some?
    ensures var a := ParseAddress(b).value; ValidHost(a.target.host) && Address(a.target) == b[..a.offset]
  {
    hide U16, U16Bytes, Utf8;
    var a := ParseAddress(b).value;
    var n := a.offset;
    PortBack(b[n - 2], b[n - 1]);
    match a.target.host {
      case V4(o) => assert b[..n] == [1] + o + [b[n - 2], b[n - 1]];
      case V6(o) => assert b[..n] == [4] + o + [b[n - 2], b[n - 1]];
      case Domain(name) => assert b[..n] == [3, |name| % 256] + name + [b[n - 2], b[n - 1]];
    }
  }

  lemma PortBack(hi: byte, lo: byte)
    ensures U16Bytes(U16(hi, lo)) == [hi, lo]
  {
    hide U16Bytes;
    var b := U16Bytes(U16(hi, lo));
    SmallMod(U16(hi, lo), 0x1_0000);
    assert b[0] == hi && b[1] == lo;
  }

  /** An address, byte by byte, as section 5 of RFC 1928 numbers the types: 1, 3 and 4. */
  lemma AddressBytes(t: Target)
    requires ValidHost(t.host)
    ensures Address(t) ==
            (match t.host
             case V4(octets) => [1] + octets
             case Domain(name) => [3, |name|] + name
             case V6(octets) => [4] + octets) + [t.port / 256, t.port % 256]
  {
    hide U16Bytes, Utf8;
    TwoBytes(t.port);
    assert t.port / 256 % 256 == t.port / 256;
  }

  /** An address is read exactly where one is written. */
  lemma ParsesIff(b: bytes, t: Target, n: nat)
    ensures ParseAddress(b) == Some(Addressed(t, n)) <==> ValidHost(t.host) && n <= |b| && b[..n] == Address(t)
  {
    hide ParseAddress, Address, Utf8;
    if ParseAddress(b) == Some(Addressed(t, n)) {
      AddressOfParsed(b);
    }
    if ValidHost(t.host) && n <= |b| && b[..n] == Address(t) {
      ParseAddressBack(t, b[n..]);
      assert Address(t) + b[n..] == b;
    }
  }

  // ---- SOCKS5 datagrams ----

  /** What the SOCKS5 inbound accepts: at least four bytes, no fragment, a known address. */
  function ParseDatagram(d: bytes): Option<(Target, bytes)> {
    if |d| < 4 || d[2] != 0 then None
    else
      match ParseAddress(d[3..])
      case None => None
      case Some(a) => Some((a.target, d[3 + a.offset..]))
  }

  /**
   * A datagram is accepted exactly if its third byte says that it is no fragment and a whole address and the
   * payload follow; the first two bytes do not matter.
   */
  lemma AcceptedIff(d: bytes, t: Target, payload: bytes)
    ensures ParseDatagram(d) == Some((t, payload)) <==>
            4 <= |d| && d[2] == 0 && ValidHost(t.host) && d[3..] == Address(t) + payload
  {
    hide ParseAddress, Address, Utf8;
    if 4 <= |d| {
      var b, n := d[3..], |Address(t)|;
      ParsesIff(b, t, n);
      if b == Address(t) + payload {
        assert b[..n] == Address(t) && d[3 + n..] == payload;
      }
      if ParseDatagram(d) == Some((t, payload)) {
        var a := ParseAddress(b).value;
        ParsesIff(b, t, a.offset);
        assert b == b[..a.offset] + b[a.offset..] && b[a.offset..] == d[3 + a.offset..];
      }
    }
  }

  /** `wrap_socks5_udp_host` */
  function Wrap(t: Target, payload: bytes): bytes {
    [0, 0, 0] + Address(t) + payload
  }

  datatype SocksError = TooShort | UnsupportedAddressType

  /** `parse_socks5_udp`: address literals only. */
  function ParseSocks5Udp(b: bytes): Result<Addressed, SocksError> {
    if |b| < 4 then Err(TooShort)
    else if b[3] == 1 then
      if |b| < 10 then Err(TooShort) else Ok(Addressed(Target(V4(b[4..8]), U16(b[8], b[9])), 10))
    else if b[3] == 4 then
      if |b| < 22 then Err(TooShort) else Ok(Addressed(Target(V6(b[4..20]), U16(b[20], b[21])), 22))
    else Err(UnsupportedAddressType)
  }

  /** What the upstream parser refuses, and with which error. */
  lemma Socks5UdpErrors(b: bytes)
    ensures ParseSocks5Udp(b) == Err(TooShort) <==>
            |b| < 4 || (b[3] == 1 && |b| < 10) || (b[3] == 4 && |b| < 22)
    ensures ParseSocks5Udp(b) == Err(UnsupportedAddressType) <==> |b| >= 4 && b[3] != 1 && b[3] != 4
  {
  }

  /** A wrapped datagram parses back to its target and payload exactly when the host is encodable. */
  lemma WrapRoundTrips(t: Target, payload: bytes)
    requires !t.host.Domain? ==> ValidHost(t.host)
    ensures ParseDatagram(Wrap(t, payload)) == Some((t, payload)) <==> ValidHost(t.host)
    ensures ValidHost(t.host) && !t.host.Domain? ==>
              ParseSocks5Udp(Wrap(t, payload)) == Ok(Addressed(t, 3 + |Address(t)|))
              && Wrap(t, payload)[3 + |Address(t)|..] == payload
  {
    hide U16, U16Bytes, Utf8, ParseAddress, Address;
    var d := Wrap(t, payload);
    assert d[3..] == Address(t) + payload;
    if ValidHost(t.host) {
      ParseAddressBack(t, payload);
      assert d[3 + |Address(t)|..] == payload;
      if !t.host.Domain? {
        LiteralAgrees(d);
      }
    } else if ParseDatagram(d) == Some((t, payload)) {
      AddressOfParsed(d[3..]);
    }
  }

  /** On literals, the outbound's parser and the inbound's agree. */
  lemma LiteralAgrees(d: bytes)
    requires 4 <= |d| && ParseAddress(d[3..]).Some? && !ParseAddress(d[3..]).value.target.host.Domain?
    ensures var a := ParseAddress(d[3..]).value; ParseSocks5Udp(d) == Ok(Addressed(a.target, 3 + a.offset))
  {
    hide U16, Utf8;
    var b := d[3..];
    assert b == d[3..|d|];
    SliceOfSlice(d, 3, |d|, 1, 5);
    if |d| >= 22 {
      SliceOfSlice(d, 3, |d|, 1, 17);
    }
  }

  // ---- Frames ----

  /** A frame around a body: a length that counts id and body, the association id, the body. */
  function RawFrame(assoc: u16, body: bytes): bytes {
    U16Bytes(2 + |body|) + U16Bytes(assoc) + body
  }

  /** A frame, byte by byte. */
  lemma FrameBytes(assoc: u16, body: bytes)
    requires |body| <= 65533
    ensures RawFrame(assoc, body) ==
            [(|body| + 2) / 256, (|body| + 2) % 256, assoc / 256, assoc % 256] + body
  {
    hide U16Bytes;
    var n := |body| + 2;
    TwoBytes(n);
    TwoBytes(assoc);
    assert n / 256 % 256 == n / 256 && assoc / 256 % 256 == assoc / 256;
  }

  function PacketBody(p: Packet): bytes {
    Address(p.target) + p.payload
  }

  function EncodePackets(ps: seq<Packet>): bytes {
    if ps == [] then [] else RawFrame(ps[0].assoc, PacketBody(ps[0])) + EncodePackets(ps[1..])
  }

  predicate FrameFits(body: bytes) {
    2 + |body| < 0x1_0000
  }

  /** What the server makes of one frame's body. */
  function Deliver(assoc: u16, body: bytes, ipv4Only: bool): seq<Packet> {
    match ParseAddress(body)
    case None => []
    case Some(a) => if ipv4Only && a.target.host.V6? then [] else [Packet(assoc, a.target, body[a.offset..])]
  }

  /** The packets the server reads off the tunnel, before it resolves names. */
  function Serve(s: bytes, ipv4Only: bool): seq<Packet>
    decreases |s|
  {
    if |s| < 4 || U16(s[0], s[1]) < 2 || |s| < 2 + U16(s[0], s[1]) then []
    else
      var end := 2 + U16(s[0], s[1]);
      Deliver(U16(s[2], s[3]), s[4..end], ipv4Only) + Serve(s[end..], ipv4Only)
  }

  lemma FirstFrame(assoc: u16, body: bytes, rest: bytes)
    requires FrameFits(body)
    ensures var s := RawFrame(assoc, body) + rest;
            && 4 <= |s| && U16(s[0], s[1]) == 2 + |body| && U16(s[2], s[3]) == assoc
            && 4 + |body| <= |s| && s[4..4 + |body|] == body && s[4 + |body|..] == rest
  {
    hide U16, U16Bytes;
    var s := RawFrame(assoc, body) + rest;
    var len := U16Bytes(2 + |body|);
    assert s[0] == len[0] && s[1] == len[1] && s[2] == U16Bytes(assoc)[0] && s[3] == U16Bytes(assoc)[1];
  }

  /**
   * The boundary of a frame is never lost: whatever its body, it contributes its own packet or nothing,
   * and the rest of the stream is read as if the frame had not been there.
   */
  lemma ServeSkipsWholeFrames(assoc: u16, body: bytes, rest: bytes, ipv4Only: bool)
    requires FrameFits(body)
    ensures Serve(RawFrame(assoc, body) + rest, ipv4Only) == Deliver(assoc, body, ipv4Only) + Serve(rest, ipv4Only)
  {
    hide U16, RawFrame, Deliver;
    FirstFrame(assoc, body, rest);
  }

  /** A frame length below two, or an end inside a frame, ends the reading on both sides. */
  lemma BadFrameEndsReading(s: bytes, ipv4Only: bool, assocs: set<u16>)
    requires |s| < 4 || U16(s[0], s[1]) < 2 || |s| < 2 + U16(s[0], s[1])
    ensures Serve(s, ipv4Only) == [] && Relayed(s, assocs) == []
  {
    hide U16;
  }

  function Kept(ps: seq<Packet>, ipv4Only: bool): seq<Packet> {
    if ps == [] then []
    else (if ipv4Only && ps[0].target.host.V6? then [] else [ps[0]]) + Kept(ps[1..], ipv4Only)
  }

  lemma DeliverBack(p: Packet, ipv4Only: bool)
    requires ValidHost(p.target.host)
    ensures Deliver(p.assoc, PacketBody(p), ipv4Only) == if ipv4Only && p.target.host.V6? then [] else [p]
  {
    hide ParseAddress, Address;
    ParseAddressBack(p.target, p.payload);
    assert PacketBody(p)[|Address(p.target)|..] == p.payload;
  }

  /** The server recovers exactly the packets the client framed, less IPv6 targets in IPv4-only mode. */
  lemma {:induction false} ServeRecoversPackets(ps: seq<Packet>, rest: bytes, ipv4Only: bool)
    requires forall p :: p in ps ==> ValidHost(p.target.host) && FrameFits(PacketBody(p))
    ensures Serve(EncodePackets(ps) + rest, ipv4Only) == Kept(ps, ipv4Only) + Serve(rest, ipv4Only)
  {
    hide RawFrame, Serve, Deliver, PacketBody;
    if ps == [] {
      assert EncodePackets(ps) + rest == rest;
    } else {
      var p, later := ps[0], EncodePackets(ps[1..]) + rest;
      assert EncodePackets(ps) + rest == RawFrame(p.assoc, PacketBody(p)) + later;
      ServeSkipsWholeFrames(p.assoc, PacketBody(p), later, ipv4Only);
      DeliverBack(p, ipv4Only);
      ServeRecoversPackets(ps[1..], rest, ipv4Only);
    }
  }

  /** Whatever arrives, a packet the server reads is one that fits a frame. */
  lemma {:induction false} ServedPacketsFit(s: bytes, ipv4Only: bool)
    ensures forall p :: p in Serve(s, ipv4Only) ==> ValidHost(p.target.host) && FrameFits(PacketBody(p))
    decreases |s|
  {
    hide U16, ParseAddress, Address;
    if 4 <= |s| && 2 <= U16(s[0], s[1]) && 2 + U16(s[0], s[1]) <= |s| {
      var end := 2 + U16(s[0], s[1]);
      var body := s[4..end];
      if ParseAddress(body).Some? {
        AddressOfParsed(body);
        var a := ParseAddress(body).value;
        assert body[..a.offset] + body[a.offset..] == body;
      }
      ServedPacketsFit(s[end..], ipv4Only);
    }
  }

  /** Packets survive the tunnel exactly when each has an encodable host and fits the 16-bit frame length. */
  lemma TunnelIsExact(ps: seq<Packet>)
    requires forall p :: p in ps && !p.target.host.Domain? ==> ValidHost(p.target.host)
    ensures Serve(EncodePackets(ps), false) == ps <==>
            forall p :: p in ps ==> ValidHost(p.target.host) && FrameFits(PacketBody(p))
  {
    hide Serve, EncodePackets, ValidHost, PacketBody;
    ServedPacketsFit(EncodePackets(ps), false);
    if forall p :: p in ps ==> ValidHost(p.target.host) && FrameFits(PacketBody(p)) {
      ServeRecoversPackets(ps, [], false);
      assert EncodePackets(ps) + [] == EncodePackets(ps);
      KeptAll(ps);
      NothingServed();
    }
  }

  lemma NothingServed()
    ensures Serve([], false) == []
  {
  }

  /** The packets of the datagrams the SOCKS5 inbound accepts. */
  function Accepted(ds: seq<(u16, bytes)>): seq<Packet> {
    if ds == [] then []
    else
      (match ParseDatagram(ds[0].1)
       case None => []
       case Some((t, payload)) => [Packet(ds[0].0, t, payload)]) + Accepted(ds[1..])
  }

  /** An accepted datagram's frame body is the datagram without its first three bytes. */
  lemma DatagramIsItsBody(d: bytes)
    requires ParseDatagram(d).Some?
    ensures var (t, payload) := ParseDatagram(d).value;
            4 <= |d| && ValidHost(t.host) && Address(t) + payload == d[3..] && Wrap(t, payload) == [0, 0, 0] + d[3..]
  {
    hide ParseAddress, Address;
    AddressOfParsed(d[3..]);
  }

  /**
   * From the client's UDP socket to the server: every datagram a socket can receive fits a frame, so the
   * server recovers exactly the accepted ones, in order, and the frame it forwards to an upstream SOCKS5
   * proxy is the datagram the client sent.
   */
  lemma {:induction false} DatagramsReachTheServer(ds: seq<(u16, bytes)>)
    requires forall d :: d in ds ==> |d.1| <= 65535
    ensures Serve(EncodePackets(Accepted(ds)), false) == Accepted(ds)
  {
    forall p | p in Accepted(ds) ensures ValidHost(p.target.host) && FrameFits(PacketBody(p)) {
      AcceptedFits(ds, p);
    }
    ServeRecoversPackets(Accepted(ds), [], false);
    assert EncodePackets(Accepted(ds)) + [] == EncodePackets(Accepted(ds));
    KeptAll(Accepted(ds));
  }

  lemma {:induction false} AcceptedFits(ds: seq<(u16, bytes)>, p: Packet)
    requires (forall d :: d in ds ==> |d.1| <= 65535) && p in Accepted(ds)
    ensures ValidHost(p.target.host) && FrameFits(PacketBody(p))
  {
    hide ParseDatagram, Address;
    if p in Accepted(ds[1..]) {
      AcceptedFits(ds[1..], p);
    } else {
      assert ds[0] in ds;
      DatagramIsItsBody(ds[0].1);
    }
  }

  lemma KeptAll(ps: seq<Packet>)
    ensures Kept(ps, false) == ps
  {
  }

  // ---- Replies ----

  /** What the client relays of one frame: the whole body behind a fresh SOCKS5 header, if a header fits. */
  function Relay(assoc: u16, body: bytes, assocs: set<u16>): seq<(u16, bytes)> {
    var end := HeaderEnd(body);
    if end.Some? && end.value <= |body| && assoc in assocs then [(assoc, [0, 0, 0] + body)] else []
  }

  /**
   * A frame is relayed exactly if its association is known and its body starts with a complete header of
   * one of the three types; the name in it need not be UTF-8.
   */
  lemma RelayedIff(assoc: u16, body: bytes, assocs: set<u16>)
    ensures Relay(assoc, body, assocs) ==
            if assoc in assocs
               && ((|body| >= 7 && body[0] == 1)
                   || (|body| >= 19 && body[0] == 4)
                   || (|body| >= 2 && body[0] == 3 && |body| - 4 >= body[1]))
            then [(assoc, [0, 0, 0] + body)] else []
  {
  }

  function Relayed(s: bytes, assocs: set<u16>): seq<(u16, bytes)>
    decreases |s|
  {
    if |s| < 4 || U16(s[0], s[1]) < 2 || |s| < 2 + U16(s[0], s[1]) then []
    else
      var end := 2 + U16(s[0], s[1]);
      Relay(U16(s[2], s[3]), s[4..end], assocs) + Relayed(s[end..], assocs)
  }

  /** The boundary of a frame is kept on the way back too, whatever is in it. */
  lemma RelayedSkipsWholeFrames(assoc: u16, body: bytes, rest: bytes, assocs: set<u16>)
    requires |body| <= 65533
    ensures Relayed(RawFrame(assoc, body) + rest, assocs) == Relay(assoc, body, assocs) + Relayed(rest, assocs)
  {
    hide U16, RawFrame, Relay;
    FirstFrame(assoc, body, rest);
  }

  function Datagrams(ps: seq<Packet>): seq<(u16, bytes)> {
    if ps == [] then [] else [(ps[0].assoc, Wrap(ps[0].target, ps[0].payload))] + Datagrams(ps[1..])
  }

  lemma {:induction false} FittingRepliesAreRelayed(ps: seq<Packet>, assocs: set<u16>)
    requires forall p :: p in ps ==> ValidHost(p.target.host) && FrameFits(PacketBody(p)) && p.assoc in assocs
    ensures Relayed(EncodePackets(ps), assocs) == Datagrams(ps)
  {
    hide RawFrame, U16, ParseAddress, Address, HeaderEnd, Utf8;
    if ps != [] {
      var p, later := ps[0], EncodePackets(ps[1..]);
      FirstFrame(p.assoc, PacketBody(p), later);
      ParseAddressBack(p.target, p.payload);
      assert [0, 0, 0] + PacketBody(p) == Wrap(p.target, p.payload);
      FittingRepliesAreRelayed(ps[1..], assocs);
    }
  }

  /** Whatever arrives, a datagram the client relays comes from a body that fits a frame. */
  lemma {:induction false} RelayedFit(s: bytes, assocs: set<u16>)
    ensures forall r :: r in Relayed(s, assocs) ==> |r.1| <= 3 + 65533
    decreases |s|
  {
    hide U16, HeaderEnd;
    if 4 <= |s| && 2 <= U16(s[0], s[1]) && 2 + U16(s[0], s[1]) <= |s| {
      RelayedFit(s[2 + U16(s[0], s[1])..], assocs);
    }
  }

  lemma {:induction false} DatagramsOf(ps: seq<Packet>)
    ensures forall p :: p in ps ==> (p.assoc, Wrap(p.target, p.payload)) in Datagrams(ps)
  {
    hide Wrap;
    if ps != [] {
      DatagramsOf(ps[1..]);
      assert forall p :: p in ps ==> p == ps[0] || p in ps[1..];
    }
  }

  /**
   * Back to the client: the server's replies, from literal sources, become exactly one SOCKS5 datagram
   * each for their association if and only if every frame length fits 16 bits. That is, a payload of at
   * most 65526 bytes from an IPv4 source and 65514 from an IPv6 one.
   */
  lemma RepliesReachTheClient(ps: seq<Packet>, assocs: set<u16>)
    requires forall p :: p in ps ==> ValidHost(p.target.host) && !p.target.host.Domain? && p.assoc in assocs
    ensures Relayed(EncodePackets(ps), assocs) == Datagrams(ps) <==>
            forall p :: p in ps ==> |p.payload| <= if p.target.host.V6? then 65514 else 65526
  {
    hide Relayed, EncodePackets, Datagrams;
    assert forall p :: p in ps ==>
      |Wrap(p.target, p.payload)| == 3 + |PacketBody(p)| &&
      (FrameFits(PacketBody(p)) <==> |p.payload| <= if p.target.host.V6? then 65514 else 65526);
    if forall p :: p in ps ==> FrameFits(PacketBody(p)) {
      FittingRepliesAreRelayed(ps, assocs);
    }
    if Relayed(EncodePackets(ps), assocs) == Datagrams(ps) {
      RelayedFit(EncodePackets(ps), assocs);
      DatagramsOf(ps);
      forall p | p in ps ensures FrameFits(PacketBody(p)) {
        assert (p.assoc, Wrap(p.target, p.payload)) in Datagrams(ps);
      }
    }
  }

  /** Each such datagram parses, as section 7 of RFC 1928 has it, to the reply's source and payload. */
  lemma ReplyParses(p: Packet)
    requires ValidHost(p.target.host) && !p.target.host.Domain?
    ensures var d := Wrap(p.target, p.payload);
            && ParseDatagram(d) == Some((p.target, p.payload))
            && ParseSocks5Udp(d) == Ok(Addressed(p.target, |d| - |p.payload|)) && d[|d| - |p.payload|..] == p.payload
  {
    hide ParseDatagram, ParseSocks5Udp, Address;
    WrapRoundTrips(p.target, p.payload);
  }

  // ---- The loops ----

  /** The client's upstream task for one packet: length placeholder first, filled in before the payload. */
  method EncodeUpstream(packet: Packet) returns (sendBuf: bytes)
    ensures sendBuf == RawFrame(packet.assoc, PacketBody(packet))
  {
    hide U16Bytes;
    var placeholder, assoc := U16Bytes(0), U16Bytes(packet.assoc);
    sendBuf := placeholder + assoc;
    match packet.target.host {
      case V4(octets) => sendBuf := sendBuf + [1] + octets;
      case V6(octets) => sendBuf := sendBuf + [4] + octets;
      case Domain(name) => sendBuf := sendBuf + [3] + [|name| % 256] + name;
    }
    sendBuf := sendBuf + U16Bytes(packet.target.port);
    ghost var address := Address(packet.target);
    assert sendBuf == placeholder + assoc + address by {
      GroupAddress(placeholder + assoc, packet.target);
    }
    var totalLen := |sendBuf| - 2 + |packet.payload|;
    PlaceholderFilled(placeholder, assoc, address, U16Bytes(totalLen), packet.payload);
    sendBuf := U16Bytes(totalLen) + sendBuf[2..] + packet.payload;
  }

  lemma GroupAddress(front: bytes, t: Target)
    ensures front + Address(t) ==
            match t.host
            case V4(o) => front + [1] + o + U16Bytes(t.port)
            case V6(o) => front + [4] + o + U16Bytes(t.port)
            case Domain(name) => front + [3] + [|name| % 256] + name + U16Bytes(t.port)
  {
    hide U16Bytes;
  }

  lemma PlaceholderFilled(placeholder: bytes, assoc: bytes, address: bytes, length: bytes, payload: bytes)
    requires |placeholder| == 2
    ensures length + (placeholder + assoc + address)[2..] + payload == length + assoc + (address + payload)
  {
    assert (placeholder + assoc + address)[2..] == assoc + address;
  }

  /** `read_exact` into the first `n` cells of a reused buffer; later cells keep what they held. */
  method ReadInto(reader: Source, buf: array<byte>, n: nat) returns (ok: bool)
    requires n <= buf.Length
    modifies reader, buf
    ensures ok <==> n <= |old(reader.data)|
    ensures ok ==> buf[..n] == old(reader.data)[..n] && reader.data == old(reader.data)[n..]
  {
    var chunk: bytes;
    ok, chunk := reader.ReadExact(n);
    if ok {
      for i := 0 to n
        invariant buf[..i] == chunk[..i]
        modifies buf
      {
        buf[i] := chunk[i];
      }
    }
  }

  /** A whole frame is there to be read. */
  predicate FrameReady(s: bytes) {
    4 <= |s| && 2 <= U16(s[0], s[1]) && 2 + U16(s[0], s[1]) <= |s|
  }

  /** The start of both decoding loops: header, then the body into the reused payload buffer. */
  method NextFrame(reader: Source, headerBuf: array<byte>, payloadBuf: array<byte>)
    returns (ok: bool, assoc: u16, frameLen: nat)
    requires headerBuf.Length == 4 && payloadBuf.Length == 65535 && headerBuf != payloadBuf
    modifies reader, headerBuf, payloadBuf
    ensures var s := old(reader.data);
            && (ok <==> FrameReady(s))
            && (ok ==>
                  && frameLen < 65535 && assoc == U16(s[2], s[3]) && 4 + frameLen == 2 + U16(s[0], s[1])
                  && payloadBuf[..frameLen] == s[4..4 + frameLen] && reader.data == s[4 + frameLen..])
  {
    hide U16;
    assoc, frameLen := 0, 0;
    ghost var s := reader.data;
    ok := ReadInto(reader, headerBuf, 4);
    if !ok {
      return;
    }
    assert headerBuf[..4] == s[..4];
    assert headerBuf[0] == s[0] && headerBuf[1] == s[1] && headerBuf[2] == s[2] && headerBuf[3] == s[3];
    var totalLen := U16(headerBuf[0], headerBuf[1]);
    assoc := U16(headerBuf[2], headerBuf[3]);
    if totalLen < 2 || totalLen > 65535 {
      return false, assoc, 0;
    }
    frameLen := totalLen - 2;
    ok := ReadInto(reader, payloadBuf, frameLen);
    assert ok ==> s[4..][..frameLen] == s[4..4 + frameLen] && s[4..][frameLen..] == s[4 + frameLen..];
  }

  /**
   * The server's decoding loop up to name resolution. The buffers are reused, so a short frame leaves
   * bytes of its predecessor behind its own; they never reach a packet.
   */
  method ServeLoop(reader: Source, ipv4Only: bool) returns (packets: seq<Packet>)
    modifies reader
    ensures packets == Serve(old(reader.data), ipv4Only)
  {
    hide U16, Deliver;
    var headerBuf := new byte[4];
    var payloadBuf := new byte[65535];
    packets := [];
    while true
      invariant fresh(headerBuf) && fresh(payloadBuf)
      invariant Serve(old(reader.data), ipv4Only) == packets + Serve(reader.data, ipv4Only)
      decreases |reader.data|
    {
      var ok, assoc, frameLen := NextFrame(reader, headerBuf, payloadBuf);
      if !ok {
        return;
      }
      var found := ReadFrame(payloadBuf, frameLen, assoc, ipv4Only);
      packets := packets + found;
    }
  }

  /** What a frame in a reused buffer delivers, by the bytes of the buffer. */
  lemma DeliverAt(buf: bytes, n: nat, assoc: u16, ipv4Only: bool)
    requires n < |buf| == 65535
    ensures var found := Deliver(assoc, buf[..n], ipv4Only);
            && (buf[0] == 1 ==>
                  found == if n < 7 then []
                           else [Packet(assoc, Target(V4(buf[1..5]), U16(buf[5], buf[6])), buf[7..n])])
            && (buf[0] == 4 ==>
                  found == if ipv4Only || n < 19 then []
                           else [Packet(assoc, Target(V6(buf[1..17]), U16(buf[17], buf[18])), buf[19..n])])
            && (buf[0] == 3 ==>
                  var len: nat := buf[1];
                  found == if n < 4 + len || !Utf8(buf[2..2 + len]) then []
                           else [Packet(assoc, Target(Domain(buf[2..2 + len]), U16(buf[2 + len], buf[3 + len])), buf[4 + len..n])])
            && (buf[0] != 1 && buf[0] != 3 && buf[0] != 4 ==> found == [])
  {
    hide U16, Utf8;
    var body := buf[..n];
    assert body == buf[0..n];
    if n > 0 && HeaderEnd(body).Some? && HeaderEnd(body).value <= n {
      var end := HeaderEnd(body).value;
      SliceOfSlice(buf, 0, n, end, n);
      assert body[end..] == body[end..n];
      var from := if buf[0] == 3 then 2 else 1;
      SliceOfSlice(buf, 0, n, from, end - 2);
    }
  }

  /** One frame: its address with all length checks, then the payload; nothing if a check fails. */
  method ReadFrame(payloadBuf: array<byte>, frameLen: nat, assoc: u16, ipv4Only: bool) returns (found: seq<Packet>)
    requires payloadBuf.Length == 65535 && frameLen < 65535
    ensures found == Deliver(assoc, payloadBuf[..frameLen], ipv4Only)
  {
    hide U16, Utf8, Deliver;
    assert payloadBuf[..][..frameLen] == payloadBuf[..frameLen];
    DeliverAt(payloadBuf[..], frameLen, assoc, ipv4Only);
    var offset := 1;
    var target: Target;
    var atyp := payloadBuf[0];
    if atyp == 1 {
      if frameLen < offset + 6 {
        return [];
      }
      target := Target(V4(payloadBuf[1..5]), U16(payloadBuf[5], payloadBuf[6]));
      offset := offset + 6;
    } else if atyp == 4 {
      if ipv4Only {
        return [];
      }
      if frameLen < offset + 18 {
        return [];
      }
      target := Target(V6(payloadBuf[1..17]), U16(payloadBuf[17], payloadBuf[18]));
      offset := offset + 18;
    } else if atyp == 3 {
      if frameLen < offset + 1 {
        return [];
      }
      var len: nat := payloadBuf[1];
      offset := 2;
      if frameLen < offset + len + 2 {
        return [];
      }
      var domain := payloadBuf[2..2 + len];
      offset := offset + len + 2;
      if !Utf8(domain) {
        return [];
      }
      target := Target(Domain(domain), U16(payloadBuf[offset - 2], payloadBuf[offset - 1]));
    } else {
      return [];
    }
    found := [Packet(assoc, target, payloadBuf[offset..frameLen])];
  }

  /** The client's downstream loop. */
  method RelayLoop(reader: Source, assocs: set<u16>) returns (sent: seq<(u16, bytes)>)
    modifies reader
    ensures sent == Relayed(old(reader.data), assocs)
  {
    hide U16, Relay;
    var headerBuf := new byte[4];
    var payloadBuf := new byte[65535];
    sent := [];
    while true
      invariant fresh(headerBuf) && fresh(payloadBuf)
      invariant Relayed(old(reader.data), assocs) == sent + Relayed(reader.data, assocs)
      decreases |reader.data|
    {
      var ok, assoc, frameLen := NextFrame(reader, headerBuf, payloadBuf);
      if !ok {
        return;
      }
      var relayed := RelayFrame(payloadBuf, frameLen, assoc, assocs);
      sent := sent + relayed;
    }
  }

  /**
   * One frame on the client. A length byte may be left over from the frame before: the final check of
   * the header's end against the frame length makes that harmless.
   */
  method RelayFrame(payloadBuf: array<byte>, frameLen: nat, assoc: u16, assocs: set<u16>)
    returns (sent: seq<(u16, bytes)>)
    requires payloadBuf.Length == 65535 && frameLen < 65535
    ensures sent == Relay(assoc, payloadBuf[..frameLen], assocs)
  {
    ghost var body := payloadBuf[..frameLen];
    var offset := 1;
    var atyp := payloadBuf[0];
    if atyp == 1 {
      offset := offset + 4 + 2;
    } else if atyp == 3 {
      var len: nat := payloadBuf[offset];
      offset := offset + 1 + len + 2;
    } else if atyp == 4 {
      offset := offset + 16 + 2;
    } else {
      return [];
    }
    if offset > frameLen || assoc !in assocs {
      return [];
    }
    var payload := payloadBuf[offset..frameLen];
    var reply := [0, 0, 0] + payloadBuf[..offset] + payload;
    assert reply == [0, 0, 0] + body;
    sent := [(assoc, reply)];
  }

  // ---- The packet-address stream ----

  datatype Step = Stop | Skip(used: nat) | Take(used: nat, target: Target, payload: bytes)

  /** One entry of a packet-address stream: an address, a length, that many bytes. */
  function FirstEntry(s: bytes): (step: Step)
    ensures !step.Stop? ==> 6 <= step.used <= |s|
  {
    var end := HeaderEnd(s);
    if end.None? || |s| < end.value + 2 then Stop
    else
      var n := end.value;
      var len := U16(s[n], s[n + 1]);
      if |s| < n + 2 + len then Stop
      else
        match ParseAddress(s)
        case None => Skip(n + 2 + len)
        case Some(a) => Take(n + 2 + len, a.target, s[n + 2..n + 2 + len])
  }

  function Entries(s: bytes): seq<(Target, bytes)>
    decreases |s|
  {
    match FirstEntry(s)
    case Stop => []
    case Skip(used) => Entries(s[used..])
    case Take(used, target, payload) => [(target, payload)] + Entries(s[used..])
  }

  lemma EntriesUnfold(s: bytes)
    ensures var step := FirstEntry(s);
            Entries(s) ==
            if step.Stop? then []
            else if step.Skip? then Entries(s[step.used..])
            else [(step.target, step.payload)] + Entries(s[step.used..])
  {
    hide FirstEntry;
  }

  /** Entries as the client writes them: address, length, payload. */
  function EncodeEntries(es: seq<(Target, bytes)>): bytes {
    if es == [] then []
    else Address(es[0].0) + U16Bytes(|es[0].1|) + es[0].1 + EncodeEntries(es[1..])
  }

  lemma FirstEntryBack(t: Target, payload: bytes, rest: bytes)
    requires ValidHost(t.host) && |payload| < 0x1_0000
    ensures var s := Address(t) + U16Bytes(|payload|) + payload + rest;
            var used := |Address(t)| + 2 + |payload|;
            used <= |s| && FirstEntry(s) == Take(used, t, payload) && s[used..] == rest
  {
    hide U16, U16Bytes, Utf8, Address, ParseAddress, HeaderEnd, FirstEntry;
    var a, len := Address(t), U16Bytes(|payload|);
    var s, n := a + len + payload + rest, |a|;
    assert s == a + (len + payload + rest);
    ParseAddressBack(t, len + payload + rest);
    EntryIs(s, n);
    assert s[n] == len[0] && s[n + 1] == len[1];
    assert s[n + 2..n + 2 + |payload|] == payload && s[n + 2 + |payload|..] == rest;
  }

  /** What is read of a packet-address stream is what was written, whatever follows. */
  lemma {:induction false} EntriesBack(es: seq<(Target, bytes)>, rest: bytes)
    requires forall e :: e in es ==> ValidHost(e.0.host) && |e.1| < 0x1_0000
    ensures Entries(EncodeEntries(es) + rest) == es + Entries(rest)
  {
    hide U16Bytes, Address, FirstEntry, ValidHost, Entries;
    if es == [] {
      assert EncodeEntries(es) + rest == rest;
    } else {
      var (t, payload) := es[0];
      var later := EncodeEntries(es[1..]) + rest;
      var s := Address(t) + U16Bytes(|payload|) + payload + later;
      assert EncodeEntries(es) + rest == s;
      assert es[0] in es;
      FirstEntryBack(t, payload, later);
      EntriesUnfold(s);
      EntriesBack(es[1..], rest);
      assert es == [es[0]] + es[1..];
      Regroup([es[0]], es[1..], Entries(rest));
    }
  }

  lemma Regroup<T>(a: seq<T>, b: seq<T>, c: seq<T>)
    ensures a + (b + c) == a + b + c
  {
  }

  /** An entry for a name that is not UTF-8 is skipped whole. */
  lemma BadNameIsSkipped(name: bytes, port: bytes, payload: bytes, rest: bytes)
    requires |name| < 256 && !Utf8(name) && |port| == 2 && |payload| < 0x1_0000
    ensures Entries([3, |name|] + name + port + U16Bytes(|payload|) + payload + rest) == Entries(rest)
  {
    hide U16, U16Bytes, Utf8, FirstEntry;
    var head: bytes, len := [3, |name|], U16Bytes(|payload|);
    var s, n := head + name + port + len + payload + rest, 4 + |name|;
    assert s == head + name + port + (len + payload + rest);
    Fields(head, name, port, len + payload + rest);
    assert s[1] == head[1];
    EntryIs(s, n);
    assert s[n] == len[0] && s[n + 1] == len[1];
    assert s[n + 2 + |payload|..] == rest;
    EntriesUnfold(s);
  }

  /** What the first entry is, once the end of its header is known. */
  lemma EntryIs(s: bytes, n: nat)
    requires HeaderEnd(s) == Some(n)
    ensures |s| < n + 2 ==> FirstEntry(s) == Stop
    ensures n + 2 <= |s| ==>
              var end := n + 2 + U16(s[n], s[n + 1]);
              FirstEntry(s) ==
              if |s| < end then Stop
              else match ParseAddress(s)
                case None => Skip(end)
                case Some(a) => Take(end, a.target, s[n + 2..end])
  {
    hide U16, ParseAddress;
  }

  /** Buffers an entry's header as far as its end is known, and says where it ends. */
  method FindHeaderEnd(reader: Source, buf: bytes, bufOffset: nat) returns (ok: bool, grown: bytes, end: nat)
    requires bufOffset <= |buf|
    modifies reader
    ensures |buf| <= |grown|
    ensures var s := buf[bufOffset..] + old(reader.data);
            if ok then grown[bufOffset..] + reader.data == s && bufOffset <= end && HeaderEnd(s) == Some(end - bufOffset)
            else FirstEntry(s) == Stop
  {
    hide U16, ParseAddress;
    ghost var s := buf[bufOffset..] + reader.data;
    end := 0;
    ok, grown := ReadExactToBuf(reader, buf, bufOffset + 1, bufOffset);
    if !ok {
      return;
    }
    var atyp := grown[bufOffset];
    assert s[0] == atyp;
    if atyp == 1 {
      end := bufOffset + 7;
    } else if atyp == 4 {
      end := bufOffset + 19;
    } else if atyp == 3 {
      ok, grown := ReadExactToBuf(reader, grown, bufOffset + 2, bufOffset);
      if !ok {
        return;
      }
      assert s[1] == grown[bufOffset + 1];
      var domainLen: nat := grown[bufOffset + 1];
      end := bufOffset + 4 + domainLen;
    } else {
      ok := false;
    }
  }

  /** Buffers one entry completely and parses it. */
  method ReadEntry(reader: Source, buf: bytes, bufOffset: nat) returns (step: Step, grown: bytes)
    requires bufOffset <= |buf|
    modifies reader
    ensures var s := buf[bufOffset..] + old(reader.data);
            && step == FirstEntry(s)
            && (!step.Stop? ==>
                  && bufOffset + step.used <= |grown|
                  && grown[bufOffset + step.used..] + reader.data == s[step.used..])
  {
    hide U16, ParseAddress, HeaderEnd, FirstEntry;
    ghost var s := buf[bufOffset..] + reader.data;
    var ok: bool, needed: nat;
    ok, grown, needed := FindHeaderEnd(reader, buf, bufOffset);
    if !ok {
      return Stop, grown;
    }
    ghost var n := needed - bufOffset;
    EntryIs(s, n);
    ok, grown := ReadExactToBuf(reader, grown, needed + 2, bufOffset);
    if !ok {
      return Stop, grown;
    }
    assert s[n] == grown[needed] && s[n + 1] == grown[needed + 1];
    var payloadLen := U16(grown[needed], grown[needed + 1]);
    var payloadNeeded := needed + 2 + payloadLen;
    ok, grown := ReadExactToBuf(reader, grown, payloadNeeded, bufOffset);
    if !ok {
      return Stop, grown;
    }
    BufferedEntry(s, grown, bufOffset, n, reader.data);
    var parsed := ParseAddress(grown[bufOffset..]);
    if parsed.None? {
      return Skip(payloadNeeded - bufOffset), grown;
    }
    step := Take(payloadNeeded - bufOffset, parsed.value.target, grown[needed + 2..payloadNeeded]);
  }

  /** An entry that lies in the buffer completely is the buffer's, whatever is still to come. */
  lemma BufferedEntry(s: bytes, grown: bytes, start: nat, n: nat, rest: bytes)
    requires start <= |grown| && s == grown[start..] + rest && HeaderEnd(s) == Some(n)
    requires n + 2 <= |s| && start + n + 2 + U16(s[n], s[n + 1]) <= |grown|
    ensures var end := n + 2 + U16(s[n], s[n + 1]);
            && s[end..] == grown[start + end..] + rest
            && FirstEntry(s) ==
               match ParseAddress(grown[start..])
               case None => Skip(end)
               case Some(a) => Take(end, a.target, grown[start + n + 2..start + end])
  {
    hide U16, ParseAddress, HeaderEnd, FirstEntry;
    var b, end := grown[start..], n + 2 + U16(s[n], s[n + 1]);
    EntryIs(s, n);
    SameAddress(b, rest);
    assert s[n + 2..end] == b[n + 2..end];
    assert b == grown[start..|grown|];
    SliceOfSlice(grown, start, |grown|, n + 2, end);
  }

  /**
   * The packet-address loop: a rolling buffer with an offset, cut back once the offset passes 32 KiB.
   * Whether the target resolves is left open: if not, the entry is skipped without cutting the buffer.
   */
  method PacketAddrLoop(reader: Source) returns (entries: seq<(Target, bytes)>)
    modifies reader
    ensures entries == Entries(old(reader.data))
  {
    hide FirstEntry, Entries;
    var buf: bytes, bufOffset: nat := [], 0;
    entries := [];
    ghost var pending := reader.data;
    while true
      invariant bufOffset <= |buf| && pending == buf[bufOffset..] + reader.data
      invariant Entries(old(reader.data)) == entries + Entries(pending)
      decreases |pending|
    {
      EntriesUnfold(pending);
      var step: Step;
      step, buf := ReadEntry(reader, buf, bufOffset);
      if step.Stop? {
        return;
      }
      pending := pending[step.used..];
      bufOffset := bufOffset + step.used;
      if step.Take? {
        AppendFirst(entries, (step.target, step.payload), Entries(pending));
        entries := entries + [(step.target, step.payload)];
        var resolved: bool := *;
        if resolved && bufOffset > 32768 {
          buf := buf[bufOffset..];
          bufOffset := 0;
        }
      }
    }
  }

  lemma AppendFirst<T>(a: seq<T>, x: T, b: seq<T>)
    ensures a + ([x] + b) == a + [x] + b
  {
  }

  /** An address that is all there is parsed the same whatever follows it. */
  lemma SameAddress(b: bytes, rest: bytes)
    requires HeaderEnd(b + rest).Some? && HeaderEnd(b + rest).value <= |b|
    ensures ParseAddress(b + rest) == ParseAddress(b)
  {
    hide U16, Utf8;
    var c, n := b + rest, HeaderEnd(b + rest).value;
    assert c[0] == b[0] && c[1] == b[1] && HeaderEnd(b) == HeaderEnd(c);
    assert 5 <= |b| ==> c[1..5] == b[1..5];
    assert 17 <= |b| ==> c[1..17] == b[1..17];
    assert 4 <= n ==> c[2..n - 2] == b[2..n - 2];
  }
}
