/** The VLESS request header: the client's construction of it and the server's reading of it. */
module Vless {
  import opened Bytes
  import opened Options
  import opened Sockets
  import opened Hosts

  datatype Request = Request(uuid: bytes, cmd: byte, target: Target)

  datatype Error =
    | UnexpectedEof | UnsupportedVersion | InvalidUser | InvalidCommand | InvalidDomain | InvalidAddressType
    | WriteFailed

  datatype Parsed = Parsed(request: Request, used: nat)

  function HostBytes(h: Host): bytes {
    match h
    case V4(o) => [1] + o
    case Domain(name) => [2, |name| % 256] + name
    case V6(o) => [3] + o
  }

  /** What the client sends, unless it refuses an IPv6 target. */
  function Header(r: Request): bytes {
    [0] + r.uuid + [0, r.cmd] + U16Bytes(r.target.port) + HostBytes(r.target.host)
  }

  /** The client's construction by pushes and extends; the UUID has been parsed already. */
  method BuildHeader(uuid: bytes, isUdp: bool, target: Target, ipv4Only: bool) returns (header: Option<bytes>)
    ensures header.None? <==> ipv4Only && target.host.V6?
    ensures header.Some? ==> header.value == Header(Request(uuid, if isUdp then 2 else 1, target))
  {
    hide U16Bytes;
    var h: bytes := [];
    h := h + [0];
    h := h + uuid;
    h := h + [0];
    var cmd := if isUdp then 2 else 1;
    h := h + [cmd];
    h := h + U16Bytes(target.port);
    match target.host {
      case V4(octets) =>
        h := h + [1];
        h := h + octets;
      case V6(octets) =>
        if ipv4Only {
          return None;
        }
        h := h + [3];
        h := h + octets;
      case Domain(name) =>
        h := h + [2];
        h := h + [|name| % 256];
        h := h + name;
    }
    header := Some(h);
  }

  function ParseHost(b: bytes): Result<(Host, nat), Error>
    requires b != []
  {
    if b[0] == 1 then
      if |b| < 5 then Err(UnexpectedEof) else Ok((V4(b[1..5]), 5))
    else if b[0] == 2 then
      if |b| < 2 then Err(UnexpectedEof)
      else
        var len: nat := b[1];
        if |b| < 2 + len then Err(UnexpectedEof)
        else if Utf8(b[2..2 + len]) then Ok((Domain(b[2..2 + len]), 2 + len))
        else Err(InvalidDomain)
    else if b[0] == 3 then
      if |b| < 17 then Err(UnexpectedEof) else Ok((V6(b[1..17]), 17))
    else Err(InvalidAddressType)
  }

  function ParseAfterAddons(uuid: bytes, at: nat, c: bytes): Result<Parsed, Error> {
    if |c| < 4 then Err(UnexpectedEof)
    else if c[0] != 1 && c[0] != 2 then Err(InvalidCommand)
    else
      match ParseHost(c[3..])
      case Err(e) => Err(e)
      case Ok((host, n)) => Ok(Parsed(Request(uuid, c[0], Target(host, U16(c[1], c[2]))), at + 3 + n))
  }

  /** The server's view of a byte stream that starts with a request; `allowed` knows the users. */
  function Parse(s: bytes, allowed: bytes -> bool): Result<Parsed, Error> {
    if |s| < 18 then Err(UnexpectedEof)
    else if s[0] != 0 then Err(UnsupportedVersion)
    else if !allowed(s[1..17]) then Err(InvalidUser)
    else
      var at: nat := 18 + s[17] as nat;
      if |s| < at then Err(UnexpectedEof) else ParseAfterAddons(s[1..17], at, s[at..])
  }

  /** A header, byte by byte; the address types are 1, 2 and 3. */
  lemma HeaderBytes(r: Request)
    requires ValidHost(r.target.host)
    ensures Header(r) ==
            [0] + r.uuid + [0, r.cmd, r.target.port / 256, r.target.port % 256]
            + match r.target.host
              case V4(octets) => [1] + octets
              case Domain(name) => [2, |name|] + name
              case V6(octets) => [3] + octets
  {
    hide U16Bytes, Utf8;
    TwoBytes(r.target.port);
    assert r.target.port / 256 % 256 == r.target.port / 256;
  }

  /**
   * Who is refused, and in which order: no version but 0, then nobody who is not allowed, whatever follows;
   * an accepted request is for the allowed user it names.
   */
  lemma OnlyAllowedUsers(s: bytes, allowed: bytes -> bool)
    ensures |s| < 18 ==> Parse(s, allowed) == Err(UnexpectedEof)
    ensures |s| >= 18 && s[0] != 0 ==> Parse(s, allowed) == Err(UnsupportedVersion)
    ensures |s| >= 18 && s[0] == 0 && !allowed(s[1..17]) ==> Parse(s, allowed) == Err(InvalidUser)
    ensures Parse(s, allowed).Ok? ==>
              |s| >= 18 && s[0] == 0 && allowed(s[1..17]) && Parse(s, allowed).value.request.uuid == s[1..17]
  {
    hide ParseHost, U16;
  }

  /** What comes after the addons: the command, which is 1 or 2, and the rest. */
  lemma OnlyKnownCommands(s: bytes, allowed: bytes -> bool)
    requires |s| >= 18 && s[0] == 0 && allowed(s[1..17])
    ensures var at: nat := 18 + s[17] as nat;
            && (|s| < at + 4 ==> Parse(s, allowed) == Err(UnexpectedEof))
            && (|s| >= at + 4 && s[at] != 1 && s[at] != 2 ==> Parse(s, allowed) == Err(InvalidCommand))
            && (|s| >= at + 4 && (s[at] == 1 || s[at] == 2) && !(1 <= s[at + 3] <= 3) ==>
                  Parse(s, allowed) == Err(InvalidAddressType))
            && (Parse(s, allowed).Ok? ==>
                  && |s| >= at + 4 && Parse(s, allowed).value.request.cmd == s[at]
                  && Parse(s, allowed).value.request.target.port == U16(s[at + 1], s[at + 2]))
  {
    hide U16;
    var at: nat := 18 + s[17] as nat;
    if |s| >= at + 4 {
      assert s[at..][3..][0] == s[at + 3];
    }
  }

  lemma ParseHostBack(h: Host, rest: bytes)
    requires ValidHost(h)
    ensures ParseHost(HostBytes(h) + rest) == Ok((h, |HostBytes(h)|))
  {
    hide Utf8;
    var b := HostBytes(h) + rest;
    match h {
      case V4(o) => assert b[1..5] == o;
      case V6(o) => assert b[1..17] == o;
      case Domain(name) => assert b[2..2 + |name|] == name;
    }
  }

  lemma ParsedHostIsValid(b: bytes)
    requires b != [] && ParseHost(b).Ok?
    ensures ValidHost(ParseHost(b).value.0)
  {
    hide Utf8;
  }

  /**
   * The server reads back the very request, with any addons between the user and the command, and consumes
   * exactly its header, for an allowed user and either command, exactly when the host is encodable: a domain
   * of more than 255 bytes never survives.
   */
  lemma AddonsAreSkipped(r: Request, addons: bytes, rest: bytes, allowed: bytes -> bool)
    requires |r.uuid| == 16 && allowed(r.uuid) && (r.cmd == 1 || r.cmd == 2) && |addons| < 256
    requires !r.target.host.Domain? ==> ValidHost(r.target.host)
    ensures var header := [0] + r.uuid + [|addons|] + addons + [r.cmd] + U16Bytes(r.target.port) + HostBytes(r.target.host);
            Parse(header + rest, allowed) == Ok(Parsed(r, |header|)) <==> ValidHost(r.target.host)
  {
    hide U16, U16Bytes, HostBytes, ParseHost;
    var port, host := U16Bytes(r.target.port), HostBytes(r.target.host) + rest;
    var s := [0] + r.uuid + [|addons|] + addons + [r.cmd] + port + HostBytes(r.target.host) + rest;
    var at := 18 + |addons|;
    assert s[1..17] == r.uuid && s[17] == |addons|;
    var c := s[at..];
    assert c == [r.cmd] + port + host by {
      AfterAddons(r.uuid, addons, [r.cmd] + port + host);
      assert s == [0] + r.uuid + [|addons|] + addons + ([r.cmd] + port + host);
    }
    assert c[1] == port[0] && c[2] == port[1] && c[3..] == host;
    HostIsNonEmpty(r.target.host);
    if ValidHost(r.target.host) {
      ParseHostBack(r.target.host, rest);
    } else if ParseHost(host).Ok? {
      ParsedHostIsValid(host);
    }
  }

  lemma AfterAddons(uuid: bytes, addons: bytes, rest: bytes)
    requires |uuid| == 16 && |addons| < 256
    ensures ([0] + uuid + [|addons|] + addons + rest)[18 + |addons|..] == rest
  {
  }

  /** The client, which sends no addons, is one of those. */
  lemma HeaderRoundTrips(r: Request, rest: bytes, allowed: bytes -> bool)
    requires |r.uuid| == 16 && allowed(r.uuid) && (r.cmd == 1 || r.cmd == 2)
    requires !r.target.host.Domain? ==> ValidHost(r.target.host)
    ensures Parse(Header(r) + rest, allowed) == Ok(Parsed(r, |Header(r)|)) <==> ValidHost(r.target.host)
  {
    hide U16Bytes, HostBytes, Parse;
    var header := [0] + r.uuid + [0] + [] + [r.cmd] + U16Bytes(r.target.port) + HostBytes(r.target.host);
    assert header == Header(r);
    AddonsAreSkipped(r, [], rest, allowed);
  }

  /** A header that is cut short anywhere is an unexpected end, nothing else. */
  lemma CutHeader(r: Request, n: nat, allowed: bytes -> bool)
    requires |r.uuid| == 16 && allowed(r.uuid) && (r.cmd == 1 || r.cmd == 2) && ValidHost(r.target.host)
    requires n < |Header(r)|
    ensures Parse(Header(r)[..n], allowed) == Err(UnexpectedEof)
  {
    hide U16, U16Bytes, ParseHost, HostBytes;
    var s, t := Header(r), Header(r)[..n];
    var port, host := U16Bytes(r.target.port), HostBytes(r.target.host);
    if n >= 22 {
      assert s[1..17] == r.uuid && t[1..17] == s[1..17] && t[17] == 0;
      assert s[18..] == [r.cmd] + port + host && s[18..][3..] == host;
      assert t[18..][3..] == host[..n - 21];
      assert |s| == 21 + |host|;
      CutHost(r.target.host, n - 21);
    } else if n >= 18 {
      assert s[1..17] == r.uuid && t[1..17] == s[1..17] && t[17] == 0;
    }
  }

  lemma CutHost(h: Host, n: nat)
    requires ValidHost(h) && 1 <= n < |HostBytes(h)|
    ensures ParseHost(HostBytes(h)[..n]) == Err(UnexpectedEof)
  {
    hide Utf8;
  }

  lemma HostIsNonEmpty(h: Host)
    ensures |HostBytes(h)| >= 1
  {
  }

  /** The server's reading, by successive exact reads: nothing beyond the header is taken off the stream. */
  method ParseVlessInbound(stream: Source, out: Sink, allowed: bytes -> bool) returns (r: Result<Request, Error>)
    modifies stream, out
    ensures var spec := Parse(old(stream.data), allowed);
            match r
            case Ok(request) =>
              && spec.Ok? && spec.value.request == request && spec.value.used <= |old(stream.data)|
              && stream.data == old(stream.data)[spec.value.used..]
              && out.written == old(out.written) + [0, 0]
            case Err(e) => spec == Err(e) || (spec.Ok? && e == WriteFailed && out.broken)
  {
    hide U16, ParseAfterAddons;
    ghost var s := stream.data;
    var ok, buf := ReadExactToBuf(stream, [], 18, 0);
    if !ok {
      return Err(UnexpectedEof);
    }
    assert buf + stream.data == s;
    if buf[0] != 0 {
      return Err(UnsupportedVersion);
    }
    var uuid := buf[1..17];
    assert s[1..17] == uuid;
    if !allowed(uuid) {
      return Err(InvalidUser);
    }
    var start: nat := 18 + buf[17] as nat;
    assert s[17] == buf[17];
    var request := ReadRequest(stream, buf, uuid, start, s);
    if request.Err? {
      return Err(request.error);
    }
    ok := out.WriteAll([0, 0]);
    r := if ok then Ok(request.value) else Err(WriteFailed);
  }

  /** The request behind the addons. */
  method ReadRequest(stream: Source, buf: bytes, uuid: bytes, start: nat, ghost s: bytes)
    returns (r: Result<Request, Error>)
    requires |buf| == 18 <= start && buf + stream.data == s
    modifies stream
    ensures var spec := if |s| < start then Err(UnexpectedEof) else ParseAfterAddons(uuid, start, s[start..]);
            match r
            case Err(e) => spec == Err(e)
            case Ok(request) =>
              && spec.Ok? && spec.value.request == request && spec.value.used <= |s|
              && stream.data == s[spec.value.used..]
  {
    hide U16, ParseHost;
    var ok, more := ReadExactToBuf(stream, buf, start + 4, 0);
    if !ok {
      return Err(UnexpectedEof);
    }
    ghost var c := s[start..];
    assert c == more[start..] + stream.data;
    assert c[3..] == more[start + 3..] + stream.data;
    var cmd := more[start];
    assert c[0] == cmd && c[1] == more[start + 1] && c[2] == more[start + 2];
    if cmd != 1 && cmd != 2 {
      return Err(InvalidCommand);
    }
    var port := U16(more[start + 1], more[start + 2]);
    var host := ReadHost(stream, more, start + 3);
    if host.Err? {
      return Err(host.error);
    }
    r := Ok(Request(uuid, cmd, Target(host.value, port)));
  }

  method ReadHost(stream: Source, buf: bytes, at: nat) returns (r: Result<Host, Error>)
    requires |buf| == at + 1
    modifies stream
    ensures var b := buf[at..] + old(stream.data);
            match r
            case Err(e) => ParseHost(b) == Err(e)
            case Ok(host) => ParseHost(b).Ok? && ParseHost(b).value.0 == host
                             && ParseHost(b).value.1 <= |b| && stream.data == b[ParseHost(b).value.1..]
  {
    hide Utf8;
    ghost var b := buf[at..] + stream.data;
    var ok, more := true, buf;
    var start := at + 1;
    if buf[at] == 1 {
      ok, more := ReadExactToBuf(stream, buf, start + 4, at);
      if !ok {
        return Err(UnexpectedEof);
      }
      assert b[1..5] == more[start..start + 4];
      r := Ok(V4(more[start..start + 4]));
    } else if buf[at] == 2 {
      ok, more := ReadExactToBuf(stream, buf, start + 1, at);
      if !ok {
        return Err(UnexpectedEof);
      }
      var len: nat := more[start];
      assert b[1] == more[start];
      ok, more := ReadExactToBuf(stream, more, start + 1 + len, at);
      if !ok {
        return Err(UnexpectedEof);
      }
      var name := more[start + 1..start + 1 + len];
      assert b[2..2 + len] == name;
      r := if Utf8(name) then Ok(Domain(name)) else Err(InvalidDomain);
    } else if buf[at] == 3 {
      ok, more := ReadExactToBuf(stream, buf, start + 16, at);
      if !ok {
        return Err(UnexpectedEof);
      }
      assert b[1..17] == more[start..start + 16];
      r := Ok(V6(more[start..start + 16]));
    } else {
      r := Err(InvalidAddressType);
    }
  }
}
