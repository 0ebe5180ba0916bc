/**
 * The ClientHello message (section 4.1.2 of RFC 8446) and the two parsers the engine has for it: the
 * Reality server's, which works on a reassembled handshake message, and the sniffer's, which works on
 * one TLS record.
 */
module ClientHellos {
  import opened Bytes
  import opened Options

  // ---- The message ----

  datatype ServerName = ServerName(kind: byte, name: bytes)

  datatype KeyShare = KeyShare(group: u16, key: bytes)

  datatype Extension =
    | ServerNames(names: seq<ServerName>)
    | KeyShares(shares: seq<KeyShare>)
    | Other(kind: u16, data: bytes)

  datatype ClientHello = ClientHello(
    version: bytes, random: bytes, sessionId: bytes, cipherSuites: bytes, compression: bytes,
    extensions: seq<Extension>)

  const SERVER_NAME := 0
  const KEY_SHARE := 0x33
  const X25519 := 0x1D

  /** A vector with a one-byte length in front of it. */
  function Vec8(b: bytes): bytes {
    [|b| % 256] + b
  }

  /** A vector with a two-byte length in front of it. */
  function Vec16(b: bytes): bytes {
    U16Bytes(|b|) + b
  }

  function EncodeNames(names: seq<ServerName>): bytes {
    if names == [] then [] else [names[0].kind] + Vec16(names[0].name) + EncodeNames(names[1..])
  }

  function EncodeShares(shares: seq<KeyShare>): bytes {
    if shares == [] then [] else U16Bytes(shares[0].group) + Vec16(shares[0].key) + EncodeShares(shares[1..])
  }

  function Kind(e: Extension): u16 {
    match e
    case ServerNames(_) => SERVER_NAME
    case KeyShares(_) => KEY_SHARE
    case Other(kind, _) => kind
  }

  function Data(e: Extension): bytes {
    match e
    case ServerNames(names) => Vec16(EncodeNames(names))
    case KeyShares(shares) => Vec16(EncodeShares(shares))
    case Other(_, data) => data
  }

  function EncodeExtensions(es: seq<Extension>): bytes {
    if es == [] then [] else U16Bytes(Kind(es[0])) + Vec16(Data(es[0])) + EncodeExtensions(es[1..])
  }

  function Body(h: ClientHello): bytes {
    h.version + h.random + Vec8(h.sessionId) + Vec16(h.cipherSuites) + Vec8(h.compression)
    + Vec16(EncodeExtensions(h.extensions))
  }

  /** The handshake message: type 1, a 24-bit length, the body. */
  function Encode(h: ClientHello): bytes {
    [1] + U24Bytes(|Body(h)| % 0x100_0000) + Body(h)
  }

  /** Every length fits its length field, and extensions and host names do not repeat. */
  ghost predicate WellFormed(h: ClientHello) {
    && |h.version| == 2 && |h.random| == 32 && |h.sessionId| < 256 && |h.compression| < 256
    && |h.cipherSuites| < 0x1_0000 && |EncodeExtensions(h.extensions)| < 0x1_0000
    && (forall e :: e in h.extensions ==> Fits(e))
    && |Body(h)| < 0x100_0000
    && NoRepeats(h.extensions)
  }

  /** There are such messages, with the 32-byte session id the Reality server insists on. */
  lemma SomeHelloIsWellFormed()
    ensures var zeros: bytes := seq(32, _ => 0);
            WellFormed(ClientHello([3, 3], zeros, zeros, [0x13, 1], [0], [Other(43, [2, 3, 4])]))
  {
    hide U16Bytes;
    var e := Other(43, [2, 3, 4]);
    assert EncodeExtensions([e]) == U16Bytes(43) + Vec16([2, 3, 4]) + EncodeExtensions([]);
  }

  ghost predicate Fits(e: Extension) {
    match e
    case ServerNames(names) =>
      && |EncodeNames(names)| < 0x1_0000 - 2
      && (forall n :: n in names ==> |n.name| < 0x1_0000)
      && (forall i, j :: 0 <= i < j < |names| ==> names[i].kind != 0 || names[j].kind != 0)
    case KeyShares(shares) =>
      |EncodeShares(shares)| < 0x1_0000 - 2 && forall s :: s in shares ==> |s.key| < 0x1_0000
    case Other(kind, data) =>
      kind != SERVER_NAME && kind != KEY_SHARE && |data| < 0x1_0000
  }

  ghost predicate NoRepeats(es: seq<Extension>) {
    forall i, j :: 0 <= i < j < |es| ==>
      !(es[i].ServerNames? && es[j].ServerNames?) && !(es[i].KeyShares? && es[j].KeyShares?)
  }

  /** The host name the message carries, if it is valid UTF-8. */
  function HostName(names: seq<ServerName>): Option<bytes> {
    if names == [] then None
    else if names[0].kind == 0 then if Utf8(names[0].name) then Some(names[0].name) else None
    else HostName(names[1..])
  }

  function FirstX25519(shares: seq<KeyShare>): Option<bytes> {
    if shares == [] then None
    else if shares[0].group == X25519 && |shares[0].key| == 32 then Some(shares[0].key)
    else FirstX25519(shares[1..])
  }

  function NameOf(es: seq<Extension>): Option<bytes> {
    if es == [] then None
    else if es[0].ServerNames? then HostName(es[0].names)
    else NameOf(es[1..])
  }

  function ShareOf(es: seq<Extension>): Option<bytes> {
    if es == [] then None
    else if es[0].KeyShares? then FirstX25519(es[0].shares)
    else ShareOf(es[1..])
  }

  // ---- The Reality server's parser ----

  datatype Info = Info(
    sessionId: bytes, sessionIdOffset: nat, clientRandom: bytes,
    publicKey: Option<bytes>, serverName: Option<bytes>)

  datatype ParseError =
    | ShortVersion | ShortRandom | ShortSessionIdLength | ShortSessionId
    | ShortCipherSuitesLength | ShortCipherSuites
    | ShortCompressionLength | ShortCompression | ShortExtensions

  /** The walk over a server name list: the first host name decides, valid or not. */
  function ScanNames(list: bytes): Option<bytes>
    decreases |list|
  {
    if |list| < 3 then None
    else
      var len := U16(list[1], list[2]);
      if |list| < 3 + len then None
      else if list[0] == 0 then
        var name := list[3..3 + len];
        if Utf8(name) then Some(name) else None
      else ScanNames(list[3 + len..])
  }

  function ScanShares(list: bytes): Option<bytes>
    decreases |list|
  {
    if |list| < 4 then None
    else
      var len := U16(list[2], list[3]);
      if |list| < 4 + len then None
      else if U16(list[0], list[1]) == X25519 && len == 32 then Some(list[4..36])
      else ScanShares(list[4 + len..])
  }

  /** The list inside an extension whose data is one two-byte-length vector; `None` if it is cut short. */
  function ListIn(data: bytes): Option<bytes> {
    if |data| < 2 then None
    else
      var len := U16(data[0], data[1]);
      if |data| < 2 + len then None else Some(data[2..2 + len])
  }

  function NameAfter(kind: nat, data: bytes, name: Option<bytes>): Option<bytes> {
    if kind == SERVER_NAME && ListIn(data).Some? then
      var found := ScanNames(ListIn(data).value);
      if found.Some? then found else name
    else name
  }

  function ShareAfter(kind: nat, data: bytes, share: Option<bytes>): Option<bytes> {
    if kind == KEY_SHARE && ListIn(data).Some? then
      var found := ScanShares(ListIn(data).value);
      if found.Some? then found else share
    else share
  }

  /** The walk over the extensions, which ends early once both a key share and a name are known. */
  function ScanExtensions(es: bytes, share: Option<bytes>, name: Option<bytes>): (Option<bytes>, Option<bytes>)
    decreases |es|
  {
    if |es| < 4 then (share, name)
    else
      var kind, len := U16(es[0], es[1]), U16(es[2], es[3]);
      if |es| < 4 + len then (share, name)
      else
        var data := es[4..4 + len];
        var s, n := ShareAfter(kind, data, share), NameAfter(kind, data, name);
        if s.Some? && n.Some? then (s, n) else ScanExtensions(es[4 + len..], s, n)
  }

  function Take8(c: bytes, noLength: ParseError, noBody: ParseError): (r: Result<(bytes, bytes), ParseError>) {
    if |c| < 1 then Err(noLength)
    else
      var len: nat := c[0];
      if |c| < 1 + len then Err(noBody) else Ok((c[1..1 + len], c[1 + len..]))
  }

  function Take16(c: bytes, noLength: ParseError, noBody: ParseError): (r: Result<(bytes, bytes), ParseError>) {
    if |c| < 2 then Err(noLength)
    else
      var len := U16(c[0], c[1]);
      if |c| < 2 + len then Err(noBody) else Ok((c[2..2 + len], c[2 + len..]))
  }

  function ParseExtensions(c: bytes, info: Info): Result<Info, ParseError> {
    if |c| < 2 then Ok(info)
    else if |c| < 2 + U16(c[0], c[1]) then Err(ShortExtensions)
    else
      var (share, name) := ScanExtensions(c[2..2 + U16(c[0], c[1])], None, None);
      Ok(info.(publicKey := share, serverName := name))
  }

  function ParseAfterSessionId(c: bytes, info: Info): Result<Info, ParseError> {
    match Take16(c, ShortCipherSuitesLength, ShortCipherSuites)
    case Err(e) => Err(e)
    case Ok((_, c)) =>
      match Take8(c, ShortCompressionLength, ShortCompression)
      case Err(e) => Err(e)
      case Ok((_, c)) => ParseExtensions(c, info)
  }

  /** `Ok(None)` for a message that is no ClientHello. The 24-bit message length is not looked at. */
  function Parse(p: bytes): Result<Option<Info>, ParseError> {
    if |p| < 4 || p[0] != 1 then Ok(None)
    else if |p| < 6 then Err(ShortVersion)
    else if |p| < 38 then Err(ShortRandom)
    else
      match Take8(p[38..], ShortSessionIdLength, ShortSessionId)
      case Err(e) => Err(e)
      case Ok((sessionId, c)) =>
        match ParseAfterSessionId(c, Info(sessionId, 39, p[6..38], None, None))
        case Err(e) => Err(e)
        case Ok(info) => Ok(Some(info))
  }

  // ---- Parsing what was encoded ----

  lemma Take8Back(b: bytes, rest: bytes, e: ParseError, f: ParseError)
    requires |b| < 256
    ensures Take8(Vec8(b) + rest, e, f) == Ok((b, rest))
  {
    var c := Vec8(b) + rest;
    assert c[1..1 + |b|] == b && c[1 + |b|..] == rest;
  }

  lemma Take16Back(b: bytes, rest: bytes, e: ParseError, f: ParseError)
    requires |b| < 0x1_0000
    ensures Take16(Vec16(b) + rest, e, f) == Ok((b, rest))
  {
    hide U16, U16Bytes;
    var c := Vec16(b) + rest;
    assert c[0] == U16Bytes(|b|)[0] && c[1] == U16Bytes(|b|)[1];
    assert c[2..2 + |b|] == b && c[2 + |b|..] == rest;
  }

  lemma FirstName(n: ServerName, rest: bytes)
    requires |n.name| < 0x1_0000
    ensures var b := [n.kind] + Vec16(n.name) + rest;
            && 3 <= |b| && U16(b[1], b[2]) == |n.name| && 3 + |n.name| <= |b|
            && b[3..3 + |n.name|] == n.name && b[3 + |n.name|..] == rest
  {
    hide U16, U16Bytes;
    var b := [n.kind] + Vec16(n.name) + rest;
    assert b[1] == U16Bytes(|n.name|)[0] && b[2] == U16Bytes(|n.name|)[1];
  }

  lemma {:induction false} ScanNamesBack(names: seq<ServerName>)
    requires forall n :: n in names ==> |n.name| < 0x1_0000
    ensures ScanNames(EncodeNames(names)) == HostName(names)
  {
    hide U16, U16Bytes, Vec16, Utf8;
    if names != [] {
      FirstName(names[0], EncodeNames(names[1..]));
      ScanNamesBack(names[1..]);
    }
  }

  lemma FirstShare(s: KeyShare, rest: bytes)
    requires |s.key| < 0x1_0000
    ensures var b := U16Bytes(s.group) + Vec16(s.key) + rest;
            && 4 <= |b| && U16(b[0], b[1]) == s.group && U16(b[2], b[3]) == |s.key| && 4 + |s.key| <= |b|
            && b[4..4 + |s.key|] == s.key && b[4 + |s.key|..] == rest
  {
    hide U16, U16Bytes;
    var b := U16Bytes(s.group) + Vec16(s.key) + rest;
    assert b[0] == U16Bytes(s.group)[0] && b[1] == U16Bytes(s.group)[1];
    assert b[2] == U16Bytes(|s.key|)[0] && b[3] == U16Bytes(|s.key|)[1];
  }

  lemma {:induction false} ScanSharesBack(shares: seq<KeyShare>)
    requires forall s :: s in shares ==> |s.key| < 0x1_0000
    ensures ScanShares(EncodeShares(shares)) == FirstX25519(shares)
  {
    hide U16, U16Bytes, Vec16;
    if shares != [] {
      FirstShare(shares[0], EncodeShares(shares[1..]));
      ScanSharesBack(shares[1..]);
    }
  }

  lemma ListInBack(b: bytes)
    requires |b| < 0x1_0000
    ensures ListIn(Vec16(b)) == Some(b)
  {
    hide U16, U16Bytes;
    assert Vec16(b)[0] == U16Bytes(|b|)[0] && Vec16(b)[1] == U16Bytes(|b|)[1];
    assert Vec16(b)[2..2 + |b|] == b;
  }

  lemma AfterExtension(e: Extension, share: Option<bytes>, name: Option<bytes>)
    requires Fits(e)
    requires share.Some? ==> !e.KeyShares?
    requires name.Some? ==> !e.ServerNames?
    ensures |Data(e)| < 0x1_0000
    ensures ShareAfter(Kind(e), Data(e), share) == if e.KeyShares? then FirstX25519(e.shares) else share
    ensures NameAfter(Kind(e), Data(e), name) == if e.ServerNames? then HostName(e.names) else name
  {
    hide ListIn, ScanNames, ScanShares, HostName, FirstX25519;
    if e.ServerNames? {
      ListInBack(EncodeNames(e.names));
      ScanNamesBack(e.names);
    } else if e.KeyShares? {
      ListInBack(EncodeShares(e.shares));
      ScanSharesBack(e.shares);
    }
  }

  lemma FirstExtension(e: Extension, rest: bytes)
    requires |Data(e)| < 0x1_0000
    ensures var es := U16Bytes(Kind(e)) + Vec16(Data(e)) + rest;
            && 4 <= |es| && U16(es[0], es[1]) == Kind(e) && U16(es[2], es[3]) == |Data(e)|
            && 4 + |Data(e)| <= |es| && es[4..4 + |Data(e)|] == Data(e) && es[4 + |Data(e)|..] == rest
  {
    hide U16, U16Bytes, Data, Kind;
    var es := U16Bytes(Kind(e)) + Vec16(Data(e)) + rest;
    assert es[0] == U16Bytes(Kind(e))[0] && es[1] == U16Bytes(Kind(e))[1];
    assert es[2] == U16Bytes(|Data(e)|)[0] && es[3] == U16Bytes(|Data(e)|)[1];
  }

  lemma {:induction false} ScanExtensionsBack(es: seq<Extension>, share: Option<bytes>, name: Option<bytes>)
    requires NoRepeats(es) && forall e :: e in es ==> Fits(e)
    requires share.Some? ==> forall e :: e in es ==> !e.KeyShares?
    requires name.Some? ==> forall e :: e in es ==> !e.ServerNames?
    requires share.None? || name.None?
    ensures ScanExtensions(EncodeExtensions(es), share, name) ==
            (if share.Some? then share else ShareOf(es), if name.Some? then name else NameOf(es))
  {
    hide U16, U16Bytes, Data, Kind, ShareAfter, NameAfter, FirstX25519, HostName, Fits;
    if es != [] {
      var e, later := es[0], es[1..];
      AfterExtension(e, share, name);
      FirstExtension(e, EncodeExtensions(later));
      var s, n := ShareAfter(Kind(e), Data(e), share), NameAfter(Kind(e), Data(e), name);
      NothingLater(es);
      if s.None? || n.None? {
        ScanExtensionsBack(later, s, n);
      }
    }
  }

  /** After the one key share or server name extension there is no second one. */
  lemma NothingLater(es: seq<Extension>)
    requires es != [] && NoRepeats(es)
    ensures NoRepeats(es[1..])
    ensures es[0].KeyShares? ==> (forall e :: e in es[1..] ==> !e.KeyShares?)
    ensures es[0].ServerNames? ==> (forall e :: e in es[1..] ==> !e.ServerNames?)
    ensures es[0].KeyShares? ==> ShareOf(es[1..]) == None
    ensures es[0].ServerNames? ==> NameOf(es[1..]) == None
  {
    forall e | e in es[1..]
      ensures es[0].KeyShares? ==> !e.KeyShares?
      ensures es[0].ServerNames? ==> !e.ServerNames?
    {
      var i :| 0 <= i < |es[1..]| && es[1..][i] == e;
      assert es[i + 1] == e;
    }
    NoneOf(es[1..]);
  }

  lemma NoneOf(es: seq<Extension>)
    ensures (forall e :: e in es ==> !e.KeyShares?) ==> ShareOf(es) == None
    ensures (forall e :: e in es ==> !e.ServerNames?) ==> NameOf(es) == None
  {
  }

  lemma ParseExtensionsBack(es: seq<Extension>, info: Info)
    requires NoRepeats(es) && (forall e :: e in es ==> Fits(e)) && |EncodeExtensions(es)| < 0x1_0000
    ensures ParseExtensions(Vec16(EncodeExtensions(es)), info) ==
            Ok(info.(publicKey := ShareOf(es), serverName := NameOf(es)))
  {
    hide U16, U16Bytes, ScanExtensions, Fits, EncodeExtensions;
    var b := EncodeExtensions(es);
    var c := Vec16(b);
    assert c[0] == U16Bytes(|b|)[0] && c[1] == U16Bytes(|b|)[1] && c[2..2 + |b|] == b;
    ScanExtensionsBack(es, None, None);
  }

  /** Where the parts of an encoded message lie. */
  lemma Layout(h: ClientHello)
    requires WellFormed(h)
    ensures var p := Encode(h);
            && 39 + |h.sessionId| <= |p| && p[0] == 1 && U24(p[1], p[2], p[3]) == |p| - 4 && p[6..38] == h.random
            && p[38..] == Vec8(h.sessionId) + (Vec16(h.cipherSuites) + (Vec8(h.compression) + Vec16(EncodeExtensions(h.extensions))))
            && p[39..39 + |h.sessionId|] == h.sessionId
  {
    hide U24, U24Bytes, U16Bytes, EncodeExtensions, Vec16, Vec8;
    var p, body := Encode(h), Body(h);
    var head := [1] + U24Bytes(|body|);
    var tail := Vec16(h.cipherSuites) + (Vec8(h.compression) + Vec16(EncodeExtensions(h.extensions)));
    assert body == h.version + h.random + (Vec8(h.sessionId) + tail);
    assert |body| % 0x100_0000 == |body| && p == head + body;
    assert p[1] == U24Bytes(|body|)[0] && p[2] == U24Bytes(|body|)[1] && p[3] == U24Bytes(|body|)[2];
    Parts(head, h.version, h.random, h.sessionId, tail);
  }

  lemma Parts(head: bytes, version: bytes, random: bytes, sessionId: bytes, tail: bytes)
    requires |head| == 4 && |version| == 2 && |random| == 32 && |sessionId| < 256
    ensures var p := head + (version + random + (Vec8(sessionId) + tail));
            && p[6..38] == random && p[38..] == Vec8(sessionId) + tail && |Vec8(sessionId)| == 1 + |sessionId|
            && 39 + |sessionId| <= |p| && p[39..39 + |sessionId|] == sessionId
  {
    var p, rest := head + (version + random + (Vec8(sessionId) + tail)), Vec8(sessionId) + tail;
    assert p == (head + version) + random + rest;
    assert p[38..] == rest;
    assert rest[1..1 + |sessionId|] == sessionId;
  }

  /** The server's parser recovers exactly what the client put into the message, with no key or name invented. */
  lemma ParseEncode(h: ClientHello)
    requires WellFormed(h)
    ensures Parse(Encode(h)) ==
            Ok(Some(Info(h.sessionId, 39, h.random, ShareOf(h.extensions), NameOf(h.extensions))))
    ensures Encode(h)[39..39 + |h.sessionId|] == h.sessionId
  {
    hide Encode, Vec8, Vec16, Take8, Take16, ParseExtensions, EncodeExtensions, NameOf, ShareOf;
    Layout(h);
    var tail := Vec16(EncodeExtensions(h.extensions));
    Take8Back(h.sessionId, Vec16(h.cipherSuites) + (Vec8(h.compression) + tail), ShortSessionIdLength, ShortSessionId);
    Take16Back(h.cipherSuites, Vec8(h.compression) + tail, ShortCipherSuitesLength, ShortCipherSuites);
    Take8Back(h.compression, tail, ShortCompressionLength, ShortCompression);
    ParseExtensionsBack(h.extensions, Info(h.sessionId, 39, h.random, None, None));
  }

  // ---- The format, by the numbers ----

  /** The first share with group 0x1D (X25519) and a key of 32 bytes. */
  ghost predicate IsFirstShare(shares: seq<KeyShare>, key: bytes, i: int) {
    && 0 <= i < |shares| && shares[i] == KeyShare(29, key)
    && forall j :: 0 <= j < i ==> shares[j].group != 29 || |shares[j].key| != 32
  }

  /** That one's key is taken, and no other. */
  lemma {:induction false} FirstShareIff(shares: seq<KeyShare>, key: bytes)
    ensures FirstX25519(shares) == Some(key) <==>
            |key| == 32 && exists i :: IsFirstShare(shares, key, i)
  {
    if shares != [] {
      FirstShareIff(shares[1..], key);
      if shares[0].group == 29 && |shares[0].key| == 32 {
        assert shares[0].key == key ==> IsFirstShare(shares, key, 0);
      } else if |key| == 32 {
        ShiftShares(shares, key);
      }
    }
  }

  lemma ShiftShares(shares: seq<KeyShare>, key: bytes)
    requires shares != [] && (shares[0].group != 29 || |shares[0].key| != 32) && |key| == 32
    ensures (exists i :: IsFirstShare(shares, key, i)) <==> exists i :: IsFirstShare(shares[1..], key, i)
  {
    if i :| IsFirstShare(shares, key, i) {
      assert forall j :: 0 <= j < i - 1 ==> shares[1..][j] == shares[j + 1];
      assert IsFirstShare(shares[1..], key, i - 1);
    }
    if i :| IsFirstShare(shares[1..], key, i) {
      assert forall j :: 0 < j <= i ==> shares[1..][j - 1] == shares[j];
      assert IsFirstShare(shares, key, i + 1);
    }
  }

  /** The host name that is taken: the first name of kind 0 decides, and is taken if it is UTF-8. */
  ghost predicate IsFirstName(names: seq<ServerName>, name: bytes, i: int) {
    0 <= i < |names| && names[i] == ServerName(0, name) && forall j :: 0 <= j < i ==> names[j].kind != 0
  }

  lemma {:induction false} FirstNameIff(names: seq<ServerName>, name: bytes)
    ensures HostName(names) == Some(name) <==> Utf8(name) && exists i :: IsFirstName(names, name, i)
  {
    hide Utf8;
    if names != [] {
      FirstNameIff(names[1..], name);
      if names[0].kind == 0 {
        assert names[0].name == name ==> IsFirstName(names, name, 0);
      } else {
        ShiftNames(names, name);
      }
    }
  }

  lemma ShiftNames(names: seq<ServerName>, name: bytes)
    requires names != [] && names[0].kind != 0
    ensures (exists i :: IsFirstName(names, name, i)) <==> exists i :: IsFirstName(names[1..], name, i)
  {
    if i :| IsFirstName(names, name, i) {
      assert forall j :: 0 <= j < i - 1 ==> names[1..][j] == names[j + 1];
      assert IsFirstName(names[1..], name, i - 1);
    }
    if i :| IsFirstName(names[1..], name, i) {
      assert forall j :: 0 < j <= i ==> names[1..][j - 1] == names[j];
      assert IsFirstName(names, name, i + 1);
    }
  }

  /** Of extensions that do not repeat, the one of each kind decides, wherever it stands. */
  lemma {:induction false} TheExtensionDecides(es: seq<Extension>, e: Extension)
    requires NoRepeats(es) && e in es
    ensures e.KeyShares? ==> ShareOf(es) == FirstX25519(e.shares)
    ensures e.ServerNames? ==> NameOf(es) == HostName(e.names)
  {
    hide FirstX25519, HostName;
    NothingLater(es);
    if e != es[0] {
      assert e in es[1..];
      TheExtensionDecides(es[1..], e);
    }
  }

  /** The last key share and the last name that any of the extensions holds. */
  function LastShare(es: seq<Extension>): Option<bytes> {
    if es == [] then None
    else
      var last := es[|es| - 1];
      if last.KeyShares? && FirstX25519(last.shares).Some? then FirstX25519(last.shares)
      else LastShare(es[..|es| - 1])
  }

  function LastName(es: seq<Extension>): Option<bytes> {
    if es == [] then None
    else
      var last := es[|es| - 1];
      if last.ServerNames? && HostName(last.names).Some? then HostName(last.names)
      else LastName(es[..|es| - 1])
  }

  ghost predicate StopsAt(es: seq<Extension>, k: int) {
    && 0 <= k <= |es|
    && (k < |es| ==> LastShare(es[..k]).Some? && LastName(es[..k]).Some?)
    && forall j :: 0 <= j < k ==> LastShare(es[..j]).None? || LastName(es[..j]).None?
  }

  /**
   * Extensions that repeat, which no client should send: the parser reads as far as it needs to know both a
   * share and a name, or to the end, and of several goes by the last it has read.
   */
  lemma RepeatedExtensions(es: seq<Extension>)
    requires forall e :: e in es ==> Fits(e)
    ensures exists k :: StopsAt(es, k) &&
              ScanExtensions(EncodeExtensions(es), None, None) == (LastShare(es[..k]), LastName(es[..k]))
  {
    assert es[0..] == es;
    ScanFrom(es, 0);
  }

  lemma {:induction false} ScanFrom(es: seq<Extension>, n: nat)
    requires n <= |es| && forall e :: e in es ==> Fits(e)
    requires forall j :: 0 <= j <= n ==> LastShare(es[..j]).None? || LastName(es[..j]).None?
    ensures exists k :: StopsAt(es, k) &&
              ScanExtensions(EncodeExtensions(es[n..]), LastShare(es[..n]), LastName(es[..n])) ==
              (LastShare(es[..k]), LastName(es[..k]))
    decreases |es| - n
  {
    hide U16, U16Bytes, Data, Kind, ShareAfter, NameAfter, FirstX25519, HostName, Fits, LastShare, LastName;
    var share, name := LastShare(es[..n]), LastName(es[..n]);
    if n == |es| {
      assert StopsAt(es, n);
      NoExtensions(share, name);
    } else {
      var e := es[n];
      assert e in es && es[n..][0] == e && es[n..][1..] == es[n + 1..];
      ReadOne(es, n);
      FirstExtension(e, EncodeExtensions(es[n + 1..]));
      if LastShare(es[..n + 1]).Some? && LastName(es[..n + 1]).Some? {
        assert StopsAt(es, n + 1);
      } else {
        ScanFrom(es, n + 1);
      }
    }
  }

  lemma NoExtensions(share: Option<bytes>, name: Option<bytes>)
    ensures ScanExtensions(EncodeExtensions([]), share, name) == (share, name)
  {
  }

  /** One more extension is read. */
  lemma ReadOne(es: seq<Extension>, n: nat)
    requires n < |es| && Fits(es[n])
    ensures |Data(es[n])| < 0x1_0000
    ensures ShareAfter(Kind(es[n]), Data(es[n]), LastShare(es[..n])) == LastShare(es[..n + 1])
    ensures NameAfter(Kind(es[n]), Data(es[n]), LastName(es[..n])) == LastName(es[..n + 1])
  {
    hide ListIn, ScanNames, ScanShares, HostName, FirstX25519;
    var e := es[n];
    assert es[..n + 1][..n] == es[..n];
    if e.ServerNames? {
      ListInBack(EncodeNames(e.names));
      ScanNamesBack(e.names);
    } else if e.KeyShares? {
      ListInBack(EncodeShares(e.shares));
      ScanSharesBack(e.shares);
    }
  }

  /** A server name extension (type 0) and an X25519 key share (type 0x33, group 0x1D), byte by byte. */
  lemma ExtensionBytes(name: bytes, key: bytes)
    ensures EncodeExtensions([ServerNames([ServerName(0, name)])]) ==
            [0, 0] + U16Bytes(|name| + 5) + U16Bytes(|name| + 3) + [0] + U16Bytes(|name|) + name
    ensures EncodeExtensions([KeyShares([KeyShare(29, key)])]) ==
            [0, 51] + U16Bytes(|key| + 6) + U16Bytes(|key| + 4) + [0, 29] + U16Bytes(|key|) + key
  {
    hide U16Bytes;
    TwoBytes(0);
    TwoBytes(51);
    TwoBytes(29);
    var n, k := ServerName(0, name), KeyShare(29, key);
    assert EncodeNames([n]) == [0] + (U16Bytes(|name|) + name) + EncodeNames([]);
    assert EncodeShares([k]) == [0, 29] + (U16Bytes(|key|) + key) + EncodeShares([]);
    OneExtension(ServerNames([n]));
    OneExtension(KeyShares([k]));
  }

  lemma OneExtension(e: Extension)
    ensures EncodeExtensions([e]) == U16Bytes(Kind(e)) + (U16Bytes(|Data(e)|) + Data(e))
  {
    hide U16Bytes, Kind, Data;
    assert EncodeExtensions([e]) == U16Bytes(Kind(e)) + Vec16(Data(e)) + EncodeExtensions([]);
  }

  /** What cutting a vector short comes to. */
  lemma CutTake8(b: bytes, rest: bytes, n: nat, e: ParseError, f: ParseError)
    requires |b| < 256 && n <= |Vec8(b) + rest|
    ensures Take8((Vec8(b) + rest)[..n], e, f) ==
            if n < 1 then Err(e) else if n < 1 + |b| then Err(f) else Ok((b, rest[..n - 1 - |b|]))
  {
    var d := Vec8(b) + rest;
    var c := d[..n];
    if n >= 1 + |b| {
      assert d[1..1 + |b|] == b && d[1 + |b|..] == rest;
      assert c[1..1 + |b|] == d[1..1 + |b|] && c[1 + |b|..] == d[1 + |b|..][..n - 1 - |b|];
    }
  }

  lemma CutTake16(b: bytes, rest: bytes, n: nat, e: ParseError, f: ParseError)
    requires |b| < 0x1_0000 && n <= |Vec16(b) + rest|
    ensures Take16((Vec16(b) + rest)[..n], e, f) ==
            if n < 2 then Err(e) else if n < 2 + |b| then Err(f) else Ok((b, rest[..n - 2 - |b|]))
  {
    hide U16, U16Bytes;
    var d := Vec16(b) + rest;
    var c := d[..n];
    if n >= 2 {
      assert c[0] == U16Bytes(|b|)[0] && c[1] == U16Bytes(|b|)[1];
      if n >= 2 + |b| {
        assert d[2..2 + |b|] == b && d[2 + |b|..] == rest;
        assert c[2..2 + |b|] == d[2..2 + |b|] && c[2 + |b|..] == d[2 + |b|..][..n - 2 - |b|];
      }
    }
  }

  /** A message cut short after the session id: which part is missing decides. */
  lemma CutAfterSessionId(suites: bytes, compression: bytes, extensions: bytes, n: nat, info: Info)
    requires |suites| < 0x1_0000 && |compression| < 256 && |extensions| < 0x1_0000
    requires n < |Vec16(suites) + (Vec8(compression) + Vec16(extensions))|
    ensures var suitesEnd := 2 + |suites|;
            var compressionEnd := suitesEnd + 1 + |compression|;
            ParseAfterSessionId((Vec16(suites) + (Vec8(compression) + Vec16(extensions)))[..n], info) ==
            if n < 2 then Err(ShortCipherSuitesLength)
            else if n < suitesEnd then Err(ShortCipherSuites)
            else if n < suitesEnd + 1 then Err(ShortCompressionLength)
            else if n < compressionEnd then Err(ShortCompression)
            else if n < compressionEnd + 2 then Ok(info)
            else Err(ShortExtensions)
  {
    hide U16, U16Bytes, Vec16, Vec8, Take8, Take16, ScanExtensions;
    VecLengths(suites, compression, extensions);
    CutTake16(suites, Vec8(compression) + Vec16(extensions), n, ShortCipherSuitesLength, ShortCipherSuites);
    if n >= 2 + |suites| {
      var m := n - 2 - |suites|;
      CutTake8(compression, Vec16(extensions), m, ShortCompressionLength, ShortCompression);
      if m >= 1 + |compression| {
        var k := m - 1 - |compression|;
        CutExtensions(extensions, k, info);
      }
    }
  }

  lemma CutExtensions(extensions: bytes, k: nat, info: Info)
    requires |extensions| < 0x1_0000 && k < |extensions| + 2 == |Vec16(extensions)|
    ensures ParseExtensions(Vec16(extensions)[..k], info) == if k < 2 then Ok(info) else Err(ShortExtensions)
  {
    hide U16, U16Bytes, ScanExtensions;
    if k >= 2 {
      var c := Vec16(extensions)[..k];
      assert c[0] == U16Bytes(|extensions|)[0] && c[1] == U16Bytes(|extensions|)[1];
    }
  }

  lemma VecLengths(suites: bytes, compression: bytes, extensions: bytes)
    ensures |Vec16(suites)| == 2 + |suites| && |Vec8(compression)| == 1 + |compression| && |Vec16(extensions)| == 2 + |extensions|
  {
  }

  /**
   * Every proper prefix of an encoded hello, and what the parser makes of it: no hello before the fourth
   * byte, then the error of the part that is cut, except that a message may end before its extensions.
   */
  lemma CutHello(h: ClientHello, n: nat)
    requires WellFormed(h) && n < |Encode(h)|
    ensures var sessionEnd := 39 + |h.sessionId|;
            var suitesEnd := sessionEnd + 2 + |h.cipherSuites|;
            var compressionEnd := suitesEnd + 1 + |h.compression|;
            Parse(Encode(h)[..n]) ==
            if n < 4 then Ok(None)
            else if n < 6 then Err(ShortVersion)
            else if n < 38 then Err(ShortRandom)
            else if n < 39 then Err(ShortSessionIdLength)
            else if n < sessionEnd then Err(ShortSessionId)
            else if n < sessionEnd + 2 then Err(ShortCipherSuitesLength)
            else if n < suitesEnd then Err(ShortCipherSuites)
            else if n < suitesEnd + 1 then Err(ShortCompressionLength)
            else if n < compressionEnd then Err(ShortCompression)
            else if n < compressionEnd + 2 then Ok(Some(Info(h.sessionId, 39, h.random, None, None)))
            else Err(ShortExtensions)
  {
    hide Encode, Vec8, Vec16, Take8, Take16, ParseAfterSessionId, EncodeExtensions, U24, WellFormed;
    Layout(h);
    SizesFit(h);
    var p, es := Encode(h), EncodeExtensions(h.extensions);
    var q, tail := p[..n], Vec16(h.cipherSuites) + (Vec8(h.compression) + Vec16(es));
    if n >= 38 {
      assert q[38..] == p[38..][..n - 38] && q[6..38] == p[6..38];
      CutTake8(h.sessionId, tail, n - 38, ShortSessionIdLength, ShortSessionId);
      if n >= 39 + |h.sessionId| {
        SessionLength(h, tail);
        CutAfterSessionId(h.cipherSuites, h.compression, es, n - 39 - |h.sessionId|,
                          Info(h.sessionId, 39, h.random, None, None));
      }
    }
  }

  lemma SizesFit(h: ClientHello)
    requires WellFormed(h)
    ensures |h.sessionId| < 256 && |h.compression| < 256 && |h.cipherSuites| < 0x1_0000 && |EncodeExtensions(h.extensions)| < 0x1_0000
  {
  }

  lemma SessionLength(h: ClientHello, tail: bytes)
    requires |Encode(h)| >= 38 && Encode(h)[38..] == Vec8(h.sessionId) + tail
    ensures |Encode(h)| == 39 + |h.sessionId| + |tail|
  {
    hide Encode;
  }

  /** `verify_client_reality` blanks 32 bytes from the session id's offset on, inside the message only. */
  method BlankSessionId(aad: array<byte>, pos: nat)
    modifies aad
    ensures aad[..] == Blanked(old(aad[..]), pos)
  {
    var i := 0;
    while i < 32
      invariant 0 <= i <= 32
      invariant forall k :: 0 <= k < aad.Length ==>
                  aad[k] == if pos <= k < pos + i then 0 else old(aad[k])
    {
      if pos + i < aad.Length {
        aad[pos + i] := 0;
      }
      i := i + 1;
    }
  }

  function Blanked(p: bytes, pos: nat): bytes {
    seq(|p|, k requires 0 <= k < |p| => if pos <= k < pos + 32 then 0 else p[k])
  }

  /**
   * With the 32-byte session id the server insists on, the bytes it authenticates are the encoding of
   * the same message with an all-zero session id: nothing else of the message is lost.
   */
  lemma BlankingIsReencoding(h: ClientHello)
    requires WellFormed(h) && |h.sessionId| == 32
    ensures Blanked(Encode(h), 39) == Encode(h.(sessionId := seq(32, _ => 0)))
  {
    hide U24, U24Bytes, U16Bytes, EncodeExtensions, Vec16;
    var zero: bytes := seq(32, _ => 0);
    var before := h.version + h.random + [32];
    var after := Vec16(h.cipherSuites) + Vec8(h.compression) + Vec16(EncodeExtensions(h.extensions));
    assert Body(h) == before + h.sessionId + after;
    assert Body(h.(sessionId := zero)) == before + zero + after;
    var head := [1] + U24Bytes(|Body(h)| % 0x100_0000) + before;
    assert |head| == 39;
    assert Encode(h) == head + h.sessionId + after;
    assert Encode(h.(sessionId := zero)) == head + zero + after;
  }

  // ---- The parser's loops ----

  method FindHostName(list: bytes) returns (name: Option<bytes>)
    ensures name == ScanNames(list)
  {
    hide U16, Utf8;
    var pos := 0;
    while pos < |list|
      invariant 0 <= pos <= |list| && ScanNames(list) == ScanNames(list[pos..])
    {
      if |list| - pos < 3 {
        break;
      }
      var nameType, nameLen := list[pos], U16(list[pos + 1], list[pos + 2]);
      pos := pos + 3;
      if |list| - pos < nameLen {
        break;
      }
      if nameType == 0 {
        var nameBytes := list[pos..pos + nameLen];
        SliceOfTail(list, pos - 3, 3, 3 + nameLen);
        return if Utf8(nameBytes) then Some(nameBytes) else None;
      }
      SliceOfTail(list, pos - 3, 3, 3 + nameLen);
      pos := pos + nameLen;
    }
    name := None;
  }

  method FindX25519(list: bytes) returns (key: Option<bytes>)
    ensures key == ScanShares(list)
  {
    hide U16, Utf8;
    var pos := 0;
    while pos < |list|
      invariant 0 <= pos <= |list| && ScanShares(list) == ScanShares(list[pos..])
    {
      if |list| - pos < 4 {
        break;
      }
      var group, keyLen := U16(list[pos], list[pos + 1]), U16(list[pos + 2], list[pos + 3]);
      pos := pos + 4;
      if |list| - pos < keyLen {
        break;
      }
      if group == X25519 && keyLen == 32 {
        SliceOfTail(list, pos - 4, 4, 36);
        return Some(list[pos..pos + 32]);
      }
      SliceOfTail(list, pos - 4, 4, 4 + keyLen);
      pos := pos + keyLen;
    }
    key := None;
  }

  method ReadServerName(extType: nat, extData: bytes, known: Option<bytes>) returns (serverName: Option<bytes>)
    ensures serverName == NameAfter(extType, extData, known)
  {
    serverName := known;
    if extType == SERVER_NAME && |extData| >= 2 {
      var listLen := U16(extData[0], extData[1]);
      if |extData| - 2 >= listLen {
        var found := FindHostName(extData[2..2 + listLen]);
        if found.Some? {
          serverName := found;
        }
      }
    }
  }

  method ReadKeyShare(extType: nat, extData: bytes, known: Option<bytes>) returns (publicKey: Option<bytes>)
    ensures publicKey == ShareAfter(extType, extData, known)
  {
    publicKey := known;
    if extType == KEY_SHARE && |extData| >= 2 {
      var sharesLen := U16(extData[0], extData[1]);
      if |extData| - 2 >= sharesLen {
        var found := FindX25519(extData[2..2 + sharesLen]);
        if found.Some? {
          publicKey := found;
        }
      }
    }
  }

  method ReadExtensions(extensions: bytes) returns (publicKey: Option<bytes>, serverName: Option<bytes>)
    ensures publicKey == ScanExtensions(extensions, None, None).0 && serverName == ScanExtensions(extensions, None, None).1
  {
    hide U16, ShareAfter, NameAfter;
    publicKey, serverName := None, None;
    var pos := 0;
    assert extensions[0..] == extensions;
    while pos < |extensions|
      invariant 0 <= pos <= |extensions|
      invariant ScanExtensions(extensions, None, None) == ScanExtensions(extensions[pos..], publicKey, serverName)
    {
      if |extensions| - pos < 4 {
        break;
      }
      var extType, extLen := U16(extensions[pos], extensions[pos + 1]), U16(extensions[pos + 2], extensions[pos + 3]);
      pos := pos + 4;
      if |extensions| - pos < extLen {
        break;
      }
      var extData := extensions[pos..pos + extLen];
      SliceOfTail(extensions, pos - 4, 4, 4 + extLen);
      pos := pos + extLen;
      serverName := ReadServerName(extType, extData, serverName);
      publicKey := ReadKeyShare(extType, extData, publicKey);
      if publicKey.Some? && serverName.Some? {
        break;
      }
    }
  }

  /** The message from the cipher suites on, which begin at `start`. */
  method ParseSuites(payload: bytes, start: nat, info: Info) returns (r: Result<Info, ParseError>)
    requires start <= |payload|
    ensures r == ParseAfterSessionId(payload[start..], info)
  {
    hide U16, ScanExtensions, ParseExtensions;
    var pos := start;
    if |payload| - pos < 2 {
      return Err(ShortCipherSuitesLength);
    }
    var cipherSuitesLen := U16(payload[pos], payload[pos + 1]);
    pos := pos + 2;
    if |payload| - pos < cipherSuitesLen {
      return Err(ShortCipherSuites);
    }
    pos := pos + cipherSuitesLen;
    SliceOfTail(payload, start, 2, 2 + cipherSuitesLen);
    if |payload| - pos < 1 {
      return Err(ShortCompressionLength);
    }
    var compressionLen: nat := payload[pos];
    pos := pos + 1;
    if |payload| - pos < compressionLen {
      return Err(ShortCompression);
    }
    pos := pos + compressionLen;
    SliceOfTail(payload, pos - compressionLen - 1, 1, 1 + compressionLen);
    r := ParseExtensionBlock(payload, pos, info);
  }

  method ParseExtensionBlock(payload: bytes, start: nat, info: Info) returns (r: Result<Info, ParseError>)
    requires start <= |payload|
    ensures r == ParseExtensions(payload[start..], info)
  {
    hide U16, ScanExtensions;
    var pos := start;
    if |payload| - pos < 2 {
      return Ok(info);
    }
    var extensionsLen := U16(payload[pos], payload[pos + 1]);
    pos := pos + 2;
    if |payload| - pos < extensionsLen {
      return Err(ShortExtensions);
    }
    SliceOfTail(payload, start, 2, 2 + extensionsLen);
    var publicKey, serverName := ReadExtensions(payload[pos..pos + extensionsLen]);
    r := Ok(info.(publicKey := publicKey, serverName := serverName));
  }

  method ParseClientHello(payload: bytes) returns (r: Result<Option<Info>, ParseError>)
    ensures r == Parse(payload)
  {
    hide ParseAfterSessionId;
    if |payload| < 4 || payload[0] != 1 {
      return Ok(None);
    }
    if |payload| < 6 {
      return Err(ShortVersion);
    }
    if |payload| < 38 {
      return Err(ShortRandom);
    }
    var clientRandom := payload[6..38];
    ghost var c := payload[38..];
    if |payload| < 39 {
      return Err(ShortSessionIdLength);
    }
    var pos := 39;
    var sessionIdLen: nat := payload[38];
    if |payload| - pos < sessionIdLen {
      return Err(ShortSessionId);
    }
    var sessionIdOffset := pos;
    var sessionId := payload[pos..pos + sessionIdLen];
    pos := pos + sessionIdLen;
    SliceOfTail(payload, 38, 1, 1 + sessionIdLen);
    assert c[1..1 + sessionIdLen] == sessionId && c[1 + sessionIdLen..] == payload[pos..];
    var rest := ParseSuites(payload, pos, Info(sessionId, sessionIdOffset, clientRandom, None, None));
    r := if rest.Err? then Err(rest.error) else Ok(Some(rest.value));
  }
}
