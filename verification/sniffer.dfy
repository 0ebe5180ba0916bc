/** The sniffer's reading of the server name from the first TLS record of a connection. */
module Sniffer {
  import opened Bytes
  import opened Options
  import opened ClientHellos

  /** The sniffer steps over a host name that is not UTF-8 and keeps looking. */
  function SniffNames(list: bytes): Option<bytes>
    decreases |list|
  {
    if |list| < 3 then None
    else
      var len := U16(list[1], list[2]);
      if |list| < 3 + len then None
      else if list[0] == 0 && Utf8(list[3..3 + len]) then Some(list[3..3 + len])
      else SniffNames(list[3 + len..])
  }

  /** A malformed server name extension ends the search; the list length is checked but not used. */
  function SniffExtensions(es: bytes): Option<bytes>
    decreases |es|
  {
    if |es| < 4 then None
    else
      var len := U16(es[2], es[3]);
      if |es| < 4 + len then None
      else
        var data, later := es[4..4 + len], es[4 + len..];
        if U16(es[0], es[1]) != SERVER_NAME then SniffExtensions(later)
        else if ListIn(data).None? then None
        else
          var name := SniffNames(data[2..]);
          if name.Some? then name else SniffExtensions(later)
  }

  function SniffTail(c: bytes): Option<bytes> {
    if |c| < 2 || |c| < 2 + U16(c[0], c[1]) then None else SniffExtensions(c[2..2 + U16(c[0], c[1])])
  }

  function SniffAfterSessionId(c: bytes): Option<bytes> {
    match Take16(c, ShortCipherSuitesLength, ShortCipherSuites)
    case Err(_) => None
    case Ok((_, c)) =>
      match Take8(c, ShortCompressionLength, ShortCompression)
      case Err(_) => None
      case Ok((_, c)) => SniffTail(c)
  }

  function SniffHello(p: bytes): Option<bytes> {
    if |p| < 4 || p[0] != 1 || |p| < 4 + U24(p[1], p[2], p[3]) || |p| <= 38 then None
    else
      match Take8(p[38..], ShortSessionIdLength, ShortSessionId)
      case Err(_) => None
      case Ok((_, c)) => SniffAfterSessionId(c)
  }

  function Sniff(buf: bytes): Option<bytes> {
    if |buf| < 5 || buf[0] != 0x16 || |buf| < 5 + U16(buf[3], buf[4]) then None
    else SniffHello(buf[5..5 + U16(buf[3], buf[4])])
  }

  /** A handshake record (section 5.1 of RFC 8446). */
  function Record(version: bytes, body: bytes): bytes {
    [0x16] + version + Vec16(body)
  }

  lemma {:induction false} SniffNamesBack(names: seq<ServerName>)
    requires forall n :: n in names ==> |n.name| < 0x1_0000
    requires forall i, j :: 0 <= i < j < |names| ==> names[i].kind != 0 || names[j].kind != 0
    ensures SniffNames(EncodeNames(names)) == HostName(names)
    ensures (forall n :: n in names ==> n.kind != 0) ==> HostName(names) == None
  {
    hide U16, U16Bytes, Vec16, Utf8;
    if names != [] {
      FirstName(names[0], EncodeNames(names[1..]));
      SniffNamesBack(names[1..]);
      forall n | n in names[1..] && names[0].kind == 0 ensures n.kind != 0 {
        var i :| 0 <= i < |names[1..]| && names[1..][i] == n;
        assert names[i + 1] == n;
      }
    }
  }

  lemma {:induction false} SniffExtensionsBack(es: seq<Extension>)
    requires NoRepeats(es) && forall e :: e in es ==> Fits(e)
    ensures SniffExtensions(EncodeExtensions(es)) == NameOf(es)
  {
    hide U16, U16Bytes, Vec16, HostName, SniffNames, EncodeNames, EncodeShares, ListIn;
    if es != [] {
      var e, later := es[0], es[1..];
      AfterExtension(e, None, None);
      FirstExtension(e, EncodeExtensions(later));
      NothingLater(es);
      SniffExtensionsBack(later);
      if e.ServerNames? {
        ListInBack(EncodeNames(e.names));
        SniffNamesBack(e.names);
        VecBody(EncodeNames(e.names));
      }
    }
  }

  lemma VecBody(b: bytes)
    ensures |Vec16(b)| == |b| + 2 && Vec16(b)[2..] == b
  {
  }

  /**
   * On a ClientHello that fits one record, whatever follows the record, the sniffer finds the name the
   * Reality server's parser finds.
   */
  lemma SniffAgreesWithParse(h: ClientHello, version: bytes, rest: bytes)
    requires WellFormed(h) && |version| == 2 && |Encode(h)| < 0x1_0000
    ensures Sniff(Record(version, Encode(h)) + rest) == NameOf(h.extensions)
    ensures Parse(Encode(h)).Ok? && Parse(Encode(h)).value.Some?
    ensures Sniff(Record(version, Encode(h)) + rest) == Parse(Encode(h)).value.value.serverName
  {
    hide Encode, Vec8, Take8, Take16, EncodeExtensions, NameOf, ShareOf, U16, U16Bytes, U24, Parse, SniffTail;
    var m := Encode(h);
    ParseEncode(h);
    Layout(h);
    var buf := Record(version, m) + rest;
    assert buf[3] == U16Bytes(|m|)[0] && buf[4] == U16Bytes(|m|)[1] && buf[5..5 + |m|] == m;
    var tail := Vec16(EncodeExtensions(h.extensions));
    Take8Back(h.sessionId, Vec16(h.cipherSuites) + (Vec8(h.compression) + tail), ShortSessionIdLength, ShortSessionId);
    Take16Back(h.cipherSuites, Vec8(h.compression) + tail, ShortCipherSuitesLength, ShortCipherSuites);
    Take8Back(h.compression, tail, ShortCompressionLength, ShortCompression);
    SniffTailBack(h.extensions);
    assert m[38..] != [] by {
      VecLength(h.sessionId);
    }
  }

  lemma VecLength(b: bytes)
    ensures |Vec8(b)| == |b| + 1
  {
  }

  lemma SniffTailBack(es: seq<Extension>)
    requires NoRepeats(es) && (forall e :: e in es ==> Fits(e)) && |EncodeExtensions(es)| < 0x1_0000
    ensures SniffTail(Vec16(EncodeExtensions(es))) == NameOf(es)
  {
    hide U16, U16Bytes, SniffExtensions, Fits, EncodeExtensions;
    var b := EncodeExtensions(es);
    var c := Vec16(b);
    assert c[0] == U16Bytes(|b|)[0] && c[1] == U16Bytes(|b|)[1] && c[2..2 + |b|] == b;
    SniffExtensionsBack(es);
  }

  /** The first name the sniffer can use: of kind 0 and UTF-8. */
  ghost predicate FirstUsable(names: seq<ServerName>, name: bytes, i: int) {
    && 0 <= i < |names| && names[i] == ServerName(0, name) && Utf8(name)
    && forall j :: 0 <= j < i ==> names[j].kind != 0 || !Utf8(names[j].name)
  }

  /** Unlike the Reality server's parser, the sniffer passes over a host name that is not UTF-8. */
  lemma {:induction false} UnusableNamesArePassedOver(names: seq<ServerName>, name: bytes)
    requires forall n :: n in names ==> |n.name| < 0x1_0000
    ensures SniffNames(EncodeNames(names)) == Some(name) <==> exists i :: FirstUsable(names, name, i)
  {
    hide U16, U16Bytes, Vec16, Utf8;
    if names != [] {
      FirstName(names[0], EncodeNames(names[1..]));
      UnusableNamesArePassedOver(names[1..], name);
      if names[0].kind == 0 && Utf8(names[0].name) {
        assert names[0].name == name ==> FirstUsable(names, name, 0);
      } else {
        ShiftUsable(names, name);
      }
    }
  }

  lemma ShiftUsable(names: seq<ServerName>, name: bytes)
    requires names != [] && (names[0].kind != 0 || !Utf8(names[0].name))
    ensures (exists i :: FirstUsable(names, name, i)) <==> exists i :: FirstUsable(names[1..], name, i)
  {
    hide Utf8;
    if i :| FirstUsable(names, name, i) {
      assert forall j :: 0 <= j < i - 1 ==> names[1..][j] == names[j + 1];
      assert FirstUsable(names[1..], name, i - 1);
    }
    if i :| FirstUsable(names[1..], name, i) {
      assert forall j :: 0 < j <= i ==> names[1..][j - 1] == names[j];
      assert FirstUsable(names, name, i + 1);
    }
  }

  /**
   * A name is only found in a complete handshake record (type 0x16) that holds a complete ClientHello
   * (type 1) of at least 38 bytes, and what follows the record plays no part.
   */
  lemma OnlyACompleteHelloIsSniffed(buf: bytes)
    requires Sniff(buf).Some?
    ensures |buf| >= 9 && buf[0] == 22 && buf[5] == 1
    ensures var recordLen, helloLen := U16(buf[3], buf[4]), U24(buf[6], buf[7], buf[8]);
            && 5 + recordLen <= |buf| && 4 + helloLen <= recordLen && 38 < recordLen
            && Sniff(buf[..5 + recordLen]) == Sniff(buf)
  {
    hide SniffAfterSessionId, Take8, U16, U24;
    var recordLen := U16(buf[3], buf[4]);
    var payload := buf[5..5 + recordLen];
    assert payload[0] == buf[5] && payload[1] == buf[6] && payload[2] == buf[7] && payload[3] == buf[8];
    assert buf[..5 + recordLen][5..5 + recordLen] == payload;
  }

  /** The walk over the names, between two indexes of the record. */
  method FindName(payload: bytes, from: nat, end: nat) returns (name: Option<bytes>)
    requires from <= end <= |payload|
    ensures name == SniffNames(payload[from..end])
  {
    hide U16, Utf8;
    var inner := from;
    while inner + 3 <= end
      invariant from <= inner <= end
      invariant SniffNames(payload[from..end]) == SniffNames(payload[inner..end])
    {
      ghost var here := payload[inner..end];
      var nameType, nameLen := payload[inner], U16(payload[inner + 1], payload[inner + 2]);
      inner := inner + 3;
      if inner + nameLen > end {
        break;
      }
      SliceOfSlice(payload, inner - 3, end, 3, 3 + nameLen);
      assert here[3 + nameLen..] == payload[inner + nameLen..end];
      if nameType == 0 {
        var hostname := payload[inner..inner + nameLen];
        if Utf8(hostname) {
          return Some(hostname);
        }
      }
      inner := inner + nameLen;
    }
    name := None;
  }

  lemma TailOfSlice(s: bytes, from: nat, to: nat, a: nat)
    requires from <= to <= |s| && a <= to - from
    ensures s[from..to][a..] == s[from + a..to]
  {
    assert forall k :: 0 <= k < to - from - a ==> s[from..to][a..][k] == s[from + a..to][k];
  }

  /** One step of the walk over the extensions, between two indexes of the record. */
  lemma ExtensionAt(payload: bytes, index: nat, end: nat)
    requires index + 4 <= end <= |payload|
    ensures var start, len := index + 4, U16(payload[index + 2], payload[index + 3]);
            if start + len > end then SniffExtensions(payload[index..end]) == None
            else
              var data, later := payload[start..start + len], SniffExtensions(payload[start + len..end]);
              SniffExtensions(payload[index..end]) ==
              if U16(payload[index], payload[index + 1]) != SERVER_NAME then later
              else if ListIn(data).None? then None
              else if SniffNames(data[2..]).Some? then SniffNames(data[2..])
              else later
  {
    hide U16, SniffNames, ListIn;
    var len := U16(payload[index + 2], payload[index + 3]);
    if index + 4 + len <= end {
      SliceOfSlice(payload, index, end, 4, 4 + len);
      TailOfSlice(payload, index, end, 4 + len);
    }
  }

  method FindInExtensions(payload: bytes, from: nat, targetEnd: nat) returns (name: Option<bytes>)
    requires from <= targetEnd <= |payload|
    ensures name == SniffExtensions(payload[from..targetEnd])
  {
    hide U16, SniffNames, SniffExtensions;
    var index := from;
    while index + 4 <= targetEnd
      invariant from <= index <= targetEnd
      invariant SniffExtensions(payload[from..targetEnd]) == SniffExtensions(payload[index..targetEnd])
    {
      ExtensionAt(payload, index, targetEnd);
      var extType := U16(payload[index], payload[index + 1]);
      var extDataLen := U16(payload[index + 2], payload[index + 3]);
      index := index + 4;
      if index + extDataLen > targetEnd {
        break;
      }
      ghost var data := payload[index..index + extDataLen];
      if extType == SERVER_NAME {
        var inner := index;
        if inner + 2 > index + extDataLen {
          break;
        }
        var listLen := U16(payload[inner], payload[inner + 1]);
        inner := inner + 2;
        if inner + listLen > index + extDataLen {
          break;
        }
        SliceOfSlice(payload, index, index + extDataLen, 2, extDataLen);
        assert data[2..] == data[2..extDataLen];
        var found := FindName(payload, inner, index + extDataLen);
        if found.Some? {
          return found;
        }
      }
      index := index + extDataLen;
    }
    NoExtension(payload[index..targetEnd]);
    name := None;
  }

  lemma NoExtension(es: bytes)
    ensures |es| < 4 ==> SniffExtensions(es) == None
  {
  }

  /** The first half: the record, its handshake header, and everything up to the session id. */
  method ParseSniFromBytes(buf: bytes) returns (name: Option<bytes>)
    ensures name == Sniff(buf)
  {
    hide U16, U24, SniffAfterSessionId;
    if |buf| < 5 || buf[0] != 0x16 {
      return None;
    }
    var recordLen := U16(buf[3], buf[4]);
    if |buf| < 5 + recordLen {
      return None;
    }
    var payload := buf[5..5 + recordLen];
    if |payload| < 4 || payload[0] != 1 {
      return None;
    }
    if |payload| < 4 + U24(payload[1], payload[2], payload[3]) {
      return None;
    }
    var index: nat := 38;
    if index >= |payload| {
      return None;
    }
    ghost var c := payload[38..];
    var sessionIdLen: nat := payload[index];
    index := index + 1 + sessionIdLen;
    if index + 2 > |payload| {
      ShortAfterSessionId(c);
      return None;
    }
    assert c[1 + sessionIdLen..] == payload[index..];
    name := ParseAfterIndex(payload, index);
  }

  lemma ShortAfterSessionId(c: bytes)
    requires 1 <= |c|
    ensures |c| < 1 + c[0] as int + 2 ==>
              match Take8(c, ShortSessionIdLength, ShortSessionId)
              case Err(_) => true
              case Ok((_, d)) => SniffAfterSessionId(d) == None
  {
  }

  /** The second half, from the cipher suites on. */
  method ParseAfterIndex(payload: bytes, start: nat) returns (name: Option<bytes>)
    requires start + 2 <= |payload|
    ensures name == SniffAfterSessionId(payload[start..])
  {
    hide U16, SniffExtensions;
    var index := start;
    ghost var c := payload[index..];
    var cipherSuitesLen := U16(payload[index], payload[index + 1]);
    index := index + 2 + cipherSuitesLen;
    if index + 1 > |payload| {
      return None;
    }
    assert c[2 + cipherSuitesLen..] == payload[index..];
    c := payload[index..];
    var compLen: nat := payload[index];
    index := index + 1 + compLen;
    if index + 2 > |payload| {
      return None;
    }
    assert c[1 + compLen..] == payload[index..];
    c := payload[index..];
    var extLen := U16(payload[index], payload[index + 1]);
    index := index + 2;
    var targetEnd := index + extLen;
    if targetEnd > |payload| {
      return None;
    }
    assert c[2..2 + extLen] == payload[index..targetEnd];
    name := FindInExtensions(payload, index, targetEnd);
  }
}
