/** In-place repair of the IPv4, TCP and UDP checksums of a captured packet. */
module Checksum {
  import opened Bytes
  import opened Options

  const WRAP := 0x1_0000_0000

  // ---- One's complement sums, as section 1 of RFC 1071 defines them ----

  /** Addition of 16-bit words with the carry brought round to the low end. */
  function OnesAdd(a: u16, b: u16): u16 {
    if a + b > 0xFFFF then a + b - 0xFFFF else a + b
  }

  /** The one's complement sum of the 16-bit words of `s`; an odd last byte is padded with zero. */
  function OnesSum(s: bytes): u16 {
    if s == [] then 0
    else if |s| == 1 then U16(s[0], 0)
    else OnesAdd(U16(s[0], s[1]), OnesSum(s[2..]))
  }

  /** The checksum of data whose checksum field is zero. */
  function Complement(s: bytes): u16 {
    0xFFFF - OnesSum(s)
  }

  /** The plain sum of the words, which `internet_checksum` accumulates before it folds. */
  function WordSum(s: bytes): (n: nat)
    ensures n <= 0xFFFF * ((|s| + 1) / 2)
  {
    if s == [] then 0
    else if |s| == 1 then U16(s[0], 0)
    else U16(s[0], s[1]) + WordSum(s[2..])
  }

  /** The 16-bit word that folding the carries of `n` ends in. */
  function Folded(n: nat): u16 {
    if n == 0 then 0 else 1 + (n - 1) % 0xFFFF
  }

  lemma FoldedPeriod(n: nat, k: nat)
    requires n > 0
    ensures Folded(n + 0xFFFF * k) == Folded(n)
  {
    if k > 0 {
      FoldedPeriod(n, k - 1);
      assert (n - 1 + 0xFFFF * k) % 0xFFFF == (n - 1 + 0xFFFF * (k - 1)) % 0xFFFF;
    }
  }

  lemma {:induction false} OnesSumFoldsTheWordSum(s: bytes)
    ensures OnesSum(s) == Folded(WordSum(s))
  {
    if |s| >= 2 {
      OnesSumFoldsTheWordSum(s[2..]);
      AddThenFold(U16(s[0], s[1]), WordSum(s[2..]));
    }
  }

  lemma AddThenFold(w: u16, n: nat)
    ensures OnesAdd(w, Folded(n)) == Folded(w + n)
  {
    if n > 0 && w > 0 {
      var k := (n - 1) / 0xFFFF;
      assert n == Folded(n) + 0xFFFF * k;
      FoldedPeriod(w + Folded(n), k);
    }
  }

  /**
   * The engine's checksum: words accumulated in 32 bits, carries folded at the end. It is the complement
   * of the one's complement sum for any data whose sum cannot wrap, so for every packet.
   */
  method InternetChecksum(data: bytes) returns (checksum: u16)
    ensures |data| <= 0x2_0000 ==> checksum == Complement(data)
  {
    hide WordSum, U16, Folded, OnesSum;
    var sum := 0;
    var i := 0;
    WordSumStep(data, 0);
    while i + 2 <= |data|
      invariant 0 <= i <= |data| && i % 2 == 0 && 0 <= sum
      invariant |data| <= 0x2_0000 ==> sum + WordSum(data[i..]) == WordSum(data)
    {
      WordSumStep(data, i);
      sum := (sum + U16(data[i], data[i + 1])) % WRAP;
      i := i + 2;
    }
    WordSumStep(data, i);
    if i < |data| {
      sum := (sum + U16(data[i], 0)) % WRAP;
    }
    assert |data| <= 0x2_0000 ==> sum == WordSum(data);
    OnesSumFoldsTheWordSum(data);
    while sum > 0xFFFF
      invariant 0 <= sum
      invariant |data| <= 0x2_0000 ==> Folded(sum) == OnesSum(data)
    {
      FoldOnce(sum);
      sum := sum % 0x1_0000 + sum / 0x1_0000;
    }
    FoldedSmall(sum);
    checksum := 0xFFFF - sum;
  }

  lemma FoldedSmall(n: nat)
    ensures n <= 0xFFFF ==> Folded(n) == n
  {
  }

  lemma WordSumStep(s: bytes, i: nat)
    requires i <= |s|
    ensures s[0..] == s
    ensures |s| <= 0x2_0000 ==> 0 <= WordSum(s[i..]) < WRAP
    ensures i == |s| ==> WordSum(s[i..]) == 0
    ensures i + 1 == |s| ==> WordSum(s[i..]) == U16(s[i], 0)
    ensures i + 2 <= |s| ==> WordSum(s[i..]) == U16(s[i], s[i + 1]) + WordSum(s[i + 2..])
  {
    hide U16;
    if i + 2 <= |s| {
      assert s[i..][2..] == s[i + 2..];
    }
  }

  lemma FoldOnce(n: nat)
    requires n > 0xFFFF
    ensures n % 0x1_0000 + n / 0x1_0000 < n
    ensures Folded(n % 0x1_0000 + n / 0x1_0000) == Folded(n)
  {
    var q := n / 0x1_0000;
    FoldedPeriod(n % 0x1_0000 + q, q);
    assert n == n % 0x1_0000 + q + 0xFFFF * q;
  }

  // ---- The packet ----

  function SetWord(p: bytes, at: nat, w: u16): (r: bytes)
    requires at + 2 <= |p|
    ensures |r| == |p| && U16(r[at], r[at + 1]) == w
    ensures forall i :: 0 <= i < |p| && i != at && i != at + 1 ==> r[i] == p[i]
  {
    p[at := w / 256][at + 1 := w % 256]
  }

  function HeaderLength(p: bytes): nat
    requires p != []
  {
    p[0] % 16 * 4
  }

  /** The packet's own length field, cut off at the captured length. */
  function PacketLength(p: bytes): nat
    requires 4 <= |p|
  {
    var total := U16(p[2], p[3]);
    if |p| < total then |p| else total
  }

  predicate Repairable(p: bytes) {
    20 <= |p| && p[0] / 16 == 4 && HeaderLength(p) <= |p| && HeaderLength(p) <= PacketLength(p)
  }

  /** Where the transport checksum sits, if the packet has one that is repaired. */
  function TransportField(p: bytes): (at: Option<nat>)
    requires Repairable(p)
    ensures at.Some? ==> HeaderLength(p) <= at.value && at.value + 2 <= PacketLength(p) <= |p|
    ensures at.Some? ==> 6 <= at.value && at.value % 2 == 0 && at.value != 8
  {
    var len := PacketLength(p) - HeaderLength(p);
    if p[9] == 6 && len >= 20 then Some(HeaderLength(p) + 16)
    else if p[9] == 17 && len >= 8 then Some(HeaderLength(p) + 6)
    else None
  }

  /** Writing a checksum field leaves every branch of the repair as it was. */
  lemma FieldKeepsShape(p: bytes, at: nat, w: u16)
    requires Repairable(p) && 6 <= at && at % 2 == 0 && at != 8 && at + 2 <= |p|
    ensures var r := SetWord(p, at, w);
            && HeaderLength(r) == HeaderLength(p) && PacketLength(r) == PacketLength(p)
            && Repairable(r) && r[9] == p[9] && TransportField(r) == TransportField(p)
  {
    hide SetWord, U16;
    var r := SetWord(p, at, w);
    assert r[0] == p[0] && r[2] == p[2] && r[3] == p[3] && r[9] == p[9];
  }

  /** What the transport checksum covers: the pseudo header and the segment. */
  function Covered(p: bytes): bytes
    requires Repairable(p)
  {
    p[12..20] + [0, p[9]] + U16Bytes(PacketLength(p) - HeaderLength(p)) + p[HeaderLength(p)..PacketLength(p)]
  }

  function FixHeader(p: bytes): (r: bytes)
    requires Repairable(p)
    ensures |r| == |p| && forall i :: 0 <= i < |p| && i != 10 && i != 11 ==> r[i] == p[i]
  {
    SetWord(p, 10, Complement(SetWord(p, 10, 0)[..HeaderLength(p)]))
  }

  function FixTransport(p: bytes): (r: bytes)
    requires Repairable(p)
    ensures |r| == |p|
    ensures TransportField(p).None? ==> r == p
    ensures var at := TransportField(p);
            forall i :: 0 <= i < |p| && at.Some? && i != at.value && i != at.value + 1 ==> r[i] == p[i]
  {
    match TransportField(p)
    case None => p
    case Some(at) =>
      FieldKeepsShape(p, at, 0);
      SetWord(p, at, Complement(Covered(SetWord(p, at, 0))))
  }

  function Repaired(p: bytes): bytes {
    if Repairable(p) then FixTransport(FixHeader(p)) else p
  }

  method FixIpv4Checksums(packet: array<byte>)
    modifies packet
    ensures packet[..] == Repaired(old(packet[..]))
  {
    hide SetWord, Complement, U16, U16Bytes;
    ghost var p := packet[..];
    if packet.Length < 20 {
      return;
    }
    if packet[0] / 16 != 4 {
      return;
    }
    var ihl := packet[0] % 16 * 4;
    if packet.Length < ihl {
      return;
    }
    var totalLen := U16(packet[2], packet[3]);
    var packetLen := if packet.Length < totalLen then packet.Length else totalLen;
    if packetLen < ihl {
      return;
    }
    assert Repairable(p);
    var proto := packet[9];
    PutWord(packet, 10, 0);
    assert packet[..ihl] == packet[..][..ihl];
    var ipChecksum := InternetChecksum(packet[..ihl]);
    PutWord(packet, 10, ipChecksum);
    ghost var q := packet[..];
    SetWordTwice(p, 10, ipChecksum);
    assert q == FixHeader(p);
    FieldKeepsShape(p, 10, ipChecksum);
    assert packet[9] == proto && q[9] == proto;
    RepairTransport(packet, ihl, packetLen, proto);
  }

  /** The second half of the repair: the TCP or UDP checksum over pseudo header and segment. */
  method RepairTransport(packet: array<byte>, ihl: nat, packetLen: nat, proto: byte)
    requires var p := packet[..];
             Repairable(p) && ihl == HeaderLength(p) && packetLen == PacketLength(p) && proto == p[9]
    modifies packet
    ensures packet[..] == FixTransport(old(packet[..]))
  {
    hide SetWord, Complement, U16, U16Bytes;
    ghost var q := packet[..];
    var segmentLen := packetLen - ihl;
    assert packetLen <= 0xFFFF by {
      assert PacketLength(q) <= U16(q[2], q[3]);
    }
    var at := 0;
    if proto == 6 && segmentLen >= 20 {
      at := ihl + 16;
    } else if proto == 17 && segmentLen >= 8 {
      at := ihl + 6;
    }
    if at > 0 {
      PutWord(packet, at, 0);
      FieldKeepsShape(q, at, 0);
      ghost var blank := packet[..];
      var pseudo := packet[12..16] + packet[16..20] + [0, proto] + U16Bytes(segmentLen) + packet[ihl..packetLen];
      assert pseudo == Covered(blank);
      var checksum := InternetChecksum(pseudo);
      PutWord(packet, at, checksum);
      SetWordTwice(q, at, checksum);
    }
  }

  method PutWord(packet: array<byte>, at: nat, w: u16)
    requires at + 2 <= packet.Length
    modifies packet
    ensures packet[..] == SetWord(old(packet[..]), at, w)
  {
    packet[at], packet[at + 1] := w / 256, w % 256;
  }

  lemma SetWordTwice(p: bytes, at: nat, w: u16)
    requires at + 2 <= |p|
    ensures SetWord(SetWord(p, at, 0), at, w) == SetWord(p, at, w)
  {
    hide U16;
    UpdatesOverwrite(p, at, 0 / 256, 0 % 256, w / 256, w % 256);
  }

  lemma UpdatesOverwrite(p: bytes, at: nat, a: byte, b: byte, c: byte, d: byte)
    requires at + 2 <= |p|
    ensures p[at := a][at + 1 := b][at := c][at + 1 := d] == p[at := c][at + 1 := d]
  {
  }

  // ---- What the repair achieves ----

  lemma {:induction false} SetWordAddsToTheSum(s: bytes, at: nat, w: u16)
    requires at % 2 == 0 && at + 2 <= |s|
    ensures WordSum(SetWord(s, at, w)) == WordSum(SetWord(s, at, 0)) + w
  {
    hide U16;
    var r, blank := SetWord(s, at, w), SetWord(s, at, 0);
    if at == 0 {
      assert r[2..] == s[2..] && blank[2..] == s[2..];
    } else {
      SetWordAddsToTheSum(s[2..], at - 2, w);
      assert r[2..] == SetWord(s[2..], at - 2, w) && blank[2..] == SetWord(s[2..], at - 2, 0);
    }
  }

  /** Data that carries the complement of its own sum in a word-aligned field sums to all ones. */
  lemma StoredComplementChecks(s: bytes, at: nat)
    requires at % 2 == 0 && at + 2 <= |s|
    ensures OnesSum(SetWord(s, at, Complement(SetWord(s, at, 0)))) == 0xFFFF
  {
    hide SetWord, WordSum, OnesSum, Folded;
    var blank := SetWord(s, at, 0);
    var n, w := WordSum(blank), Complement(blank);
    SetWordAddsToTheSum(s, at, w);
    OnesSumFoldsTheWordSum(blank);
    OnesSumFoldsTheWordSum(SetWord(s, at, w));
    FoldedWithComplement(n);
  }

  lemma FoldedWithComplement(n: nat)
    ensures Folded(n + (0xFFFF - Folded(n))) == 0xFFFF
  {
    var k := if n == 0 then 0 else (n - 1) / 0xFFFF;
    assert n + (0xFFFF - Folded(n)) == 0xFFFF + 0xFFFF * k;
    FoldedPeriod(0xFFFF, k);
  }

  /** The receiver's check of section 1 of RFC 1071 passes over the repaired IP header. */
  lemma HeaderChecks(p: bytes)
    requires Repairable(p) && 20 <= HeaderLength(p)
    ensures OnesSum(Repaired(p)[..HeaderLength(p)]) == 0xFFFF
  {
    hide SetWord, OnesSum, Complement, Covered;
    var h, n := p[..HeaderLength(p)], HeaderLength(p);
    assert SetWord(p, 10, 0)[..n] == SetWord(h, 10, 0) by { SetWordPrefix(p, n, 10, 0); }
    var w := Complement(SetWord(h, 10, 0));
    SetWordPrefix(p, n, 10, w);
    FieldKeepsShape(p, 10, w);
    assert Repaired(p)[..n] == FixHeader(p)[..n];
    StoredComplementChecks(h, 10);
  }

  lemma SetWordPrefix(p: bytes, n: nat, at: nat, w: u16)
    requires at + 2 <= n <= |p|
    ensures SetWord(p, at, w)[..n] == SetWord(p[..n], at, w)
  {
  }

  /** The same check passes over pseudo header and segment of a repaired TCP or UDP packet. */
  lemma TransportChecks(p: bytes)
    requires Repairable(p) && 20 <= HeaderLength(p) && TransportField(p).Some?
    ensures Repairable(Repaired(p)) && OnesSum(Covered(Repaired(p))) == 0xFFFF
  {
    hide SetWord, OnesSum, Complement, Covered;
    var c := Complement(SetWord(p, 10, 0)[..HeaderLength(p)]);
    var q := FixHeader(p);
    FieldKeepsShape(p, 10, c);
    var at := TransportField(q).value;
    var field := 12 + at - HeaderLength(q);
    var w := Complement(Covered(SetWord(q, at, 0)));
    FieldKeepsShape(q, at, w);
    FieldKeepsShape(q, at, 0);
    CoveredField(q, at, w);
    CoveredField(q, at, 0);
    StoredComplementChecks(Covered(q), field);
  }

  /** The checksum field lies word-aligned inside what the checksum covers. */
  lemma CoveredField(p: bytes, at: nat, w: u16)
    requires Repairable(p) && 20 <= HeaderLength(p) && TransportField(p) == Some(at) && Repairable(SetWord(p, at, w))
    ensures var field := 12 + at - HeaderLength(p);
            && field % 2 == 0 && field + 2 <= |Covered(p)|
            && Covered(SetWord(p, at, w)) == SetWord(Covered(p), field, w)
  {
    hide U16Bytes;
    FieldKeepsShape(p, at, w);
    var n := HeaderLength(p);
    var r := SetWord(p, at, w);
    assert r[12..20] == p[12..20];
    assert r[n..PacketLength(p)] == SetWord(p[n..PacketLength(p)], at - n, w);
  }

  /** Nothing but the two checksum fields changes. */
  lemma OnlyChecksumsChange(p: bytes)
    ensures |Repaired(p)| == |p|
    ensures !Repairable(p) ==> Repaired(p) == p
    ensures Repairable(p) ==>
              forall i :: 0 <= i < |p| && i != 10 && i != 11
                          && (TransportField(p).Some? ==> i != TransportField(p).value && i != TransportField(p).value + 1)
                          ==> Repaired(p)[i] == p[i]
  {
    if Repairable(p) {
      FieldKeepsShape(p, 10, Complement(SetWord(p, 10, 0)[..HeaderLength(p)]));
    }
  }

  /** Repairing a repaired packet changes nothing. */
  lemma RepairIsIdempotent(p: bytes)
    ensures Repaired(Repaired(p)) == Repaired(p)
  {
    hide Complement, Covered, U16;
    if Repairable(p) {
      var n := HeaderLength(p);
      var c := Complement(SetWord(p, 10, 0)[..n]);
      var q := FixHeader(p);
      FieldKeepsShape(p, 10, c);
      var r := FixTransport(q);
      if TransportField(q).Some? {
        var at := TransportField(q).value;
        FieldKeepsShape(q, at, 0);
        var w := Complement(Covered(SetWord(q, at, 0)));
        FieldKeepsShape(q, at, w);
        assert SetWord(r, 10, 0)[..n] == SetWord(p, 10, 0)[..n];
        var again := FixHeader(r);
        FieldKeepsShape(r, 10, c);
        assert SetWord(again, at, 0) == SetWord(q, at, 0);
        assert SetWord(again, at, w) == r;
      } else {
        assert SetWord(q, 10, 0) == SetWord(p, 10, 0);
        assert FixHeader(q) == q;
      }
    }
  }

  // ---- The same, by the bytes of the packet ----

  /** The sum's laws: words are big-endian, an odd last byte is padded with zero, carries come round. */
  lemma {:induction false} OnesSumLaws(a: bytes, b: bytes)
    requires |a| % 2 == 0
    ensures var sum: nat := OnesSum(a) as nat + OnesSum(b) as nat;
            OnesSum(a + b) == if sum > 65535 then sum - 65535 else sum
    ensures |a| == 2 ==> OnesSum(a) == a[0] as nat * 256 + a[1] as nat
    ensures |b| % 2 == 1 ==> OnesSum(b) == OnesSum(b + [0])
  {
    hide OnesSum;
    SumUnfolds(a);
    SumUnfolds(a + b);
    PaddedSum(b);
    if a == [] {
      assert a + b == b;
    } else {
      OnesSumLaws(a[2..], b);
      assert (a + b)[2..] == a[2..] + b;
      AddIsAssociative(U16(a[0], a[1]), OnesSum(a[2..]), OnesSum(b));
      SumUnfolds([]);
    }
  }

  lemma {:induction false} PaddedSum(b: bytes)
    ensures |b| % 2 == 1 ==> OnesSum(b) == OnesSum(b + [0])
  {
    hide OnesSum;
    SumUnfolds(b);
    SumUnfolds(b + [0]);
    if |b| >= 2 {
      PaddedSum(b[2..]);
      assert (b + [0])[2..] == b[2..] + [0];
    } else if |b| == 1 {
      assert (b + [0])[2..] == [];
      SumUnfolds([]);
    }
  }

  lemma SumUnfolds(s: bytes)
    ensures OnesSum(s) ==
            if s == [] then 0 else if |s| == 1 then U16(s[0], 0) else OnesAdd(U16(s[0], s[1]), OnesSum(s[2..]))
  {
  }

  lemma AddIsAssociative(a: u16, b: u16, c: u16)
    ensures OnesAdd(OnesAdd(a, b), c) == OnesAdd(a, OnesAdd(b, c))
  {
  }

  /** A packet the repair looks at: version 4, and a header that ends within both lengths. */
  ghost predicate Ipv4(p: bytes, n: nat, end: nat) {
    && 20 <= |p| && p[0] / 16 == 4 && n == p[0] % 16 * 4
    && end == (if |p| < U16(p[2], p[3]) then |p| else U16(p[2], p[3])) && n <= end
  }

  /** Any other packet stays as it is. */
  lemma OthersAreLeftAlone(p: bytes)
    ensures Repaired(p) == p || exists n, end :: Ipv4(p, n, end)
  {
    hide FixTransport, FixHeader;
    if Repairable(p) {
      assert Ipv4(p, HeaderLength(p), PacketLength(p));
    }
  }

  lemma ShapeOf(p: bytes, n: nat, end: nat)
    requires Ipv4(p, n, end)
    ensures Repairable(p) && HeaderLength(p) == n && PacketLength(p) == end <= |p|
  {
  }

  /** The header checksum is right afterwards, whatever the protocol. */
  lemma HeaderIsRepaired(p: bytes, n: nat, end: nat)
    requires Ipv4(p, n, end) && 20 <= n
    ensures OnesSum(Repaired(p)[..n]) == 0xFFFF
  {
    hide OnesSum, Repaired;
    ShapeOf(p, n, end);
    HeaderChecks(p);
  }

  /**
   * TCP (protocol 6, section 3.1 of RFC 9293): with at least 20 bytes after the header, the checksum at 16 of
   * the segment is right afterwards, over a pseudo header of the two addresses, a zero, a 6 and the segment's
   * length; nothing else changes but the header checksum.
   */
  lemma TcpIsRepaired(p: bytes, n: nat, end: nat)
    requires Ipv4(p, n, end) && p[9] == 6 && end - n >= 20
    ensures var r := Repaired(p);
            && |r| == |p|
            && (forall i :: 0 <= i < |p| && i != 10 && i != 11 && i != n + 16 && i != n + 17 ==> r[i] == p[i])
            && (n >= 20 ==> OnesSum(r[12..20] + [0, 6] + U16Bytes(end - n) + r[n..end]) == 0xFFFF)
  {
    hide OnesSum, Repaired, U16Bytes, U16;
    ShapeOf(p, n, end);
    OnlyChecksumsChange(p);
    SegmentIsRepaired(p, n, end, n + 16);
  }

  /** UDP (protocol 17, RFC 768): the same with at least 8 bytes and the checksum at 6 of the datagram. */
  lemma UdpIsRepaired(p: bytes, n: nat, end: nat)
    requires Ipv4(p, n, end) && p[9] == 17 && end - n >= 8
    ensures var r := Repaired(p);
            && |r| == |p|
            && (forall i :: 0 <= i < |p| && i != 10 && i != 11 && i != n + 6 && i != n + 7 ==> r[i] == p[i])
            && (n >= 20 ==> OnesSum(r[12..20] + [0, 17] + U16Bytes(end - n) + r[n..end]) == 0xFFFF)
  {
    hide OnesSum, Repaired, U16Bytes, U16;
    ShapeOf(p, n, end);
    OnlyChecksumsChange(p);
    SegmentIsRepaired(p, n, end, n + 6);
  }

  lemma SegmentIsRepaired(p: bytes, n: nat, end: nat, at: nat)
    requires Ipv4(p, n, end) && Repairable(p) && TransportField(p) == Some(at)
    ensures n >= 20 ==>
      var r := Repaired(p); |r| == |p| && OnesSum(r[12..20] + [0, p[9]] + U16Bytes(end - n) + r[n..end]) == 0xFFFF
  {
    hide OnesSum, Repaired, U16Bytes, U16;
    ShapeOf(p, n, end);
    if n >= 20 {
      TransportChecks(p);
      OnlyChecksumsChange(p);
      var r := Repaired(p);
      assert r[0] == p[0] && r[2] == p[2] && r[3] == p[3] && r[9] == p[9];
      assert HeaderLength(r) == n && PacketLength(r) == end;
    }
  }

  /** For any other protocol, and for a segment that is too short, nothing but the header checksum changes. */
  lemma OtherSegmentsStay(p: bytes, n: nat, end: nat)
    requires Ipv4(p, n, end) && !(p[9] == 6 && end - n >= 20) && !(p[9] == 17 && end - n >= 8)
    ensures |Repaired(p)| == |p| && forall i :: 0 <= i < |p| && i != 10 && i != 11 ==> Repaired(p)[i] == p[i]
  {
    hide Repaired;
    ShapeOf(p, n, end);
    OnlyChecksumsChange(p);
  }
}
