/** Bytes, the big-endian words the wire formats are made of, and UTF-8 validity. */
module Bytes {

  type byte = x: int | 0 <= x < 256
  type bytes = seq<byte>
  type u16 = x: int | 0 <= x < 0x1_0000
  type u32 = x: int | 0 <= x < 0x1_0000_0000

  function U16(hi: byte, lo: byte): (n: nat)
    ensures n < 0x1_0000
  {
    hi * 256 + lo
  }

  /** A length or port written big-endian after an `as u16` cast: the cast keeps the low 16 bits. */
  function U16Bytes(n: nat): (b: bytes)
    ensures |b| == 2 && U16(b[0], b[1]) == n % 0x1_0000
  {
    assert U16(n / 256 % 256, n % 256) == n % 0x1_0000 by {
      var q := n / 256;
      assert n == q / 256 * 0x1_0000 + U16(q % 256, n % 256);
      LowPart(n, q / 256, U16(q % 256, n % 256));
    }
    var hi: byte, lo: byte :| U16(hi, lo) == n % 0x1_0000;
    [hi, lo]
  }

  lemma LowPart(n: nat, k: nat, r: nat)
    requires n == k * 0x1_0000 + r && r < 0x1_0000
    ensures n % 0x1_0000 == r
  {
  }

  function U24(a: byte, b: byte, c: byte): (n: nat)
    ensures n < 0x100_0000
  {
    a * 0x1_0000 + U16(b, c)
  }

  function U24Bytes(n: nat): (b: bytes)
    requires n < 0x100_0000
    ensures |b| == 3 && U24(b[0], b[1], b[2]) == n
  {
    [n / 0x1_0000] + U16Bytes(n)
  }

  function U32(a: byte, b: byte, c: byte, d: byte): (n: nat)
    ensures n < 0x1_0000_0000
  {
    U16(a, b) * 0x1_0000 + U16(c, d)
  }

  function U32Bytes(n: nat): (b: bytes)
    requires n < 0x1_0000_0000
    ensures |b| == 4 && U32(b[0], b[1], b[2], b[3]) == n
  {
    hide U16, U16Bytes;
    var hi, lo := U16Bytes(n / 0x1_0000), U16Bytes(n);
    assert U16(hi[0], hi[1]) == n / 0x1_0000 by {
      SmallMod(n / 0x1_0000, 0x1_0000);
    }
    hi + lo
  }

  lemma SmallMod(n: nat, m: nat)
    requires n < m
    ensures n % m == n
  {
  }

  /** The bytes of the three big-endian forms, one by one, and the words they are read back as. */
  lemma BigEndian(n: nat)
    ensures U16Bytes(n) == [n / 256 % 256, n % 256]
    ensures n < 0x100_0000 ==> U24Bytes(n) == [n / 65536, n / 256 % 256, n % 256]
    ensures n < 0x1_0000_0000 ==> U32Bytes(n) == [n / 16777216, n / 65536 % 256, n / 256 % 256, n % 256]
  {
    hide U16Bytes, U16;
    TwoBytes(n);
    TwoBytes(n / 0x1_0000);
    assert n / 0x1_0000 / 256 == n / 16777216;
    assert n < 0x1_0000_0000 ==> n / 16777216 % 256 == n / 16777216;
  }

  lemma TwoBytes(n: nat)
    ensures U16Bytes(n) == [n / 256 % 256, n % 256]
  {
    hide U16Bytes;
    var b := U16Bytes(n);
    var word := n % 0x1_0000;
    assert U16(b[0], b[1]) == word;
    assert word % 256 == n % 256 && word / 256 == n / 256 % 256 by {
      HighAndLow(n);
    }
    Digits256(b[0], b[1]);
  }

  lemma HighAndLow(n: nat)
    ensures n % 0x1_0000 % 256 == n % 256 && n % 0x1_0000 / 256 == n / 256 % 256
  {
    var q, w := n / 0x1_0000, n % 0x1_0000;
    var hi, lo := w / 256, w % 256;
    Split256(n, q * 256 + hi, lo);
    Split256(q * 256 + hi, q, hi);
  }

  lemma Split256(n: nat, q: nat, r: nat)
    requires n == q * 256 + r && r < 256
    ensures n / 256 == q && n % 256 == r
  {
  }

  lemma Digits256(hi: byte, lo: byte)
    ensures (hi * 256 + lo) / 256 == hi && (hi * 256 + lo) % 256 == lo
  {
  }

  function Concat(chunks: seq<bytes>): bytes {
    if chunks == [] then [] else chunks[0] + Concat(chunks[1..])
  }

  lemma ConcatAppend(a: seq<bytes>, b: seq<bytes>)
    ensures Concat(a + b) == Concat(a) + Concat(b)
  {
    if a == [] {
      assert a + b == b;
    } else {
      assert (a + b)[1..] == a[1..] + b;
      ConcatAppend(a[1..], b);
    }
  }

  lemma SliceOfSlice(s: bytes, from: nat, to: nat, a: nat, b: nat)
    requires from <= to <= |s| && a <= b <= to - from
    ensures s[from..to][a..b] == s[from + a..from + b]
  {
    assert forall k :: 0 <= k < b - a ==> s[from..to][a..b][k] == s[from + a..from + b][k];
  }

  lemma SliceOfTail(s: bytes, from: nat, a: nat, b: nat)
    requires from <= |s| && a <= b <= |s| - from
    ensures s[from..][a..b] == s[from + a..from + b] && s[from..][b..] == s[from + b..]
  {
    SliceOfSlice(s, from, |s|, a, b);
    assert s[from..|s|] == s[from..];
    assert forall k :: 0 <= k < |s| - from - b ==> s[from..][b..][k] == s[from + b..][k];
  }

  predicate Continuation(b: byte) {
    0x80 <= b < 0xC0
  }

  /** The test `from_utf8` performs: well-formed UTF-8 as section 4 of RFC 3629 defines it. */
  predicate Utf8(s: bytes)
    decreases |s|
  {
    if s == [] then true
    else if s[0] < 0x80 then Utf8(s[1..])
    else if |s| < 2 || !Continuation(s[1]) then false
    else if 0xC2 <= s[0] < 0xE0 then Utf8(s[2..])
    else if |s| < 3 || !Continuation(s[2]) then false
    else if 0xE0 <= s[0] < 0xF0 then
      (s[0] == 0xE0 ==> 0xA0 <= s[1]) && (s[0] == 0xED ==> s[1] < 0xA0) && Utf8(s[3..])
    else if |s| < 4 || !Continuation(s[3]) then false
    else
      0xF0 <= s[0] < 0xF5 && (s[0] == 0xF0 ==> 0x90 <= s[1]) && (s[0] == 0xF4 ==> s[1] < 0x90) && Utf8(s[4..])
  }

  /** Lower-casing of the ASCII letters. */
  function Lower(s: bytes): (r: bytes)
    ensures |r| == |s|
  {
    seq(|s|, i requires 0 <= i < |s| => if 65 <= s[i] <= 90 then s[i] + 32 else s[i])
  }
}
