/** What well-formed UTF-8 is: the texts made of Unicode characters, encoded as section 3 of RFC 3629 has it. */
module Characters {
  import opened Bytes

  /** A character's number: no surrogate, and none beyond U+10FFFF. */
  predicate Scalar(c: int) {
    0 <= c < 0xD800 || 0xE000 <= c < 0x11_0000
  }

  function Char(c: nat): bytes
    requires Scalar(c)
  {
    if c < 0x80 then [c]
    else if c < 0x800 then [0xC0 + c / 64, 0x80 + c % 64]
    else if c < 0x1_0000 then [0xE0 + c / 4096, 0x80 + c / 64 % 64, 0x80 + c % 64]
    else [0xF0 + c / 262144, 0x80 + c / 4096 % 64, 0x80 + c / 64 % 64, 0x80 + c % 64]
  }

  ghost predicate Scalars(cs: seq<nat>) {
    forall c :: c in cs ==> Scalar(c)
  }

  function Text(cs: seq<nat>): bytes
    requires Scalars(cs)
  {
    if cs == [] then [] else Char(cs[0]) + Text(cs[1..])
  }

  /** The test accepts a character of one to four bytes exactly by its bytes, and goes on behind it. */
  lemma CharIsUtf8(c: nat, rest: bytes)
    requires Scalar(c) && Utf8(rest)
    ensures Utf8(Char(c) + rest)
  {
    var s := Char(c) + rest;
    assert s[|Char(c)|..] == rest;
    if 0x800 <= c < 0x1_0000 {
      assert c / 4096 == 0 ==> c / 64 % 64 == c / 64 >= 32;
      assert c / 4096 == 13 ==> c / 64 % 64 == c / 64 - 832 < 32;
    } else if 0x1_0000 <= c {
      assert c / 262144 == 0 ==> c / 4096 % 64 == c / 4096 >= 16;
      assert c / 262144 == 4 ==> c / 4096 % 64 == c / 4096 - 256 < 16;
    }
  }

  lemma {:induction false} TextIsUtf8(cs: seq<nat>)
    requires Scalars(cs)
    ensures Utf8(Text(cs))
  {
    hide Utf8, Char;
    if cs == [] {
      assert Text(cs) == [];
      NothingIsUtf8();
    } else {
      TextIsUtf8(cs[1..]);
      CharIsUtf8(cs[0], Text(cs[1..]));
    }
  }

  lemma NothingIsUtf8()
    ensures Utf8([])
  {
  }

  /** The first character of UTF-8 text. */
  lemma FirstChar(s: bytes) returns (c: nat, n: nat)
    requires Utf8(s) && s != []
    ensures Scalar(c) && 1 <= n <= |s| && Char(c) == s[..n] && Utf8(s[n..])
  {
    if s[0] < 0x80 {
      c, n := s[0], 1;
    } else if s[0] < 0xE0 {
      c, n := TwoBytes(s[0] - 0xC0, s[1] - 0x80), 2;
    } else if s[0] < 0xF0 {
      c, n := ThreeBytes(s[0] - 0xE0, s[1] - 0x80, s[2] - 0x80), 3;
    } else {
      c, n := FourBytes(s[0] - 0xF0, s[1] - 0x80, s[2] - 0x80, s[3] - 0x80), 4;
    }
  }

  function TwoBytes(a: nat, b: nat): (c: nat)
    requires 2 <= a < 32 && b < 64
    ensures Scalar(c) && Char(c) == [0xC0 + a, 0x80 + b]
  {
    Two(a, b);
    a * 64 + b
  }

  function ThreeBytes(a: nat, b: nat, d: nat): (c: nat)
    requires a < 16 && b < 64 && d < 64 && (a == 0 ==> 32 <= b) && (a == 13 ==> b < 32)
    ensures Scalar(c) && Char(c) == [0xE0 + a, 0x80 + b, 0x80 + d]
  {
    Two(a * 64 + b, d);
    Two(a, b);
    assert ((a * 64 + b) * 64 + d) / 4096 == a;
    (a * 64 + b) * 64 + d
  }

  function FourBytes(a: nat, b: nat, d: nat, e: nat): (c: nat)
    requires a < 5 && b < 64 && d < 64 && e < 64 && (a == 0 ==> 16 <= b) && (a == 4 ==> b < 16)
    ensures Scalar(c) && Char(c) == [0xF0 + a, 0x80 + b, 0x80 + d, 0x80 + e]
  {
    Two((a * 64 + b) * 64 + d, e);
    Two(a * 64 + b, d);
    Two(a, b);
    assert (((a * 64 + b) * 64 + d) * 64 + e) / 4096 == a * 64 + b;
    assert (((a * 64 + b) * 64 + d) * 64 + e) / 262144 == a;
    ((a * 64 + b) * 64 + d) * 64 + e
  }

  lemma Two(a: nat, b: nat)
    requires b < 64
    ensures (a * 64 + b) / 64 == a && (a * 64 + b) % 64 == b
  {
  }

  /** So a byte string passes the test exactly if it is the encoding of some characters. */
  lemma Utf8Iff(s: bytes)
    ensures Utf8(s) <==> exists cs :: Scalars(cs) && Text(cs) == s
  {
    hide Utf8, Char;
    if Utf8(s) {
      var cs := CharsOf(s);
    }
    forall cs | Scalars(cs) && Text(cs) == s ensures Utf8(s) {
      TextIsUtf8(cs);
    }
  }

  lemma {:induction false} CharsOf(s: bytes) returns (cs: seq<nat>)
    requires Utf8(s)
    ensures Scalars(cs) && Text(cs) == s
    decreases |s|
  {
    hide Utf8, Char;
    if s == [] {
      cs := [];
    } else {
      var c, n := FirstChar(s);
      var rest := CharsOf(s[n..]);
      cs := [c] + rest;
      assert cs[1..] == rest && s == s[..n] + s[n..];
    }
  }
}
