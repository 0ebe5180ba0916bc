/**
 * Unicode lower-casing, as far as host names and routes depend on it. The function itself is a parameter of
 * everything that uses it, on strings as their UTF-8 bytes.
 */
module Lowering {
  import opened Bytes

  const COLON: byte := 58
  const OPEN: byte := 91
  const CLOSE: byte := 93

  /** The two characters of more than one byte whose lower case begins with an ASCII letter. */
  const KELVIN_SIGN: bytes := [0xE2, 0x84, 0xAA]
  const DOTTED_I: bytes := [0xC4, 0xB0]

  const SMALL_K: bytes := [107]
  const SMALL_I_AND_DOT: bytes := [105, 0xCC, 0x87]

  predicate Ascii(s: bytes) {
    forall i :: 0 <= i < |s| ==> s[i] < 0x80
  }

  ghost predicate Idempotent(lower: bytes -> bytes) {
    forall s :: lower(lower(s)) == lower(s)
  }

  predicate Punctuation(c: byte) {
    c == COLON || c == OPEN || c == CLOSE
  }

  predicate BeginsWithAscii(s: bytes) {
    s != [] && (s[0] < 0x80 || KELVIN_SIGN <= s || DOTTED_I <= s)
  }

  predicate Digits(s: bytes) {
    forall i :: 0 <= i < |s| ==> 48 <= s[i] <= 57
  }

  /** No capital sigma, the one letter whose lower case depends on its neighbours. */
  predicate NoSigma(s: bytes) {
    forall i :: 0 <= i < |s| - 1 ==> !(s[i] == 0xCE && s[i + 1] == 0xA3)
  }

  /**
   * Two texts whose lower case does not depend on whether they are written around a colon. That matters to
   * a capital sigma only, which is final or not by the letters around it, and no digit is a letter.
   */
  predicate Apart(before: bytes, after: bytes) {
    Utf8(before) && Utf8(after) && (Digits(after) || (NoSigma(before) && NoSigma(after)))
  }

  /** What lower-casing leaves of a text: no upper case in any part, and its punctuation where it was. */
  ghost predicate Lowers(lower: bytes -> bytes, s: bytes) {
    var t := lower(s);
    && Utf8(t)
    && (forall i, j :: 0 <= i <= j <= |t| ==> lower(t[i..j]) == t[i..j])
    && (t == [] <==> s == [])
    && (s != [] ==>
          && (t[0] < 0x80 <==> BeginsWithAscii(s))
          && forall c | Punctuation(c) ::
            (c in t <==> c in s) && (t[0] == c <==> s[0] == c) && (t[|t| - 1] == c <==> s[|s| - 1] == c))
  }

  /**
   * Lower-casing of UTF-8 text; on other bytes, which no string holds, it may be the identity. A bracket,
   * which is neither a letter nor ignored between letters, separates what is lower-cased on its two sides;
   * a colon does so only in the case below.
   */
  ghost predicate Unicode(lower: bytes -> bytes) {
    && Idempotent(lower)
    && (forall s :: Utf8(s) ==> Lowers(lower, s))
    && (forall s :: Ascii(s) ==> lower(s) == Lower(s))
    && (forall a, b :: Utf8(a) && Utf8(b) ==>
          && lower(a + [OPEN] + b) == lower(a) + [OPEN] + lower(b)
          && lower(a + [CLOSE] + b) == lower(a) + [CLOSE] + lower(b))
    && (forall a, b :: Apart(a, b) ==> lower(a + [COLON] + b) == lower(a) + [COLON] + lower(b))
    && (forall s :: Utf8(s) ==>
          lower(KELVIN_SIGN + s) == lower(SMALL_K + s) && lower(DOTTED_I + s) == lower(SMALL_I_AND_DOT + s))
  }

  // ---- Characters ----

  /** The length of the first character of UTF-8 text. */
  function Width(s: bytes): (n: nat)
    requires s != []
    ensures n >= 1
  {
    if s[0] < 0x80 then 1 else if s[0] < 0xE0 then 2 else if s[0] < 0xF0 then 3 else 4
  }

  lemma WidthFits(s: bytes)
    requires Utf8(s) && s != []
    ensures Width(s) <= |s| && Utf8(s[Width(s)..])
    ensures forall k :: 1 <= k < Width(s) ==> Continuation(s[k])
    ensures KELVIN_SIGN <= s ==> Width(s) == 3
    ensures DOTTED_I <= s ==> Width(s) == 2
  {
  }

  lemma CharacterBefore(s: bytes, rest: bytes)
    requires Utf8(s) && s != [] && Utf8(rest) && Width(s) <= |s|
    ensures Utf8(s[..Width(s)] + rest)
  {
    var n := Width(s);
    var t := s[..n] + rest;
    assert t[n..] == rest;
    assert forall k :: 0 <= k < n ==> t[k] == s[k];
  }

  lemma {:induction false} Utf8Append(a: bytes, b: bytes)
    requires Utf8(a) && Utf8(b)
    ensures Utf8(a + b)
    decreases |a|
  {
    hide Utf8, Width;
    if a == [] {
      assert a + b == b;
    } else {
      WidthFits(a);
      var n := Width(a);
      Utf8Append(a[n..], b);
      CharacterBefore(a, a[n..] + b);
      assert a + b == a[..n] + (a[n..] + b);
    }
  }
}
