/**
 * A function that has all the properties of lower-casing used elsewhere, so that what is proved from them is
 * not empty: it lowers the ASCII letters and the two characters whose lower case begins with one.
 */
module LoweringExample {
  import opened Bytes
  import opened Lowering

  /** How many bytes are folded as one. */
  function Head(s: bytes): (n: nat)
    requires s != []
    ensures 1 <= n <= |s|
  {
    if KELVIN_SIGN <= s then 3 else if DOTTED_I <= s then 2 else 1
  }

  function FoldedHead(s: bytes): bytes
    requires s != []
  {
    if KELVIN_SIGN <= s then SMALL_K else if DOTTED_I <= s then SMALL_I_AND_DOT else [LowerByte(s[0])]
  }

  /** Lowers the ASCII letters and the two characters above, and keeps the rest. */
  function Fold(s: bytes): bytes {
    if s == [] then [] else FoldedHead(s) + Fold(s[Head(s)..])
  }

  function LowerByte(b: byte): byte {
    if 65 <= b <= 90 then b + 32 else b
  }

  predicate Plain(s: bytes) {
    forall i :: 0 <= i < |s| ==> !(65 <= s[i] <= 90) && !(KELVIN_SIGN <= s[i..]) && !(DOTTED_I <= s[i..])
  }

  lemma {:induction false} PlainIsFixed(s: bytes)
    requires Plain(s)
    ensures Fold(s) == s
  {
    if s != [] {
      assert s[0..] == s;
      forall i | 0 <= i < |s[1..]| ensures s[1..][i] == s[i + 1] && s[1..][i..] == s[i + 1..] {
      }
      PlainIsFixed(s[1..]);
    }
  }

  lemma {:induction false} PartIsPlain(s: bytes, i: nat, j: nat)
    requires Plain(s) && i <= j <= |s|
    ensures Plain(s[i..j])
  {
    var part := s[i..j];
    forall k | 0 <= k < |part|
      ensures !(65 <= part[k] <= 90) && !(KELVIN_SIGN <= part[k..]) && !(DOTTED_I <= part[k..])
    {
      assert part[k..] <= s[i + k..] by {
        assert forall n :: 0 <= n < |part| - k ==> part[k..][n] == s[i + k..][n];
      }
    }
  }

  lemma FoldKeepsHead(s: bytes)
    requires Fold(s) != [] && Fold(s)[0] >= 0x80
    ensures s != [] && s[0] == Fold(s)[0] && Fold(s)[1..] == Fold(s[1..])
  {
  }

  /** The bytes above ASCII with which a folded text begins have been kept. */
  lemma {:induction false} FoldKeepsHeads(s: bytes, n: nat)
    requires n <= |Fold(s)| && forall k :: 0 <= k < n ==> Fold(s)[k] >= 0x80
    ensures n <= |s| && forall k :: 0 <= k < n ==> s[k] == Fold(s)[k]
  {
    if n > 0 {
      hide Fold;
      FoldKeepsHead(s);
      var t, rest := Fold(s), s[1..];
      assert forall k :: 0 <= k < n - 1 ==> t[1..][k] == t[k + 1];
      FoldKeepsHeads(rest, n - 1);
      forall k | 0 <= k < n ensures s[k] == t[k] {
        if k > 0 {
          assert rest[k - 1] == Fold(rest)[k - 1];
        }
      }
    }
  }

  lemma FoldMakesNone(s: bytes)
    ensures !(KELVIN_SIGN <= Fold(s)) && !(DOTTED_I <= Fold(s))
  {
    hide Fold;
    var t := Fold(s);
    if KELVIN_SIGN <= t {
      FoldKeepsHeads(s, 3);
      SamePrefix(KELVIN_SIGN, s, t);
      FoldOfEither(s);
    } else if DOTTED_I <= t {
      FoldKeepsHeads(s, 2);
      SamePrefix(DOTTED_I, s, t);
      FoldOfEither(s);
    }
  }

  lemma SamePrefix(p: bytes, s: bytes, t: bytes)
    requires p <= t && |p| <= |s| && forall k :: 0 <= k < |p| ==> s[k] == t[k]
    ensures p <= s
  {
    assert forall k :: 0 <= k < |p| ==> s[k] == p[k];
  }

  lemma FoldOfEither(s: bytes)
    requires KELVIN_SIGN <= s || DOTTED_I <= s
    ensures Fold(s) != [] && Fold(s)[0] < 0x80
  {
  }

  lemma {:induction false} FoldIsPlain(s: bytes)
    ensures Plain(Fold(s))
    decreases |s|
  {
    hide Plain;
    if KELVIN_SIGN <= s {
      FoldIsPlain(s[3..]);
      PlainAfter(107, Fold(s[3..]));
    } else if DOTTED_I <= s {
      FoldIsPlain(s[2..]);
      DotIsPlain(Fold(s[2..]));
    } else if s != [] {
      FoldIsPlain(s[1..]);
      FoldMakesNone(s);
      PlainAfter(LowerByte(s[0]), Fold(s[1..]));
    } else {
      NothingIsPlain();
    }
  }

  lemma NothingIsPlain()
    ensures Plain([])
  {
  }

  lemma DotIsPlain(rest: bytes)
    requires Plain(rest)
    ensures Plain(SMALL_I_AND_DOT + rest)
  {
    hide Plain;
    OtherIsPlain(0x87, rest);
    OtherIsPlain(0xCC, [0x87] + rest);
    OtherIsPlain(105, [0xCC] + ([0x87] + rest));
    assert SMALL_I_AND_DOT + rest == [105] + ([0xCC] + ([0x87] + rest));
  }

  lemma OtherIsPlain(b: byte, rest: bytes)
    requires Plain(rest) && b != 0xE2 && b != 0xC4 && !(65 <= b <= 90)
    ensures Plain([b] + rest)
  {
    hide Plain;
    BeginsElse(b, rest);
    PlainAfter(b, rest);
  }

  lemma BeginsElse(b: byte, rest: bytes)
    requires b != 0xE2 && b != 0xC4
    ensures !(KELVIN_SIGN <= [b] + rest) && !(DOTTED_I <= [b] + rest)
  {
    assert ([b] + rest)[0] == b;
  }

  lemma PlainAfter(b: byte, rest: bytes)
    requires Plain(rest) && !(65 <= b <= 90) && !(KELVIN_SIGN <= [b] + rest) && !(DOTTED_I <= [b] + rest)
    ensures Plain([b] + rest)
  {
    var all := [b] + rest;
    forall i | 0 <= i < |all|
      ensures !(65 <= all[i] <= 90) && !(KELVIN_SIGN <= all[i..]) && !(DOTTED_I <= all[i..])
    {
      if i > 0 {
        assert all[i..] == rest[i - 1..];
      } else {
        assert all[0..] == all;
      }
    }
  }

  lemma {:induction false} FoldOfAscii(s: bytes)
    requires Ascii(s)
    ensures Fold(s) == Lower(s)
  {
    if s != [] {
      assert Ascii(s[1..]);
      FoldOfAscii(s[1..]);
      assert Lower(s) == [LowerByte(s[0])] + Lower(s[1..]);
    }
  }

  lemma {:induction false} FoldAppend(a: bytes, b: bytes)
    requires b == [] || b[0] < 0x80
    ensures Fold(a + b) == Fold(a) + Fold(b)
    decreases |a|
  {
    if a == [] {
      assert a + b == b;
    } else {
      hide Fold;
      var rest := a[Head(a)..];
      FoldAppend(rest, b);
      FoldStepAppend(a, b, rest);
    }
  }

  lemma FoldStepAppend(a: bytes, b: bytes, rest: bytes)
    requires a != [] && (b == [] || b[0] < 0x80) && rest == a[Head(a)..]
    ensures Fold(a + b) == FoldedHead(a) + Fold(rest + b)
    ensures Fold(a) + Fold(b) == FoldedHead(a) + (Fold(rest) + Fold(b))
  {
    hide Fold, FoldedHead, Head;
    HeadStays(a, b);
    FoldUnfolds(a);
    FoldUnfolds(a + b);
    assert (a + b)[Head(a)..] == rest + b;
    Regroup(FoldedHead(a), Fold(rest), Fold(b));
  }

  lemma Regroup(a: bytes, b: bytes, c: bytes)
    ensures a + (b + c) == a + b + c
  {
  }

  lemma HeadStays(a: bytes, b: bytes)
    requires a != [] && (b == [] || b[0] < 0x80)
    ensures Head(a + b) == Head(a) && FoldedHead(a + b) == FoldedHead(a)
  {
    if KELVIN_SIGN <= a + b && |a| < 3 {
      assert (a + b)[|a|] == b[0];
    }
    if DOTTED_I <= a + b && |a| < 2 {
      assert (a + b)[|a|] == b[0];
    }
  }

  lemma {:induction false} FoldKeepsPunctuation(s: bytes, c: byte)
    requires s != [] && Punctuation(c)
    ensures var t := Fold(s);
            t != [] && (c in t <==> c in s) && (t[0] == c <==> s[0] == c) && (t[|t| - 1] == c <==> s[|s| - 1] == c)
    decreases |s|
  {
    hide Fold, FoldedHead, Head;
    var n := Head(s);
    FoldUnfolds(s);
    HeadKeepsPunctuation(s, c);
    assert s == s[..n] + s[n..];
    if s[n..] != [] {
      FoldKeepsPunctuation(s[n..], c);
    } else {
      assert Fold([]) == [] by { FoldOfNothing(); }
    }
  }

  lemma FoldOfNothing()
    ensures Fold([]) == []
  {
  }

  lemma HeadKeepsPunctuation(s: bytes, c: byte)
    requires s != [] && Punctuation(c)
    ensures var t, u := FoldedHead(s), s[..Head(s)];
            t != [] && (c in t <==> c in u) && (t[0] == c <==> u[0] == c) && (t[|t| - 1] == c <==> u[|u| - 1] == c)
  {
  }

  lemma {:induction false} FoldContinuations(s: bytes, n: nat)
    requires n <= |s| && forall k :: 0 <= k < n ==> Continuation(s[k])
    ensures Fold(s) == s[..n] + Fold(s[n..])
  {
    hide Fold, Continuation;
    if n > 0 {
      var rest := s[1..];
      assert Continuation(s[0]);
      FoldContinuation(s);
      assert forall k :: 0 <= k < n - 1 ==> rest[k] == s[k + 1];
      FoldContinuations(rest, n - 1);
      HeadAndRest(s, n, Fold(s[n..]));
    } else {
      assert s[0..] == s && s[..0] == [];
    }
  }

  lemma FoldContinuation(s: bytes)
    requires s != [] && Continuation(s[0])
    ensures Fold(s) == [s[0]] + Fold(s[1..])
  {
  }

  lemma HeadAndRest(s: bytes, n: nat, rest: bytes)
    requires 1 <= n <= |s|
    ensures s[1..][n - 1..] == s[n..] && [s[0]] + (s[1..][..n - 1] + rest) == s[..n] + rest
  {
    assert s[..n] == [s[0]] + s[1..][..n - 1];
    Regroup([s[0]], s[1..][..n - 1], rest);
  }

  lemma FoldCharacter(s: bytes)
    requires Utf8(s) && s != [] && s[0] >= 0x80 && !(KELVIN_SIGN <= s) && !(DOTTED_I <= s) && Width(s) <= |s|
    ensures Fold(s) == s[..Width(s)] + Fold(s[Width(s)..])
  {
    hide Fold, Utf8;
    var n := Width(s);
    WidthFits(s);
    FoldStep(s);
    FoldContinuations(s[1..], n - 1);
    HeadAndRest(s, n, Fold(s[n..]));
  }

  lemma FoldStep(s: bytes)
    requires s != [] && s[0] >= 0x80 && !(KELVIN_SIGN <= s) && !(DOTTED_I <= s)
    ensures Fold(s) == [s[0]] + Fold(s[1..])
  {
  }

  lemma {:induction false} FoldIsUtf8(s: bytes)
    requires Utf8(s)
    ensures Utf8(Fold(s))
    decreases |s|
  {
    if s != [] {
      hide Fold, Utf8;
      WidthFits(s);
      FoldIsUtf8(s[Width(s)..]);
      if KELVIN_SIGN <= s || DOTTED_I <= s || s[0] < 0x80 {
        FoldedHeadIsUtf8(s);
      } else {
        FoldCharacter(s);
        CharacterBefore(s, Fold(s[Width(s)..]));
      }
    } else {
      assert Fold(s) == [];
    }
  }

  lemma FoldedHeadIsUtf8(s: bytes)
    requires s != [] && (KELVIN_SIGN <= s || DOTTED_I <= s || s[0] < 0x80) && Utf8(Fold(s[Width(s)..]))
    requires Width(s) <= |s|
    ensures Utf8(Fold(s))
  {
    hide Fold;
    FoldUnfolds(s);
    var rest := Fold(s[Width(s)..]);
    var t := FoldedHead(s) + rest;
    if DOTTED_I <= s {
      assert t[1..][2..] == rest;
    } else {
      assert t[1..] == rest;
    }
  }

  lemma FoldUnfolds(s: bytes)
    requires s != []
    ensures Fold(s) == FoldedHead(s) + Fold(s[Head(s)..])
  {
  }

  lemma FoldOfKelvin(s: bytes)
    ensures Fold(KELVIN_SIGN + s) == Fold(SMALL_K + s)
  {
    hide Fold;
    var t := KELVIN_SIGN + s;
    assert t[3..] == s && t[..3] == KELVIN_SIGN;
    FoldUnfolds(t);
    FoldOther(107, s);
  }

  lemma FoldOfDotted(s: bytes)
    ensures Fold(DOTTED_I + s) == Fold(SMALL_I_AND_DOT + s)
  {
    hide Fold;
    var t := DOTTED_I + s;
    assert t[2..] == s && t[..2] == DOTTED_I && t[0] == 0xC4;
    FoldUnfolds(t);
    FoldOther(0x87, s);
    FoldOther(0xCC, [0x87] + s);
    FoldOther(105, [0xCC] + ([0x87] + s));
    assert SMALL_I_AND_DOT + s == [105] + ([0xCC] + ([0x87] + s));
    assert SMALL_I_AND_DOT + Fold(s) == [105] + ([0xCC] + ([0x87] + Fold(s)));
  }

  lemma FoldOther(b: byte, s: bytes)
    requires b != 0xE2 && b != 0xC4
    ensures Fold([b] + s) == [LowerByte(b)] + Fold(s)
  {
    hide Fold;
    BeginsElse(b, s);
    FoldUnfolds([b] + s);
    assert ([b] + s)[1..] == s;
  }

  lemma FoldLowers(s: bytes)
    requires Utf8(s)
    ensures Lowers(s => Fold(s), s)
  {
    hide Fold, Plain, Utf8;
    var t := Fold(s);
    FoldIsUtf8(s);
    FoldIsPlain(s);
    forall i, j | 0 <= i <= j <= |t| ensures Fold(t[i..j]) == t[i..j] {
      PartIsPlain(t, i, j);
      PlainIsFixed(t[i..j]);
    }
    if s == [] {
      FoldOfNothing();
    } else {
      forall c | Punctuation(c)
        ensures t != [] && (c in t <==> c in s) && (t[0] == c <==> s[0] == c) && (t[|t| - 1] == c <==> s[|s| - 1] == c)
      {
        FoldKeepsPunctuation(s, c);
      }
      FoldKeepsPunctuation(s, COLON);
      FoldUnfolds(s);
      assert t[0] == FoldedHead(s)[0];
    }
  }

  lemma FoldSeparates(a: bytes, c: byte, b: bytes)
    requires Punctuation(c)
    ensures Fold(a + [c] + b) == Fold(a) + [c] + Fold(b)
  {
    hide Fold;
    assert a + [c] + b == a + ([c] + b);
    FoldAppend(a, [c] + b);
    FoldOther(c, b);
    assert Fold(a) + ([c] + Fold(b)) == Fold(a) + [c] + Fold(b);
  }

  /** The facts about lower-casing are met by some function, so what follows from them is not empty. */
  lemma SomeFunctionIsUnicode()
    ensures Unicode(s => Fold(s))
  {
    hide Fold, Utf8, Lowers, Lower, Apart;
    var lower := (s: bytes) => Fold(s);
    forall s ensures Fold(Fold(s)) == Fold(s) {
      FoldIsPlain(s);
      PlainIsFixed(Fold(s));
    }
    forall s | Utf8(s) ensures Lowers(lower, s) {
      FoldLowers(s);
    }
    forall s | Ascii(s) ensures Fold(s) == Lower(s) {
      FoldOfAscii(s);
    }
    forall a, b
      ensures Fold(a + [OPEN] + b) == Fold(a) + [OPEN] + Fold(b)
      ensures Fold(a + [CLOSE] + b) == Fold(a) + [CLOSE] + Fold(b)
    {
      FoldSeparates(a, OPEN, b);
      FoldSeparates(a, CLOSE, b);
    }
    forall a, b ensures Fold(a + [COLON] + b) == Fold(a) + [COLON] + Fold(b) {
      FoldSeparates(a, COLON, b);
    }
    forall s
      ensures Fold(KELVIN_SIGN + s) == Fold(SMALL_K + s)
      ensures Fold(DOTTED_I + s) == Fold(SMALL_I_AND_DOT + s)
    {
      FoldOfKelvin(s);
      FoldOfDotted(s);
    }
  }
}
