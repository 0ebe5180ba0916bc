/**
 * Routing: compiling the domain sets of a configuration into tables, matching against them, and resolving
 * the route of a destination. IP parsing, private ranges, CIDR tests and regular expressions are
 * parameters, and so is Unicode lower-casing.
 */
module Router {
  import opened Bytes
  import opened DomainNames
  import opened Lowering
  import opened Options
  import opened RouteModes

  /** A named set of domains. Its priority takes no part in routing. */
  datatype DomainSet = DomainSet(exact: seq<bytes>, suffixes: seq<bytes>, enabled: bool, priority: int)

  datatype Rule = Rule(
    domain: Option<seq<bytes>>, ip: Option<seq<bytes>>, port: Option<seq<nat>>,
    inboundTag: Option<seq<string>>, outboundTag: string)

  datatype Config = Config(warpSets: seq<DomainSet>, directSets: seq<DomainSet>, rules: seq<Rule>)

  datatype Tables = Tables(
    warpExact: set<bytes>, warpSuffixes: seq<bytes>, directExact: set<bytes>, directSuffixes: seq<bytes>,
    rules: seq<Rule>)

  type Ip = bytes

  /** The library calls a route depends on. `regex` gives None for a pattern that does not compile. */
  datatype Library = Library(
    lower: bytes -> bytes, parseIp: bytes -> Option<Ip>, isPrivateOrLocal: bytes -> bool, inCidr: (bytes, Ip) -> bool,
    regex: (bytes, bytes) -> Option<bool>)

  // ---- The host of a destination ----

  function LastIndexOf(s: bytes, c: byte): (i: int)
    ensures -1 <= i < |s| && (i >= 0 ==> s[i] == c)
    ensures forall k :: i < k < |s| ==> s[k] != c
  {
    if s == [] then -1
    else if s[|s| - 1] == c then |s| - 1
    else LastIndexOf(s[..|s| - 1], c)
  }

  function IndexOf(s: bytes, c: byte): (i: nat)
    requires c in s
    ensures i < |s| && s[i] == c && forall k :: 0 <= k < i ==> s[k] != c
  {
    if s[0] == c then 0 else 1 + IndexOf(s[1..], c)
  }

  /** Whether a string may be cut before its byte `i`, which no UTF-8 character may straddle. */
  predicate CharBoundary(s: bytes, i: nat) {
    i == |s| || (i < |s| && !Continuation(s[i]))
  }

  /**
   * The host part of a lower-cased destination; None where the slice `[1..end]` panics, because it ends
   * before it begins or starts inside a character.
   */
  function HostOf(text: bytes): Option<bytes> {
    var colon := LastIndexOf(text, COLON);
    if colon < 0 then Some(text)
    else if text[0] == OPEN && text[|text| - 1] == CLOSE then Some(text)
    else if CLOSE in text then
      var end := IndexOf(text, CLOSE);
      if end < 1 || !CharBoundary(text, 1) then None else Some(text[1..end])
    else Some(text[..colon])
  }

  function GetHost(lower: bytes -> bytes, dest: bytes): Option<bytes> {
    HostOf(lower(dest))
  }

  /** In UTF-8 text a character of more than one byte begins with a byte of 0x80 or more. */
  lemma FirstCharacter(s: bytes)
    requires Utf8(s) && s != []
    ensures CharBoundary(s, 1) <==> s[0] < 0x80
  {
    if s[0] < 0x80 && |s| > 1 {
      assert Utf8(s[1..]) && s[1..][0] == s[1];
    }
  }

  /** The same of lower-cased text. */
  lemma HostOfPanicsIff(text: bytes)
    requires Utf8(text)
    ensures HostOf(text).None? <==>
            COLON in text && (text[0] == CLOSE || (text[0] >= 0x80 && CLOSE in text))
  {
    hide Utf8, CharBoundary, LastIndexOf, IndexOf;
    if text != [] {
      FirstCharacter(text);
    }
  }

  /** The text is its own host exactly if it has no colon, or stands in brackets from end to end. */
  lemma HostOfIsWholeIff(text: bytes)
    ensures HostOf(text) == Some(text) <==>
            COLON !in text || (text[0] == OPEN && text[|text| - 1] == CLOSE)
  {
    hide LastIndexOf, IndexOf;
  }

  /** Otherwise a text with a `]` gives what lies between its first byte and the first `]`. */
  lemma HostOfStopsAtBracket(head: bytes, tail: bytes)
    requires CLOSE !in head && Utf8(head + [CLOSE] + tail)
    requires COLON in head + [CLOSE] + tail && !(head != [] && head[0] == OPEN && (tail == [] || tail[|tail| - 1] == CLOSE))
    ensures HostOf(head + [CLOSE] + tail) == if head == [] || head[0] >= 0x80 then None else Some(head[1..])
  {
    hide Utf8, CharBoundary, LastIndexOf, IndexOf;
    var text := head + [CLOSE] + tail;
    FirstCharacter(text);
    BracketInText(head, tail);
    assert LastIndexOf(text, COLON) >= 0;
  }

  lemma BracketInText(head: bytes, tail: bytes)
    requires CLOSE !in head
    ensures var text := head + [CLOSE] + tail;
            && CLOSE in text && IndexOf(text, CLOSE) == |head|
            && text[0] == (if head == [] then CLOSE else head[0])
            && text[|text| - 1] == (if tail == [] then CLOSE else tail[|tail| - 1])
            && (head != [] ==> text[1..|head|] == head[1..])
  {
    hide IndexOf;
    var text := head + [CLOSE] + tail;
    assert text[|head|] == CLOSE;
    assert forall k :: 0 <= k < |head| ==> text[k] == head[k];
  }

  /** And one without a `]` gives what lies before its last colon. */
  lemma HostOfStopsAtColon(head: bytes, tail: bytes)
    requires CLOSE !in head && CLOSE !in tail && COLON !in tail
    ensures HostOf(head + [COLON] + tail) == Some(head)
  {
    hide LastIndexOf, IndexOf;
    var text := head + [COLON] + tail;
    assert text[|head|] == COLON;
    assert forall k :: |head| < k < |text| ==> text[k] == tail[k - |head| - 1];
    assert text[..|head|] == head;
  }

  /**
   * Of UTF-8 destinations, host extraction panics on exactly those with a colon that start with `]`, or
   * have a `]` and start with a character of more than one byte, except the two whose lower case starts
   * with an ASCII letter: the Kelvin sign and the capital i with a dot.
   */
  lemma GetHostPanicsIff(lower: bytes -> bytes, dest: bytes)
    requires Unicode(lower) && Utf8(dest)
    ensures GetHost(lower, dest).None? <==>
            COLON in dest && (dest[0] == CLOSE || (!BeginsWithAscii(dest) && CLOSE in dest))
  {
    hide Utf8, HostOf;
    assert Lowers(lower, dest);
    HostOfPanicsIff(lower(dest));
    assert Punctuation(COLON) && Punctuation(CLOSE);
  }

  /** A short destination that panics: a letter e with an acute accent, a closing bracket, a colon and 80. */
  lemma AccentedBracketPanics(lower: bytes -> bytes)
    requires Unicode(lower)
    ensures Utf8([0xC3, 0xA9, CLOSE, COLON, 56, 48]) && GetHost(lower, [0xC3, 0xA9, CLOSE, COLON, 56, 48]).None?
  {
    hide GetHost, Unicode;
    var dest: bytes := [0xC3, 0xA9, CLOSE, COLON, 56, 48];
    AsciiIsUtf8([CLOSE, COLON, 56, 48]);
    assert dest[2..] == [CLOSE, COLON, 56, 48];
    assert Utf8(dest);
    assert dest[2] == CLOSE && dest[3] == COLON;
    GetHostPanicsIff(lower, dest);
  }

  lemma {:induction false} AsciiIsUtf8(s: bytes)
    requires Ascii(s)
    ensures Utf8(s)
  {
    if s != [] {
      AsciiIsUtf8(s[1..]);
    }
  }

  /** With the Kelvin sign in place of that letter, the destination has the empty host. */
  lemma KelvinBracketDoesNotPanic(lower: bytes -> bytes)
    requires Unicode(lower)
    ensures GetHost(lower, [0xE2, 0x84, 0xAA, CLOSE, COLON, 56, 48]) == Some([])
  {
    hide HostOf, Unicode, Lower;
    var rest: bytes := [CLOSE, COLON, 56, 48];
    KelvinIsSmallK(lower, rest);
    assert KELVIN_SIGN + rest == [0xE2, 0x84, 0xAA, CLOSE, COLON, 56, 48];
    EmptyHost();
    assert SMALL_K + rest == [107, CLOSE, COLON, 56, 48];
  }

  lemma EmptyHost()
    ensures Lower([107, CLOSE, COLON, 56, 48]) == [107, CLOSE, COLON, 56, 48]
    ensures HostOf([107, CLOSE, COLON, 56, 48]) == Some([])
  {
    hide HostOf, Utf8;
    var text: bytes := [107, CLOSE, COLON, 56, 48];
    var head: bytes, tail: bytes := [107], [COLON, 56, 48];
    AsciiIsUtf8(text);
    assert text == head + [CLOSE] + tail && text[2] == COLON && tail[|tail| - 1] == 48;
    HostOfStopsAtBracket(head, tail);
    assert head[1..] == [];
  }

  lemma KelvinIsSmallK(lower: bytes -> bytes, rest: bytes)
    requires Unicode(lower) && Ascii(rest)
    ensures lower(KELVIN_SIGN + rest) == Lower(SMALL_K + rest)
  {
    AsciiIsUtf8(rest);
    assert Ascii(SMALL_K + rest);
  }

  /** A destination is its own host exactly if it has no colon, or stands in brackets from end to end. */
  lemma GetHostIsWholeIff(lower: bytes -> bytes, dest: bytes)
    requires Unicode(lower) && Utf8(dest)
    ensures GetHost(lower, dest) == Some(lower(dest)) <==>
            COLON !in dest || (dest[0] == OPEN && dest[|dest| - 1] == CLOSE)
  {
    hide Utf8, HostOf;
    assert Lowers(lower, dest);
    HostOfIsWholeIff(lower(dest));
    assert Punctuation(COLON) && Punctuation(OPEN) && Punctuation(CLOSE);
  }

  /** A name or IPv4 address with a port, or without one, gives itself. */
  lemma HostOfName(lower: bytes -> bytes, host: bytes, port: bytes)
    requires Unicode(lower) && Apart(host, port)
    requires COLON !in host && CLOSE !in host && COLON !in port && CLOSE !in port
    ensures GetHost(lower, host + [COLON] + port) == Some(lower(host)) && GetHost(lower, host) == Some(lower(host))
  {
    hide Utf8, Unicode, GetHost;
    BareIpv6LosesItsLastGroup(lower, host, port);
    GetHostIsWholeIff(lower, host);
  }

  /** A bracketed IPv6 address with a port gives the address without its brackets. */
  lemma HostOfBracketed(lower: bytes -> bytes, host: bytes, port: bytes)
    requires Unicode(lower) && Utf8(host) && Utf8(port) && CLOSE !in host && CLOSE !in port
    ensures GetHost(lower, [OPEN] + host + [CLOSE, COLON] + port) == Some(lower(host))
  {
    hide HostOf, Utf8, Unicode, Lowers;
    var dest, after := [OPEN] + host + [CLOSE, COLON] + port, [COLON] + port;
    var head, tail := [OPEN] + lower(host), lower(after);
    LowerBracketed(lower, host, port);
    LowerKeeps(lower, host);
    LowerKeeps(lower, after);
    LowerKeeps(lower, dest);
    assert CLOSE !in head;
    assert after[|after| - 1] == if port == [] then COLON else port[|port| - 1];
    assert (head + [CLOSE] + tail)[|head| + 1] == COLON;
    HostOfStopsAtBracket(head, tail);
    assert head[1..] == lower(host);
  }

  lemma LowerKeeps(lower: bytes -> bytes, s: bytes)
    requires Unicode(lower) && Utf8(s)
    ensures Utf8(lower(s)) && (lower(s) == [] <==> s == [])
    ensures CLOSE in lower(s) <==> CLOSE in s
    ensures COLON in lower(s) <==> COLON in s
    ensures s != [] ==> (lower(s)[0] == COLON <==> s[0] == COLON)
    ensures s != [] ==> (lower(s)[|lower(s)| - 1] == CLOSE <==> s[|s| - 1] == CLOSE)
  {
    hide Utf8;
    assert Lowers(lower, s);
    assert Punctuation(COLON) && Punctuation(CLOSE);
  }

  lemma LowerBracketed(lower: bytes -> bytes, host: bytes, port: bytes)
    requires Unicode(lower) && Utf8(host) && Utf8(port)
    ensures Utf8([COLON] + port) && Utf8([OPEN] + host + [CLOSE, COLON] + port)
    ensures lower([OPEN] + host + [CLOSE, COLON] + port) == [OPEN] + lower(host) + [CLOSE] + lower([COLON] + port)
  {
    hide Utf8, Unicode, Lower;
    var after := [COLON] + port;
    var inner := host + [CLOSE] + after;
    AsciiIsUtf8([COLON]);
    Utf8Append([COLON], port);
    LowerBrackets(lower, host, after);
    AsciiIsUtf8([]);
    LowerBrackets(lower, [], inner);
    assert [OPEN] + host + [CLOSE, COLON] + port == [] + [OPEN] + inner;
    assert [] + [OPEN] + (lower(host) + [CLOSE] + lower(after)) == [OPEN] + lower(host) + [CLOSE] + lower(after);
  }

  lemma LowerBrackets(lower: bytes -> bytes, a: bytes, b: bytes)
    requires Unicode(lower) && Utf8(a) && Utf8(b)
    ensures Utf8(a + [OPEN] + b) && Utf8(a + [CLOSE] + b)
    ensures lower(a + [OPEN] + b) == (if a == [] then [] else lower(a)) + [OPEN] + lower(b)
    ensures lower(a + [CLOSE] + b) == lower(a) + [CLOSE] + lower(b)
  {
    hide Utf8;
    AsciiIsUtf8([OPEN]);
    AsciiIsUtf8([CLOSE]);
    Utf8Append(a, [OPEN]);
    Utf8Append(a + [OPEN], b);
    Utf8Append(a, [CLOSE]);
    Utf8Append(a + [CLOSE], b);
    assert Lowers(lower, a);
  }

  lemma LowerApart(lower: bytes -> bytes, before: bytes, after: bytes)
    requires Unicode(lower) && Apart(before, after)
    ensures Utf8(before) && Utf8(after)
    ensures lower(before + [COLON] + after) == lower(before) + [COLON] + lower(after)
  {
    hide Utf8, Lowers;
  }

  /**
   * Without a `]`, the text after the last colon is taken for a port, also the last group of a bare IPv6
   * address, so that `::1` is not seen as the loopback address.
   */
  lemma BareIpv6LosesItsLastGroup(lower: bytes -> bytes, head: bytes, last: bytes)
    requires Unicode(lower) && Apart(head, last) && CLOSE !in head && COLON !in last && CLOSE !in last
    ensures GetHost(lower, head + [COLON] + last) == Some(lower(head))
  {
    hide Utf8, Unicode, HostOf;
    LowerApart(lower, head, last);
    LowerKeeps(lower, head);
    LowerKeeps(lower, last);
    HostOfStopsAtColon(lower(head), lower(last));
  }

  // ---- Domain sets and their tables ----

  /** Some enabled set has the name as an exact entry, or a suffix whose labels end the name's. */
  ghost predicate Listed(lower: bytes -> bytes, sets: seq<DomainSet>, name: bytes) {
    exists s :: s in sets && s.enabled && ListedIn(lower, s, name)
  }

  ghost predicate ListedIn(lower: bytes -> bytes, s: DomainSet, name: bytes) {
    || (exists d :: d in s.exact && lower(d) == lower(name))
    || (exists x :: x in s.suffixes && EndsWith(Labels(lower(name)), Labels(lower(x))))
  }

  /** What one set lists, by its entries: exact names, names that end in a suffix's labels, nothing when disabled. */
  lemma OneSetLists(lower: bytes -> bytes, name: bytes, entry: bytes, priority: int, s: DomainSet)
    ensures Listed(lower, [DomainSet([entry], [], true, priority)], name) <==> lower(entry) == lower(name)
    ensures Listed(lower, [DomainSet([], [entry], true, priority)], name) <==>
            EndsWith(Labels(lower(name)), Labels(lower(entry)))
    ensures !s.enabled ==> !Listed(lower, [s], name)
  {
    hide Labels, EndsWith;
    var exact, suffix := DomainSet([entry], [], true, priority), DomainSet([], [entry], true, priority);
    assert exact in [exact] && entry in exact.exact;
    assert suffix in [suffix] && entry in suffix.suffixes;
  }

  /** And what several list is what one of them does. */
  lemma ListedByOne(lower: bytes -> bytes, sets: seq<DomainSet>, name: bytes)
    ensures Listed(lower, sets, name) <==> exists s :: s in sets && Listed(lower, [s], name)
  {
    hide ListedIn;
    forall s | s in sets && s.enabled && ListedIn(lower, s, name) ensures Listed(lower, [s], name) {
      assert s in [s];
    }
  }

  /** The tables of some sets. */
  ghost predicate Compiled(lower: bytes -> bytes, sets: seq<DomainSet>, exact: set<bytes>, suffixes: seq<bytes>) {
    && (forall e :: e in exact <==> exists s, d :: s in sets && s.enabled && d in s.exact && e == lower(d))
    && (forall x :: x in suffixes <==> exists s, d :: s in sets && s.enabled && d in s.suffixes && x == lower(d))
  }

  ghost predicate InTables(lower: bytes -> bytes, exact: set<bytes>, suffixes: seq<bytes>, name: bytes) {
    lower(name) in exact || exists x :: x in suffixes && MatchDomainSuffix(lower, lower(name), x)
  }

  /**
   * Matching a name against the compiled tables asks just whether some enabled set lists it. Neither the
   * order of the sets nor a priority plays a part: the right side mentions neither.
   */
  lemma TablesKeepTheMeaning(lower: bytes -> bytes, sets: seq<DomainSet>, exact: set<bytes>, suffixes: seq<bytes>, name: bytes)
    requires Idempotent(lower)
    requires Compiled(lower, sets, exact, suffixes)
    ensures InTables(lower, exact, suffixes, name) <==> Listed(lower, sets, name)
  {
    hide MatchDomainSuffix, Labels, Compiled, ListedIn, EndsWith;
    if Listed(lower, sets, name) {
      var s :| s in sets && s.enabled && ListedIn(lower, s, name);
      ListedIsInTables(lower, sets, exact, suffixes, name, s);
    }
    if InTables(lower, exact, suffixes, name) {
      InTablesIsListed(lower, sets, exact, suffixes, name);
    }
  }

  lemma SuffixEntry(lower: bytes -> bytes, name: bytes, suffix: bytes)
    requires Idempotent(lower)
    ensures MatchDomainSuffix(lower, lower(name), lower(suffix)) <==> EndsWith(Labels(lower(name)), Labels(lower(suffix)))
  {
    SuffixIsLabelTail(lower(name), lower(suffix));
  }

  lemma ListedIsInTables(lower: bytes -> bytes, sets: seq<DomainSet>, exact: set<bytes>, suffixes: seq<bytes>, name: bytes, s: DomainSet)
    requires Idempotent(lower)
    requires Compiled(lower, sets, exact, suffixes) && s in sets && s.enabled && ListedIn(lower, s, name)
    ensures InTables(lower, exact, suffixes, name)
  {
    hide MatchDomainSuffix, Labels, EndsWith;
    if d :| d in s.exact && lower(d) == lower(name) {
      assert lower(name) in exact;
    } else {
      var x :| x in s.suffixes && EndsWith(Labels(lower(name)), Labels(lower(x)));
      SuffixEntry(lower, name, x);
      assert lower(x) in suffixes;
    }
  }

  lemma InTablesIsListed(lower: bytes -> bytes, sets: seq<DomainSet>, exact: set<bytes>, suffixes: seq<bytes>, name: bytes)
    requires Idempotent(lower)
    requires Compiled(lower, sets, exact, suffixes) && InTables(lower, exact, suffixes, name)
    ensures Listed(lower, sets, name)
  {
    hide MatchDomainSuffix, Labels, EndsWith;
    if lower(name) in exact {
      var s, d :| s in sets && s.enabled && d in s.exact && lower(name) == lower(d);
      assert ListedIn(lower, s, name);
    } else {
      var x :| x in suffixes && MatchDomainSuffix(lower, lower(name), x);
      var s, d :| s in sets && s.enabled && d in s.suffixes && x == lower(d);
      SuffixEntry(lower, name, d);
      assert ListedIn(lower, s, name);
    }
  }

  /** Every set is among the others, up to its priority. */
  ghost predicate Among(sets: seq<DomainSet>, other: seq<DomainSet>) {
    forall s :: s in sets ==> exists t :: t in other && t == s.(priority := t.priority)
  }

  /** Tables compiled from the same sets in another order or with other priorities match the same names. */
  lemma OrderDoesNotMatter(lower: bytes -> bytes, sets: seq<DomainSet>, exact: set<bytes>, suffixes: seq<bytes>,
                           other: seq<DomainSet>, otherExact: set<bytes>, otherSuffixes: seq<bytes>, name: bytes)
    requires Idempotent(lower)
    requires Compiled(lower, sets, exact, suffixes) && Compiled(lower, other, otherExact, otherSuffixes)
    requires Among(sets, other) && Among(other, sets)
    ensures InTables(lower, exact, suffixes, name) <==> InTables(lower, otherExact, otherSuffixes, name)
  {
    hide Compiled, InTables, Among, Listed;
    TablesKeepTheMeaning(lower, sets, exact, suffixes, name);
    TablesKeepTheMeaning(lower, other, otherExact, otherSuffixes, name);
    ListedAmong(lower, sets, other, name);
    ListedAmong(lower, other, sets, name);
  }

  lemma ListedAmong(lower: bytes -> bytes, sets: seq<DomainSet>, other: seq<DomainSet>, name: bytes)
    requires Among(sets, other)
    ensures Listed(lower, sets, name) ==> Listed(lower, other, name)
  {
    hide ListedIn;
    if s :| s in sets && s.enabled && ListedIn(lower, s, name) {
      var t :| t in other && t == s.(priority := t.priority);
      PriorityDoesNotMatter(lower, s, t, name);
    }
  }

  lemma PriorityDoesNotMatter(lower: bytes -> bytes, s: DomainSet, t: DomainSet, name: bytes)
    requires t == s.(priority := t.priority)
    ensures ListedIn(lower, s, name) <==> ListedIn(lower, t, name)
  {
    hide Labels, EndsWith;
  }

  method CompileSets(lower: bytes -> bytes, sets: seq<DomainSet>) returns (exact: set<bytes>, suffixes: seq<bytes>)
    ensures Compiled(lower, sets, exact, suffixes)
  {
    exact, suffixes := {}, [];
    for i := 0 to |sets|
      invariant Compiled(lower, sets[..i], exact, suffixes)
    {
      var set_ := sets[i];
      ghost var exact0, suffixes0 := exact, suffixes;
      if set_.enabled {
        for j := 0 to |set_.exact|
          invariant forall e :: e in exact <==> e in exact0 || exists d :: d in set_.exact[..j] && e == lower(d)
        {
          exact := exact + {lower(set_.exact[j])};
        }
        for j := 0 to |set_.suffixes|
          invariant forall x :: x in suffixes <==> x in suffixes0 || exists d :: d in set_.suffixes[..j] && x == lower(d)
        {
          suffixes := suffixes + [lower(set_.suffixes[j])];
        }
      }
      assert sets[..i + 1] == sets[..i] + [set_];
    }
    assert sets[..|sets|] == sets;
  }

  // ---- Rules ----

  const DOMAIN: bytes := [100, 111, 109, 97, 105, 110, 58]
  const KEYWORD: bytes := [107, 101, 121, 119, 111, 114, 100, 58]
  const REGEXP: bytes := [114, 101, 103, 101, 120, 112, 58]

  predicate Contains(s: bytes, part: bytes) {
    exists i :: 0 <= i <= |s| && part <= s[i..]
  }

  function MatchesRuleDomain(lib: Library, pattern: bytes, host: bytes): bool {
    var host, pattern := lib.lower(host), lib.lower(pattern);
    if DOMAIN <= pattern then HasSuffix(host, pattern[|DOMAIN|..])
    else if KEYWORD <= pattern then Contains(host, pattern[|KEYWORD|..])
    else if REGEXP <= pattern then
      var m := lib.regex(pattern[|REGEXP|..], host);
      if m.Some? then m.value else Contains(host, pattern[|REGEXP|..])
    else HasSuffix(host, pattern)
  }

  /** A `domain:` pattern and a bare one, lower-cased, match the names whose labels end with the pattern's. */
  lemma DomainRuleMatchesLabelTails(lib: Library, pattern: bytes, host: bytes)
    ensures var p := lib.lower(pattern);
            && ([100, 111, 109, 97, 105, 110, 58] <= p ==>
                  (MatchesRuleDomain(lib, pattern, host) <==>
                   EndsWith(Labels(lib.lower(host)), Labels(p[7..]))))
            && (!(DOMAIN <= p) && !(KEYWORD <= p) && !(REGEXP <= p) ==>
                  (MatchesRuleDomain(lib, pattern, host) <==> EndsWith(Labels(lib.lower(host)), Labels(p))))
  {
    hide Labels, EndsWith, HasSuffix;
    var p := lib.lower(pattern);
    SuffixIsLabelTail(lib.lower(host), p);
    if DOMAIN <= p {
      SuffixIsLabelTail(lib.lower(host), p[|DOMAIN|..]);
    }
  }

  /** A `keyword:` pattern matches names that contain the word; a `regexp:` one asks the regular expression, if it compiles. */
  lemma KeywordsAndExpressions(lib: Library, pattern: bytes, host: bytes)
    ensures var p, h := lib.lower(pattern), lib.lower(host);
            && ([107, 101, 121, 119, 111, 114, 100, 58] <= p ==>
                  (MatchesRuleDomain(lib, pattern, host) <==> Contains(h, p[8..])))
            && ([114, 101, 103, 101, 120, 112, 58] <= p ==>
                  (MatchesRuleDomain(lib, pattern, host) <==>
                   if lib.regex(p[7..], h).Some? then lib.regex(p[7..], h).value else Contains(h, p[7..])))
  {
    hide Contains, HasSuffix;
    var p := lib.lower(pattern);
    if KEYWORD <= p {
      assert p[0] == 107;
    }
    if REGEXP <= p {
      assert p[0] == 114;
    }
  }

  predicate MatchesAny(lib: Library, patterns: seq<bytes>, host: bytes, sni: Option<bytes>) {
    exists d :: d in patterns &&
      (MatchesRuleDomain(lib, d, host) || (sni.Some? && MatchesRuleDomain(lib, d, sni.value)))
  }

  /** Every condition a rule states holds of the connection; one it does not state holds of all. */
  predicate RuleMatches(lib: Library, rule: Rule, host: bytes, port: nat, inboundTag: string, sni: Option<bytes>) {
    && (rule.domain.Some? ==> MatchesAny(lib, rule.domain.value, host, sni))
    && (rule.ip.Some? ==>
          lib.parseIp(host).Some? && exists p :: p in rule.ip.value && lib.inCidr(p, lib.parseIp(host).value))
    && (rule.port.Some? ==> port in rule.port.value)
    && (rule.inboundTag.Some? ==> inboundTag in rule.inboundTag.value)
  }

  const ANYTHING := Rule(None, None, None, None, "")

  /** A rule matches exactly if each of its conditions does by itself, and one without conditions always does. */
  lemma RuleIsAConjunction(lib: Library, rule: Rule, host: bytes, port: nat, inboundTag: string, sni: Option<bytes>)
    ensures RuleMatches(lib, rule, host, port, inboundTag, sni) <==>
            && RuleMatches(lib, ANYTHING.(domain := rule.domain), host, port, inboundTag, sni)
            && RuleMatches(lib, ANYTHING.(ip := rule.ip), host, port, inboundTag, sni)
            && RuleMatches(lib, ANYTHING.(port := rule.port), host, port, inboundTag, sni)
            && RuleMatches(lib, ANYTHING.(inboundTag := rule.inboundTag), host, port, inboundTag, sni)
    ensures RuleMatches(lib, ANYTHING, host, port, inboundTag, sni)
  {
    hide MatchesAny;
  }

  /**
   * Each condition: a pattern that the host or the SNI matches, a range that holds the host's address (never
   * for a host that is a name), the destination's port, the inbound's tag.
   */
  lemma EachCondition(lib: Library, host: bytes, port: nat, inboundTag: string, sni: Option<bytes>,
                      patterns: seq<bytes>, ranges: seq<bytes>, ports: seq<nat>, tags: seq<string>)
    ensures RuleMatches(lib, ANYTHING.(domain := Some(patterns)), host, port, inboundTag, sni) <==>
            exists d :: d in patterns &&
              (MatchesRuleDomain(lib, d, host) || (sni.Some? && MatchesRuleDomain(lib, d, sni.value)))
    ensures RuleMatches(lib, ANYTHING.(ip := Some(ranges)), host, port, inboundTag, sni) <==>
            lib.parseIp(host).Some? && exists r :: r in ranges && lib.inCidr(r, lib.parseIp(host).value)
    ensures RuleMatches(lib, ANYTHING.(port := Some(ports)), host, port, inboundTag, sni) <==> port in ports
    ensures RuleMatches(lib, ANYTHING.(inboundTag := Some(tags)), host, port, inboundTag, sni) <==> inboundTag in tags
  {
    hide MatchesRuleDomain;
  }

  method MatchRule(lib: Library, rule: Rule, host: bytes, port: nat, inboundTag: string, sni: Option<bytes>)
    returns (matches: bool)
    ensures matches <==> RuleMatches(lib, rule, host, port, inboundTag, sni)
  {
    hide MatchesRuleDomain;
    matches := true;
    if rule.domain.Some? {
      var domainMatch := false;
      var domains := rule.domain.value;
      for i := 0 to |domains|
        invariant domainMatch <==> MatchesAny(lib, domains[..i], host, sni)
      {
        assert domains[..i + 1] == domains[..i] + [domains[i]];
        if MatchesRuleDomain(lib, domains[i], host) {
          domainMatch := true;
        } else if sni.Some? && MatchesRuleDomain(lib, domains[i], sni.value) {
          domainMatch := true;
        }
      }
      assert domains[..|domains|] == domains;
      matches := domainMatch;
    }
    if matches && rule.ip.Some? {
      var ipMatch := false;
      var hostIp, ips := lib.parseIp(host), rule.ip.value;
      if hostIp.Some? {
        for i := 0 to |ips|
          invariant ipMatch <==> exists p :: p in ips[..i] && lib.inCidr(p, hostIp.value)
        {
          assert ips[..i + 1] == ips[..i] + [ips[i]];
          if lib.inCidr(ips[i], hostIp.value) {
            ipMatch := true;
          }
        }
        assert ips[..|ips|] == ips;
      }
      matches := ipMatch;
    }
    if matches && rule.port.Some? && port !in rule.port.value {
      matches := false;
    }
    if matches && rule.inboundTag.Some? && inboundTag !in rule.inboundTag.value {
      matches := false;
    }
  }

  // ---- Resolving a route ----

  const LOCALHOST: bytes := [108, 111, 99, 97, 108, 104, 111, 115, 116]
  const LOOPBACK_V4: bytes := [49, 50, 55, 46, 48, 46, 48, 46, 49]
  const LOOPBACK_V6: bytes := [58, 58, 49]

  /** Destinations that never leave through a proxy: local and private hosts, and the engine's own ports. */
  predicate Internal(lib: Library, host: bytes, port: nat) {
    || Lower(host) == LOCALHOST || host == LOOPBACK_V4 || host == LOOPBACK_V6
    || port == 9091 || port == 9100 || port == 40000
    || lib.isPrivateOrLocal(host)
  }

  /** The host or the SNI is in the tables. */
  ghost predicate EitherInTables(lower: bytes -> bytes, exact: set<bytes>, suffixes: seq<bytes>, host: bytes, sni: Option<bytes>) {
    InTables(lower, exact, suffixes, host) || (sni.Some? && InTables(lower, exact, suffixes, sni.value))
  }

  ghost predicate EitherListed(lower: bytes -> bytes, sets: seq<DomainSet>, host: bytes, sni: Option<bytes>) {
    Listed(lower, sets, host) || (sni.Some? && Listed(lower, sets, sni.value))
  }

  function Default(mode: RouteMode): string {
    if mode.BrowsingWarp? then "warp" else "direct"
  }

  ghost predicate FirstMatch(lib: Library, rules: seq<Rule>, i: int, host: bytes, port: nat, inboundTag: string,
                             sni: Option<bytes>)
  {
    && 0 <= i < |rules| && RuleMatches(lib, rules[i], host, port, inboundTag, sni)
    && forall j :: 0 <= j < i ==> !RuleMatches(lib, rules[j], host, port, inboundTag, sni)
  }

  /** The outbound of the first rule that matches, or the mode's default when none does. */
  ghost predicate ByRules(lib: Library, rules: seq<Rule>, mode: RouteMode, host: bytes, port: nat, inboundTag: string,
                          sni: Option<bytes>, route: string)
  {
    || (exists i :: FirstMatch(lib, rules, i, host, port, inboundTag, sni) && route == rules[i].outboundTag)
    || ((forall j :: 0 <= j < |rules| ==> !RuleMatches(lib, rules[j], host, port, inboundTag, sni))
        && route == Default(mode))
  }

  /**
   * What the configuration asks for: internal destinations go direct; in smart mode a listed host or SNI
   * goes over WARP, in browsing mode a listed exception goes direct; then the rules in order decide, and
   * at last the mode.
   */
  ghost predicate Routes(lib: Library, config: Config, mode: RouteMode, host: bytes, port: nat, inboundTag: string,
                         sni: Option<bytes>, route: string)
  {
    if Internal(lib, host, port) then route == "direct"
    else if mode.Smart? && EitherListed(lib.lower, config.warpSets, host, sni) then route == "warp"
    else if mode.BrowsingWarp? && EitherListed(lib.lower, config.directSets, host, sni) then route == "direct"
    else ByRules(lib, config.rules, mode, host, port, inboundTag, sni, route)
  }

  /** There is one such route. */
  lemma RouteIsUnique(lib: Library, config: Config, mode: RouteMode, host: bytes, port: nat, inboundTag: string,
                      sni: Option<bytes>, a: string, b: string)
    requires Routes(lib, config, mode, host, port, inboundTag, sni, a)
    requires Routes(lib, config, mode, host, port, inboundTag, sni, b)
    ensures a == b
  {
    hide RuleMatches, EitherListed, Internal;
    var rules := config.rules;
    if i :| FirstMatch(lib, rules, i, host, port, inboundTag, sni) {
      assert forall j :: FirstMatch(lib, rules, j, host, port, inboundTag, sni) ==> j == i;
    }
  }

  /** Which destinations are internal: localhost in any case, the loopback addresses, three ports, private hosts. */
  lemma InternalIs(lib: Library, host: bytes, port: nat)
    ensures Internal(lib, host, port) <==>
            || Lower(host) == [108, 111, 99, 97, 108, 104, 111, 115, 116]
            || host == [49, 50, 55, 46, 48, 46, 48, 46, 49] || host == [58, 58, 49]
            || port in {9091, 9100, 40000} || lib.isPrivateOrLocal(host)
  {
  }

  /**
   * The three modes, when no rule matches: an internal destination goes direct in all; else smart mode sends a
   * listed name over WARP and the rest direct, browsing mode an excepted name direct and the rest over WARP,
   * and low latency everything direct.
   */
  lemma ModesWithoutRules(lib: Library, config: Config, mode: RouteMode, host: bytes, port: nat, inboundTag: string,
                          sni: Option<bytes>, route: string)
    requires Routes(lib, config, mode, host, port, inboundTag, sni, route)
    requires forall r :: r in config.rules ==> !RuleMatches(lib, r, host, port, inboundTag, sni)
    ensures route ==
            if Internal(lib, host, port) then "direct"
            else match mode
              case Smart => if EitherListed(lib.lower, config.warpSets, host, sni) then "warp" else "direct"
              case BrowsingWarp => if EitherListed(lib.lower, config.directSets, host, sni) then "direct" else "warp"
              case LowLatencyDirect => "direct"
  {
    hide RuleMatches, EitherListed, Internal;
  }

  /** With rules: after internal destinations and the mode's own list, the first rule that matches decides. */
  lemma FirstRuleDecides(lib: Library, config: Config, mode: RouteMode, host: bytes, port: nat, inboundTag: string,
                         sni: Option<bytes>, route: string, i: nat)
    requires Routes(lib, config, mode, host, port, inboundTag, sni, route)
    requires i < |config.rules| && RuleMatches(lib, config.rules[i], host, port, inboundTag, sni)
    requires forall j :: 0 <= j < i ==> !RuleMatches(lib, config.rules[j], host, port, inboundTag, sni)
    ensures route ==
            if Internal(lib, host, port) then "direct"
            else if mode.Smart? && EitherListed(lib.lower, config.warpSets, host, sni) then "warp"
            else if mode.BrowsingWarp? && EitherListed(lib.lower, config.directSets, host, sni) then "direct"
            else config.rules[i].outboundTag
  {
    hide RuleMatches, EitherListed, Internal;
    assert FirstMatch(lib, config.rules, i, host, port, inboundTag, sni);
    assert forall k :: FirstMatch(lib, config.rules, k, host, port, inboundTag, sni) ==> k == i;
  }

  /** A destination is listed by its host or by its SNI. */
  lemma EitherIs(lower: bytes -> bytes, sets: seq<DomainSet>, host: bytes, name: bytes)
    ensures EitherListed(lower, sets, host, None) <==> Listed(lower, sets, host)
    ensures EitherListed(lower, sets, host, Some(name)) <==> Listed(lower, sets, host) || Listed(lower, sets, name)
  {
    hide Listed;
  }

  ghost predicate TablesOf(lower: bytes -> bytes, config: Config, t: Tables) {
    && Compiled(lower, config.warpSets, t.warpExact, t.warpSuffixes)
    && Compiled(lower, config.directSets, t.directExact, t.directSuffixes)
    && t.rules == config.rules
  }

  method Compile(lower: bytes -> bytes, config: Config) returns (t: Tables)
    ensures TablesOf(lower, config, t)
  {
    hide Compiled;
    var warpExact, warpSuffixes := CompileSets(lower, config.warpSets);
    var directExact, directSuffixes := CompileSets(lower, config.directSets);
    t := Tables(warpExact, warpSuffixes, directExact, directSuffixes, config.rules);
  }

  lemma HostIsLowerCase(lower: bytes -> bytes, dest: bytes)
    requires Unicode(lower) && Utf8(dest)
    ensures GetHost(lower, dest).Some? ==> lower(GetHost(lower, dest).value) == GetHost(lower, dest).value
  {
    hide Utf8, LastIndexOf, IndexOf, CharBoundary;
    var text := lower(dest);
    assert Lowers(lower, dest);
    assert text[..|text|] == text == text[0..|text|];
    if HostOf(text).Some? && HostOf(text).value != text && CLOSE !in text {
      var colon := LastIndexOf(text, COLON);
      assert text[..colon] == text[0..colon];
    }
  }

  /** One name against the tables; the name is lower-cased already. */
  method MatchesName(lower: bytes -> bytes, name: bytes, exact: set<bytes>, suffixes: seq<bytes>) returns (matches: bool)
    requires lower(name) == name
    ensures matches <==> InTables(lower, exact, suffixes, name)
  {
    hide MatchDomainSuffix;
    if name in exact {
      return true;
    }
    for i := 0 to |suffixes|
      invariant forall x :: x in suffixes[..i] ==> !MatchDomainSuffix(lower, name, x)
    {
      if MatchDomainSuffix(lower, name, suffixes[i]) {
        return true;
      }
    }
    assert suffixes[..|suffixes|] == suffixes;
    matches := false;
  }

  method MatchesDomain(lower: bytes -> bytes, host: bytes, sni: Option<bytes>, exact: set<bytes>, suffixes: seq<bytes>) returns (matches: bool)
    requires Idempotent(lower) && lower(host) == host
    ensures matches <==> EitherInTables(lower, exact, suffixes, host, sni)
  {
    hide InTables;
    matches := MatchesName(lower, host, exact, suffixes);
    if !matches && sni.Some? {
      SameName(lower, exact, suffixes, sni.value);
      matches := MatchesName(lower, lower(sni.value), exact, suffixes);
    }
  }

  lemma SameName(lower: bytes -> bytes, exact: set<bytes>, suffixes: seq<bytes>, name: bytes)
    requires Idempotent(lower)
    ensures InTables(lower, exact, suffixes, lower(name)) <==> InTables(lower, exact, suffixes, name)
  {
  }

  lemma UnicodeIsIdempotent(lower: bytes -> bytes)
    requires Unicode(lower)
    ensures Idempotent(lower)
  {
  }

  /** Resolution with the compiled tables gives the route the configuration asks for. */
  method ResolveRoute(lib: Library, mode: RouteMode, dest: bytes, port: nat, inboundTag: string, sni: Option<bytes>,
                      tables: Tables, ghost config: Config)
    returns (route: Option<string>)
    requires Unicode(lib.lower) && Utf8(dest) && TablesOf(lib.lower, config, tables)
    ensures route.None? <==> GetHost(lib.lower, dest).None?
    ensures route.Some? ==> Routes(lib, config, mode, GetHost(lib.lower, dest).value, port, inboundTag, sni, route.value)
  {
    hide Unicode, Utf8, Compiled, GetHost, EitherListed, RuleMatches, EitherInTables;
    var hostOption := GetHost(lib.lower, dest);
    if hostOption.None? {
      return None;
    }
    var host := hostOption.value;
    HostIsLowerCase(lib.lower, dest);
    assert Idempotent(lib.lower) by { UnicodeIsIdempotent(lib.lower); }
    if Internal(lib, host, port) {
      return Some("direct");
    }
    match mode {
      case LowLatencyDirect =>
      case BrowsingWarp =>
        var isDirect := MatchesDomain(lib.lower, host, sni, tables.directExact, tables.directSuffixes);
        EitherKeepsTheMeaning(lib.lower, config.directSets, tables.directExact, tables.directSuffixes, host, sni);
        if isDirect {
          return Some("direct");
        }
      case Smart =>
        var isWarp := MatchesDomain(lib.lower, host, sni, tables.warpExact, tables.warpSuffixes);
        EitherKeepsTheMeaning(lib.lower, config.warpSets, tables.warpExact, tables.warpSuffixes, host, sni);
        if isWarp {
          return Some("warp");
        }
    }
    for i := 0 to |tables.rules|
      invariant forall j :: 0 <= j < i ==> !RuleMatches(lib, tables.rules[j], host, port, inboundTag, sni)
    {
      var matches := MatchRule(lib, tables.rules[i], host, port, inboundTag, sni);
      if matches {
        assert FirstMatch(lib, tables.rules, i, host, port, inboundTag, sni);
        return Some(tables.rules[i].outboundTag);
      }
    }
    route := Some(Default(mode));
  }

  lemma EitherKeepsTheMeaning(lower: bytes -> bytes, sets: seq<DomainSet>, exact: set<bytes>, suffixes: seq<bytes>, host: bytes, sni: Option<bytes>)
    requires Idempotent(lower)
    requires Compiled(lower, sets, exact, suffixes)
    ensures EitherInTables(lower, exact, suffixes, host, sni) <==> EitherListed(lower, sets, host, sni)
  {
    hide Compiled, InTables, Listed;
    TablesKeepTheMeaning(lower, sets, exact, suffixes, host);
    if sni.Some? {
      TablesKeepTheMeaning(lower, sets, exact, suffixes, sni.value);
    }
  }
}
