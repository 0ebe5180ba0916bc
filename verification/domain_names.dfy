/** Domain names as byte strings, and the two suffix tests of the router against their label lists. */
module DomainNames {
  import opened Bytes

  const DOT: byte := 46

  /** The labels between the dots; the empty name has one empty label. */
  function Labels(name: bytes): (labels: seq<bytes>)
    ensures labels != []
  {
    if name == [] then [[]]
    else
      var rest := Labels(name[1..]);
      if name[0] == DOT then [[]] + rest else [[name[0]] + rest[0]] + rest[1..]
  }

  function Join(labels: seq<bytes>): bytes
    requires labels != []
  {
    if |labels| == 1 then labels[0] else labels[0] + [DOT] + Join(labels[1..])
  }

  predicate EndsWith<T(==)>(s: seq<T>, tail: seq<T>) {
    |tail| <= |s| && s[|s| - |tail|..] == tail
  }

  /** The test on lower-cased names: equal, or ending in the suffix right after a dot. */
  predicate HasSuffix(domain: bytes, suffix: bytes) {
    domain == suffix ||
    (EndsWith(domain, suffix) && |domain| > |suffix| && domain[|domain| - |suffix| - 1] == DOT)
  }

  function MatchDomainSuffix(lower: bytes -> bytes, domain: bytes, suffix: bytes): bool {
    HasSuffix(lower(domain), lower(suffix))
  }

  lemma {:induction false} JoinLabels(name: bytes)
    ensures Join(Labels(name)) == name
  {
    if name != [] {
      JoinLabels(name[1..]);
      var rest := Labels(name[1..]);
      if name[0] == DOT {
        assert ([[]] + rest)[1..] == rest;
      } else if |rest| > 1 {
        assert ([[name[0]] + rest[0]] + rest[1..])[1..] == rest[1..];
      }
    }
  }

  lemma {:induction false} JoinAppend(a: seq<bytes>, b: seq<bytes>)
    requires a != [] && b != []
    ensures Join(a + b) == Join(a) + [DOT] + Join(b)
  {
    if |a| == 1 {
      assert (a + b)[1..] == b;
    } else {
      assert (a + b)[1..] == a[1..] + b;
      JoinAppend(a[1..], b);
    }
  }

  lemma {:induction false} LabelsAppend(a: bytes, b: bytes)
    ensures Labels(a + [DOT] + b) == Labels(a) + Labels(b)
  {
    var s := a + [DOT] + b;
    if a == [] {
      assert s[1..] == b;
    } else {
      assert s[1..] == a[1..] + [DOT] + b;
      LabelsAppend(a[1..], b);
    }
  }

  /** The byte test says exactly that the suffix's labels end the domain's labels. */
  lemma SuffixIsLabelTail(domain: bytes, suffix: bytes)
    ensures HasSuffix(domain, suffix) <==> EndsWith(Labels(domain), Labels(suffix))
  {
    if HasSuffix(domain, suffix) {
      if domain != suffix {
        var head := domain[..|domain| - |suffix| - 1];
        assert domain == head + [DOT] + suffix;
        LabelsAppend(head, suffix);
      }
    }
    if EndsWith(Labels(domain), Labels(suffix)) {
      JoinLabels(domain);
      JoinLabels(suffix);
      var n := |Labels(domain)| - |Labels(suffix)|;
      if n > 0 {
        var head := Labels(domain)[..n];
        assert Labels(domain) == head + Labels(suffix);
        JoinAppend(head, Labels(suffix));
        assert domain == Join(head) + [DOT] + suffix;
      }
    }
  }
}
