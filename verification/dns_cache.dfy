/**
 * The bounded DNS cache, against the history of everything ever inserted into it. Lower-casing is a
 * parameter, and which entry of a full cache goes is left open, as the hash map's order is.
 */
module DnsCaches {
  import opened Clocks
  import opened Options

  type Ip = n: nat | n < 0x1_0000_0000 witness 0

  const MIN_TTL := 5
  const MAX_TTL := 600

  /** What a lookup gave: addresses with a time to live, or an error. */
  datatype Lookup = Answer(ips: seq<Ip>, ttl: nat) | Failure

  /** One insert: the lower-cased host, the result, and when. */
  datatype Insertion = Insertion(key: string, result: Lookup, at: real)

  datatype CacheEntry = CacheEntry(ips: seq<Ip>, expiresAt: real)

  datatype Address = Address(ip: Ip, port: nat)

  /** What a hit says: the cached addresses with the caller's port, or that the lookup had failed. */
  datatype Hit = Addresses(addresses: seq<Address>) | Negative

  function Lifetime(result: Lookup, negativeTtl: real): real {
    if result.Failure? then negativeTtl
    else if result.ttl < MIN_TTL then MIN_TTL as real
    else if result.ttl > MAX_TTL then MAX_TTL as real
    else result.ttl as real
  }

  function Ips(result: Lookup): seq<Ip> {
    if result.Answer? then result.ips else []
  }

  function EntryOf(i: Insertion, negativeTtl: real): CacheEntry {
    CacheEntry(Ips(i.result), i.at + Lifetime(i.result, negativeTtl))
  }

  function WithPort(ips: seq<Ip>, port: nat): (r: seq<Address>)
    ensures |r| == |ips|
  {
    seq(|ips|, i requires 0 <= i < |ips| => Address(ips[i], port))
  }

  function HitOf(e: CacheEntry, port: nat): Hit {
    if e.ips == [] then Negative else Addresses(WithPort(e.ips, port))
  }

  /** The last insert of a key. */
  function Latest(history: seq<Insertion>, key: string): Option<Insertion> {
    if history == [] then None
    else
      var last := history[|history| - 1];
      if last.key == key then Some(last) else Latest(history[..|history| - 1], key)
  }

  /** What an unbounded cache that forgets nothing but expired entries would answer. */
  function Ideal(history: seq<Insertion>, negativeTtl: real, key: string, port: nat, now: real): Option<Hit> {
    var latest := Latest(history, key);
    if latest.None? || now >= EntryOf(latest.value, negativeTtl).expiresAt then None
    else Some(HitOf(EntryOf(latest.value, negativeTtl), port))
  }

  function Hosts(history: seq<Insertion>): set<string> {
    set i | 0 <= i < |history| :: history[i].key
  }

  predicate IsLatest(history: seq<Insertion>, i: int, key: string) {
    && 0 <= i < |history| && history[i].key == key
    && forall j :: i < j < |history| ==> history[j].key != key
  }

  lemma {:induction false} LatestIs(history: seq<Insertion>, key: string)
    ensures Latest(history, key).None? <==> key !in Hosts(history)
    ensures forall i :: IsLatest(history, i, key) ==> Latest(history, key) == Some(history[i])
    ensures Latest(history, key).Some? ==>
      exists i :: IsLatest(history, i, key) && Latest(history, key).value == history[i]
  {
    if history != [] {
      var n := |history| - 1;
      var before := history[..n];
      LatestIs(before, key);
      if history[n].key == key {
        assert IsLatest(history, n, key);
      } else {
        forall i | IsLatest(before, i, key) || IsLatest(history, i, key)
          ensures IsLatest(before, i, key) && IsLatest(history, i, key) && before[i] == history[i]
        {
          assert i != n;
          assert forall j :: i < j < n ==> before[j] == history[j];
        }
        if key in Hosts(history) {
          var i :| 0 <= i < |history| && history[i].key == key;
          assert before[i].key == key;
        }
        assert Hosts(before) <= Hosts(history) by {
          forall i | 0 <= i < n ensures before[i].key in Hosts(history) {
            assert history[i] == before[i];
          }
        }
      }
    }
  }

  /**
   * A hit is exactly the latest insert for the host, before it expires: 5 to 600 seconds after an answer,
   * the negative time to live after a failure. Every address carries the caller's port.
   */
  lemma HitIsTheLatestInsert(
    history: seq<Insertion>, negativeTtl: real, key: string, port: nat, now: real, i: int)
    requires IsLatest(history, i, key)
    ensures var hit, at := Ideal(history, negativeTtl, key, port, now), history[i].at;
            && (history[i].result.Failure? ==> (hit.Some? <==> now < at + negativeTtl))
            && (history[i].result.Answer? && 5 <= history[i].result.ttl <= 600 ==>
                  (hit.Some? <==> now < at + history[i].result.ttl as real))
            && (history[i].result.Answer? && history[i].result.ttl < 5 ==> (hit.Some? <==> now < at + 5.0))
            && (history[i].result.Answer? && history[i].result.ttl > 600 ==> (hit.Some? <==> now < at + 600.0))
            && (hit.Some? ==> (hit.value.Negative? <==> history[i].result.Failure? || history[i].result.ips == []))
            && (hit.Some? && hit.value.Addresses? ==>
                  && history[i].result.Answer? && |hit.value.addresses| == |history[i].result.ips|
                  && forall k :: 0 <= k < |hit.value.addresses| ==>
                       hit.value.addresses[k] == Address(history[i].result.ips[k], port))
  {
    LatestIs(history, key);
  }

  predicate Expired(history: seq<Insertion>, negativeTtl: real, key: string, now: real) {
    Latest(history, key).Some? && EntryOf(Latest(history, key).value, negativeTtl).expiresAt <= now
  }

  /**
   * The entries agree with the history: each is the latest insert of its host, and a host without one was
   * never inserted, has expired, or was evicted.
   */
  ghost predicate Agrees(entries: map<string, CacheEntry>, history: seq<Insertion>, evicted: set<string>,
                         negativeTtl: real, now: real)
  {
    && (forall k :: k in entries ==>
          Latest(history, k).Some? && entries[k] == EntryOf(Latest(history, k).value, negativeTtl))
    && (forall k :: k in Hosts(history) ==> k in entries || k in evicted || Expired(history, negativeTtl, k, now))
    && evicted !! entries.Keys
  }

  /** With agreement, looking a host up gives the ideal answer unless it was evicted. */
  lemma LookupAgrees(entries: map<string, CacheEntry>, history: seq<Insertion>, evicted: set<string>,
                     negativeTtl: real, now: real, key: string, port: nat)
    requires Agrees(entries, history, evicted, negativeTtl, now)
    ensures key in entries ==> key !in evicted
    ensures Ideal(history, negativeTtl, key, port, now) ==
            if key in entries && now < entries[key].expiresAt then Some(HitOf(entries[key], port))
            else if key in evicted then Ideal(history, negativeTtl, key, port, now) else None
  {
    LatestIs(history, key);
  }

  lemma ForgetExpired(entries: map<string, CacheEntry>, history: seq<Insertion>, evicted: set<string>,
                      negativeTtl: real, before: real, now: real, dead: set<string>)
    requires Agrees(entries, history, evicted, negativeTtl, before) && before <= now
    requires forall k :: k in dead && k in entries ==> entries[k].expiresAt <= now
    ensures Agrees(entries - dead, history, evicted, negativeTtl, now)
  {
    hide Latest, EntryOf;
  }

  lemma Evict(entries: map<string, CacheEntry>, history: seq<Insertion>, evicted: set<string>,
              negativeTtl: real, now: real, victim: string)
    requires Agrees(entries, history, evicted, negativeTtl, now)
    ensures Agrees(entries - {victim}, history, evicted + {victim}, negativeTtl, now)
  {
    hide Latest, EntryOf;
  }

  lemma InsertAgrees(entries: map<string, CacheEntry>, history: seq<Insertion>, evicted: set<string>,
                     negativeTtl: real, now: real, i: Insertion)
    requires Agrees(entries, history, evicted, negativeTtl, now)
    ensures Agrees(entries[i.key := EntryOf(i, negativeTtl)], history + [i], evicted - {i.key}, negativeTtl, now)
    ensures Hosts(history + [i]) == Hosts(history) + {i.key}
  {
    hide Latest, EntryOf;
    HostsAppend(history, i);
    forall k ensures Latest(history + [i], k) == if k == i.key then Some(i) else Latest(history, k) {
      LatestAppend(history, i, k);
    }
  }

  lemma HostsAppend(history: seq<Insertion>, i: Insertion)
    ensures Hosts(history + [i]) == Hosts(history) + {i.key}
  {
    var n := history + [i];
    assert n[|history|] == i;
    forall j | 0 <= j < |history| ensures history[j].key in Hosts(n) {
      assert n[j] == history[j];
    }
  }

  lemma LatestAppend(history: seq<Insertion>, i: Insertion, k: string)
    ensures Latest(history + [i], k) == if k == i.key then Some(i) else Latest(history, k)
  {
    assert (history + [i])[..|history|] == history;
  }

  lemma EntriesAreHosts(entries: map<string, CacheEntry>, history: seq<Insertion>, evicted: set<string>,
                        negativeTtl: real, now: real)
    requires Agrees(entries, history, evicted, negativeTtl, now)
    ensures |entries| <= |Hosts(history)|
  {
    forall k | k in entries ensures k in Hosts(history) {
      LatestIs(history, k);
    }
    SubsetSize(entries.Keys, Hosts(history));
  }

  lemma SubsetSize<T>(a: set<T>, b: set<T>)
    requires a <= b
    ensures |a| <= |b|
  {
    if a != {} {
      var x :| x in a;
      SubsetSize(a - {x}, b - {x});
    }
  }

  class DnsCache {
    var entries: map<string, CacheEntry>
    const maxEntries: nat
    const negativeTtl: real
    const toLowercase: string -> string
    const clock: Clock
    ghost var history: seq<Insertion>
    ghost var evicted: set<string>

    /** The entries fit the bound and agree with the history; no host is evicted while there is room for all. */
    ghost predicate Valid()
      reads this, clock
    {
      && |entries| <= (if maxEntries == 0 then 1 else maxEntries)
      && Agrees(entries, history, evicted, negativeTtl, clock.time)
      && (|Hosts(history)| < maxEntries ==> evicted == {})
    }

    constructor (maxEntries: nat, negativeTtl: real, toLowercase: string -> string, clock: Clock)
      ensures Valid() && history == [] && evicted == {} && this.clock == clock
      ensures this.maxEntries == maxEntries && this.negativeTtl == negativeTtl && this.toLowercase == toLowercase
    {
      this.maxEntries, this.negativeTtl, this.toLowercase, this.clock := maxEntries, negativeTtl, toLowercase, clock;
      entries, history, evicted := map[], [], {};
    }

    /**
     * A lookup in the cache: what the cache that forgets nothing would answer at this instant, except
     * that an evicted host misses.
     */
    method Get(hostname: string, port: nat) returns (hit: Option<Hit>)
      requires Valid()
      modifies this`entries, clock
      ensures Valid() && clock.time >= old(clock.time)
      ensures hit == if toLowercase(hostname) in evicted then None
                     else Ideal(history, negativeTtl, toLowercase(hostname), port, clock.time)
    {
      hide Agrees, Ideal, Hosts, HitOf;
      var key := toLowercase(hostname);
      LookupAgrees(entries, history, evicted, negativeTtl, clock.time, key, port);
      if key in entries {
        var now := clock.Now();
        ForgetExpired(entries, history, evicted, negativeTtl, old(clock.time), now, {});
        assert entries - {} == entries;
        LookupAgrees(entries, history, evicted, negativeTtl, now, key, port);
        if now < entries[key].expiresAt {
          return Some(HitOf(entries[key], port));
        }
      }
      ForgetExpired(entries, history, evicted, negativeTtl, clock.time, clock.time, {key});
      RemovalKeepsSize(entries, key);
      entries := entries - {key};
      hit := None;
    }

    /**
     * An insert. Into a full cache it first makes room, by the clock reading `scan`: what has expired
     * goes, or else one live host. The new entry runs from a later reading.
     */
    method Insert(hostname: string, result: Lookup) returns (ghost victims: set<string>, ghost scan: real)
      requires Valid()
      modifies this`entries, this`history, this`evicted, clock
      ensures Valid() && old(clock.time) <= scan <= clock.time
      ensures history == old(history) + [Insertion(toLowercase(hostname), result, clock.time)]
      ensures evicted == old(evicted) + victims - {toLowercase(hostname)}
      ensures Chosen(old(entries), maxEntries, scan, victims)
      ensures entries == Kept(old(entries), maxEntries, scan, victims)[
                toLowercase(hostname) := EntryOf(Insertion(toLowercase(hostname), result, clock.time), negativeTtl)]
    {
      hide Agrees, Hosts, Chosen, Kept, EntryOf;
      EntriesAreHosts(entries, history, evicted, negativeTtl, clock.time);
      victims, scan := {}, clock.time;
      NoRoomNeeded(entries, maxEntries, scan);
      assert evicted + {} == evicted;
      if |entries| >= maxEntries {
        victims, scan := MakeRoom();
      }
      Store(toLowercase(hostname), result);
    }

    method Store(key: string, result: Lookup)
      requires Agrees(entries, history, evicted, negativeTtl, clock.time)
      modifies this`entries, this`history, this`evicted, clock
      ensures clock.time >= old(clock.time)
      ensures Agrees(entries, history, evicted, negativeTtl, clock.time)
      ensures |entries| <= |old(entries)| + 1 && |Hosts(old(history))| <= |Hosts(history)|
      ensures history == old(history) + [Insertion(key, result, clock.time)]
      ensures evicted == old(evicted) - {key}
      ensures entries == old(entries)[key := EntryOf(Insertion(key, result, clock.time), negativeTtl)]
    {
      hide Agrees, Hosts, EntryOf;
      var now := clock.Now();
      ForgetExpired(entries, history, evicted, negativeTtl, old(clock.time), now, {});
      assert entries - {} == entries;
      var i := Insertion(key, result, now);
      InsertAgrees(entries, history, evicted, negativeTtl, now, i);
      InsertSizes(entries, EntryOf(i, negativeTtl), Hosts(history), key);
      entries, history, evicted := entries[key := EntryOf(i, negativeTtl)], history + [i], evicted - {key};
    }

    /** Drops what has expired, or else any one entry. */
    method MakeRoom() returns (ghost victims: set<string>, ghost scan: real)
      requires Agrees(entries, history, evicted, negativeTtl, clock.time) && |entries| >= maxEntries
      modifies this`entries, this`evicted, clock
      ensures old(clock.time) <= scan == clock.time
      ensures Agrees(entries, history, evicted, negativeTtl, clock.time)
      ensures |entries| < |old(entries)| || |old(entries)| == |entries| == 0
      ensures evicted == old(evicted) + victims
      ensures Chosen(old(entries), maxEntries, scan, victims)
      ensures entries == Kept(old(entries), maxEntries, scan, victims)
    {
      hide Agrees, Chosen, Kept;
      var now := clock.Now();
      var kept;
      kept, victims := RoomIn(entries, now, maxEntries);
      scan := now;
      RoomAgrees(entries, history, evicted, negativeTtl, old(clock.time), scan, maxEntries, victims);
      entries, evicted := kept, evicted + victims;
    }
  }

  /** What is left of a full cache: what is live, or if that is everything, all but one. */
  method RoomIn(entries: map<string, CacheEntry>, now: real, ghost maxEntries: nat)
    returns (kept: map<string, CacheEntry>, ghost victims: set<string>)
    requires |entries| >= maxEntries
    ensures Chosen(entries, maxEntries, now, victims) && kept == Kept(entries, maxEntries, now, victims)
    ensures |kept| < |entries| || |entries| == |kept| == 0
  {
    hide Chosen, Kept, ExpiredAt;
    var expiredKeys := ExpiredKeys(entries, now);
    kept, victims := entries - expiredKeys, {};
    if expiredKeys != {} {
      RoomByExpiry(entries, maxEntries, now);
    } else if entries.Keys != {} {
      var k :| k in entries.Keys;
      RoomByEviction(entries, maxEntries, now, k);
      kept, victims := entries - {k}, {k};
    } else {
      RoomInEmpty(entries, maxEntries, now);
    }
  }

  lemma RoomByExpiry(entries: map<string, CacheEntry>, maxEntries: nat, now: real)
    requires |entries| >= maxEntries && ExpiredAt(entries, now) != {}
    ensures Chosen(entries, maxEntries, now, {})
    ensures Kept(entries, maxEntries, now, {}) == entries - ExpiredAt(entries, now)
    ensures |entries - ExpiredAt(entries, now)| < |entries|
  {
    RemovalShrinks(entries, ExpiredAt(entries, now));
  }

  lemma RoomByEviction(entries: map<string, CacheEntry>, maxEntries: nat, now: real, k: string)
    requires |entries| >= maxEntries && ExpiredAt(entries, now) == {} && k in entries
    ensures Chosen(entries, maxEntries, now, {k})
    ensures Kept(entries, maxEntries, now, {k}) == entries - {k} && |entries - {k}| < |entries|
  {
    RemovalShrinks(entries, {k});
  }

  lemma RoomInEmpty(entries: map<string, CacheEntry>, maxEntries: nat, now: real)
    requires entries == map[]
    ensures Chosen(entries, maxEntries, now, {})
    ensures Kept(entries, maxEntries, now, {}) == entries == entries - ExpiredAt(entries, now)
  {
  }

  lemma RoomAgrees(entries: map<string, CacheEntry>, history: seq<Insertion>, evicted: set<string>, negativeTtl: real,
                   before: real, now: real, maxEntries: nat, victims: set<string>)
    requires Agrees(entries, history, evicted, negativeTtl, before) && before <= now
    requires |entries| >= maxEntries && Chosen(entries, maxEntries, now, victims)
    ensures Agrees(Kept(entries, maxEntries, now, victims), history, evicted + victims, negativeTtl, now)
  {
    hide Agrees;
    var live := entries - ExpiredAt(entries, now);
    ForgetExpired(entries, history, evicted, negativeTtl, before, now, ExpiredAt(entries, now));
    if MustEvict(entries, maxEntries, now) {
      var k :| k in entries && victims == {k};
      Evict(live, history, evicted, negativeTtl, now, k);
    } else {
      assert live - {} == live && evicted + {} == evicted;
    }
  }

  function ExpiredAt(entries: map<string, CacheEntry>, now: real): set<string> {
    set k | k in entries && entries[k].expiresAt <= now
  }

  /** One host must go from a cache that is full of live entries. */
  predicate MustEvict(entries: map<string, CacheEntry>, maxEntries: nat, now: real) {
    |entries| >= maxEntries && entries != map[] && ExpiredAt(entries, now) == {}
  }

  ghost predicate Chosen(entries: map<string, CacheEntry>, maxEntries: nat, now: real, victims: set<string>) {
    if MustEvict(entries, maxEntries, now) then exists k :: k in entries && victims == {k} else victims == {}
  }

  /** What an insert leaves of the entries before it adds its own. */
  function Kept(entries: map<string, CacheEntry>, maxEntries: nat, now: real, victims: set<string>): map<string, CacheEntry> {
    if |entries| < maxEntries then entries else entries - ExpiredAt(entries, now) - victims
  }

  /** A host is evicted if and only if the cache is full, not empty, and nothing in it has expired. */
  lemma EvictsIff(entries: map<string, CacheEntry>, maxEntries: nat, now: real, victims: set<string>)
    requires Chosen(entries, maxEntries, now, victims)
    ensures victims != {} <==>
            |entries| >= maxEntries && entries != map[] && forall k :: k in entries ==> now < entries[k].expiresAt
  {
    assert forall k :: k in entries ==> (k in ExpiredAt(entries, now) <==> entries[k].expiresAt <= now);
  }

  /**
   * What making room leaves: below the bound everything; of a full cache what has not expired, if anything has;
   * and if nothing has, all but one entry.
   */
  lemma RoomIsMade(entries: map<string, CacheEntry>, maxEntries: nat, now: real, victims: set<string>)
    requires Chosen(entries, maxEntries, now, victims)
    ensures var kept := Kept(entries, maxEntries, now, victims);
            && (forall k :: k in kept ==> k in entries && kept[k] == entries[k])
            && (|entries| < maxEntries ==> kept == entries)
            && (|entries| >= maxEntries && (exists k :: k in entries && entries[k].expiresAt <= now) ==>
                  forall k :: k in entries ==> (k in kept <==> now < entries[k].expiresAt))
            && (|entries| >= maxEntries && entries != map[] && (forall k :: k in entries ==> now < entries[k].expiresAt) ==>
                  exists k :: k in entries && kept == entries - {k})
  {
    var kept := Kept(entries, maxEntries, now, victims);
    if |entries| >= maxEntries && exists k :: k in entries && entries[k].expiresAt <= now {
      var k :| k in entries && entries[k].expiresAt <= now;
      assert k in ExpiredAt(entries, now);
    }
    if |entries| >= maxEntries && entries != map[] && forall k :: k in entries ==> now < entries[k].expiresAt {
      assert ExpiredAt(entries, now) == {};
      var k :| k in entries && victims == {k};
      assert kept == entries - {k};
    }
  }

  /**
   * That holds too when the inserted host is in the cache already: a full cache of live entries then loses
   * another host, though none had to go, unless the victim happens to be the inserted host itself.
   */
  lemma PresentHostStillEvicts(entries: map<string, CacheEntry>, maxEntries: nat, now: real, victims: set<string>,
                               key: string, e: CacheEntry)
    requires Chosen(entries, maxEntries, now, victims) && key in entries
    requires |entries| >= maxEntries && forall k :: k in entries ==> now < entries[k].expiresAt
    ensures var after := Kept(entries, maxEntries, now, victims)[key := e];
            && victims != {} && after.Keys == entries.Keys - (victims - {key})
            && (|after| < |entries| <==> victims != {key})
  {
    EvictsIff(entries, maxEntries, now, victims);
    var victim :| victim in entries && victims == {victim};
    var after := Kept(entries, maxEntries, now, victims)[key := e];
    if victim == key {
      assert after.Keys == entries.Keys;
      assert |after.Keys| == |entries.Keys|;
    } else {
      assert after.Keys == entries.Keys - {victim};
      assert |after.Keys| < |entries.Keys|;
    }
  }

  lemma NoRoomNeeded(entries: map<string, CacheEntry>, maxEntries: nat, now: real)
    ensures |entries| < maxEntries ==>
      Chosen(entries, maxEntries, now, {}) && Kept(entries, maxEntries, now, {}) == entries
  {
  }

  lemma InsertSizes(entries: map<string, CacheEntry>, e: CacheEntry, hosts: set<string>, key: string)
    ensures |entries[key := e]| <= |entries| + 1 && |hosts| <= |hosts + {key}|
  {
    assert entries[key := e].Keys == entries.Keys + {key};
    SubsetSize(hosts, hosts + {key});
  }

  lemma RemovalKeepsSize(entries: map<string, CacheEntry>, key: string)
    ensures |entries - {key}| <= |entries|
  {
    SubsetSize((entries - {key}).Keys, entries.Keys);
  }

  lemma RemovalShrinks(entries: map<string, CacheEntry>, keys: set<string>)
    requires keys != {} && keys <= entries.Keys
    ensures |entries - keys| < |entries|
  {
    assert (entries - keys).Keys == entries.Keys - keys;
  }

  /** The hosts whose entries have run out. */
  method ExpiredKeys(entries: map<string, CacheEntry>, now: real) returns (expired: set<string>)
    ensures expired == ExpiredAt(entries, now)
  {
    expired := {};
    var unseen := entries.Keys;
    while unseen != {}
      invariant unseen <= entries.Keys && expired <= entries.Keys
      invariant forall k :: k in entries && k !in unseen ==> (k in expired <==> entries[k].expiresAt <= now)
      invariant expired !! unseen
    {
      var k :| k in unseen;
      if now >= entries[k].expiresAt {
        expired := expired + {k};
      }
      unseen := unseen - {k};
    }
  }
}
