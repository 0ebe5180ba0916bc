/**
 * The UDP association tables: two maps that must name each other, tasks that look up or create an
 * association under both locks, the downstream task that refreshes one under its own lock, and a cleanup task that scans under one lock and removes under both, taking
 * them in the other order.
 */
module Associations {
  import opened Options

  type Addr = nat

  const IDS := 0x1_0000
  const IDLE_SECONDS := 60

  datatype Association = Association(clientAddr: Addr, lastActive: nat)

  /** Both maps, and how many associations were ever created: the 16-bit counter starts at 1 and wraps. */
  datatype Tables = Tables(sessions: map<Addr, nat>, assocs: map<nat, Association>, created: nat)

  function NextId(created: nat): nat {
    (created + 1) % IDS
  }

  function GetOrCreate(t: Tables, client: Addr, now: nat): (Tables, nat) {
    if client in t.sessions then
      var id := t.sessions[client];
      (Refreshed(t, id, now), id)
    else
      var id := NextId(t.created);
      (Tables(t.sessions[client := id], t.assocs[id := Association(client, now)], t.created + 1), id)
  }

  /** A datagram came back for an association. */
  function Refreshed(t: Tables, id: nat, now: nat): Tables {
    if id in t.assocs then t.(assocs := t.assocs[id := t.assocs[id].(lastActive := now)]) else t
  }

  /** The associations idle for more than a minute, each with its client. */
  function Idle(t: Tables, now: nat): set<(nat, Addr)> {
    set id | id in t.assocs && now > t.assocs[id].lastActive + IDLE_SECONDS :: (id, t.assocs[id].clientAddr)
  }

  function Without(t: Tables, found: set<(nat, Addr)>): Tables {
    t.(assocs := t.assocs - set p | p in found :: p.0, sessions := t.sessions - set p | p in found :: p.1)
  }

  /** The two maps name each other. */
  ghost predicate Agree(t: Tables) {
    && (forall a :: a in t.sessions ==> t.sessions[a] in t.assocs && t.assocs[t.sessions[a]].clientAddr == a)
    && (forall id :: id in t.assocs ==>
          t.assocs[id].clientAddr in t.sessions && t.sessions[t.assocs[id].clientAddr] == id)
  }

  /**
   * Serving a client: one that has an association keeps it, and only its last activity changes; another gets
   * the next identifier of sixteen bits. Either way it is not idle for a minute.
   */
  lemma ServiceIs(t: Tables, client: Addr, now: nat)
    requires Agree(t)
    ensures var (u, id) := GetOrCreate(t, client, now);
            && client in u.sessions && u.sessions[client] == id && id in u.assocs && u.assocs[id] == Association(client, now)
            && (client in t.sessions ==> id == t.sessions[client] && u.sessions == t.sessions && u.created == t.created)
            && (client !in t.sessions ==> id == (t.created + 1) % 65536 && u.created == t.created + 1)
            && (forall k :: k != id ==> (k in u.assocs <==> k in t.assocs) && (k in t.assocs ==> u.assocs[k] == t.assocs[k]))
            && (forall a :: a != client ==> (a in u.sessions <==> a in t.sessions) && (a in t.sessions ==> u.sessions[a] == t.sessions[a]))
            && forall at: nat :: at <= now + 60 ==> (id, client) !in Idle(u, at)
  {
  }

  /** An association is idle exactly if its last activity was more than 60 seconds ago. */
  lemma IdleIff(t: Tables, at: nat, id: nat, client: Addr)
    ensures (id, client) in Idle(t, at) <==>
            id in t.assocs && t.assocs[id].clientAddr == client && at > t.assocs[id].lastActive + 60
  {
  }

  /** A reply for an association keeps it from being idle for a minute, and changes nothing else. */
  lemma RefreshIs(t: Tables, id: nat, now: nat)
    ensures var u := Refreshed(t, id, now);
            && u.sessions == t.sessions && u.created == t.created && u.assocs.Keys == t.assocs.Keys
            && (id in t.assocs ==> u.assocs[id] == t.assocs[id].(lastActive := now))
            && (forall k :: k in t.assocs && k != id ==> u.assocs[k] == t.assocs[k])
  {
  }

  /** A lookup or creation keeps the maps in agreement if and only if it does not reuse a live identifier. */
  lemma CreationAgreesIff(t: Tables, client: Addr, now: nat)
    requires Agree(t)
    ensures Agree(GetOrCreate(t, client, now).0) <==> client in t.sessions || NextId(t.created) !in t.assocs
  {
    var (u, id) := GetOrCreate(t, client, now);
    if client !in t.sessions && id in t.assocs {
      var other := t.assocs[id].clientAddr;
      assert other != client && u.sessions[other] == id && u.assocs[id].clientAddr == client;
    }
  }

  /** The associations found are still there, with the same clients. */
  ghost predicate Current(t: Tables, found: set<(nat, Addr)>) {
    forall p :: p in found ==> p.0 in t.assocs && t.assocs[p.0].clientAddr == p.1
  }

  lemma RemovalAgrees(t: Tables, found: set<(nat, Addr)>)
    requires Agree(t) && Current(t, found)
    ensures Agree(Without(t, found))
  {
    assert forall p :: p in found ==> t.assocs[p.0].clientAddr == p.1 && t.sessions[p.1] == p.0;
  }

  lemma RefreshAgrees(t: Tables, id: nat, now: nat)
    requires Agree(t)
    ensures Agree(Refreshed(t, id, now))
  {
  }

  // ---- Tasks and locks ----

  /** The cleanup task sleeps, has a list of idle associations, or holds the association lock with it. */
  datatype Cleaner = Sleeping | Found(list: set<(nat, Addr)>) | Holding(list: set<(nat, Addr)>)

  /** `holder` is the task that holds the session lock. */
  datatype State = State(tables: Tables, holder: Option<nat>, cleaner: Cleaner)

  datatype Event =
    | LockSessions(task: nat)
    | Serve(task: nat, client: Addr, now: nat)
    | Refresh(id: nat, now: nat)
    | Scan(at: nat)
    | LockAssociations
    | Sweep

  const INITIAL := State(Tables(map[], map[], 0), None, Sleeping)

  /** One step, if the locks it needs are free; otherwise its task waits and nothing changes. */
  function Step(s: State, e: Event): State {
    match e
    case LockSessions(task) => if s.holder.None? then s.(holder := Some(task)) else s
    case Serve(task, client, now) =>
      if s.holder == Some(task) && !s.cleaner.Holding? then
        s.(tables := GetOrCreate(s.tables, client, now).0, holder := None)
      else s
    case Refresh(id, now) =>
      if !s.cleaner.Holding? then s.(tables := Refreshed(s.tables, id, now)) else s
    case Scan(now) => if s.cleaner.Sleeping? then s.(cleaner := Found(Idle(s.tables, now))) else s
    case LockAssociations =>
      if !s.cleaner.Found? then s
      else s.(cleaner := if s.cleaner.list == {} then Sleeping else Holding(s.cleaner.list))
    case Sweep =>
      if s.cleaner.Holding? && s.holder.None? then
        s.(tables := Without(s.tables, s.cleaner.list), cleaner := Sleeping)
      else s
  }

  function Run(events: seq<Event>): State {
    if events == [] then INITIAL else Step(Run(events[..|events| - 1]), events[|events| - 1])
  }

  ghost predicate Good(s: State) {
    && Agree(s.tables)
    && (!s.cleaner.Sleeping? ==> Current(s.tables, s.cleaner.list))
    && forall id :: id in s.tables.assocs ==> 1 <= id <= s.tables.created
  }

  lemma StepIsGood(s: State, e: Event)
    requires Good(s) && Step(s, e).tables.created < IDS
    ensures Good(Step(s, e))
  {
    hide Agree;
    if e.Serve? {
      CreationAgreesIff(s.tables, e.client, e.now);
    } else if e.Refresh? {
      RefreshAgrees(s.tables, e.id, e.now);
    } else if e.Sweep? && s.cleaner.Holding? {
      RemovalAgrees(s.tables, s.cleaner.list);
    }
  }

  /**
   * Until the identifiers wrap, the two maps name each other on every run, whatever a cleanup does between
   * its scan and its removal.
   */
  lemma {:induction false} MapsAgreeBeforeWrap(events: seq<Event>)
    requires Run(events).tables.created < IDS
    ensures Agree(Run(events).tables) && Good(Run(events))
  {
    hide Agree, Step;
    if events == [] {
      NothingDisagrees();
    } else {
      CreatedGrows(Run(events[..|events| - 1]), events[|events| - 1]);
      MapsAgreeBeforeWrap(events[..|events| - 1]);
      StepIsGood(Run(events[..|events| - 1]), events[|events| - 1]);
    }
  }

  lemma NothingDisagrees()
    ensures Good(INITIAL)
  {
  }

  lemma CreatedGrows(s: State, e: Event)
    ensures s.tables.created <= Step(s, e).tables.created
  {
  }

  /**
   * Every task is stuck exactly when one holds the session lock while the cleanup holds the association
   * lock: each of the two then waits for the other's, and all the rest for either.
   */
  lemma StuckIff(s: State)
    ensures (forall e :: Step(s, e) == s) <==> s.holder.Some? && s.cleaner.Holding?
  {
    if s.holder.None? {
      assert Step(s, LockSessions(0)) != s;
    } else if !s.cleaner.Holding? {
      assert Step(s, Serve(s.holder.value, 0, 0)).holder.None?;
    }
  }

  /** It can come to that: a client idle for more than a minute comes back while its entry is being removed. */
  lemma TheLocksCanDeadlock()
    ensures var s := Run([LockSessions(0), Serve(0, 7, 0), Scan(61), LockAssociations, LockSessions(1)]);
            forall e :: Step(s, e) == s
  {
    hide Run;
    var t := Tables(map[7 := 1], map[1 := Association(7, 0)], 1);
    var one := [LockSessions(0), Serve(0, 7, 0)];
    var two := one + [Scan(61), LockAssociations];
    FirstIsCreated();
    RunAppend(one, Scan(61));
    assert 1 in t.assocs && (1, t.assocs[1].clientAddr) in Idle(t, 61);
    RunAppend(one + [Scan(61)], LockAssociations);
    assert one + [Scan(61)] + [LockAssociations] == two;
    RunAppend(two, LockSessions(1));
    assert two + [LockSessions(1)] == [LockSessions(0), Serve(0, 7, 0), Scan(61), LockAssociations, LockSessions(1)];
    StuckIff(Run(two + [LockSessions(1)]));
  }

  lemma FirstIsCreated()
    ensures Run([LockSessions(0), Serve(0, 7, 0)]) ==
            State(Tables(map[7 := 1], map[1 := Association(7, 0)], 1), None, Sleeping)
  {
    RunAppend([], LockSessions(0));
    RunAppend([LockSessions(0)], Serve(0, 7, 0));
    assert [] + [LockSessions(0)] == [LockSessions(0)];
    assert [LockSessions(0)] + [Serve(0, 7, 0)] == [LockSessions(0), Serve(0, 7, 0)];
  }

  lemma RunAppend(events: seq<Event>, e: Event)
    ensures Run(events + [e]) == Step(Run(events), e)
  {
    assert (events + [e])[..|events|] == events;
  }

  /**
   * A sweep removes a client if and only if the pair of its association and itself is in the list, however
   * recently the client was active.
   */
  lemma SweepRemovesIff(s: State, client: Addr)
    requires Good(s) && s.cleaner.Holding? && s.holder.None? && client in s.tables.sessions
    ensures client !in Step(s, Sweep).tables.sessions <==> (s.tables.sessions[client], client) in s.cleaner.list
    ensures client in Step(s, Sweep).tables.sessions ==>
      && Step(s, Sweep).tables.sessions[client] == s.tables.sessions[client]
      && s.tables.sessions[client] in Step(s, Sweep).tables.assocs
  {
    assert forall p :: p in s.cleaner.list ==> s.tables.sessions[p.1] == p.0;
  }

  /** An event of the tasks that serve clients, in either direction. */
  predicate OfClients(e: Event) {
    e.LockSessions? || e.Serve? || e.Refresh?
  }

  /**
   * What the clients do between scan and removal keeps the list, and the identifier of every client that
   * has one.
   */
  lemma {:induction false} ListOutlastsService(events: seq<Event>, more: seq<Event>, client: Addr)
    requires forall e :: e in more ==> OfClients(e)
    requires client in Run(events).tables.sessions
    ensures var s, t := Run(events), Run(events + more);
            && (t.cleaner == s.cleaner)
            && client in t.tables.sessions && t.tables.sessions[client] == s.tables.sessions[client]
  {
    if more == [] {
      assert events + more == events;
    } else {
      var before, last := more[..|more| - 1], more[|more| - 1];
      ListOutlastsService(events, before, client);
      assert events + more == events + before + [last];
      RunAppend(events + before, last);
      assert last in more;
    }
  }

  /**
   * So a client that has an association when the cleanup scans loses it if and only if it was idle at the
   * scan: coming back before the removal does not save it.
   */
  lemma IdleAtScanIsSweptIff(events: seq<Event>, at: nat, more: seq<Event>, client: Addr)
    requires Run(events).cleaner.Sleeping? && client in Run(events).tables.sessions
    requires forall e :: e in more ==> OfClients(e)
    requires var t := Run(events + [Scan(at)] + more); t.holder.None? && t.tables.created < IDS
    requires Idle(Run(events).tables, at) != {}
    ensures client !in Run(events + [Scan(at)] + more + [LockAssociations] + [Sweep]).tables.sessions <==>
            (Run(events).tables.sessions[client], client) in Idle(Run(events).tables, at)
  {
    hide Good, Idle, Without;
    var scanned := events + [Scan(at)];
    var served := scanned + more;
    RunAppend(events, Scan(at));
    ListOutlastsService(scanned, more, client);
    RunAppend(served, LockAssociations);
    RunAppend(served + [LockAssociations], Sweep);
    MapsAgreeBeforeWrap(served + [LockAssociations]);
    SweepRemovesIff(Run(served + [LockAssociations]), client);
  }

  /**
   * It does happen: a client idle for more than a minute is served again after the scan, gets a reply, and
   * is then swept.
   */
  lemma RefreshedAfterScanIsSwept()
    ensures var run := [LockSessions(0), Serve(0, 7, 0)] + [Scan(61)] + [LockSessions(1), Serve(1, 7, 61), Refresh(1, 62)];
            && 7 in Run(run).tables.sessions && Run(run).tables.assocs == map[1 := Association(7, 62)]
            && 7 !in Run(run + [LockAssociations] + [Sweep]).tables.sessions
  {
    var one, more := [LockSessions(0), Serve(0, 7, 0)], [LockSessions(1), Serve(1, 7, 61), Refresh(1, 62)];
    var t := Tables(map[7 := 1], map[1 := Association(7, 0)], 1);
    FirstIsCreated();
    RunAppend(one, Scan(61));
    RunAppend(one + [Scan(61)], LockSessions(1));
    RunAppend(one + [Scan(61)] + [LockSessions(1)], Serve(1, 7, 61));
    RunAppend(one + [Scan(61)] + [LockSessions(1)] + [Serve(1, 7, 61)], Refresh(1, 62));
    assert one + [Scan(61)] + more == one + [Scan(61)] + [LockSessions(1)] + [Serve(1, 7, 61)] + [Refresh(1, 62)];
    assert 1 in t.assocs && (1, t.assocs[1].clientAddr) in Idle(t, 61);
    IdleAtScanIsSweptIff(one, 61, more, 7);
  }

  // ---- The tables themselves ----

  class AssociationTable {
    var sessions: map<Addr, nat>
    var assocs: map<nat, Association>
    var nextAssocId: nat
    ghost var created: nat

    ghost predicate Valid()
      reads this
    {
      nextAssocId == NextId(created)
    }

    ghost function Value(): Tables
      reads this
    {
      Tables(sessions, assocs, created)
    }

    constructor ()
      ensures Valid() && Value() == INITIAL.tables
    {
      sessions, assocs, nextAssocId, created := map[], map[], 1, 0;
    }

    /** The lookup under the association lock alone, as the downstream task does it. */
    method Refresh(id: nat, now: nat) returns (found: Option<Association>)
      modifies this`assocs
      ensures Value() == Refreshed(old(Value()), id, now)
      ensures found == if id in assocs then Some(assocs[id]) else None
    {
      if id !in assocs {
        return None;
      }
      assocs := assocs[id := assocs[id].(lastActive := now)];
      found := Some(assocs[id]);
    }

    method GetOrCreateAssociation(client: Addr, now: nat) returns (assocId: nat)
      requires Valid()
      modifies this
      ensures Valid() && (Value(), assocId) == GetOrCreate(old(Value()), client, now)
    {
      if client in sessions {
        assocId := sessions[client];
        var _ := Refresh(assocId, now);
        return;
      }
      assocId := nextAssocId;
      nextAssocId, created := (nextAssocId + 1) % IDS, created + 1;
      sessions := sessions[client := assocId];
      assocs := assocs[assocId := Association(client, now)];
    }

    /** The scan under the association lock. */
    method FindIdle(now: nat) returns (toRemove: seq<(nat, Addr)>)
      ensures forall p :: p in toRemove <==> p in Idle(Value(), now)
    {
      toRemove := [];
      var unseen := assocs.Keys;
      while unseen != {}
        invariant unseen <= assocs.Keys
        invariant forall p :: p in toRemove <==> p in Idle(Value(), now) && p.0 !in unseen
      {
        var id :| id in unseen;
        unseen := unseen - {id};
        if now > assocs[id].lastActive + IDLE_SECONDS {
          toRemove := toRemove + [(id, assocs[id].clientAddr)];
        }
      }
    }

    /** The removal under both locks. */
    method RemoveAll(toRemove: seq<(nat, Addr)>)
      requires Valid()
      modifies this`sessions, this`assocs
      ensures Valid() && Value() == Without(old(Value()), set p | p in toRemove)
    {
      for i := 0 to |toRemove|
        invariant Value() == Without(old(Value()), set p | p in toRemove[..i])
      {
        var (id, client) := toRemove[i];
        WithoutMore(old(Value()), toRemove[..i], (id, client));
        assert toRemove[..i + 1] == toRemove[..i] + [(id, client)];
        assocs := assocs - {id};
        sessions := sessions - {client};
      }
      assert toRemove[..|toRemove|] == toRemove;
    }
  }

  lemma WithoutMore(t: Tables, list: seq<(nat, Addr)>, p: (nat, Addr))
    ensures var some, more := Without(t, set q | q in list), Without(t, set q | q in list + [p]);
            more == some.(assocs := some.assocs - {p.0}, sessions := some.sessions - {p.1})
  {
    var some, more := set q | q in list, set q | q in list + [p];
    assert more == some + {p};
    assert (set q | q in more :: q.0) == (set q | q in some :: q.0) + {p.0};
    assert (set q | q in more :: q.1) == (set q | q in some :: q.1) + {p.1};
  }
}
