/**
 * Hot reload: rebuilding the user tables from a new configuration while connections hold on to the user
 * objects. UUID and hex parsing, and whether a Reality runtime can be built, are parameters.
 */
module HotReload {
  import opened Bytes
  import opened Options
  import opened RouteModes

  type Uuid = bytes

  datatype Client = Client(
    id: string, email: Option<string>, limitIp: Option<nat>, totalGb: Option<nat>, expiryTime: Option<int>,
    speedLimit: Option<nat>, remainingGb: Option<real>, rx: Option<nat>, tx: Option<nat>,
    realityProfileId: Option<Uuid>, inboundTag: Option<string>, browsingWarpId: Option<string>,
    lowLatencyId: Option<string>, subTokenHash: Option<string>, sni: Option<string>)

  datatype Profile = Profile(id: Uuid, port: nat)

  /** A configuration: each inbound's clients if it has any, the Reality profiles and the network mode. */
  datatype Config = Config(inbounds: seq<Option<seq<Client>>>, profiles: seq<Profile>, ipv4Only: bool)

  datatype Formats = Formats(uuid: string -> Option<Uuid>, hex: string -> Option<bytes>, buildable: Profile -> bool)

  /** What a reload may change of a user. */
  datatype Settings = Settings(
    email: Option<string>, limitIp: nat, expiryTime: int, speedLimit: nat,
    realityProfileId: Option<Uuid>, inboundTag: Option<string>, sni: Option<string>)

  function OrElse<T>(o: Option<T>, other: T): T {
    if o.Some? then o.value else other
  }

  function SettingsOf(c: Client): Settings {
    Settings(c.email, OrElse(c.limitIp, 0), OrElse(c.expiryTime, 0), OrElse(c.speedLimit, 0),
             c.realityProfileId, c.inboundTag, c.sni)
  }

  /** The budget of a new user: gigabytes to bytes, cut to 63 bits, and -1 for none or a negative one. */
  function InitialBudget(remainingGb: Option<real>): int {
    if remainingGb.None? || remainingGb.value < 0.0 then -1
    else
      var b := (remainingGb.value * 1073741824.0).Floor;
      if b > 0x7FFF_FFFF_FFFF_FFFF then 0x7FFF_FFFF_FFFF_FFFF else b
  }

  class UserStats {
    const id: string
    var settings: Settings
    var totalGb: int
    var remainingBytes: int
    var rx: nat
    var tx: nat

    constructor (c: Client)
      ensures id == c.id && settings == SettingsOf(c)
      ensures remainingBytes == InitialBudget(c.remainingGb) && rx == OrElse(c.rx, 0) && tx == OrElse(c.tx, 0)
      ensures totalGb == if c.totalGb.Some? then c.totalGb.value else -1
    {
      id, settings := c.id, SettingsOf(c);
      remainingBytes, rx, tx := InitialBudget(c.remainingGb), OrElse(c.rx, 0), OrElse(c.tx, 0);
      totalGb := if c.totalGb.Some? then c.totalGb.value else -1;
    }
  }

  type Users = map<Uuid, (UserStats, RouteMode)>

  // ---- What a reload amounts to ----

  /** The object a client's entries refer to: one that was there under the client's UUID, or a new one. */
  datatype Target = Existing(user: UserStats) | New(id: string)

  function TargetOf(f: Formats, old_: Users, id: string): Target {
    var uuid := f.uuid(id);
    if uuid.Some? && uuid.value in old_ then Existing(old_[uuid.value].0) else New(id)
  }

  /** The tables as they build up; `first` holds the first client of each identifier. */
  datatype Plan = Plan(
    first: map<string, Client>, settings: map<Target, Settings>, users: map<Uuid, (Target, RouteMode)>,
    emails: map<string, Target>, tokens: map<bytes, Target>)

  const EMPTY := Plan(map[], map[], map[], map[], map[])

  function WithAlias(f: Formats, users: map<Uuid, (Target, RouteMode)>, alias: Option<string>, t: Target, mode: RouteMode)
    : map<Uuid, (Target, RouteMode)>
  {
    if alias.Some? && f.uuid(alias.value).Some? then users[f.uuid(alias.value).value := (t, mode)] else users
  }

  /** The hashed subscription token of a client, if it is 32 bytes of hex. */
  function TokenOf(f: Formats, c: Client): Option<bytes> {
    if c.subTokenHash.None? then None
    else
      var decoded := f.hex(c.subTokenHash.value);
      if decoded.Some? && |decoded.value| == 32 then decoded else None
  }

  function WithToken(f: Formats, tokens: map<bytes, Target>, c: Client, t: Target): map<bytes, Target> {
    if TokenOf(f, c).Some? then tokens[TokenOf(f, c).value := t] else tokens
  }

  /** The first client of an identifier stays its first. */
  function FirstAfter(p: Plan, c: Client): map<string, Client> {
    if c.id in p.first then p.first else p.first[c.id := c]
  }

  function SettingsAfter(f: Formats, old_: Users, p: Plan, c: Client): map<Target, Settings> {
    if c.id in p.first then p.settings else p.settings[TargetOf(f, old_, c.id) := SettingsOf(c)]
  }

  function EmailOf(settings: map<Target, Settings>, t: Target): Option<string> {
    if t in settings then settings[t].email else None
  }

  function PlanClient(f: Formats, old_: Users, p: Plan, c: Client): Plan {
    if f.uuid(c.id).None? then p
    else
      var t := TargetOf(f, old_, c.id);
      var settings := SettingsAfter(f, old_, p, c);
      var email := EmailOf(settings, t);
      Plan(
        FirstAfter(p, c),
        settings,
        WithAlias(f, WithAlias(f, p.users[f.uuid(c.id).value := (t, Smart)], c.browsingWarpId, t, BrowsingWarp),
                  c.lowLatencyId, t, LowLatencyDirect),
        if email.Some? then p.emails[email.value := t] else p.emails,
        WithToken(f, p.tokens, c, t))
  }

  function PlanAll(f: Formats, old_: Users, clients: seq<Client>): Plan {
    if clients == [] then EMPTY
    else PlanClient(f, old_, PlanAll(f, old_, clients[..|clients| - 1]), clients[|clients| - 1])
  }

  /** All clients of a configuration, in order. */
  function Clients(inbounds: seq<Option<seq<Client>>>): seq<Client> {
    if inbounds == [] then []
    else Clients(inbounds[..|inbounds| - 1]) + OrElse(inbounds[|inbounds| - 1], [])
  }

  // ---- What the tables mean ----

  /** A client with a valid identifier claims a UUID in a mode. */
  predicate Claims(f: Formats, c: Client, u: Uuid, mode: RouteMode) {
    && f.uuid(c.id).Some?
    && match mode
       case Smart => f.uuid(c.id).value == u
       case BrowsingWarp => c.browsingWarpId.Some? && f.uuid(c.browsingWarpId.value) == Some(u)
       case LowLatencyDirect => c.lowLatencyId.Some? && f.uuid(c.lowLatencyId.value) == Some(u)
  }

  /** All that claim a UUID give it the same object and mode. */
  ghost predicate Agreed(f: Formats, old_: Users, clients: seq<Client>, u: Uuid) {
    forall c, d, m, n :: c in clients && d in clients && Claims(f, c, u, m) && Claims(f, d, u, n) ==>
      m == n && TargetOf(f, old_, c.id) == TargetOf(f, old_, d.id)
  }

  /** One client's writes: the last of its own claims wins, and everything else stays. */
  lemma PlanClientUsers(f: Formats, old_: Users, p: Plan, c: Client, u: Uuid)
    ensures var users, t := PlanClient(f, old_, p, c).users, TargetOf(f, old_, c.id);
            && ((exists m :: Claims(f, c, u, m)) ==> u in users && users[u].0 == t && Claims(f, c, u, users[u].1))
            && (!(exists m :: Claims(f, c, u, m)) ==>
                  (u in users <==> u in p.users) && (u in p.users ==> users[u] == p.users[u]))
  {
    assert Claims(f, c, u, Smart) || Claims(f, c, u, BrowsingWarp) || Claims(f, c, u, LowLatencyDirect) ||
           forall m :: !Claims(f, c, u, m);
  }

  /**
   * The user table holds exactly the UUIDs that some client claims, its own or an alias's, and each entry
   * is what one of those clients asked for.
   */
  lemma {:induction false} TableHoldsTheClaims(f: Formats, old_: Users, clients: seq<Client>, u: Uuid)
    ensures var users := PlanAll(f, old_, clients).users;
            && (u in users <==> exists c, m :: c in clients && Claims(f, c, u, m))
            && (u in users ==> exists c :: c in clients && users[u].0 == TargetOf(f, old_, c.id) && Claims(f, c, u, users[u].1))
  {
    if clients != [] {
      var before, last := clients[..|clients| - 1], clients[|clients| - 1];
      TableHoldsTheClaims(f, old_, before, u);
      PlanClientUsers(f, old_, PlanAll(f, old_, before), last, u);
      assert clients == before + [last];
      assert forall c :: c in clients <==> c in before || c == last;
    }
  }

  /**
   * An entry is what every client that claims it asked for if and only if they agree: with distinct
   * identifiers, each client's own UUID leads to its object in smart mode and each alias in its mode.
   */
  lemma EntriesAreRightIffClaimsAgree(f: Formats, old_: Users, clients: seq<Client>, u: Uuid)
    ensures Agreed(f, old_, clients, u) <==>
            forall c, m :: c in clients && Claims(f, c, u, m) ==>
              var users := PlanAll(f, old_, clients).users;
              u in users && users[u] == (TargetOf(f, old_, c.id), m)
  {
    hide PlanAll, Claims, TargetOf;
    TableHoldsTheClaims(f, old_, clients, u);
  }

  predicate Valid(f: Formats, c: Client) {
    f.uuid(c.id).Some?
  }

  /** An identifier listed more than once counts with its first client. */
  predicate IsFirst(f: Formats, clients: seq<Client>, i: int): (first: bool)
    ensures first ==> 0 <= i < |clients|
  {
    && 0 <= i < |clients| && Valid(f, clients[i])
    && forall j :: 0 <= j < i ==> clients[j].id != clients[i].id
  }

  ghost predicate FirstsRight(f: Formats, clients: seq<Client>, first: map<string, Client>) {
    && (forall i :: IsFirst(f, clients, i) ==> clients[i].id in first && first[clients[i].id] == clients[i])
    && (forall id :: id in first ==> first[id].id == id && first[id] in clients && Valid(f, first[id]))
    && (forall c :: c in clients && Valid(f, c) ==> c.id in first)
  }

  ghost predicate SettingsRight(f: Formats, old_: Users, p: Plan) {
    && (forall id :: id in p.first ==> TargetOf(f, old_, id) in p.settings)
    && (forall t :: t in p.settings ==> exists id :: SetBy(f, old_, p, t, id))
  }

  ghost predicate EmailsRight(f: Formats, old_: Users, p: Plan) {
    && (forall e :: e in p.emails ==> exists id :: MailedBy(f, old_, p, e, id))
    && (forall id :: id in p.first && p.first[id].email.Some? ==> p.first[id].email.value in p.emails)
  }

  /** The settings of an object are those of one of the identifiers that lead to it. */
  ghost predicate SetBy(f: Formats, old_: Users, p: Plan, t: Target, id: string) {
    t in p.settings && id in p.first && TargetOf(f, old_, id) == t && p.settings[t] == SettingsOf(p.first[id])
  }

  ghost predicate MailedBy(f: Formats, old_: Users, p: Plan, e: string, id: string) {
    e in p.emails && id in p.first && TargetOf(f, old_, id) == p.emails[e] && p.first[id].email == Some(e)
  }

  lemma {:induction false} PlanDescribes(f: Formats, old_: Users, clients: seq<Client>)
    ensures var p := PlanAll(f, old_, clients);
            FirstsRight(f, clients, p.first) && SettingsRight(f, old_, p) && EmailsRight(f, old_, p)
  {
    hide PlanAll, PlanClient, FirstsRight, SettingsRight, EmailsRight;
    PlanUnfold(f, old_, clients);
    if clients == [] {
      EmptyDescribes(f, old_);
    } else {
      var before, last := clients[..|clients| - 1], clients[|clients| - 1];
      var p := PlanAll(f, old_, before);
      PlanDescribes(f, old_, before);
      FirstsStep(f, old_, before, p, last);
      SettingsStep(f, old_, p, last);
      EmailsStep(f, old_, p, last);
      assert clients == before + [last];
    }
  }

  lemma EmptyDescribes(f: Formats, old_: Users)
    ensures FirstsRight(f, [], EMPTY.first) && SettingsRight(f, old_, EMPTY) && EmailsRight(f, old_, EMPTY)
  {
  }

  lemma PlanUnfold(f: Formats, old_: Users, clients: seq<Client>)
    ensures PlanAll(f, old_, clients) ==
            if clients == [] then EMPTY
            else PlanClient(f, old_, PlanAll(f, old_, clients[..|clients| - 1]), clients[|clients| - 1])
  {
  }

  lemma FirstsStep(f: Formats, old_: Users, before: seq<Client>, p: Plan, c: Client)
    requires FirstsRight(f, before, p.first)
    ensures FirstsRight(f, before + [c], PlanClient(f, old_, p, c).first)
  {
    hide TargetOf, SettingsOf, WithAlias, WithToken, FirstsRight;
    FirstsAppend(f, before, p.first, c);
    assert PlanClient(f, old_, p, c).first == if Valid(f, c) && c.id !in p.first then p.first[c.id := c] else p.first;
  }

  lemma FirstsAppend(f: Formats, before: seq<Client>, known: map<string, Client>, c: Client)
    requires FirstsRight(f, before, known)
    ensures FirstsRight(f, before + [c], if Valid(f, c) && c.id !in known then known[c.id := c] else known)
  {
    var clients, first := before + [c], if Valid(f, c) && c.id !in known then known[c.id := c] else known;
    if c.id in known {
      var j :| 0 <= j < |before| && before[j] == known[c.id];
      assert clients[j].id == c.id && !IsFirst(f, clients, |before|);
    }
    forall i | IsFirst(f, clients, i) ensures clients[i].id in first && first[clients[i].id] == clients[i] {
      if i < |before| {
        assert forall j :: 0 <= j <= i ==> clients[j] == before[j];
        assert IsFirst(f, before, i);
      }
    }
  }

  lemma SettingsStep(f: Formats, old_: Users, p: Plan, c: Client)
    requires SettingsRight(f, old_, p)
    ensures SettingsRight(f, old_, PlanClient(f, old_, p, c))
  {
    hide SettingsOf, WithAlias, WithToken, TargetOf;
    var q := PlanClient(f, old_, p, c);
    forall t | t in q.settings ensures exists id :: SetBy(f, old_, q, t, id) {
      if t in p.settings && q.settings[t] == p.settings[t] {
        var id :| SetBy(f, old_, p, t, id);
        assert SetBy(f, old_, q, t, id);
      } else {
        assert SetBy(f, old_, q, t, c.id);
      }
    }
  }

  lemma EmailsStep(f: Formats, old_: Users, p: Plan, c: Client)
    requires EmailsRight(f, old_, p) && SettingsRight(f, old_, PlanClient(f, old_, p, c))
    ensures EmailsRight(f, old_, PlanClient(f, old_, p, c))
  {
    hide WithAlias, WithToken, TargetOf, EmailsRight, SettingsRight, SetBy;
    if Valid(f, c) {
      var q, t := PlanClient(f, old_, p, c), TargetOf(f, old_, c.id);
      var id := Setter(f, old_, q, c.id);
      EmailWritten(f, old_, p, q, t, id, if q.settings[t].email.Some? then q.settings[t].email.value else "");
    }
  }

  lemma Setter(f: Formats, old_: Users, q: Plan, id: string) returns (who: string)
    requires SettingsRight(f, old_, q) && id in q.first
    ensures TargetOf(f, old_, id) in q.settings && SetBy(f, old_, q, TargetOf(f, old_, id), who)
  {
    who :| SetBy(f, old_, q, TargetOf(f, old_, id), who);
  }

  lemma EmailWritten(f: Formats, old_: Users, p: Plan, q: Plan, t: Target, id: string, email: string)
    requires EmailsRight(f, old_, p) && SetBy(f, old_, q, t, id)
    requires forall k :: k in p.first ==> k in q.first && q.first[k] == p.first[k]
    requires forall k :: k in q.first && k !in p.first ==> q.first[k].email == q.settings[t].email
    requires q.settings[t].email.Some? ==> q.settings[t].email.value == email
    requires q.emails == (if q.settings[t].email.Some? then p.emails[email := t] else p.emails)
    ensures EmailsRight(f, old_, q)
  {
    hide TargetOf;
    forall e | e in q.emails ensures exists id :: MailedBy(f, old_, q, e, id) {
      if e in p.emails && q.emails[e] == p.emails[e] {
        var k :| MailedBy(f, old_, p, e, k);
        assert MailedBy(f, old_, q, e, k);
      } else {
        assert MailedBy(f, old_, q, e, id);
      }
    }
  }

  /**
   * An object's settings are those of every identifier that leads to it if and only if these agree. With
   * one client to an object, they are that client's.
   */
  lemma SettingsAreRightIffFirstsAgree(f: Formats, old_: Users, clients: seq<Client>)
    ensures FirstsAgree(f, old_, clients) <==>
            forall i :: IsFirst(f, clients, i) ==>
              var settings, t := PlanAll(f, old_, clients).settings, TargetOf(f, old_, clients[i].id);
              t in settings && settings[t] == SettingsOf(clients[i])
  {
    hide PlanAll, TargetOf, SettingsOf, IsFirst;
    var p := PlanAll(f, old_, clients);
    forall i | IsFirst(f, clients, i)
      ensures exists j :: SetLike(f, old_, clients, i, j)
    {
      var j := SetterIsFirst(f, old_, clients, i);
    }
  }

  ghost predicate FirstsAgree(f: Formats, old_: Users, clients: seq<Client>) {
    forall i, j ::
      (&& IsFirst(f, clients, i) && IsFirst(f, clients, j)
       && TargetOf(f, old_, clients[i].id) == TargetOf(f, old_, clients[j].id)) ==>
      SettingsOf(clients[i]) == SettingsOf(clients[j])
  }

  /** The object of client i has the settings of client j. */
  ghost predicate SetLike(f: Formats, old_: Users, clients: seq<Client>, i: int, j: int) {
    && IsFirst(f, clients, i) && IsFirst(f, clients, j)
    && var settings, t := PlanAll(f, old_, clients).settings, TargetOf(f, old_, clients[i].id);
    t == TargetOf(f, old_, clients[j].id) && t in settings && settings[t] == SettingsOf(clients[j])
  }

  lemma SetterIsFirst(f: Formats, old_: Users, clients: seq<Client>, i: int) returns (j: int)
    requires IsFirst(f, clients, i)
    ensures SetLike(f, old_, clients, i, j)
  {
    hide PlanAll, TargetOf, SettingsOf, IsFirst, FirstsRight, EmailsRight;
    PlanDescribes(f, old_, clients);
    FirstIsKnown(f, old_, clients, i);
    var id := Setter(f, old_, PlanAll(f, old_, clients), clients[i].id);
    j := FirstOf(f, old_, clients, id);
  }

  lemma FirstIsKnown(f: Formats, old_: Users, clients: seq<Client>, i: int)
    requires IsFirst(f, clients, i)
    ensures 0 <= i < |clients| && clients[i].id in PlanAll(f, old_, clients).first
    ensures PlanAll(f, old_, clients).first[clients[i].id] == clients[i]
  {
    hide PlanAll;
    PlanDescribes(f, old_, clients);
  }

  lemma FirstOf(f: Formats, old_: Users, clients: seq<Client>, id: string) returns (i: int)
    requires id in PlanAll(f, old_, clients).first
    ensures IsFirst(f, clients, i) && clients[i].id == id && clients[i] == PlanAll(f, old_, clients).first[id]
  {
    hide PlanAll, SettingsRight, EmailsRight;
    PlanDescribes(f, old_, clients);
    var c := PlanAll(f, old_, clients).first[id];
    i :| 0 <= i < |clients| && clients[i] == c;
    i := Earliest(f, clients, i);
  }

  lemma {:induction false} Earliest(f: Formats, clients: seq<Client>, i: int) returns (j: int)
    requires 0 <= i < |clients| && Valid(f, clients[i])
    ensures IsFirst(f, clients, j) && clients[j].id == clients[i].id
    decreases i
  {
    if k :| 0 <= k < i && clients[k].id == clients[i].id {
      j := Earliest(f, clients, k);
    } else {
      j := i;
    }
  }

  /** The e-mail table holds exactly the addresses of first clients, each with an object of one of them. */
  lemma EmailTableHoldsFirstClients(f: Formats, old_: Users, clients: seq<Client>, e: string)
    ensures var emails := PlanAll(f, old_, clients).emails;
            && (e in emails <==> exists i :: IsFirst(f, clients, i) && clients[i].email == Some(e))
            && (e in emails ==> exists i :: IsFirst(f, clients, i) && clients[i].email == Some(e)
                                  && emails[e] == TargetOf(f, old_, clients[i].id))
  {
    hide PlanAll, TargetOf, IsFirst, FirstsRight, SettingsRight;
    var p := PlanAll(f, old_, clients);
    PlanDescribes(f, old_, clients);
    if e in p.emails {
      var id :| MailedBy(f, old_, p, e, id);
      var i := FirstOf(f, old_, clients, id);
    }
    if i :| IsFirst(f, clients, i) && clients[i].email == Some(e) {
      FirstIsKnown(f, old_, clients, i);
    }
  }

  ghost predicate HasToken(f: Formats, c: Client, h: bytes) {
    c.subTokenHash.Some? && f.hex(c.subTokenHash.value) == Some(h) && |h| == 32
  }

  /** The token table holds exactly the tokens of the clients, each with an object of one of them. */
  lemma {:induction false} TokenTableHoldsTheTokens(f: Formats, old_: Users, clients: seq<Client>, h: bytes)
    ensures var tokens := PlanAll(f, old_, clients).tokens;
            && (h in tokens <==> exists c :: c in clients && f.uuid(c.id).Some? && HasToken(f, c, h))
            && (h in tokens ==> exists c :: c in clients && f.uuid(c.id).Some? && HasToken(f, c, h)
                                  && tokens[h] == TargetOf(f, old_, c.id))
  {
    hide TargetOf, WithAlias;
    if clients != [] {
      TokenTableHoldsTheTokens(f, old_, clients[..|clients| - 1], h);
      assert clients == clients[..|clients| - 1] + [clients[|clients| - 1]];
    }
  }

  /**
   * Two identifiers lead to one object if and only if both their UUIDs were in the table with the same
   * object. So an old alias that becomes a client of its own shares with its former owner.
   */
  lemma SameTargetIff(f: Formats, old_: Users, a: string, b: string)
    requires f.uuid(a).Some? && f.uuid(b).Some? && a != b
    ensures TargetOf(f, old_, a) == TargetOf(f, old_, b) <==>
            && f.uuid(a).value in old_ && f.uuid(b).value in old_
            && old_[f.uuid(a).value].0 == old_[f.uuid(b).value].0
  {
  }

  /** An alias of the old table that is listed as a client of its own: both clients go on with one object. */
  lemma PromotedAliasShares(f: Formats, o: UserStats, owner: Client, alias: Client, u: Uuid, v: Uuid)
    requires f.uuid(owner.id) == Some(u) && f.uuid(alias.id) == Some(v) && u != v
    requires owner.browsingWarpId.None? && owner.lowLatencyId.None?
    requires alias.browsingWarpId.None? && alias.lowLatencyId.None?
    ensures var old_: Users := map[u := (o, Smart), v := (o, LowLatencyDirect)];
            PlanAll(f, old_, [owner, alias]).users == map[u := (Existing(o), Smart), v := (Existing(o), Smart)]
  {
    var old_: Users := map[u := (o, Smart), v := (o, LowLatencyDirect)];
    assert [owner, alias][..1] == [owner] && [owner][..0] == [];
    assert PlanAll(f, old_, []) == EMPTY;
    assert PlanAll(f, old_, [owner]).users == map[u := (Existing(o), Smart)];
  }

  // ---- The reload itself ----

  datatype Tables = Tables(
    local: map<string, UserStats>, users: Users, stats: map<string, UserStats>, tokens: map<bytes, UserStats>)

  /** The object behind a target, given the objects made for new users. */
  function Object(made: map<string, UserStats>, t: Target): Option<UserStats> {
    match t
    case Existing(user) => Some(user)
    case New(id) => if id in made then Some(made[id]) else None
  }

  /** The tables hold, key for key, the objects the plan says. */
  ghost predicate Realizes(f: Formats, old_: Users, made: map<string, UserStats>, p: Plan, b: Tables) {
    && LocalsMatch(f, old_, made, p.first, b.local) && UsersMatch(made, p.users, b.users)
    && ObjectsMatch(made, p.emails, b.stats) && ObjectsMatch(made, p.tokens, b.tokens)
    && made.Keys <= p.first.Keys
  }

  /** Every object the plan mentions has the planned settings. */
  ghost predicate Configured(made: map<string, UserStats>, settings: map<Target, Settings>, objects: set<UserStats>)
    reads objects
  {
    forall t :: t in settings ==>
      && Object(made, t).Some? && Object(made, t).value in objects
      && Object(made, t).value.settings == settings[t]
  }

  /** New users get objects of their own. */
  ghost predicate Separate(made: map<string, UserStats>, objects: set<UserStats>) {
    && (forall id :: id in made ==> made[id] !in objects)
    && (forall a, b :: a in made && b in made && a != b ==> made[a] != made[b])
  }

  ghost function All(made: map<string, UserStats>, objects: set<UserStats>): set<UserStats> {
    objects + set id | id in made :: made[id]
  }

  /** A new user starts from its first client's counters. */
  ghost predicate Counted(made: map<string, UserStats>, first: map<string, Client>)
    reads set id | id in made :: made[id]
  {
    forall id :: id in made && id in first ==>
      && made[id].id == id && made[id].remainingBytes == InitialBudget(first[id].remainingGb)
      && made[id].rx == OrElse(first[id].rx, 0) && made[id].tx == OrElse(first[id].tx, 0)
      && made[id].totalGb == if first[id].totalGb.Some? then first[id].totalGb.value else -1
  }

  lemma AllGrows(made: map<string, UserStats>, objects: set<UserStats>, id: string, stat: UserStats)
    requires id !in made
    ensures All(made[id := stat], objects) == All(made, objects) + {stat}
  {
    var more := made[id := stat];
    assert more[id] == stat;
    assert forall k :: k in made ==> more[k] == made[k];
  }

  /** New users' objects are told apart by their identifiers. */
  lemma ObjectsDiffer(made: map<string, UserStats>, objects: set<UserStats>, t: Target, v: Target)
    requires Separate(made, objects) && Object(made, t).Some? && Object(made, v).Some?
    requires (t.Existing? ==> t.user in objects) && (v.Existing? ==> v.user in objects)
    ensures Object(made, t) == Object(made, v) <==> t == v
  {
  }

  method Refresh(stat: UserStats, c: Client, ghost made: map<string, UserStats>, ghost settings: map<Target, Settings>,
                 ghost first: map<string, Client>, ghost objects: set<UserStats>)
    requires Separate(made, objects) && stat in objects && Configured(made, settings, All(made, objects))
    requires Counted(made, first) && made.Keys <= first.Keys && c.id !in first
    modifies stat`settings
    ensures Configured(made, settings[Existing(stat) := SettingsOf(c)], All(made, objects))
    ensures Counted(made, first[c.id := c])
  {
    stat.settings := SettingsOf(c);
    assert forall t :: t in settings && t != Existing(stat) ==> Object(made, t).value != stat;
  }

  method Create(c: Client, ghost made: map<string, UserStats>, ghost settings: map<Target, Settings>,
                ghost first: map<string, Client>, ghost objects: set<UserStats>)
    returns (stat: UserStats, ghost made': map<string, UserStats>)
    requires Separate(made, objects) && Configured(made, settings, All(made, objects))
    requires Counted(made, first) && made.Keys <= first.Keys && c.id !in first
    ensures fresh(stat) && made' == made[c.id := stat] && Separate(made', objects)
    ensures Configured(made', settings[New(c.id) := SettingsOf(c)], All(made', objects))
    ensures Counted(made', first[c.id := c])
  {
    stat := new UserStats(c);
    made' := made[c.id := stat];
    assert forall t :: Object(made, t).Some? ==> Object(made', t) == Object(made, t);
    AllGrows(made, objects, c.id, stat);
  }

  ghost predicate Extends(made: map<string, UserStats>, made': map<string, UserStats>) {
    forall id :: id in made ==> id in made' && made'[id] == made[id]
  }

  lemma UsersOutlast(made: map<string, UserStats>, made': map<string, UserStats>,
                     planned: map<Uuid, (Target, RouteMode)>, users: Users)
    requires UsersMatch(made, planned, users) && Extends(made, made')
    ensures UsersMatch(made', planned, users)
  {
  }

  lemma ObjectsOutlast<K>(made: map<string, UserStats>, made': map<string, UserStats>,
                          planned: map<K, Target>, table: map<K, UserStats>)
    requires ObjectsMatch(made, planned, table) && Extends(made, made')
    ensures ObjectsMatch(made', planned, table)
  {
  }

  lemma LocalsOutlast(f: Formats, old_: Users, made: map<string, UserStats>, made': map<string, UserStats>,
                      first: map<string, Client>, local: map<string, UserStats>, c: Client, stat: UserStats)
    requires LocalsMatch(f, old_, made, first, local) && Extends(made, made')
    requires Object(made', TargetOf(f, old_, c.id)) == Some(stat)
    ensures LocalsMatch(f, old_, made', first[c.id := c], local[c.id := stat])
  {
    hide TargetOf;
  }

  /** The tables stay in step when a client's object becomes known. */
  lemma LocalWritten(f: Formats, old_: Users, made: map<string, UserStats>, made': map<string, UserStats>,
                     p: Plan, b: Tables, c: Client, stat: UserStats)
    requires Realizes(f, old_, made, p, b) && c.id !in p.first
    requires made' == made || (c.id !in made && made' == made[c.id := stat])
    requires Object(made', TargetOf(f, old_, c.id)) == Some(stat)
    ensures Realizes(f, old_, made', p.(first := FirstAfter(p, c)), b.(local := b.local[c.id := stat]))
  {
    hide TargetOf, LocalsMatch, UsersMatch, ObjectsMatch;
    LocalsOutlast(f, old_, made, made', p.first, b.local, c, stat);
    UsersOutlast(made, made', p.users, b.users);
    ObjectsOutlast(made, made', p.emails, b.stats);
    ObjectsOutlast(made, made', p.tokens, b.tokens);
  }

  /** One user table entry keeps the tables in step with the plan. */
  ghost predicate UsersMatch(made: map<string, UserStats>, planned: map<Uuid, (Target, RouteMode)>, users: Users) {
    && users.Keys == planned.Keys
    && forall u :: u in users ==> Object(made, planned[u].0) == Some(users[u].0) && users[u].1 == planned[u].1
  }

  ghost predicate ObjectsMatch<K>(made: map<string, UserStats>, planned: map<K, Target>, table: map<K, UserStats>) {
    table.Keys == planned.Keys && forall k :: k in table ==> Object(made, planned[k]) == Some(table[k])
  }

  lemma UserWritten(made: map<string, UserStats>, planned: map<Uuid, (Target, RouteMode)>, users: Users,
                    u: Uuid, t: Target, stat: UserStats, mode: RouteMode)
    requires UsersMatch(made, planned, users) && Object(made, t) == Some(stat)
    ensures UsersMatch(made, planned[u := (t, mode)], users[u := (stat, mode)])
  {
  }

  lemma ObjectWritten<K>(made: map<string, UserStats>, planned: map<K, Target>, table: map<K, UserStats>,
                         k: K, t: Target, stat: UserStats)
    requires ObjectsMatch(made, planned, table) && Object(made, t) == Some(stat)
    ensures ObjectsMatch(made, planned[k := t], table[k := stat])
  {
  }

  ghost predicate LocalsMatch(f: Formats, old_: Users, made: map<string, UserStats>,
                              first: map<string, Client>, local: map<string, UserStats>)
  {
    local.Keys == first.Keys && forall id :: id in local ==> Object(made, TargetOf(f, old_, id)) == Some(local[id])
  }

  class EngineState {
    var config: Config
    var users: Users
    var stats: map<string, UserStats>
    var subTokens: map<bytes, UserStats>
    var realityRuntimes: map<Uuid, Profile>
    const f: Formats

    constructor (f: Formats, config: Config)
      ensures users == map[] && stats == map[] && subTokens == map[] && this.config == config && this.f == f
    {
      this.f, this.config := f, config;
      users, stats, subTokens, realityRuntimes := map[], map[], map[], map[];
    }

    ghost function Objects(): set<UserStats>
      reads this
    {
      set u | u in users :: users[u].0
    }

    /** One client's object: the one its identifier has by now, the one its UUID had, or a new one. */
    method Resolve(c: Client, uuid: Uuid, local: map<string, UserStats>, ghost b: Tables,
                   ghost made: map<string, UserStats>, ghost p: Plan)
      returns (stat: UserStats, local': map<string, UserStats>, ghost made': map<string, UserStats>)
      requires local == b.local && f.uuid(c.id) == Some(uuid)
      requires Realizes(f, users, made, p, b) && Separate(made, Objects())
      requires Configured(made, p.settings, All(made, Objects())) && Counted(made, p.first)
      modifies Objects()`settings
      ensures Realizes(f, users, made', p.(first := FirstAfter(p, c)), b.(local := local')) && Separate(made', Objects())
      ensures Object(made', TargetOf(f, users, c.id)) == Some(stat)
      ensures Configured(made', SettingsAfter(f, users, p, c), All(made', Objects())) && Counted(made', FirstAfter(p, c))
      ensures Extends(made, made') && forall id :: id in made' && id !in made ==> fresh(made'[id])
      ensures forall o :: o in Objects() && Existing(o) != TargetOf(f, users, c.id) ==> o.settings == old(o.settings)
    {
      hide Configured, Separate, Realizes, Counted;
      LocalKnown(f, users, made, p, b, c);
      if c.id in local {
        return local[c.id], local, made;
      }
      if uuid in users {
        stat, made' := users[uuid].0, made;
        assert stat in Objects();
        Refresh(stat, c, made, p.settings, p.first, Objects());
      } else {
        stat, made' := Create(c, made, p.settings, p.first, Objects());
      }
      LocalWritten(f, users, made, made', p, b, c, stat);
      local' := local[c.id := stat];
    }

    method WriteAlias(alias: Option<string>, stat: UserStats, mode: RouteMode, newUsers: Users,
                      ghost made: map<string, UserStats>, ghost planned: map<Uuid, (Target, RouteMode)>, ghost t: Target)
      returns (r: Users)
      requires UsersMatch(made, planned, newUsers) && Object(made, t) == Some(stat)
      ensures UsersMatch(made, WithAlias(f, planned, alias, t, mode), r)
    {
      hide UsersMatch;
      r := newUsers;
      if alias.Some? {
        var uuid := f.uuid(alias.value);
        if uuid.Some? {
          UserWritten(made, planned, newUsers, uuid.value, t, stat, mode);
          r := newUsers[uuid.value := (stat, mode)];
        }
      }
    }

    method WriteToken(c: Client, stat: UserStats, newTokens: map<bytes, UserStats>,
                      ghost made: map<string, UserStats>, ghost planned: map<bytes, Target>, ghost t: Target)
      returns (r: map<bytes, UserStats>)
      requires ObjectsMatch(made, planned, newTokens) && Object(made, t) == Some(stat)
      ensures ObjectsMatch(made, WithToken(f, planned, c, t), r)
    {
      hide ObjectsMatch;
      r := newTokens;
      if c.subTokenHash.Some? {
        var hash := f.hex(c.subTokenHash.value);
        if hash.Some? && |hash.value| == 32 {
          ObjectWritten(made, planned, newTokens, hash.value, t, stat);
          r := newTokens[hash.value := stat];
        }
      }
    }

    /** One client's entries in every table. */
    method WriteEntries(c: Client, uuid: Uuid, stat: UserStats, email: Option<string>, b: Tables,
                        ghost made: map<string, UserStats>, ghost p: Plan)
      returns (b': Tables)
      requires f.uuid(c.id) == Some(uuid) && Object(made, TargetOf(f, users, c.id)) == Some(stat)
      requires email == EmailOf(SettingsAfter(f, users, p, c), TargetOf(f, users, c.id))
      requires Realizes(f, users, made, p.(first := FirstAfter(p, c)), b)
      ensures Realizes(f, users, made, PlanClient(f, users, p, c), b')
    {
      hide LocalsMatch, UsersMatch, ObjectsMatch, TargetOf, SettingsAfter, FirstAfter, Object, WithAlias, WithToken, EmailOf;
      ghost var t := TargetOf(f, users, c.id);
      UserWritten(made, p.users, b.users, uuid, t, stat, Smart);
      ghost var planned := p.users[uuid := (t, Smart)];
      var newUsers := b.users[uuid := (stat, Smart)];
      newUsers := WriteAlias(c.browsingWarpId, stat, BrowsingWarp, newUsers, made, planned, t);
      planned := WithAlias(f, planned, c.browsingWarpId, t, BrowsingWarp);
      newUsers := WriteAlias(c.lowLatencyId, stat, LowLatencyDirect, newUsers, made, planned, t);
      var newStats := b.stats;
      if email.Some? {
        ObjectWritten(made, p.emails, b.stats, email.value, t, stat);
        newStats := newStats[email.value := stat];
      }
      var newTokens := WriteToken(c, stat, b.tokens, made, p.tokens, t);
      b' := Tables(b.local, newUsers, newStats, newTokens);
    }

    /** One client of the new configuration. */
    method AddClient(c: Client, b: Tables, ghost made: map<string, UserStats>, ghost p: Plan)
      returns (b': Tables, ghost made': map<string, UserStats>)
      requires Realizes(f, users, made, p, b) && Separate(made, Objects())
      requires Configured(made, p.settings, All(made, Objects())) && Counted(made, p.first)
      requires forall id :: id in p.first ==> TargetOf(f, users, id) in p.settings
      modifies Objects()`settings
      ensures var q := PlanClient(f, users, p, c);
              && Realizes(f, users, made', q, b') && Separate(made', Objects())
              && Configured(made', q.settings, All(made', Objects())) && Counted(made', q.first)
      ensures Extends(made, made') && forall id :: id in made' && id !in made ==> fresh(made'[id])
      ensures forall o :: o in Objects() && Existing(o) !in PlanClient(f, users, p, c).settings ==>
                o.settings == old(o.settings)
    {
      hide Realizes, Separate, Counted, TargetOf, Configured;
      var uuid := f.uuid(c.id);
      if uuid.None? {
        return b, made;
      }
      var stat, local;
      stat, local, made' := Resolve(c, uuid.value, b.local, b, made, p);
      EmailIsTheObjects(made', SettingsAfter(f, users, p, c), All(made', Objects()), TargetOf(f, users, c.id));
      b' := WriteEntries(c, uuid.value, stat, stat.settings.email, b.(local := local), made', p);
    }

    /** Where the loops over inbounds and clients have come to. */
    ghost predicate Rebuilt(b: Tables, made: map<string, UserStats>, clients: seq<Client>)
      reads this, All(made, Objects())
    {
      var p := PlanAll(f, users, clients);
      && Realizes(f, users, made, p, b) && Separate(made, Objects())
      && Configured(made, p.settings, All(made, Objects())) && Counted(made, p.first)
    }

    /** The loop over one inbound's clients. */
    method AddClients(clients: seq<Client>, b: Tables, ghost made: map<string, UserStats>, ghost before: seq<Client>)
      returns (b': Tables, ghost made': map<string, UserStats>)
      requires Rebuilt(b, made, before)
      modifies Objects()`settings
      ensures Rebuilt(b', made', before + clients)
      ensures Extends(made, made') && forall id :: id in made' && id !in made ==> fresh(made'[id])
      ensures forall o :: o in Objects() && Existing(o) !in PlanAll(f, users, before + clients).settings ==>
                o.settings == old(o.settings)
    {
      hide Realizes, Separate, Configured, Counted, PlanAll, PlanClient, TargetOf;
      b', made' := b, made;
      assert before + clients[..0] == before;
      for j := 0 to |clients|
        invariant Rebuilt(b', made', before + clients[..j])
        invariant Extends(made, made') && forall id :: id in made' && id !in made ==> fresh(made'[id])
        invariant forall o :: o in Objects() && Existing(o) !in PlanAll(f, users, before + clients[..j]).settings ==>
            o.settings == old(o.settings)
      {
        PlanAppend(f, users, before + clients[..j], clients[j]);
        assert before + clients[..j + 1] == before + clients[..j] + [clients[j]];
        b', made' := AddClient(clients[j], b', made', PlanAll(f, users, before + clients[..j]));
      }
      assert clients[..|clients|] == clients;
    }

    /** The loop over the inbounds. */
    method AddInbounds(inbounds: seq<Option<seq<Client>>>) returns (b: Tables, ghost made: map<string, UserStats>)
      modifies Objects()`settings
      ensures Rebuilt(b, made, Clients(inbounds))
      ensures forall id :: id in made ==> fresh(made[id])
      ensures forall o :: o in Objects() && Existing(o) !in PlanAll(f, users, Clients(inbounds)).settings ==>
                o.settings == old(o.settings)
    {
      hide Rebuilt, PlanAll, Clients, TargetOf;
      b, made := Tables(map[], map[], map[], map[]), map[];
      NothingRebuilt();
      for i := 0 to |inbounds|
        invariant Rebuilt(b, made, Clients(inbounds[..i]))
        invariant forall id :: id in made ==> fresh(made[id])
        invariant forall o :: o in Objects() && Existing(o) !in PlanAll(f, users, Clients(inbounds[..i])).settings ==>
            o.settings == old(o.settings)
      {
        ClientsAppend(inbounds, i);
        if inbounds[i].Some? {
          b, made := AddClients(inbounds[i].value, b, made, Clients(inbounds[..i]));
          PlanGrows(f, users, Clients(inbounds[..i]), inbounds[i].value);
        }
      }
      assert inbounds[..|inbounds|] == inbounds;
    }

    lemma NothingRebuilt()
      ensures Rebuilt(Tables(map[], map[], map[], map[]), map[], Clients([]))
    {
    }

    /** A runtime for every profile, or the failure of the first that cannot be built. */
    method BuildAllRuntimes(profiles: seq<Profile>) returns (r: Result<map<Uuid, Profile>, string>)
      ensures r.Ok? <==> forall p :: p in profiles ==> f.buildable(p)
      ensures r.Ok? ==> r.value == Runtimes(profiles)
    {
      var runtimes: map<Uuid, Profile> := map[];
      for i := 0 to |profiles|
        invariant forall p :: p in profiles[..i] ==> f.buildable(p)
        invariant runtimes == Runtimes(profiles[..i])
      {
        if !f.buildable(profiles[i]) {
          return Err("runtime");
        }
        runtimes := runtimes[profiles[i].id := profiles[i]];
        assert profiles[..i + 1][..i] == profiles[..i];
      }
      assert profiles[..|profiles|] == profiles;
      r := Ok(runtimes);
    }

    /**
     * The reload. It fails, changing nothing, if the network mode differs or a runtime cannot be built.
     * Otherwise the tables hold what the plan for the new configuration says, with the objects of users
     * that were there: their counters and budgets stay as they are, only settings change, and only those
     * of users the new configuration mentions. Everybody else gets a new object.
     */
    method UpdateConfig(newConfig: Config)
      returns (r: Result<(), string>, ghost made: map<string, UserStats>)
      modifies this, Objects()`settings
      ensures r.Ok? <==> newConfig.ipv4Only == old(config.ipv4Only) && forall p :: p in newConfig.profiles ==> f.buildable(p)
      ensures r.Err? ==>
        && config == old(config) && users == old(users) && stats == old(stats) && subTokens == old(subTokens)
        && realityRuntimes == old(realityRuntimes) && forall o :: o in Objects() ==> o.settings == old(o.settings)
      ensures r.Ok? ==>
        && config == newConfig && realityRuntimes == Runtimes(newConfig.profiles)
        && var plan := PlanAll(f, old(users), Clients(newConfig.inbounds));
        && UsersMatch(made, plan.users, users) && ObjectsMatch(made, plan.emails, stats)
        && ObjectsMatch(made, plan.tokens, subTokens)
        && Configured(made, plan.settings, All(made, old(Objects()))) && Counted(made, plan.first)
        && Separate(made, old(Objects())) && (forall id :: id in made ==> fresh(made[id]))
        && (forall o :: o in old(Objects()) && Existing(o) !in plan.settings ==> o.settings == old(o.settings))
    {
      hide Configured, Counted, Separate, UsersMatch, ObjectsMatch, LocalsMatch, PlanAll, PlanClient, Clients, TargetOf;
      made := map[];
      if newConfig.ipv4Only != config.ipv4Only {
        return Err("restart_required"), made;
      }
      var built := BuildAllRuntimes(newConfig.profiles);
      if built.Err? {
        return Err(built.error), made;
      }
      var b := Tables(map[], map[], map[], map[]);
      b, made := AddInbounds(newConfig.inbounds);
      realityRuntimes := built.value;
      users, stats, subTokens, config := b.users, b.stats, b.tokens, newConfig;
      r := Ok(());
    }
  }

  /**
   * After a reload, two clients' entries hold one object if and only if they have one identifier, or both
   * their UUIDs led to that object before.
   */
  lemma ClientsShareIff(f: Formats, old_: Users, objects: set<UserStats>, made: map<string, UserStats>, users: Users,
                        clients: seq<Client>, c: Client, u: Uuid, m: RouteMode, d: Client, v: Uuid, n: RouteMode)
    requires UsersMatch(made, PlanAll(f, old_, clients).users, users) && Separate(made, objects)
    requires forall k :: k in old_ ==> old_[k].0 in objects
    requires c in clients && Claims(f, c, u, m) && Agreed(f, old_, clients, u)
    requires d in clients && Claims(f, d, v, n) && Agreed(f, old_, clients, v)
    ensures u in users && v in users
    ensures users[u].0 == users[v].0 <==>
            || c.id == d.id
            || (&& f.uuid(c.id).value in old_ && f.uuid(d.id).value in old_
                && old_[f.uuid(c.id).value].0 == old_[f.uuid(d.id).value].0)
  {
    hide PlanAll, Agreed, Separate;
    EntriesAreRightIffClaimsAgree(f, old_, clients, u);
    EntriesAreRightIffClaimsAgree(f, old_, clients, v);
    ObjectsDiffer(made, objects, TargetOf(f, old_, c.id), TargetOf(f, old_, d.id));
    if c.id != d.id {
      SameTargetIff(f, old_, c.id, d.id);
    }
  }

  /**
   * What the user table says of one client after a reload: as far as nobody else claims the same UUIDs, its own
   * leads to its object in smart mode, its two aliases to the same in their modes; and that is the object its
   * UUID led to before, if it did, else one that was not there.
   */
  lemma EntriesAfterReload(f: Formats, old_: Users, objects: set<UserStats>, made: map<string, UserStats>, users: Users,
                           clients: seq<Client>, c: Client, u: Uuid)
    requires UsersMatch(made, PlanAll(f, old_, clients).users, users) && Separate(made, objects)
    requires c in clients && f.uuid(c.id) == Some(u) && Agreed(f, old_, clients, u)
    ensures u in users && users[u].1 == Smart
    ensures if u in old_ then users[u].0 == old_[u].0 else users[u].0 !in objects && c.id in made && users[u].0 == made[c.id]
    ensures forall v :: c.browsingWarpId.Some? && f.uuid(c.browsingWarpId.value) == Some(v) && Agreed(f, old_, clients, v) ==>
              v in users && users[v] == (users[u].0, BrowsingWarp)
    ensures forall v :: c.lowLatencyId.Some? && f.uuid(c.lowLatencyId.value) == Some(v) && Agreed(f, old_, clients, v) ==>
              v in users && users[v] == (users[u].0, LowLatencyDirect)
  {
    hide PlanAll, Agreed;
    assert Claims(f, c, u, Smart);
    EntriesAreRightIffClaimsAgree(f, old_, clients, u);
    forall v | c.browsingWarpId.Some? && f.uuid(c.browsingWarpId.value) == Some(v) && Agreed(f, old_, clients, v)
      ensures v in users && users[v] == (users[u].0, BrowsingWarp)
    {
      assert Claims(f, c, v, BrowsingWarp);
      EntriesAreRightIffClaimsAgree(f, old_, clients, v);
    }
    forall v | c.lowLatencyId.Some? && f.uuid(c.lowLatencyId.value) == Some(v) && Agreed(f, old_, clients, v)
      ensures v in users && users[v] == (users[u].0, LowLatencyDirect)
    {
      assert Claims(f, c, v, LowLatencyDirect);
      EntriesAreRightIffClaimsAgree(f, old_, clients, v);
    }
  }

  /**
   * What a client's object holds after a reload, field by field: with one client to an object, or clients that
   * agree, each setting is the client's own, and a limit or time it leaves out is zero.
   */
  lemma SettingsAfterReload(f: Formats, old_: Users, objects: set<UserStats>, made: map<string, UserStats>, users: Users,
                            clients: seq<Client>, i: int, u: Uuid)
    requires UsersMatch(made, PlanAll(f, old_, clients).users, users) && Separate(made, objects)
    requires Configured(made, PlanAll(f, old_, clients).settings, All(made, objects))
    requires IsFirst(f, clients, i) && FirstsAgree(f, old_, clients)
    requires f.uuid(clients[i].id) == Some(u) && Agreed(f, old_, clients, u)
    ensures u in users
    ensures var c, o := clients[i], users[u].0;
            && o.settings.email == c.email && o.settings.realityProfileId == c.realityProfileId
            && o.settings.inboundTag == c.inboundTag && o.settings.sni == c.sni
            && o.settings.limitIp == (if c.limitIp.Some? then c.limitIp.value else 0)
            && o.settings.speedLimit == (if c.speedLimit.Some? then c.speedLimit.value else 0)
            && o.settings.expiryTime == (if c.expiryTime.Some? then c.expiryTime.value else 0)
  {
    hide PlanAll, Agreed, FirstsAgree, TargetOf;
    SettingsAreRightIffFirstsAgree(f, old_, clients);
    assert Claims(f, clients[i], u, Smart);
    EntriesAreRightIffClaimsAgree(f, old_, clients, u);
    assert users[u].0 == Object(made, TargetOf(f, old_, clients[i].id)).value;
  }

  /**
   * What a new user starts from: the counters of the first client of its identifier, or zero; as budget, no
   * limit (-1) if none or a negative one is given, else the gigabytes in bytes, cut to whole bytes and 63 bits.
   */
  lemma NewUserStartsFrom(f: Formats, old_: Users, objects: set<UserStats>, made: map<string, UserStats>, users: Users,
                          clients: seq<Client>, i: int, u: Uuid)
    requires UsersMatch(made, PlanAll(f, old_, clients).users, users) && Separate(made, objects)
    requires Counted(made, PlanAll(f, old_, clients).first)
    requires IsFirst(f, clients, i) && f.uuid(clients[i].id) == Some(u) && Agreed(f, old_, clients, u) && u !in old_
    ensures u in users
    ensures var c, o := clients[i], users[u].0;
            && o.id == c.id && o.totalGb == (if c.totalGb.Some? then c.totalGb.value else -1)
            && o.rx == (if c.rx.Some? then c.rx.value else 0) && o.tx == (if c.tx.Some? then c.tx.value else 0)
            && (c.remainingGb.None? || c.remainingGb.value < 0.0 ==> o.remainingBytes == -1)
            && (c.remainingGb.Some? && 0.0 <= c.remainingGb.value < 8589934592.0 ==>
                  o.remainingBytes as real <= c.remainingGb.value * 1073741824.0 < (o.remainingBytes + 1) as real)
            && (c.remainingGb.Some? && 8589934592.0 <= c.remainingGb.value ==> o.remainingBytes == 9223372036854775807)
  {
    hide PlanAll, Agreed, TargetOf;
    EntriesAfterReload(f, old_, objects, made, users, clients, clients[i], u);
    FirstIsKnown(f, old_, clients, i);
    BudgetOf(clients[i].remainingGb);
  }

  lemma BudgetOf(gb: Option<real>)
    ensures gb.None? || gb.value < 0.0 ==> InitialBudget(gb) == -1
    ensures gb.Some? && 0.0 <= gb.value < 8589934592.0 ==>
              InitialBudget(gb) as real <= gb.value * 1073741824.0 < (InitialBudget(gb) + 1) as real
    ensures gb.Some? && 8589934592.0 <= gb.value ==> InitialBudget(gb) == 9223372036854775807
  {
    if gb.Some? && gb.value >= 0.0 {
      var b := gb.value * 1073741824.0;
      assert b.Floor as real <= b < (b.Floor + 1) as real;
      if gb.value < 8589934592.0 {
        assert b < 8589934592.0 * 1073741824.0 == 9223372036854775808.0;
      } else {
        assert b >= 8589934592.0 * 1073741824.0 == 9223372036854775808.0;
      }
    }
  }

  /** Of profiles with one identifier, the last is kept. */
  lemma {:induction false} RuntimesKeepTheLast(profiles: seq<Profile>, u: Uuid)
    ensures u in Runtimes(profiles) <==> exists p :: p in profiles && p.id == u
    ensures u in Runtimes(profiles) ==> exists i :: IsLast(profiles, u, i) && Runtimes(profiles)[u] == profiles[i]
  {
    if profiles != [] {
      var before, last := profiles[..|profiles| - 1], profiles[|profiles| - 1];
      RuntimesKeepTheLast(before, u);
      assert profiles == before + [last];
      if last.id == u {
        assert IsLast(profiles, u, |profiles| - 1);
      } else if u in Runtimes(before) {
        var i :| IsLast(before, u, i) && Runtimes(before)[u] == before[i];
        assert IsLast(profiles, u, i);
      }
    }
  }

  ghost predicate IsLast(profiles: seq<Profile>, u: Uuid, i: int) {
    0 <= i < |profiles| && profiles[i].id == u && forall j :: i < j < |profiles| ==> profiles[j].id != u
  }

  function Runtimes(profiles: seq<Profile>): map<Uuid, Profile> {
    if profiles == [] then map[]
    else Runtimes(profiles[..|profiles| - 1])[profiles[|profiles| - 1].id := profiles[|profiles| - 1]]
  }

  lemma ClientsAppend(inbounds: seq<Option<seq<Client>>>, i: nat)
    requires i < |inbounds|
    ensures Clients(inbounds[..i + 1]) == Clients(inbounds[..i]) + OrElse(inbounds[i], [])
    ensures inbounds[i].None? ==> Clients(inbounds[..i + 1]) == Clients(inbounds[..i])
  {
    assert inbounds[..i + 1][..i] == inbounds[..i];
  }

  lemma {:induction false} PlanGrows(f: Formats, old_: Users, clients: seq<Client>, more: seq<Client>)
    ensures forall t :: t in PlanAll(f, old_, clients).settings ==> t in PlanAll(f, old_, clients + more).settings
  {
    if more == [] {
      assert clients + more == clients;
    } else {
      var n := |more| - 1;
      PlanGrows(f, old_, clients, more[..n]);
      PlanAppend(f, old_, clients + more[..n], more[n]);
      assert clients + more == clients + more[..n] + [more[n]];
    }
  }

  lemma PlanAppend(f: Formats, old_: Users, clients: seq<Client>, c: Client)
    ensures PlanAll(f, old_, clients + [c]) == PlanClient(f, old_, PlanAll(f, old_, clients), c)
    ensures forall t :: t in PlanAll(f, old_, clients).settings ==> t in PlanAll(f, old_, clients + [c]).settings
    ensures forall id :: id in PlanAll(f, old_, clients).first ==>
      TargetOf(f, old_, id) in PlanAll(f, old_, clients).settings
  {
    hide PlanAll, TargetOf, WithAlias, WithToken;
    assert (clients + [c])[..|clients|] == clients;
    PlanUnfold(f, old_, clients + [c]);
    PlanDescribes(f, old_, clients);
  }

  lemma EmailIsTheObjects(made: map<string, UserStats>, settings: map<Target, Settings>, objects: set<UserStats>, t: Target)
    requires Configured(made, settings, objects) && t in settings
    ensures Object(made, t).Some? && EmailOf(settings, t) == Object(made, t).value.settings.email
  {
  }

  lemma LocalKnown(f: Formats, old_: Users, made: map<string, UserStats>, p: Plan, b: Tables, c: Client)
    requires Realizes(f, old_, made, p, b)
    ensures (c.id in b.local <==> c.id in p.first) && made.Keys <= p.first.Keys
    ensures c.id in b.local ==> Object(made, TargetOf(f, old_, c.id)) == Some(b.local[c.id])
    ensures c.id in b.local ==> p.(first := FirstAfter(p, c)) == p && b.(local := b.local) == b
  {
  }
}
