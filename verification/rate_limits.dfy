/**
 * The two sliding-window limiters. They forget what has left the window; what they decide is what the full
 * history decides.
 */
module RateLimits {
  import opened Clocks

  type Ip = nat

  // ---- Sliding windows ----

  /** The instants less than a window old. */
  function Recent(instants: seq<real>, now: real, window: real): (r: seq<real>)
    ensures |r| <= |instants|
    ensures forall t :: t in r ==> t in instants
  {
    if instants == [] then []
    else
      var before, last := Recent(instants[..|instants| - 1], now, window), instants[|instants| - 1];
      if now - last < window then before + [last] else before
  }

  lemma RecentAppend(instants: seq<real>, t: real, now: real, window: real)
    ensures Recent(instants + [t], now, window) ==
            if now - t < window then Recent(instants, now, window) + [t] else Recent(instants, now, window)
  {
    assert (instants + [t])[..|instants|] == instants;
  }

  /** Forgetting what has left the window changes nothing that a later look can see. */
  lemma {:induction false} RecentOfRecent(instants: seq<real>, earlier: real, now: real, window: real)
    requires earlier <= now
    ensures Recent(Recent(instants, earlier, window), now, window) == Recent(instants, now, window)
  {
    if instants != [] {
      var before, last := instants[..|instants| - 1], instants[|instants| - 1];
      RecentOfRecent(before, earlier, now, window);
      RecentAppend(Recent(before, earlier, window), last, now, window);
    }
  }

  /** The recent instants are exactly those less than a window old, each as often as it occurred. */
  lemma {:induction false} RecentIs(instants: seq<real>, now: real, window: real, t: real)
    ensures multiset(Recent(instants, now, window))[t] == if now - t < window then multiset(instants)[t] else 0
  {
    if instants != [] {
      var before, last := instants[..|instants| - 1], instants[|instants| - 1];
      RecentIs(before, now, window, t);
      assert instants == before + [last];
    }
  }

  method Retain(instants: seq<real>, now: real, window: real) returns (kept: seq<real>)
    ensures kept == Recent(instants, now, window)
  {
    kept := [];
    for i := 0 to |instants|
      invariant kept == Recent(instants[..i], now, window)
    {
      RecentAppend(instants[..i], instants[i], now, window);
      assert instants[..i + 1] == instants[..i] + [instants[i]];
      if now - instants[i] < window {
        kept := kept + [instants[i]];
      }
    }
    assert instants[..|instants|] == instants;
  }

  function Of(table: map<Ip, seq<real>>, ip: Ip): seq<real> {
    if ip in table then table[ip] else []
  }

  /** The table has forgotten nothing that still counts. */
  ghost predicate Remembers(table: map<Ip, seq<real>>, full: map<Ip, seq<real>>, now: real, window: real) {
    forall ip :: Recent(Of(table, ip), now, window) == Recent(Of(full, ip), now, window)
  }

  lemma RemembersLater(table: map<Ip, seq<real>>, full: map<Ip, seq<real>>, earlier: real, now: real, window: real)
    requires Remembers(table, full, earlier, window) && earlier <= now
    ensures Remembers(table, full, now, window)
  {
    forall ip ensures Recent(Of(table, ip), now, window) == Recent(Of(full, ip), now, window) {
      assert Recent(Of(table, ip), earlier, window) == Recent(Of(full, ip), earlier, window);
      RecentOfRecent(Of(table, ip), earlier, now, window);
      RecentOfRecent(Of(full, ip), earlier, now, window);
    }
  }

  lemma RetainRemembers(table: map<Ip, seq<real>>, full: map<Ip, seq<real>>, now: real, window: real, ip: Ip)
    requires Remembers(table, full, now, window)
    ensures Remembers(table[ip := Recent(Of(table, ip), now, window)], full, now, window)
    ensures Recent(Of(table, ip), now, window) == Recent(Of(full, ip), now, window)
  {
    hide Recent;
    RecentOfRecent(Of(table, ip), now, now, window);
    assert Recent(Of(table, ip), now, window) == Recent(Of(full, ip), now, window);
  }

  lemma PushRemembers(table: map<Ip, seq<real>>, full: map<Ip, seq<real>>, now: real, window: real, ip: Ip)
    requires Remembers(table, full, now, window)
    ensures Remembers(table[ip := Of(table, ip) + [now]], full[ip := Of(full, ip) + [now]], now, window)
  {
    hide Recent;
    RecentAppend(Of(table, ip), now, now, window);
    RecentAppend(Of(full, ip), now, now, window);
    var pushed, all := table[ip := Of(table, ip) + [now]], full[ip := Of(full, ip) + [now]];
    forall other ensures Recent(Of(pushed, other), now, window) == Recent(Of(all, other), now, window) {
      assert Recent(Of(table, other), now, window) == Recent(Of(full, other), now, window);
      if other != ip {
        assert Of(pushed, other) == Of(table, other) && Of(all, other) == Of(full, other);
      }
    }
  }

  // ---- Subscription requests ----

  const SUB_WINDOW := 60.0
  const SUB_LIMIT := 10
  const SUB_PRUNE_ABOVE := 1000

  /** Grants in the order given, each while fewer than ten were less than a window old. */
  ghost predicate Disciplined(grants: seq<real>) {
    grants == [] ||
    (var before, last := grants[..|grants| - 1], grants[|grants| - 1];
     Disciplined(before) && |Recent(before, last, SUB_WINDOW)| < SUB_LIMIT)
  }

  /** The grants of the window that starts at `from`. */
  function InWindow(grants: seq<real>, from: real): seq<real> {
    if grants == [] then []
    else
      var before, last := InWindow(grants[..|grants| - 1], from), grants[|grants| - 1];
      if from <= last < from + 60.0 then before + [last] else before
  }

  /** While an instant of the window is current, all of the window's grants are recent. */
  lemma {:induction false} WindowIsRecent(grants: seq<real>, from: real, now: real)
    requires from <= now < from + 60.0
    ensures |InWindow(grants, from)| <= |Recent(grants, now, 60.0)|
  {
    if grants != [] {
      WindowIsRecent(grants[..|grants| - 1], from, now);
    }
  }

  /** No window of 60 seconds, wherever it starts, holds more than ten grants to one address. */
  lemma {:induction false} EveryWindowHoldsAtMostTen(grants: seq<real>, from: real)
    requires Disciplined(grants)
    ensures |InWindow(grants, from)| <= 10
  {
    if grants != [] {
      var n := |grants| - 1;
      var before, last := grants[..n], grants[n];
      EveryWindowHoldsAtMostTen(before, from);
      if from <= last < from + SUB_WINDOW {
        WindowIsRecent(before, from, last);
      }
    }
  }

  class SubscriptionLimiter {
    var table: map<Ip, seq<real>>
    const clock: Clock
    ghost var grants: map<Ip, seq<real>>

    /** The table decides as the full history would, and the history keeps the limit. */
    ghost predicate Valid()
      reads this, clock
    {
      && Remembers(table, grants, clock.time, SUB_WINDOW)
      && forall ip :: ip in grants ==> Disciplined(grants[ip])
    }

    constructor (clock: Clock)
      ensures Valid() && grants == map[] && this.clock == clock
    {
      this.clock, table, grants := clock, map[], map[];
    }

    /** Drops what has left the window, and addresses with nothing left. */
    method Prune(now: real)
      requires Remembers(table, grants, now, SUB_WINDOW)
      modifies this`table
      ensures Remembers(table, grants, now, SUB_WINDOW)
    {
      hide Recent;
      var unseen := table.Keys;
      while unseen != {}
        invariant unseen <= table.Keys
        invariant Remembers(table, grants, now, SUB_WINDOW)
      {
        var ip :| ip in unseen;
        unseen := unseen - {ip};
        var kept := Retain(table[ip], now, SUB_WINDOW);
        RecentOfRecent(table[ip], now, now, SUB_WINDOW);
        NothingIsRecent(now, SUB_WINDOW);
        if kept == [] {
          table := table - {ip};
        } else {
          table := table[ip := kept];
        }
      }
    }

    /**
     * A request is granted if and only if fewer than ten grants to its address, of all there ever were,
     * are less than 60 seconds old.
     */
    method Check(ip: Ip) returns (granted: bool)
      requires Valid()
      modifies this`table, this`grants, clock
      ensures Valid() && clock.time >= old(clock.time)
      ensures granted <==> |Recent(Of(old(grants), ip), clock.time, 60.0)| < 10
      ensures grants == if granted then old(grants)[ip := Of(old(grants), ip) + [clock.time]] else old(grants)
    {
      hide Recent, Disciplined, Remembers;
      var now := clock.Now();
      RemembersLater(table, grants, old(clock.time), now, SUB_WINDOW);
      if |table| > SUB_PRUNE_ABOVE {
        Prune(now);
      }
      RetainRemembers(table, grants, now, SUB_WINDOW, ip);
      var entry := Retain(Of(table, ip), now, SUB_WINDOW);
      table := table[ip := entry];
      if |entry| >= SUB_LIMIT {
        return false;
      }
      PushRemembers(table, grants, now, SUB_WINDOW, ip);
      NoGrants();
      StaysDisciplined(Of(grants, ip), now);
      table := table[ip := entry + [now]];
      grants := grants[ip := Of(grants, ip) + [now]];
      granted := true;
    }
  }

  lemma NothingIsRecent(now: real, window: real)
    ensures Recent([], now, window) == []
  {
  }

  lemma StaysDisciplined(grants: seq<real>, now: real)
    requires Disciplined(grants) && |Recent(grants, now, SUB_WINDOW)| < SUB_LIMIT
    ensures Disciplined(grants + [now])
  {
    assert (grants + [now])[..|grants|] == grants;
  }

  lemma NoGrants()
    ensures Disciplined([])
  {
  }

  // ---- Logins ----

  const LOGIN_WINDOW := 300.0
  const LOGIN_LIMIT := 20
  const LOGIN_LIMIT_PER_IP := 5

  datatype LoginEvent = Failure(ip: Ip, at: real) | Success(ip: Ip)

  function Failures(log: seq<LoginEvent>): seq<real> {
    if log == [] then []
    else
      var last := log[|log| - 1];
      Failures(log[..|log| - 1]) + if last.Failure? then [last.at] else []
  }

  /** The failures of an address since its last success. */
  function FailuresOf(log: seq<LoginEvent>, ip: Ip): seq<real> {
    if log == [] then []
    else
      var before, last := FailuresOf(log[..|log| - 1], ip), log[|log| - 1];
      if last.ip != ip then before else if last.Failure? then before + [last.at] else []
  }

  /** What one more event does to the two counts: a failure adds to both, a success clears its address's. */
  lemma LogAppend(log: seq<LoginEvent>, e: LoginEvent)
    ensures Failures(log + [e]) == if e.Failure? then Failures(log) + [e.at] else Failures(log)
    ensures forall ip :: ip != e.ip ==> FailuresOf(log + [e], ip) == FailuresOf(log, ip)
    ensures FailuresOf(log + [e], e.ip) == if e.Failure? then FailuresOf(log, e.ip) + [e.at] else []
  {
    assert (log + [e])[..|log|] == log;
  }

  ghost predicate RemembersLog(attempts: map<Ip, seq<real>>, log: seq<LoginEvent>, now: real) {
    forall ip :: Recent(Of(attempts, ip), now, LOGIN_WINDOW) == Recent(FailuresOf(log, ip), now, LOGIN_WINDOW)
  }

  lemma RemembersLogLater(attempts: map<Ip, seq<real>>, log: seq<LoginEvent>, earlier: real, now: real)
    requires RemembersLog(attempts, log, earlier) && earlier <= now
    ensures RemembersLog(attempts, log, now)
  {
    forall ip ensures Recent(Of(attempts, ip), now, LOGIN_WINDOW) == Recent(FailuresOf(log, ip), now, LOGIN_WINDOW) {
      assert Recent(Of(attempts, ip), earlier, LOGIN_WINDOW) == Recent(FailuresOf(log, ip), earlier, LOGIN_WINDOW);
      RecentOfRecent(Of(attempts, ip), earlier, now, LOGIN_WINDOW);
      RecentOfRecent(FailuresOf(log, ip), earlier, now, LOGIN_WINDOW);
    }
  }

  class LoginRateLimiter {
    var attempts: map<Ip, seq<real>>
    var globalAttempts: seq<real>
    const clock: Clock
    ghost var log: seq<LoginEvent>

    ghost predicate Valid()
      reads this, clock
    {
      && Recent(globalAttempts, clock.time, LOGIN_WINDOW) == Recent(Failures(log), clock.time, LOGIN_WINDOW)
      && RemembersLog(attempts, log, clock.time)
    }

    constructor (clock: Clock)
      ensures Valid() && log == [] && this.clock == clock
    {
      this.clock, attempts, globalAttempts, log := clock, map[], [], [];
    }

    /** Time passes; what was remembered still is. */
    method Tick() returns (now: real)
      requires Valid()
      modifies clock
      ensures Valid() && now == clock.time >= old(clock.time)
    {
      hide Recent, Failures, FailuresOf, RemembersLog;
      now := clock.Now();
      RecentOfRecent(globalAttempts, old(clock.time), now, LOGIN_WINDOW);
      RecentOfRecent(Failures(log), old(clock.time), now, LOGIN_WINDOW);
      RemembersLogLater(attempts, log, old(clock.time), now);
    }

    /**
     * A login may be tried if and only if fewer than 20 failures of all there ever were are less than 300
     * seconds old, and fewer than 5 of those of its address since its last success.
     */
    method IsAllowed(ip: Ip) returns (allowed: bool)
      requires Valid()
      modifies this`attempts, this`globalAttempts, clock
      ensures Valid() && clock.time >= old(clock.time)
      ensures allowed <==>
              && |Recent(Failures(log), clock.time, 300.0)| < 20
              && |Recent(FailuresOf(log, ip), clock.time, 300.0)| < 5
    {
      hide Recent, Failures, FailuresOf;
      var now := Tick();
      RecentOfRecent(globalAttempts, now, now, LOGIN_WINDOW);
      globalAttempts := Retain(globalAttempts, now, LOGIN_WINDOW);
      if |globalAttempts| >= LOGIN_LIMIT {
        return false;
      }
      assert Recent(Of(attempts, ip), now, LOGIN_WINDOW) == Recent(FailuresOf(log, ip), now, LOGIN_WINDOW);
      if ip in attempts {
        RecentOfRecent(attempts[ip], now, now, LOGIN_WINDOW);
        var entry := Retain(attempts[ip], now, LOGIN_WINDOW);
        attempts := attempts[ip := entry];
        if |entry| >= LOGIN_LIMIT_PER_IP {
          return false;
        }
      } else {
        NothingIsRecent(now, LOGIN_WINDOW);
      }
      allowed := true;
    }

    method RecordFailure(ip: Ip)
      requires Valid()
      modifies this`attempts, this`globalAttempts, this`log, clock
      ensures Valid() && clock.time >= old(clock.time)
      ensures log == old(log) + [Failure(ip, clock.time)]
    {
      hide Recent, Failures, FailuresOf;
      var now := Tick();
      LogAppend(log, Failure(ip, now));
      RecentAppend(globalAttempts, now, now, LOGIN_WINDOW);
      RecentAppend(Failures(log), now, now, LOGIN_WINDOW);
      assert Recent(Of(attempts, ip), now, LOGIN_WINDOW) == Recent(FailuresOf(log, ip), now, LOGIN_WINDOW);
      RecentAppend(Of(attempts, ip), now, now, LOGIN_WINDOW);
      RecentAppend(FailuresOf(log, ip), now, now, LOGIN_WINDOW);
      globalAttempts := globalAttempts + [now];
      attempts := attempts[ip := Of(attempts, ip) + [now]];
      log := log + [Failure(ip, now)];
    }

    method RecordSuccess(ip: Ip)
      requires Valid()
      modifies this`attempts, this`log
      ensures Valid() && log == old(log) + [Success(ip)]
    {
      hide Recent, Failures, FailuresOf;
      LogAppend(log, Success(ip));
      attempts := attempts - {ip};
      log := log + [Success(ip)];
    }
  }
}
