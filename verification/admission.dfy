/**
 * Admission of Reality handshakes: four permits in all, two handshakes an address, counted by guards that
 * are dropped when a handshake ends. Any number of attempts, interleaved at their atomic steps.
 */
module Admission {
  import opened Bytes

  const PERMITS := 4
  const PER_IP := 2
  const TRACKED := 1000

  datatype IpAddr = V4(octets: bytes) | V6(octets: bytes)

  /** An IPv6 address that maps or embeds an IPv4 address is counted as that. */
  function Canonical(ip: IpAddr): IpAddr {
    if ip.V6? && |ip.octets| == 16 && (forall i :: 0 <= i < 10 ==> ip.octets[i] == 0)
       && (ip.octets[10..12] == [0, 0] || ip.octets[10..12] == [255, 255])
    then V4(ip.octets[12..]) else ip
  }

  /**
   * The IPv6 addresses ::a.b.c.d and ::ffff:a.b.c.d count as the IPv4 address a.b.c.d, so that no client gets
   * more by changing the family; every other address counts as itself, and IPv4 addresses stay apart.
   */
  lemma CanonicalIs(ip: IpAddr, octets: bytes)
    requires |octets| == 4
    ensures var zeros: bytes := [0, 0, 0, 0, 0, 0, 0, 0, 0, 0];
            && Canonical(V4(octets)) == V4(octets)
            && Canonical(V6(zeros + [255, 255] + octets)) == V4(octets)
            && Canonical(V6(zeros + [0, 0] + octets)) == V4(octets)
            && (Canonical(ip) == ip ||
                exists o :: |o| == 4 && Canonical(ip) == V4(o) && (ip == V6(zeros + [255, 255] + o) || ip == V6(zeros + [0, 0] + o)))
  {
    var zeros: bytes := [0, 0, 0, 0, 0, 0, 0, 0, 0, 0];
    var mapped, embedded := zeros + [255, 255] + octets, zeros + [0, 0] + octets;
    assert mapped[10..12] == [255, 255] && mapped[12..] == octets;
    assert embedded[10..12] == [0, 0] && embedded[12..] == octets;
    if Canonical(ip) != ip {
      var o := ip.octets[12..];
      assert ip.octets == ip.octets[..10] + ip.octets[10..12] + o && ip.octets[..10] == zeros;
    }
  }

  datatype Reason = NoPermit | IpLimit | MapFull

  /**
   * Where an attempt stands. It holds a permit from `Permitted` on until it is `Refused` or `Done`, and is
   * counted in the map while `Guarded`.
   */
  datatype Phase =
    | Permitted
    | Guarded
    | Refusing(why: Reason)
    | Refused(reason: Reason)
    | Uncounted
    | Done

  datatype Attempt = Attempt(ip: IpAddr, phase: Phase)

  datatype State = State(permits: nat, perIp: map<IpAddr, nat>, attempts: seq<Attempt>)

  const IDLE := State(PERMITS, map[], [])

  /** The atomic steps: taking a permit, the locked check, the locked part of the drop, giving the permit back. */
  datatype Event = Arrive(from: IpAddr) | Check(i: nat) | Uncount(i: nat) | Release(i: nat)

  function CountOf(perIp: map<IpAddr, nat>, ip: IpAddr): nat {
    if ip in perIp then perIp[ip] else 0
  }

  function Move(attempts: seq<Attempt>, i: nat, phase: Phase): seq<Attempt>
    requires i < |attempts|
  {
    attempts[i := attempts[i].(phase := phase)]
  }

  function Admit(s: State, i: nat): State
    requires i < |s.attempts|
  {
    var ip := s.attempts[i].ip;
    var n := CountOf(s.perIp, ip);
    if n >= PER_IP then s.(attempts := Move(s.attempts, i, Refusing(IpLimit)))
    else if |s.perIp| >= TRACKED && n == 0 then s.(attempts := Move(s.attempts, i, Refusing(MapFull)))
    else State(s.permits, s.perIp[ip := n + 1], Move(s.attempts, i, Guarded))
  }

  function Leave(s: State, i: nat): State
    requires i < |s.attempts|
  {
    var ip := s.attempts[i].ip;
    var perIp :=
      if ip !in s.perIp then s.perIp
      else if s.perIp[ip] > 1 then s.perIp[ip := s.perIp[ip] - 1]
      else s.perIp - {ip};
    State(s.permits, perIp, Move(s.attempts, i, Uncounted))
  }

  function Step(s: State, e: Event): State {
    if e.Arrive? then
      var ip := Canonical(e.from);
      if s.permits == 0 then s.(attempts := s.attempts + [Attempt(ip, Refused(NoPermit))])
      else State(s.permits - 1, s.perIp, s.attempts + [Attempt(ip, Permitted)])
    else if e.i >= |s.attempts| then s
    else
      var phase := s.attempts[e.i].phase;
      match e
      case Check(i) => if phase.Permitted? then Admit(s, i) else s
      case Uncount(i) => if phase.Guarded? then Leave(s, i) else s
      case Release(i) =>
        match phase
        case Refusing(why) => State(s.permits + 1, s.perIp, Move(s.attempts, i, Refused(why)))
        case Uncounted => State(s.permits + 1, s.perIp, Move(s.attempts, i, Done))
        case _ => s
  }

  function Run(events: seq<Event>): State {
    if events == [] then IDLE else Step(Run(events[..|events| - 1]), events[|events| - 1])
  }

  // ---- Counting ----

  predicate HoldsPermit(phase: Phase) {
    phase.Permitted? || phase.Guarded? || phase.Refusing? || phase.Uncounted?
  }

  function Holders(attempts: seq<Attempt>): nat {
    if attempts == [] then 0
    else Holders(attempts[..|attempts| - 1]) + if HoldsPermit(attempts[|attempts| - 1].phase) then 1 else 0
  }

  predicate Guards(a: Attempt, ip: IpAddr) {
    a.phase.Guarded? && a.ip == ip
  }

  /** The live guards of an address. */
  function GuardsOf(attempts: seq<Attempt>, ip: IpAddr): nat {
    if attempts == [] then 0
    else GuardsOf(attempts[..|attempts| - 1], ip) + if Guards(attempts[|attempts| - 1], ip) then 1 else 0
  }

  /** All live guards. */
  function LiveGuards(attempts: seq<Attempt>): nat {
    if attempts == [] then 0
    else LiveGuards(attempts[..|attempts| - 1]) + if attempts[|attempts| - 1].phase.Guarded? then 1 else 0
  }

  lemma {:induction false} CountsAfterMove(attempts: seq<Attempt>, i: nat, phase: Phase)
    requires i < |attempts|
    ensures var more, a, b := Move(attempts, i, phase), attempts[i], attempts[i].(phase := phase);
            && Holders(more) - (if HoldsPermit(b.phase) then 1 else 0) ==
               Holders(attempts) - (if HoldsPermit(a.phase) then 1 else 0)
            && forall ip :: GuardsOf(more, ip) - (if Guards(b, ip) then 1 else 0) ==
                            GuardsOf(attempts, ip) - (if Guards(a, ip) then 1 else 0)
  {
    var n := |attempts| - 1;
    var more := Move(attempts, i, phase);
    if i < n {
      assert more[..n] == Move(attempts[..n], i, phase);
      CountsAfterMove(attempts[..n], i, phase);
    } else {
      assert more[..n] == attempts[..n];
    }
  }

  lemma CountsAfterArrival(attempts: seq<Attempt>, a: Attempt)
    ensures Holders(attempts + [a]) == Holders(attempts) + if HoldsPermit(a.phase) then 1 else 0
    ensures forall ip :: GuardsOf(attempts + [a], ip) == GuardsOf(attempts, ip) + if Guards(a, ip) then 1 else 0
  {
    assert (attempts + [a])[..|attempts|] == attempts;
  }

  lemma {:induction false} GuardsHoldPermits(attempts: seq<Attempt>)
    ensures LiveGuards(attempts) <= Holders(attempts)
  {
    if attempts != [] {
      GuardsHoldPermits(attempts[..|attempts| - 1]);
    }
  }

  /** Distinct addresses with live guards are no more than the guards. */
  lemma {:induction false} AddressesWithGuards(attempts: seq<Attempt>, ips: set<IpAddr>)
    requires forall ip :: ip in ips ==> GuardsOf(attempts, ip) > 0
    ensures |ips| <= LiveGuards(attempts)
  {
    if attempts == [] {
      assert forall ip :: GuardsOf(attempts, ip) == 0;
      assert ips == {};
    } else {
      var before, last := attempts[..|attempts| - 1], attempts[|attempts| - 1];
      if last.phase.Guarded? {
        AddressesWithGuards(before, ips - {last.ip});
        assert ips <= (ips - {last.ip}) + {last.ip};
      } else {
        AddressesWithGuards(before, ips);
      }
    }
  }

  // ---- What every run keeps ----

  /** Every permit is free or held, and the map counts exactly the live guards, one or two an address. */
  ghost predicate Balanced(s: State) {
    && s.permits + Holders(s.attempts) == PERMITS
    && (forall ip :: CountOf(s.perIp, ip) == GuardsOf(s.attempts, ip))
    && (forall ip :: ip in s.perIp ==> 1 <= s.perIp[ip] <= PER_IP)
  }

  lemma MapIsSmall(s: State)
    requires Balanced(s)
    ensures |s.perIp| <= LiveGuards(s.attempts) <= PERMITS
  {
    AddressesWithGuards(s.attempts, s.perIp.Keys);
    GuardsHoldPermits(s.attempts);
  }

  lemma StepBalances(s: State, e: Event)
    requires Balanced(s)
    ensures Balanced(Step(s, e))
  {
    hide Holders, GuardsOf, LiveGuards, Canonical;
    if e.Arrive? {
      CountsAfterArrival(s.attempts, Attempt(Canonical(e.from), if s.permits == 0 then Refused(NoPermit) else Permitted));
    } else if e.i < |s.attempts| && Step(s, e) != s {
      CountsAfterMove(s.attempts, e.i, Step(s, e).attempts[e.i].phase);
    }
  }

  lemma {:induction false} RunBalances(events: seq<Event>)
    ensures Balanced(Run(events))
  {
    hide Step, Balanced;
    if events == [] {
      IdleIsBalanced();
    } else {
      RunBalances(events[..|events| - 1]);
      StepBalances(Run(events[..|events| - 1]), events[|events| - 1]);
    }
  }

  lemma IdleIsBalanced()
    ensures Balanced(IDLE)
  {
  }

  /**
   * In every interleaving: the count of an address is the number of its live guards, one or two while it
   * is in the map; all live guards together are at most four, and so are the addresses in the map.
   */
  lemma LimitsHold(events: seq<Event>, ip: IpAddr)
    ensures var s := Run(events);
            && CountOf(s.perIp, ip) == GuardsOf(s.attempts, ip)
            && (ip in s.perIp <==> GuardsOf(s.attempts, ip) > 0)
            && GuardsOf(s.attempts, ip) <= 2
            && |s.perIp| <= LiveGuards(s.attempts) <= 4
  {
    hide Run, GuardsOf, LiveGuards, Holders;
    RunBalances(events);
    MapIsSmall(Run(events));
  }

  /** A newcomer gets a permit exactly while fewer than four attempts hold one. */
  lemma ArrivalIsPermittedIff(events: seq<Event>, ip: IpAddr)
    ensures var s := Run(events);
            |Step(s, Arrive(ip)).attempts| == |s.attempts| + 1 &&
            (Step(s, Arrive(ip)).attempts[|s.attempts|].phase.Permitted? <==> Holders(s.attempts) < 4)
  {
    hide Run;
    RunBalances(events);
  }

  /** A permitted attempt is admitted exactly when its address has fewer than two live guards. */
  lemma CheckAdmitsIff(events: seq<Event>, i: nat)
    requires i < |Run(events).attempts| && Run(events).attempts[i].phase.Permitted?
    ensures var s, t := Run(events), Step(Run(events), Check(i));
            && (t.attempts[i].phase.Guarded? <==> GuardsOf(s.attempts, s.attempts[i].ip) < 2)
            && (!t.attempts[i].phase.Guarded? ==> t.attempts[i].phase == Refusing(IpLimit))
  {
    hide Run, GuardsOf, LiveGuards, Holders;
    RunBalances(events);
    MapIsSmall(Run(events));
  }

  /** No attempt is ever refused because the map is full. */
  lemma {:induction false} MapIsNeverFull(events: seq<Event>)
    ensures forall a :: a in Run(events).attempts ==> a.phase != Refusing(MapFull) && a.phase != Refused(MapFull)
  {
    if events != [] {
      var before := Run(events[..|events| - 1]);
      MapIsNeverFull(events[..|events| - 1]);
      RunBalances(events[..|events| - 1]);
      MapIsSmall(before);
      assert forall i :: 0 <= i < |before.attempts| ==> before.attempts[i] in before.attempts;
    }
  }

  lemma {:induction false} NoneHolds(attempts: seq<Attempt>)
    requires forall a :: a in attempts ==> !HoldsPermit(a.phase)
    ensures Holders(attempts) == 0 && forall ip :: GuardsOf(attempts, ip) == 0
  {
    if attempts != [] {
      NoneHolds(attempts[..|attempts| - 1]);
    }
  }

  /** Once every attempt was refused or is done, the map is empty and all permits are free. */
  lemma NothingIsLeftBehind(events: seq<Event>)
    requires forall a :: a in Run(events).attempts ==> a.phase.Refused? || a.phase.Done?
    ensures Run(events).perIp == map[] && Run(events).permits == 4
  {
    hide Run, GuardsOf, Holders;
    RunBalances(events);
    NoneHolds(Run(events).attempts);
    var s := Run(events);
    if ip :| ip in s.perIp {
      assert CountOf(s.perIp, ip) == GuardsOf(s.attempts, ip);
      assert false;
    }
  }

  // ---- One attempt ----

  lemma RunAppend(events: seq<Event>, e: Event)
    ensures Run(events + [e]) == Step(Run(events), e)
  {
    assert (events + [e])[..|events|] == events;
  }

  predicate Concerns(e: Event, me: nat) {
    !e.Arrive? && e.i == me
  }

  lemma OthersLeaveMe(s: State, e: Event, me: nat)
    requires me < |s.attempts| && !Concerns(e, me)
    ensures me < |Step(s, e).attempts| && Step(s, e).attempts[me] == s.attempts[me]
  {
  }

  class Engine {
    var permits: nat
    var perIp: map<IpAddr, nat>
    var attempts: seq<Attempt>
    ghost var events: seq<Event>

    /** Semaphore, map and attempts are where the steps taken so far lead. */
    ghost predicate Valid()
      reads this
    {
      State(permits, perIp, attempts) == Run(events)
    }

    constructor ()
      ensures Valid() && events == []
    {
      permits, perIp, attempts, events := PERMITS, map[], [], [];
    }

    method TryAcquire(from: IpAddr) returns (me: nat, ok: bool)
      requires Valid()
      modifies this
      ensures Valid() && events == old(events) + [Arrive(from)] && me < |attempts|
      ensures attempts[me] == Attempt(Canonical(from), if ok then Permitted else Refused(NoPermit))
      ensures ok <==> Holders(old(attempts)) < PERMITS
    {
      hide Run;
      RunAppend(events, Arrive(from));
      RunBalances(events);
      me, ok := |attempts|, permits > 0;
      if ok {
        permits := permits - 1;
        attempts := attempts + [Attempt(Canonical(from), Permitted)];
      } else {
        attempts := attempts + [Attempt(Canonical(from), Refused(NoPermit))];
      }
      events := events + [Arrive(from)];
    }

    /** The locked section that counts a handshake, unless its address has two already. */
    method CountHandshake(me: nat) returns (admitted: bool)
      requires Valid() && me < |attempts| && attempts[me].phase.Permitted?
      modifies this
      ensures Valid() && me < |attempts| && attempts[me].ip == old(attempts)[me].ip
      ensures attempts[me].phase == if admitted then Guarded else Refusing(IpLimit)
      ensures admitted <==> GuardsOf(old(attempts), attempts[me].ip) < PER_IP
      ensures events == old(events) + [Check(me)]
    {
      hide Run, GuardsOf;
      RunAppend(events, Check(me));
      ghost var before := events;
      var ip := attempts[me].ip;
      var currentCount := CountOf(perIp, ip);
      if currentCount >= PER_IP {
        attempts := Move(attempts, me, Refusing(IpLimit));
      } else if |perIp| >= TRACKED && currentCount == 0 {
        attempts := Move(attempts, me, Refusing(MapFull));
      } else {
        perIp := perIp[ip := currentCount + 1];
        attempts := Move(attempts, me, Guarded);
      }
      events := events + [Check(me)];
      CheckAdmitsIff(before, me);
      admitted := attempts[me].phase.Guarded?;
    }

    /** The guard's drop: the count first, then the permit. */
    method DropGuard(me: nat)
      requires Valid() && me < |attempts| && attempts[me].phase.Guarded?
      modifies this
      ensures Valid() && me < |attempts| && attempts[me] == old(attempts)[me].(phase := Done)
      ensures |old(events)| <= |events| && events[..|old(events)|] == old(events)
    {
      hide Run;
      RunAppend(events, Uncount(me));
      var ip := attempts[me].ip;
      if ip in perIp {
        if perIp[ip] > 1 {
          perIp := perIp[ip := perIp[ip] - 1];
        } else {
          perIp := perIp - {ip};
        }
      }
      attempts := Move(attempts, me, Uncounted);
      events := events + [Uncount(me)];
      OtherTasks(me);
      Free(me, Done);
    }

    method Free(me: nat, final: Phase)
      requires Valid() && me < |attempts|
      requires (attempts[me].phase.Uncounted? && final == Done) ||
               (attempts[me].phase.Refusing? && final == Refused(attempts[me].phase.why))
      modifies this
      ensures Valid() && me < |attempts| && attempts[me] == old(attempts)[me].(phase := final)
      ensures |old(events)| <= |events| && events[..|old(events)|] == old(events)
    {
      hide Run;
      RunAppend(events, Release(me));
      permits := permits + 1;
      attempts := Move(attempts, me, final);
      events := events + [Release(me)];
    }

    method OtherTasks(me: nat)
      requires Valid() && me < |attempts|
      modifies this
      ensures Valid() && me < |attempts| && attempts[me] == old(attempts)[me]
      ensures |old(events)| <= |events| && events[..|old(events)|] == old(events)
    {
      hide Run, Step;
      var left: nat := *;
      while left > 0
        invariant Valid() && me < |attempts| && attempts[me] == old(attempts)[me]
        invariant |old(events)| <= |events| && events[..|old(events)|] == old(events)
      {
        var e: Event := *;
        if !Concerns(e, me) {
          RunAppend(events, e);
          OthersLeaveMe(State(permits, perIp, attempts), e, me);
          var s := Step(State(permits, perIp, attempts), e);
          permits, perIp, attempts, events := s.permits, s.perIp, s.attempts, events + [e];
        }
        left := left - 1;
      }
    }

    /**
     * One handshake attempt, with every other one running between its steps. It is refused for a permit
     * exactly if four attempts held one when it came, and for its address exactly if that had two live
     * guards at the check, which came after event `checked`.
     */
    method AcceptBounded(from: IpAddr) returns (refusal: Phase, ghost me: nat, ghost checked: nat)
      requires Valid()
      modifies this
      ensures Valid() && me < |attempts| && attempts[me] == Attempt(Canonical(from), refusal)
      ensures refusal in {Refused(NoPermit), Refused(IpLimit), Done}
      ensures refusal == Refused(NoPermit) <==> Holders(old(attempts)) >= 4
      ensures |old(events)| <= checked <= |events|
      ensures refusal != Refused(NoPermit) ==>
        (refusal == Refused(IpLimit) <==> GuardsOf(Run(events[..checked]).attempts, Canonical(from)) >= 2)
    {
      hide Run, Step, GuardsOf, Holders;
      var id, ok := TryAcquire(from);
      me, checked := id, |events|;
      if !ok {
        return Refused(NoPermit), id, checked;
      }
      OtherTasks(id);
      ghost var log := events;
      checked := |log|;
      var admitted := CountHandshake(id);
      assert events[..checked] == log;
      OtherTasks(id);
      assert events[..checked] == log;
      if !admitted {
        Free(id, Refused(IpLimit));
        assert events[..checked] == log;
        return Refused(IpLimit), id, checked;
      }
      DropGuard(id);
      assert events[..checked] == log;
      refusal := Done;
    }
  }
}
