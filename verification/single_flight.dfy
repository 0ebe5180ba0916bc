/**
 * Single flight: concurrent lookups of one key share the first caller's result. Any number of calls,
 * interleaved at their await points and locks, where any call may be cancelled at any of them.
 */
module SingleFlights {
  import opened Options

  type Key = string

  /** The kind `Other` of I/O errors; what else there is does not matter here. */
  const OTHER := 0

  datatype IoError = IoError(kind: nat, text: string)

  /** A lookup's addresses and time to live, or its error. */
  type Outcome = Result<(seq<nat>, nat), IoError>

  const CLOSED: Outcome := Err(IoError(OTHER, "In-flight DNS request coalescing channel closed"))

  /** What followers get of the leader's result: an error keeps its text, not its kind. */
  function Shared(r: Outcome): Outcome {
    if r.Ok? then r else Err(IoError(OTHER, r.error.text))
  }

  /** The watch channel of one flight, and whether its sender is gone. */
  datatype Channel = Channel(value: Option<Outcome>, closed: bool)

  /** A leader looks up, removes its key, sends and returns; a follower waits and returns. */
  datatype Phase =
    | LookingUp
    | LookedUp(result: Outcome)
    | Removed(result: Outcome)
    | Waiting
    | Returned(outcome: Outcome)
    | Cancelled(removed: bool)

  /** A call: its key, and the call whose flight it is in, itself for a leader. */
  datatype Call = Call(key: Key, leader: nat, phase: Phase)

  datatype State = State(inflight: map<Key, nat>, channels: map<nat, Channel>, calls: seq<Call>)

  datatype Event =
    | Enter(key: Key)
    | LookupDone(call: nat, result: Outcome)
    | Remove(call: nat)
    | Send(call: nat)
    | Observe(call: nat)
    | Cancel(call: nat)

  const INITIAL := State(map[], map[], [])

  function Move(s: State, i: nat, phase: Phase): seq<Call>
    requires i < |s.calls|
  {
    s.calls[i := s.calls[i].(phase := phase)]
  }

  function Join(s: State, key: Key): State {
    var me := |s.calls|;
    if key in s.inflight then s.(calls := s.calls + [Call(key, s.inflight[key], Waiting)])
    else State(s.inflight[key := me], s.channels[me := Channel(None, false)], s.calls + [Call(key, me, LookingUp)])
  }

  function Look(s: State, i: nat): State
    requires i < |s.calls| && s.calls[i].leader in s.channels
  {
    var channel := s.channels[s.calls[i].leader];
    if channel.value.Some? then s.(calls := Move(s, i, Returned(channel.value.value)))
    else if channel.closed then s.(calls := Move(s, i, Returned(CLOSED)))
    else s
  }

  function Drop(s: State, i: nat): State
    requires i < |s.calls|
  {
    match s.calls[i].phase
    case Waiting => s.(calls := Move(s, i, Cancelled(true)))
    case Returned(_) => s
    case Cancelled(_) => s
    case Removed(_) => State(s.inflight, s.channels[i := Channel(None, true)], Move(s, i, Cancelled(true)))
    case _ => State(s.inflight, s.channels[i := Channel(None, true)], Move(s, i, Cancelled(false)))
  }

  /** One atomic step of one call; a step the call is not ready for changes nothing. */
  function Step(s: State, e: Event): State {
    if e.Enter? then Join(s, e.key)
    else if e.call >= |s.calls| then s
    else
      var i, phase := e.call, s.calls[e.call].phase;
      match e
      case LookupDone(_, result) => if phase.LookingUp? then s.(calls := Move(s, i, LookedUp(result))) else s
      case Remove(_) =>
        if phase.LookedUp? then State(s.inflight - {s.calls[i].key}, s.channels, Move(s, i, Removed(phase.result)))
        else s
      case Send(_) =>
        if phase.Removed? then
          State(s.inflight, s.channels[i := Channel(Some(Shared(phase.result)), true)],
                Move(s, i, Returned(phase.result)))
        else s
      case Observe(_) => if phase.Waiting? && s.calls[i].leader in s.channels then Look(s, i) else s
      case Cancel(_) => Drop(s, i)
  }

  function Run(events: seq<Event>): State {
    if events == [] then INITIAL else Step(Run(events[..|events| - 1]), events[|events| - 1])
  }

  predicate Leads(s: State, i: int) {
    0 <= i < |s.calls| && s.calls[i].leader == i
  }

  /** A leader that has not removed its key: still at work, or cancelled before it could. */
  predicate Holds(s: State, i: int) {
    && Leads(s, i)
    && (s.calls[i].phase.LookingUp? || s.calls[i].phase.LookedUp? || s.calls[i].phase == Cancelled(false))
  }

  predicate ChannelOf(phase: Phase, channel: Channel) {
    match phase
    case Returned(result) => channel == Channel(Some(Shared(result)), true)
    case Cancelled(_) => channel == Channel(None, true)
    case Waiting => false
    case _ => channel == Channel(None, false)
  }

  /** What a follower returned is what its leader made of the flight. */
  predicate Follows(follower: Phase, leader: Phase) {
    match follower
    case Waiting => true
    case Returned(outcome) =>
      (leader.Returned? && outcome == Shared(leader.outcome)) || (leader.Cancelled? && outcome == CLOSED)
    case Cancelled(removed) => removed
    case _ => false
  }

  predicate GoodCall(s: State, i: nat)
    requires i < |s.calls|
  {
    var c := s.calls[i];
    && Leads(s, c.leader) && s.calls[c.leader].key == c.key && c.leader <= i && c.leader in s.channels
    && (c.leader == i ==> ChannelOf(c.phase, s.channels[i]))
    && (c.leader != i ==> Follows(c.phase, s.calls[c.leader].phase))
  }

  ghost predicate Consistent(s: State) {
    && (forall i :: 0 <= i < |s.calls| ==> GoodCall(s, i))
    && (forall k :: k in s.inflight ==> Holds(s, s.inflight[k]) && s.calls[s.inflight[k]].key == k)
    && (forall i :: Holds(s, i) ==> s.calls[i].key in s.inflight && s.inflight[s.calls[i].key] == i)
  }

  lemma JoinIsConsistent(s: State, key: Key)
    requires Consistent(s)
    ensures Consistent(Join(s, key))
  {
    var t := Join(s, key);
    if key in s.inflight {
      assert GoodCall(s, s.inflight[key]);
    }
    forall i | 0 <= i < |t.calls| ensures GoodCall(t, i) {
      if i < |s.calls| {
        assert GoodCall(s, i);
      }
    }
    assert forall i :: Leads(s, i) ==> Leads(t, i);
    forall i | Holds(t, i) ensures t.calls[i].key in t.inflight && t.inflight[t.calls[i].key] == i {
      if i < |s.calls| {
        assert Holds(s, i);
      }
    }
  }

  /** One call's phase moves, with what that does to its flight. */
  predicate Moves(s: State, t: State, i: nat) {
    && i < |s.calls| == |t.calls| && s.calls[i].leader < |s.calls|
    && t.calls == s.calls[i := t.calls[i]]
    && t.calls[i].leader == s.calls[i].leader && t.calls[i].key == s.calls[i].key
    && t.channels == (if Leads(s, i) && i in t.channels then s.channels[i := t.channels[i]] else s.channels)
    && t.inflight == (if Holds(s, i) && !Holds(t, i) then s.inflight - {s.calls[i].key} else s.inflight)
  }

  lemma MoveIsConsistent(s: State, t: State, i: nat)
    requires Consistent(s) && Moves(s, t, i)
    requires Holds(t, i) ==> Holds(s, i)
    requires Leads(s, i) ==> i in t.channels && ChannelOf(t.calls[i].phase, t.channels[i])
    requires !Leads(s, i) ==> Follows(t.calls[i].phase, s.calls[s.calls[i].leader].phase)
    requires Leads(s, i) && (s.calls[i].phase.Returned? || s.calls[i].phase.Cancelled?) ==> t.calls[i] == s.calls[i]
    ensures Consistent(t)
  {
    assert forall j :: 0 <= j < |s.calls| ==> GoodCall(s, j);
    assert forall j :: Leads(s, j) <==> Leads(t, j);
    assert forall j :: j != i ==> (Holds(s, j) <==> Holds(t, j));
    forall j | 0 <= j < |t.calls| ensures GoodCall(t, j) {
      assert GoodCall(s, j);
    }
    forall k | k in t.inflight ensures Holds(t, t.inflight[k]) && t.calls[t.inflight[k]].key == k {
      assert Holds(s, s.inflight[k]);
    }
    forall j | Holds(t, j) ensures t.calls[j].key in t.inflight && t.inflight[t.calls[j].key] == j {
      assert Holds(s, j);
    }
  }

  lemma StepIsConsistent(s: State, e: Event)
    requires Consistent(s)
    ensures Consistent(Step(s, e))
  {
    hide Consistent;
    if e.Enter? {
      JoinIsConsistent(s, e.key);
    } else if e.call < |s.calls| && Step(s, e) != s {
      CallIsGood(s, e.call);
      CallIsGood(s, s.calls[e.call].leader);
      MoveIsConsistent(s, Step(s, e), e.call);
    }
  }

  lemma CallIsGood(s: State, i: nat)
    requires Consistent(s) && i < |s.calls|
    ensures GoodCall(s, i)
  {
  }

  lemma {:induction false} RunIsConsistent(events: seq<Event>)
    ensures Consistent(Run(events))
  {
    hide Step;
    if events != [] {
      RunIsConsistent(events[..|events| - 1]);
      StepIsConsistent(Run(events[..|events| - 1]), events[|events| - 1]);
    }
  }

  // ---- What holds on every run ----

  /** At most one call at a time looks a key up. */
  lemma AtMostOneLookup(events: seq<Event>, i: int, j: int)
    requires var s := Run(events);
             && Holds(s, i) && Holds(s, j)
             && s.calls[i].phase.LookingUp? && s.calls[j].phase.LookingUp? && s.calls[i].key == s.calls[j].key
    ensures i == j
  {
    hide Run;
    RunIsConsistent(events);
  }

  /** A key is in the map exactly while the leader that put it there has not removed it. */
  lemma KeyIsInMapWhileHeld(events: seq<Event>, key: Key)
    ensures var s := Run(events);
            key in s.inflight <==> exists i :: Holds(s, i) && s.calls[i].key == key
  {
    hide Run;
    RunIsConsistent(events);
  }

  /**
   * A follower that returned got the addresses of the leader it joined, or its error's text under the kind
   * `Other`; if that
   * leader was cancelled, it got the channel's error.
   */
  lemma FollowersGetTheirLeadersResult(events: seq<Event>, i: nat)
    requires var s := Run(events); i < |s.calls| && s.calls[i].leader != i && s.calls[i].phase.Returned?
    ensures var s := Run(events);
            && Leads(s, s.calls[i].leader) && s.calls[s.calls[i].leader].key == s.calls[i].key
            && var leader := s.calls[s.calls[i].leader].phase;
            && var mine := s.calls[i].phase.outcome;
            && (leader.Returned? && leader.outcome.Ok? ==> mine == leader.outcome)
            && (leader.Returned? && leader.outcome.Err? ==> mine.Err? && mine.error == IoError(0, leader.outcome.error.text))
            && (!leader.Returned? ==>
                  && leader.Cancelled?
                  && mine == Err(IoError(0, "In-flight DNS request coalescing channel closed")))
  {
    hide Run;
    RunIsConsistent(events);
    CallIsGood(Run(events), i);
  }

  /** No follower waits for ever: once its leader has returned or was cancelled, looking is enough. */
  lemma FollowerCanReturn(events: seq<Event>, i: nat)
    requires var s := Run(events);
             && i < |s.calls| && s.calls[i].phase.Waiting? && s.calls[i].leader < |s.calls|
             && (s.calls[s.calls[i].leader].phase.Returned? || s.calls[s.calls[i].leader].phase.Cancelled?)
    ensures Step(Run(events), Observe(i)).calls[i].phase.Returned?
  {
    hide Run;
    RunIsConsistent(events);
    CallIsGood(Run(events), i);
    CallIsGood(Run(events), Run(events).calls[i].leader);
  }

  /**
   * Once every call has returned or was cancelled, the map is empty if and only if no leader was
   * cancelled before it removed its key.
   */
  lemma NothingIsLeftBehind(events: seq<Event>)
    requires forall c :: c in Run(events).calls ==> c.phase.Returned? || c.phase.Cancelled?
    ensures var s := Run(events);
            s.inflight == map[] <==> forall i :: Leads(s, i) ==> s.calls[i].phase != Cancelled(false)
  {
    hide Run;
    RunIsConsistent(events);
    var s := Run(events);
    if s.inflight != map[] {
      var k :| k in s.inflight;
      assert Holds(s, s.inflight[k]) && s.calls[s.inflight[k]] in s.calls;
    }
    if i :| Leads(s, i) && s.calls[i].phase == Cancelled(false) {
      assert Holds(s, i);
    }
  }

  /** A leader cancelled before it removed its key leaves that key in the map for ever. */
  lemma {:induction false} CancelledLeaderBlocksItsKey(events: seq<Event>, more: seq<Event>, i: nat)
    requires var s := Run(events); i < |s.calls| && Leads(s, i) && s.calls[i].phase == Cancelled(false)
    ensures var s, t := Run(events), Run(events + more);
            && |s.calls| <= |t.calls| && t.calls[i] == s.calls[i]
            && s.calls[i].key in t.inflight && t.inflight[s.calls[i].key] == i
            && forall j :: |s.calls| <= j < |t.calls| && t.calls[j].key == s.calls[i].key ==>
                 && t.calls[j].leader == i
                 && (t.calls[j].phase.Returned? ==> t.calls[j].phase.outcome == CLOSED)
  {
    hide Run, Step;
    var s := Run(events);
    RunIsConsistent(events + more);
    if more == [] {
      assert events + more == events;
      assert Holds(s, i);
    } else {
      var before := more[..|more| - 1];
      assert events + more == events + before + [more[|more| - 1]];
      CancelledLeaderBlocksItsKey(events, before, i);
      RunAppend(events + before, more[|more| - 1]);
      StepGrows(Run(events + before), more[|more| - 1]);
      var t := Run(events + more);
      assert Holds(t, i);
      forall j | |s.calls| <= j < |t.calls| && t.calls[j].key == s.calls[i].key
        ensures t.calls[j].leader == i && (t.calls[j].phase.Returned? ==> t.calls[j].phase.outcome == CLOSED)
      {
        CallIsGood(t, j);
      }
    }
  }

  /** A leader does come to that: it is dropped while it looks up. */
  lemma ALeaderCanBeCancelled(key: Key)
    ensures var s := Run([Enter(key), Cancel(0)]);
            && Leads(s, 0) && s.calls[0] == Call(key, 0, Cancelled(false)) && s.inflight == map[key := 0]
  {
    RunAppend([], Enter(key));
    RunAppend([Enter(key)], Cancel(0));
    assert [] + [Enter(key)] == [Enter(key)];
    assert [Enter(key)] + [Cancel(0)] == [Enter(key), Cancel(0)];
  }

  lemma RunAppend(events: seq<Event>, e: Event)
    ensures Run(events + [e]) == Step(Run(events), e)
  {
    assert (events + [e])[..|events|] == events;
  }

  /** The result a leader holds or has returned. */
  function ResultOf(phase: Phase): Option<Outcome> {
    match phase
    case LookedUp(result) => Some(result)
    case Removed(result) => Some(result)
    case Returned(outcome) => Some(outcome)
    case _ => None
  }

  lemma StepGrows(s: State, e: Event)
    ensures var t := Step(s, e);
            && |s.calls| <= |t.calls|
            && (forall j :: 0 <= j < |s.calls| ==>
                  && t.calls[j].key == s.calls[j].key && t.calls[j].leader == s.calls[j].leader
                  && (s.calls[j].phase.Cancelled? ==> t.calls[j] == s.calls[j])
                  && (forall r :: ResultOf(t.calls[j].phase) == Some(r) && !s.calls[j].phase.Waiting? ==>
                        ResultOf(s.calls[j].phase) == Some(r) || e == LookupDone(j, r)))
            && forall j :: |s.calls| <= j < |t.calls| ==>
                 && ResultOf(t.calls[j].phase) == None
                 && (t.calls[j].key in s.inflight ==> t.calls[j].leader == s.inflight[t.calls[j].key])
  {
  }

  /** What a lookup said is what its leader returns. */
  lemma {:induction false} LeaderReturnsItsLookup(events: seq<Event>, i: nat, result: Outcome)
    requires var s := Run(events); Leads(s, i) && ResultOf(s.calls[i].phase) == Some(result)
    ensures LookupDone(i, result) in events
  {
    var last, before := events[|events| - 1], Run(events[..|events| - 1]);
    assert events == events[..|events| - 1] + [last];
    RunIsConsistent(events[..|events| - 1]);
    StepGrows(before, last);
    if i < |before.calls| {
      CallIsGood(before, i);
      if last != LookupDone(i, result) {
        LeaderReturnsItsLookup(events[..|events| - 1], i, result);
      }
    }
  }

  // ---- The calls themselves ----

  predicate Concerns(e: Event, me: nat) {
    !e.Enter? && e.call == me
  }

  lemma OthersLeaveMe(s: State, e: Event, me: nat)
    requires me < |s.calls| && !Concerns(e, me)
    ensures me < |Step(s, e).calls| && Step(s, e).calls[me] == s.calls[me]
  {
  }

  /** Where a follower's outcome comes from. */
  lemma FollowersOutcome(events: seq<Event>, me: nat)
    requires var s := Run(events); me < |s.calls| && s.calls[me].leader != me && s.calls[me].phase.Returned?
    ensures var c := Run(events).calls[me];
            c.phase.outcome == CLOSED ||
            exists result :: LookupDone(c.leader, result) in events && c.phase.outcome == Shared(result)
  {
    hide Run;
    FollowersGetTheirLeadersResult(events, me);
    var leader := Run(events).calls[me].leader;
    var phase := Run(events).calls[leader].phase;
    if phase.Returned? {
      LeaderReturnsItsLookup(events, leader, phase.outcome);
    }
  }

  class SingleFlight {
    var inflight: map<Key, nat>
    var channels: map<nat, Channel>
    var calls: seq<Call>
    ghost var events: seq<Event>

    /** The shared state and every call's place are what the steps taken so far lead to. */
    ghost predicate Valid()
      reads this
    {
      State(inflight, channels, calls) == Run(events)
    }

    constructor ()
      ensures Valid() && events == []
    {
      inflight, channels, calls, events := map[], map[], [], [];
    }

    /** The locked section every call starts with: join the flight of the key, or start one. */
    method Join(key: Key) returns (me: nat, leader: nat)
      requires Valid()
      modifies this
      ensures Valid() && events == old(events) + [Enter(key)]
      ensures me < |calls| && calls[me] == Call(key, leader, if leader == me then LookingUp else Waiting)
    {
      hide Run;
      RunAppend(events, Enter(key));
      RunIsConsistent(events);
      me := |calls|;
      if key in inflight {
        leader := inflight[key];
        calls := calls + [Call(key, leader, Waiting)];
      } else {
        leader := me;
        inflight := inflight[key := me];
        channels := channels[me := Channel(None, false)];
        calls := calls + [Call(key, me, LookingUp)];
      }
      events := events + [Enter(key)];
    }

    method Take(e: Event)
      requires Valid()
      modifies this
      ensures Valid() && events == old(events) + [e]
      ensures State(inflight, channels, calls) == Step(old(State(inflight, channels, calls)), e)
    {
      hide Run, Step;
      RunAppend(events, e);
      var s := Step(State(inflight, channels, calls), e);
      inflight, channels, calls, events := s.inflight, s.channels, s.calls, events + [e];
    }

    /** Whatever the other calls do while this one waits. */
    method OtherTasks(me: nat)
      requires Valid() && me < |calls|
      modifies this
      ensures Valid() && |old(events)| <= |events| && old(events) == events[..|old(events)|]
      ensures me < |calls| && calls[me] == old(calls[me])
    {
      hide Run, Step;
      var left: nat := *;
      while left > 0
        invariant Valid() && |old(events)| <= |events| && old(events) == events[..|old(events)|]
        invariant me < |calls| && calls[me] == old(calls[me])
      {
        var e: Event := *;
        if !Concerns(e, me) {
          RunIsConsistent(events);
          OthersLeaveMe(State(inflight, channels, calls), e, me);
          Take(e);
        }
        left := left - 1;
      }
    }

    /** A follower's loop: take the shared value once it is there, or the error of a closed channel. */
    method Follow(me: nat) returns (r: Option<Outcome>)
      requires Valid() && me < |calls| && calls[me].phase.Waiting?
      modifies this
      ensures Valid() && |old(events)| <= |events| && old(events) == events[..|old(events)|]
      ensures me < |calls| && calls[me].key == old(calls[me].key) && calls[me].leader == old(calls[me].leader)
      ensures r.Some? ==> calls[me].phase == Returned(r.value)
      ensures r.None? ==> calls[me].phase.Cancelled?
    {
      hide Run;
      var patience: nat := *;
      while true
        invariant Valid() && |old(events)| <= |events| && old(events) == events[..|old(events)|]
        invariant me < |calls| && calls[me] == old(calls[me])
        decreases patience
      {
        Take(Observe(me));
        if calls[me].phase.Returned? {
          return Some(calls[me].phase.outcome);
        }
        if patience == 0 {
          Take(Cancel(me));
          return None;
        }
        OtherTasks(me);
        patience := patience - 1;
      }
    }

    /**
     * One call from start to end, with every other call running between its steps. It returns its own
     * lookup's result if it led the flight, and otherwise what its leader's lookup said or, had the leader
     * been cancelled, the channel's error. It may also be dropped while it waits.
     */
    method Execute(key: Key) returns (r: Option<Outcome>, ghost me: nat)
      requires Valid()
      modifies this
      ensures Valid() && me < |calls| && calls[me].key == key
      ensures r.Some? ==> calls[me].phase == Returned(r.value)
      ensures r.None? ==> calls[me].phase.Cancelled?
      ensures r.Some? && calls[me].leader == me ==> LookupDone(me, r.value) in events
      ensures r.Some? && calls[me].leader != me ==>
        r.value == CLOSED || exists result :: LookupDone(calls[me].leader, result) in events && r.value == Shared(result)
    {
      hide Run;
      var id, leader := Join(key);
      me := id;
      if leader != id {
        r := Follow(id);
        if r.Some? {
          FollowersOutcome(events, id);
        }
        return;
      }
      OtherTasks(id);
      var dropped: bool := *;
      if dropped {
        Take(Cancel(id));
        return None, id;
      }
      var result: Outcome := *;
      Take(LookupDone(id, result));
      OtherTasks(id);
      Take(Remove(id));
      OtherTasks(id);
      Take(Send(id));
      r := Some(result);
      LeaderReturnsItsLookup(events, id, result);
    }
  }
}
