/**
 * The receiving side of a multiplexed connection: the table of active streams, which the reader fills,
 * streams are leased from and dropped out of, and the byte stream each virtual stream reads.
 */
module MuxStreams {
  import opened Bytes
  import opened Sockets
  import opened MuxFrames

  const INBOX := 128
  const IDS := 0x1_0000_0000

  /**
   * A step of any task that touches the connection. Under the pool's lock a lease finds the counter below
   * the limit, takes an id and counts itself, and registers its inbox, while drops and dispatches go on
   * beside it. It then waits to send the opening frame, and only after that the stream is built; if the
   * send fails or the waiting task is dropped, the lease is abandoned. A dropped stream first leaves the
   * table and then the counter.
   */
  datatype Event =
    | Choose(maxStreams: u32)
    | Count
    | Register
    | Build(id: u32)
    | Abandon(id: u32)
    | Unregister(id: u32)
    | Uncount(id: u32)
    | Poll(id: u32, room: nat)
    | Dispatch(frame: Frame)

  /** How far the lease under the pool's lock has come. */
  datatype Stage = NoLease | Chosen | Counted(id: u32)

  /**
   * The table of inboxes, each stream's unread rest of the chunk it took last, the id counter, the stream
   * counter and the lease under the lock. The ids of leases that wait, of existing streams, of abandoned
   * leases and of streams that have left the table but not the counter are listed beside; an id counts
   * twice if two share it.
   */
  datatype State = State(
    active: map<u32, seq<bytes>>, chunks: map<u32, bytes>, nextId: u32, count: u32, lease: Stage,
    pending: multiset<u32>, live: multiset<u32>, abandoned: multiset<u32>, leaving: multiset<u32>)

  const Fresh := State(map[], map[], 1, 0, NoLease, multiset{}, multiset{}, multiset{}, multiset{})

  /** What a frame puts into its stream's inbox: a data payload, or the empty end mark. */
  function Message(f: Frame): (m: seq<bytes>)
    ensures |m| <= 1
  {
    if f.cmd == 0 then [f.payload] else if f.cmd == 2 then [[]] else []
  }

  /** `try_send`: a full inbox loses the message. */
  function Offer(inbox: seq<bytes>, m: seq<bytes>): seq<bytes> {
    if |inbox| < INBOX then inbox + m else inbox
  }

  function InboxOf(s: State, id: u32): seq<bytes> {
    if id in s.active then s.active[id] else []
  }

  function ChunkOf(s: State, id: u32): bytes {
    if id in s.chunks then s.chunks[id] else []
  }

  datatype ReadResult = Pending | Ready(data: bytes)

  /** What a poll into a buffer with `room` free bytes cuts off a chunk. */
  function Cut(chunk: bytes, room: nat): nat {
    if |chunk| < room then |chunk| else room
  }

  /** One poll: from the rest of the last chunk, else from the next message; an empty message ends the stream. */
  function PollResult(s: State, id: u32, room: nat): ReadResult {
    var chunk := ChunkOf(s, id);
    if chunk != [] then Ready(chunk[..Cut(chunk, room)])
    else if id !in s.active then Ready([])
    else if s.active[id] == [] then Pending
    else Ready(s.active[id][0][..Cut(s.active[id][0], room)])
  }

  function PollStep(s: State, id: u32, room: nat): State {
    var chunk, inbox := ChunkOf(s, id), InboxOf(s, id);
    if chunk != [] then s.(chunks := s.chunks[id := chunk[Cut(chunk, room)..]])
    else if inbox == [] then s
    else s.(active := s.active[id := inbox[1..]], chunks := s.chunks[id := inbox[0][Cut(inbox[0], room)..]])
  }

  function Step(s: State, e: Event): State {
    match e
    case Choose(maxStreams) =>
      if s.lease.NoLease? && s.count < maxStreams then s.(lease := Chosen) else s
    case Count =>
      if s.lease.Chosen? then
        s.(lease := Counted(s.nextId), nextId := (s.nextId + 1) % IDS, count := (s.count + 1) % IDS)
      else s
    case Register =>
      if s.lease.Counted? then
        s.(active := s.active[s.lease.id := []], chunks := s.chunks - {s.lease.id}, lease := NoLease,
           pending := s.pending + multiset{s.lease.id})
      else s
    case Build(id) => s.(pending := s.pending - multiset{id}, live := s.live + multiset{id})
    case Abandon(id) => s.(pending := s.pending - multiset{id}, abandoned := s.abandoned + multiset{id})
    case Unregister(id) =>
      s.(active := s.active - {id}, live := s.live - multiset{id}, leaving := s.leaving + multiset{id})
    case Uncount(id) => s.(count := (s.count - 1) % IDS, leaving := s.leaving - multiset{id})
    case Poll(id, room) => PollStep(s, id, room)
    case Dispatch(f) =>
      if f.streamId in s.active then
        s.(active := s.active[f.streamId := Offer(s.active[f.streamId], Message(f))])
      else s
  }

  function Run(s: State, events: seq<Event>): State {
    if events == [] then s
    else Step(Run(s, events[..|events| - 1]), events[|events| - 1])
  }

  // ---- Stream counting ----

  predicate Registers(s: State, e: Event, id: u32) {
    e.Register? && s.lease == Counted(id)
  }

  /** No lease in the run registers an id whose stream is still active. */
  ghost predicate FreshIds(events: seq<Event>) {
    forall i :: 0 <= i < |events| ==>
      var s := Run(Fresh, events[..i]); s.lease.Counted? && events[i].Register? ==> s.lease.id !in s.active
  }

  /** Only a lease that waits is built or abandoned, and only an existing stream is dropped, in two steps. */
  ghost predicate Owned(events: seq<Event>) {
    forall i :: 0 <= i < |events| ==> OwnedBy(Run(Fresh, events[..i]), events[i])
  }

  predicate OwnedBy(s: State, e: Event) {
    match e
    case Build(id) => id in s.pending
    case Abandon(id) => id in s.pending
    case Unregister(id) => id in s.live
    case Uncount(id) => id in s.leaving
    case _ => true
  }

  function Counts(events: seq<Event>): (n: nat)
    ensures n <= |events|
  {
    if events == [] then 0
    else Counts(events[..|events| - 1]) + if events[|events| - 1].Count? then 1 else 0
  }

  /** All ids that were registered and not unregistered. */
  function Held(s: State): multiset<u32> {
    s.pending + s.live + s.abandoned
  }

  /** What is counted beside those: a lease not yet registered, and streams no more in the table. */
  function Between(s: State): nat {
    |s.leaving| + if s.lease.Counted? then 1 else 0
  }

  ghost predicate InStep(s: State, limit: u32) {
    s.count == |Held(s)| + Between(s) && s.count <= limit && (s.lease.Chosen? ==> s.count < limit)
  }

  /** The table holds each id that is held, once. */
  ghost predicate Tabled(s: State) {
    Matching(s.active.Keys, Held(s)) && |s.active| == |Held(s)|
  }

  ghost predicate Matching(keys: set<u32>, held: multiset<u32>) {
    |keys| == |held| && forall id: u32 :: held[id] == if id in keys then 1 else 0
  }

  lemma MatchingAdd(keys: set<u32>, held: multiset<u32>, id: u32)
    requires Matching(keys, held) && id !in keys
    ensures Matching(keys + {id}, held + multiset{id})
  {
  }

  lemma MatchingRemove(keys: set<u32>, held: multiset<u32>, id: u32)
    requires Matching(keys, held) && id in held
    ensures Matching(keys - {id}, held - multiset{id})
  {
  }

  lemma HeldMoves(p: multiset<u32>, l: multiset<u32>, a: multiset<u32>, id: u32)
    ensures p + multiset{id} + l + a == p + l + a + multiset{id}
    ensures id in p ==> p - multiset{id} + (l + multiset{id}) + a == p + l + a
    ensures id in p ==> p - multiset{id} + l + (a + multiset{id}) == p + l + a
    ensures id in l ==> p + (l - multiset{id}) + a == p + l + a - multiset{id} && id in p + l + a
  {
  }

  /** How one step moves ids: a registration adds one, a drop takes one, nothing else changes what is held. */
  lemma StepHolds(s: State, e: Event)
    requires OwnedBy(s, e)
    ensures Held(Step(s, e)) ==
            if e.Register? && s.lease.Counted? then Held(s) + multiset{s.lease.id}
            else if e.Unregister? then Held(s) - multiset{e.id} else Held(s)
    ensures e.Unregister? ==> e.id in Held(s)
  {
    hide Step;
    StepLists(s, e);
    var p, l, a := s.pending, s.live, s.abandoned;
    match e {
      case Register =>
        if s.lease.Counted? {
          HeldMoves(p, l, a, s.lease.id);
        }
      case Build(id) => HeldMoves(p, l, a, id);
      case Abandon(id) => HeldMoves(p, l, a, id);
      case Unregister(id) => HeldMoves(p, l, a, id);
      case _ =>
    }
  }

  lemma StepLists(s: State, e: Event)
    ensures var t := Step(s, e);
            && t.pending == (if e.Register? && s.lease.Counted? then s.pending + multiset{s.lease.id}
                             else if e.Build? || e.Abandon? then s.pending - multiset{e.id} else s.pending)
            && t.live == (if e.Build? then s.live + multiset{e.id}
                          else if e.Unregister? then s.live - multiset{e.id} else s.live)
            && t.abandoned == (if e.Abandon? then s.abandoned + multiset{e.id} else s.abandoned)
  {
    hide PollStep, Offer, Message;
    if e.Poll? {
      PollKeeps(s, e.id, e.room);
    }
  }

  lemma PollKeeps(s: State, id: u32, room: nat)
    ensures var t := PollStep(s, id, room);
            && t == s.(active := t.active, chunks := t.chunks) && t.active.Keys == s.active.Keys
  {
  }

  /** How one step moves the counter and the lease. */
  lemma StepCounter(s: State, e: Event)
    ensures var t := Step(s, e);
            && t.count == (if e.Count? && s.lease.Chosen? then (s.count + 1) % IDS
                           else if e.Uncount? then (s.count - 1) % IDS else s.count)
            && (t.lease.Chosen? ==> !e.Count? && (s.lease.Chosen? || (e.Choose? && s.count < e.maxStreams)))
            && (t.lease.Counted? <==> (e.Count? && s.lease.Chosen?) || (s.lease.Counted? && !e.Register?))
            && t.leaving == (if e.Unregister? then s.leaving + multiset{e.id}
                             else if e.Uncount? then s.leaving - multiset{e.id} else s.leaving)
  {
    hide PollStep, Offer, Message;
    if e.Poll? {
      PollKeeps(s, e.id, e.room);
    }
  }

  /** How it moves what is between counter and table. */
  lemma StepBetween(s: State, e: Event)
    requires OwnedBy(s, e)
    ensures Between(Step(s, e)) == Between(s) + (if e.Count? && s.lease.Chosen? then 1
                                                 else if e.Register? && s.lease.Counted? then -1
                                                 else if e.Unregister? then 1 else if e.Uncount? then -1 else 0)
    ensures e.Uncount? ==> Between(s) > 0
  {
    hide Step;
    StepCounter(s, e);
  }

  lemma HeldSizes(s: State, e: Event)
    requires OwnedBy(s, e)
    ensures |Held(Step(s, e))| == |Held(s)| + (if e.Register? && s.lease.Counted? then 1 else if e.Unregister? then -1 else 0)
  {
    hide Step, Held;
    StepHolds(s, e);
  }

  lemma StepCounts(s: State, e: Event, limit: u32)
    requires InStep(s, limit) && OwnedBy(s, e) && (e.Choose? ==> e.maxStreams <= limit)
    ensures InStep(Step(s, e), limit)
  {
    hide Step, Held, Between, OwnedBy;
    HeldSizes(s, e);
    StepCounter(s, e);
    StepBetween(s, e);
    if e.Count? && s.lease.Chosen? {
      SmallMod(s.count + 1, IDS);
    } else if e.Uncount? {
      SmallMod(s.count - 1, IDS);
    }
  }

  lemma StepKeys(s: State, e: Event)
    ensures var t := Step(s, e);
            t.active.Keys == if e.Register? && s.lease.Counted? then s.active.Keys + {s.lease.id}
                             else if e.Unregister? then s.active.Keys - {e.id} else s.active.Keys
  {
    hide Offer, Message, PollStep;
    if e.Poll? {
      PollKeeps(s, e.id, e.room);
    }
  }

  lemma StepTables(s: State, e: Event)
    requires Tabled(s) && OwnedBy(s, e) && (e.Register? && s.lease.Counted? ==> s.lease.id !in s.active)
    ensures Tabled(Step(s, e))
  {
    hide Step, Held, Matching;
    StepHolds(s, e);
    StepKeys(s, e);
    if e.Register? && s.lease.Counted? {
      MatchingAdd(s.active.Keys, Held(s), s.lease.id);
    } else if e.Unregister? {
      MatchingRemove(s.active.Keys, Held(s), e.id);
    }
    SizesMatch(Step(s, e));
  }

  lemma SizesMatch(s: State)
    requires Matching(s.active.Keys, Held(s))
    ensures Tabled(s)
  {
    assert |s.active| == |s.active.Keys|;
  }

  /**
   * At every moment the connection's stream counter is the number of existing streams, waiting leases and
   * abandoned leases, plus those that are between counter and table; it never passes the limit. So it is
   * the number of existing streams exactly if none of the others are there. As long as leases get unused
   * ids, the table holds just the first three, once each, and so is as large as the counter exactly when
   * nobody is in between.
   */
  lemma {:induction false} CounterCountsLeases(events: seq<Event>, limit: u32)
    requires Owned(events)
    requires forall e :: e in events && e.Choose? ==> e.maxStreams <= limit
    ensures var s := Run(Fresh, events);
            && s.count == |s.live| + |s.pending| + |s.abandoned| + Between(s) && s.count <= limit
            && (s.count == |s.live| <==> s.pending == multiset{} && s.abandoned == multiset{} && Between(s) == 0)
    ensures InStep(Run(Fresh, events), limit)
    ensures FreshIds(events) ==>
              var s := Run(Fresh, events); Tabled(s) && s.count == |s.active| + Between(s)
  {
    hide Step, Between;
    if events != [] {
      var n := |events| - 1;
      var before := events[..n];
      assert forall i :: 0 <= i < n ==> before[..i] == events[..i];
      CounterCountsLeases(before, limit);
      StepCounts(Run(Fresh, before), events[n], limit);
      if FreshIds(events) {
        assert FreshIds(before);
        StepTables(Run(Fresh, before), events[n]);
      }
    } else {
      NothingBetween();
    }
  }

  lemma NothingBetween()
    ensures Between(Fresh) == 0
  {
  }

  /** An abandoned lease stays counted, and in the table, for ever. */
  lemma {:induction false} AbandonedStays(events: seq<Event>, more: seq<Event>)
    requires Owned(events + more)
    ensures Run(Fresh, events).abandoned <= Run(Fresh, events + more).abandoned
  {
    hide Run, Step;
    if more == [] {
      assert events + more == events;
    } else {
      var before, last := more[..|more| - 1], more[|more| - 1];
      var all := events + before;
      assert events + more == all + [last];
      assert forall i :: 0 <= i < |all| ==> (all + [last])[i] == all[i] && (all + [last])[..i] == all[..i];
      AbandonedStays(events, before);
      RunAppend(all, last);
      StepAbandons(Run(Fresh, all), last);
    }
  }

  lemma StepAbandons(s: State, e: Event)
    ensures s.abandoned <= Step(s, e).abandoned
  {
    hide Step;
    StepLists(s, e);
  }

  /** As many abandoned leases as a connection may have streams refuse every later lease on it. */
  lemma AbandonedLeasesRefuse(events: seq<Event>, more: seq<Event>, maxStreams: u32)
    requires Owned(events + more) && maxStreams <= |Run(Fresh, events).abandoned|
    ensures Step(Run(Fresh, events + more), Choose(maxStreams)) == Run(Fresh, events + more)
  {
    AbandonedStays(events, more);
    CounterCountsLeases(events + more, IDS - 1);
    var a, b := Run(Fresh, events).abandoned, Run(Fresh, events + more).abandoned;
    assert b == a + (b - a);
  }

  const OneLease := [Choose(1), Count, Register]

  lemma OneLeaseRuns()
    ensures Owned(OneLease)
    ensures Run(Fresh, OneLease) == State(map[1 := []], map[], 2, 1, NoLease, multiset{1}, multiset{}, multiset{}, multiset{})
  {
    hide Run, Owned;
    NothingOwned();
    OwnedAppend([], Choose(1));
    assert [] + [Choose(1)] == [Choose(1)];
    OwnedAppend([Choose(1)], Count);
    assert [Choose(1)] + [Count] == [Choose(1), Count];
    OwnedAppend([Choose(1), Count], Register);
    assert [Choose(1), Count] + [Register] == OneLease;
  }

  lemma NothingOwned()
    ensures Run(Fresh, []) == Fresh && Owned([])
  {
  }

  lemma OwnedAppend(events: seq<Event>, e: Event)
    requires Owned(events) && OwnedBy(Run(Fresh, events), e)
    ensures Owned(events + [e]) && Run(Fresh, events + [e]) == Step(Run(Fresh, events), e)
  {
    var all := events + [e];
    assert all[..|events|] == events;
    assert forall i :: 0 <= i < |events| ==> all[..i] == events[..i] && all[i] == events[i];
    RunAppend(events, e);
  }

  /** One abandoned lease is enough to close a connection for single streams. */
  lemma AnAbandonedLeaseStaysCounted()
    ensures var run := OneLease + [Abandon(1)];
            var s := Run(Fresh, run);
            && Owned(run) && s.count == 1 && s.live == multiset{} && 1 in s.active && s.lease.NoLease?
            && Step(s, Choose(1)) == s
  {
    hide Run, Owned;
    OneLeaseRuns();
    OwnedAppend(OneLease, Abandon(1));
  }

  /** A dropped stream that has left the table and not yet the counter still refuses a lease. */
  lemma ADropIsStillCounted()
    ensures var run := OneLease + [Build(1)] + [Unregister(1)];
            var s := Run(Fresh, run);
            && Owned(run) && s.count == 1 && s.active == map[] && Step(s, Choose(1)) == s
            && Step(Step(s, Uncount(1)), Choose(1)).lease.Chosen?
  {
    hide Run, Owned;
    OneLeaseRuns();
    OwnedAppend(OneLease, Build(1));
    OwnedAppend(OneLease + [Build(1)], Unregister(1));
  }

  lemma StepIds(s: State, e: Event)
    ensures var t := Step(s, e);
            && t.nextId == (if e.Count? && s.lease.Chosen? then (s.nextId + 1) % IDS else s.nextId)
            && (t.lease.Counted? ==>
                  if e.Count? && s.lease.Chosen? then t.lease.id == s.nextId else t.lease == s.lease && !e.Register?)
  {
    hide PollStep, Offer, Message;
    if e.Poll? {
      PollKeeps(s, e.id, e.room);
    }
  }

  /** Every id in the table, and that of the lease under the lock, came before the next; the latter is unused. */
  ghost predicate IdsBelow(s: State) {
    && (forall id :: id in s.active ==> id < s.nextId)
    && (s.lease.Counted? ==> s.lease.id < s.nextId && s.lease.id !in s.active)
  }

  lemma StepIdsBelow(s: State, e: Event)
    requires IdsBelow(s) && (e.Count? ==> s.nextId < IDS - 1)
    ensures IdsBelow(Step(s, e))
  {
    hide Step;
    StepIds(s, e);
    StepKeys(s, e);
    var t := Step(s, e);
    assert forall id :: id in t.active <==> id in t.active.Keys;
    assert forall id :: id in s.active <==> id in s.active.Keys;
  }

  lemma FreshIdsAppend(events: seq<Event>)
    requires events != [] && FreshIds(events[..|events| - 1])
    requires var s := Run(Fresh, events[..|events| - 1]); s.lease.Counted? ==> s.lease.id !in s.active
    ensures FreshIds(events)
  {
    hide Run;
    var before := events[..|events| - 1];
    assert forall i :: 0 <= i < |before| ==> before[..i] == events[..i] && before[i] == events[i];
  }

  /** Until the id counter wraps, every lease gets an unused id. */
  lemma {:induction false} IdsAreFreshBeforeWrap(events: seq<Event>)
    requires Counts(events) < IDS - 1
    ensures FreshIds(events)
    ensures Run(Fresh, events).nextId <= 1 + Counts(events)
    ensures IdsBelow(Run(Fresh, events))
  {
    hide Step, FreshIds, IdsBelow;
    if events == [] {
      NothingLeased();
    } else {
      var before, e := events[..|events| - 1], events[|events| - 1];
      IdsAreFreshBeforeWrap(before);
      IdsBelowMeans(Run(Fresh, before));
      FreshIdsAppend(events);
      StepIds(Run(Fresh, before), e);
      StepIdsBelow(Run(Fresh, before), e);
    }
  }

  lemma IdsBelowMeans(s: State)
    requires IdsBelow(s)
    ensures s.lease.Counted? ==> s.lease.id !in s.active
  {
  }

  lemma NothingLeased()
    ensures FreshIds([]) && IdsBelow(Fresh)
  {
  }

  // ---- Delivery to one stream ----

  function Dispatched(events: seq<Event>): seq<Frame> {
    if events == [] then []
    else
      var last := events[|events| - 1];
      Dispatched(events[..|events| - 1]) + if last.Dispatch? then [last.frame] else []
  }

  /** The messages a sequence of frames holds for one stream. */
  function Messages(frames: seq<Frame>, id: u32): seq<bytes> {
    if frames == [] then []
    else
      var last := frames[|frames| - 1];
      Messages(frames[..|frames| - 1], id) + if last.streamId == id then Message(last) else []
  }

  /** The messages stream `id` takes out of its inbox during a run from `s`. */
  function Popped(s: State, events: seq<Event>, id: u32): seq<bytes> {
    if events == [] then []
    else
      var before := events[..|events| - 1];
      var t := Run(s, before);
      Popped(s, before, id) + PoppedBy(t, events[|events| - 1], id)
  }

  /** The message an event takes out of the inbox of stream `id`. */
  function PoppedBy(t: State, e: Event, id: u32): seq<bytes> {
    if e.Poll? && e.id == id && ChunkOf(t, id) == [] && InboxOf(t, id) != [] then [InboxOf(t, id)[0]] else []
  }

  /** Nothing in the run registers or removes stream `id`. */
  ghost predicate Undisturbed(s: State, events: seq<Event>, id: u32) {
    forall i :: 0 <= i < |events| ==>
      events[i] != Unregister(id) && !Registers(Run(s, events[..i]), events[i], id)
  }

  /** Every frame for `id` finds room in its inbox. */
  ghost predicate NeverFull(s: State, events: seq<Event>, id: u32) {
    forall i :: 0 <= i < |events| && events[i].Dispatch? && events[i].frame.streamId == id ==>
      var t := Run(s, events[..i]); id in t.active ==> |t.active[id]| < INBOX
  }

  predicate Subsequence<T(==)>(a: seq<T>, b: seq<T>) {
    if a == [] then true
    else if b == [] then false
    else if a[|a| - 1] == b[|b| - 1] && Subsequence(a[..|a| - 1], b[..|b| - 1]) then true
    else Subsequence(a, b[..|b| - 1])
  }

  lemma SubsequenceGrows<T>(a: seq<T>, b: seq<T>, m: seq<T>)
    requires Subsequence(a, b) && |m| <= 1
    ensures Subsequence(a, b + m) && Subsequence(a + m, b + m)
  {
    if |m| == 1 {
      assert (b + m)[..|b|] == b && (a + m)[..|a|] == a;
    } else {
      assert a + m == a && b + m == b;
    }
  }

  /** What an event sends to stream `id`. */
  function SentBy(e: Event, id: u32): (m: seq<bytes>)
    ensures |m| <= 1
  {
    if e.Dispatch? && e.frame.streamId == id then Message(e.frame) else []
  }

  /** One undisturbed step: a poll may take the inbox's head, and a dispatched message is offered to it. */
  lemma StepInbox(s: State, e: Event, id: u32)
    requires id in s.active && e != Unregister(id) && !Registers(s, e, id)
    ensures id in Step(s, e).active
    ensures var now, next := PoppedBy(s, e, id), Step(s, e).active[id];
            if now == [] then next == Offer(s.active[id], SentBy(e, id))
            else s.active[id] == now + next && SentBy(e, id) == []
  {
    hide Message, Cut, Offer, PollStep, InboxOf, ChunkOf, SentBy, PoppedBy;
    OfferNothing(s.active[id]);
    OthersSendNothing(s, e, id);
    if e.Poll? && e.id == id {
      PollInbox(s, id, e.room);
    } else if e.Poll? {
      PollElsewhere(s, e.id, e.room, id);
    } else {
      QuietStep(s, e, id);
    }
  }

  lemma OthersSendNothing(s: State, e: Event, id: u32)
    ensures !e.Dispatch? ==> SentBy(e, id) == []
    ensures !(e.Poll? && e.id == id) ==> PoppedBy(s, e, id) == []
  {
  }

  lemma QuietStep(s: State, e: Event, id: u32)
    requires id in s.active && e != Unregister(id) && !Registers(s, e, id) && !e.Poll?
    ensures id in Step(s, e).active && Step(s, e).active[id] == Offer(s.active[id], SentBy(e, id))
  {
    hide Message, Offer, Step, SentBy;
    OfferNothing(s.active[id]);
    OthersSendNothing(s, e, id);
    if e.Dispatch? {
      DispatchOffers(s, e.frame, id);
    } else {
      OtherKeepsInbox(s, e, id);
    }
  }

  lemma DispatchOffers(s: State, f: Frame, id: u32)
    requires id in s.active
    ensures var t := Step(s, Dispatch(f));
            id in t.active && t.active[id] == Offer(s.active[id], SentBy(Dispatch(f), id))
  {
    hide Message, Offer;
    OfferNothing(s.active[id]);
  }

  lemma OtherKeepsInbox(s: State, e: Event, id: u32)
    requires id in s.active && e != Unregister(id) && !Registers(s, e, id) && !e.Poll? && !e.Dispatch?
    ensures id in Step(s, e).active && Step(s, e).active[id] == s.active[id]
  {
    hide Message, Offer, PollStep;
  }

  lemma PollElsewhere(s: State, other: u32, room: nat, id: u32)
    requires id in s.active && other != id
    ensures id in PollStep(s, other, room).active && PollStep(s, other, room).active[id] == s.active[id]
  {
    hide Cut;
  }

  lemma OfferNothing(inbox: seq<bytes>)
    ensures Offer(inbox, []) == inbox
  {
  }

  lemma PollInbox(s: State, id: u32, room: nat)
    requires id in s.active
    ensures var now, t := PoppedBy(s, Poll(id, room), id), PollStep(s, id, room);
            id in t.active && s.active[id] == now + t.active[id]
  {
    hide Cut;
    var inbox := s.active[id];
    if inbox != [] {
      assert inbox == [inbox[0]] + inbox[1..];
    }
  }

  /**
   * What one stream gets, from any state in which its inbox is empty and for any interleaving of the
   * reader with other tasks that leaves the stream registered: taken out plus still waiting is, in order,
   * a subsequence of the messages addressed to it, and all of them if its inbox never fills up.
   */
  lemma {:induction false} StreamGetsItsMessages(s: State, events: seq<Event>, id: u32)
    requires id in s.active && s.active[id] == []
    requires Undisturbed(s, events, id)
    ensures id in Run(s, events).active
    ensures Subsequence(Popped(s, events, id) + Run(s, events).active[id], Messages(Dispatched(events), id))
    ensures NeverFull(s, events, id) ==>
              Popped(s, events, id) + Run(s, events).active[id] == Messages(Dispatched(events), id)
  {
    hide Run, Step, Popped, PoppedBy, SentBy, Dispatched, Messages, Subsequence, Message, Offer, BytesRead, BytesBy;
    if events == [] {
      NothingYet(s, id);
      assert Popped(s, events, id) + s.active[id] == [];
    } else {
      var n := |events| - 1;
      var before, e := events[..n], events[n];
      assert forall i :: 0 <= i < n ==> before[..i] == events[..i];
      StreamGetsItsMessages(s, before, id);
      var t := Run(s, before);
      LastEvent(s, events, id);
      StepInbox(t, e, id);
      Delivery(Popped(s, before, id), t.active[id], Messages(Dispatched(before), id),
               PoppedBy(t, e, id), Step(t, e).active[id], SentBy(e, id));
      assert NeverFull(s, events, id) ==> NeverFull(s, before, id);
      if NeverFull(s, events, id) {
        RoomForEvent(s, events, id);
      }
    }
  }

  lemma RoomForEvent(s: State, events: seq<Event>, id: u32)
    requires events != [] && NeverFull(s, events, id) && id in Run(s, events[..|events| - 1]).active
    ensures |Run(s, events[..|events| - 1]).active[id]| < INBOX || SentBy(events[|events| - 1], id) == []
  {
    hide Run;
  }

  /** One step of delivery, as sequences: what was got, waits and was sent, and what is taken and sent now. */
  lemma Delivery(got: seq<bytes>, inbox: seq<bytes>, sent: seq<bytes>, now: seq<bytes>, next: seq<bytes>, m: seq<bytes>)
    requires Subsequence(got + inbox, sent) && |m| <= 1
    requires if now == [] then next == Offer(inbox, m) else inbox == now + next && m == []
    ensures Subsequence(got + now + next, sent + m)
    ensures got + inbox == sent && (|inbox| < INBOX || m == []) ==> got + now + next == sent + m
  {
    hide Subsequence, Offer;
    if now == [] {
      assert got + now == got;
      OfferKeepsOrder(got, inbox, sent, m);
      if m == [] {
        OfferNothing(inbox);
        assert sent + m == sent;
      }
    } else {
      Regroup(got, now, next, inbox);
      assert sent + m == sent;
    }
  }

  lemma Regroup<T>(a: seq<T>, b: seq<T>, c: seq<T>, d: seq<T>)
    requires b + c == d
    ensures a + b + c == a + d
  {
  }

  lemma OfferKeepsOrder(got: seq<bytes>, inbox: seq<bytes>, sent: seq<bytes>, m: seq<bytes>)
    requires Subsequence(got + inbox, sent) && |m| <= 1
    ensures Subsequence(got + Offer(inbox, m), sent + m)
    ensures got + inbox == sent && |inbox| < INBOX ==> got + Offer(inbox, m) == sent + m
  {
    hide Subsequence;
    SubsequenceGrows(got + inbox, sent, m);
    assert got + (inbox + m) == got + inbox + m;
  }

  lemma LastEvent(s: State, events: seq<Event>, id: u32)
    requires events != []
    ensures var before, e := events[..|events| - 1], events[|events| - 1];
            var t := Run(s, before);
            && Run(s, events) == Step(t, e)
            && Popped(s, events, id) == Popped(s, before, id) + PoppedBy(t, e, id)
            && BytesRead(s, events, id) == BytesRead(s, before, id) + BytesBy(t, e, id)
            && Messages(Dispatched(events), id) == Messages(Dispatched(before), id) + SentBy(e, id)
  {
    hide Step, Message, PoppedBy, BytesBy;
    var before, e := events[..|events| - 1], events[|events| - 1];
    var frames := Dispatched(before);
    if e.Dispatch? {
      assert (frames + [e.frame])[..|frames|] == frames;
    } else {
      assert frames + [] == frames;
    }
  }

  lemma NothingYet(s: State, id: u32)
    ensures Run(s, []) == s && Popped(s, [], id) == [] && Messages(Dispatched([]), id) == []
    ensures BytesRead(s, [], id) == []
    ensures Subsequence<bytes>([], [])
  {
  }

  /**
   * A frame reaches only the stream of its id, and only a data frame or a closing one does: its payload or
   * the empty end mark goes to the end of an inbox of fewer than 128 messages, and is lost in a full one.
   */
  lemma DispatchDelivers(s: State, f: Frame)
    ensures var t := Step(s, Dispatch(f));
            && t == s.(active := t.active) && t.active.Keys == s.active.Keys
            && forall id :: id in s.active ==>
                 t.active[id] == if id == f.streamId && (f.cmd == 0 || f.cmd == 2) && |s.active[id]| < 128
                                 then s.active[id] + [if f.cmd == 0 then f.payload else []]
                                 else s.active[id]
  {
    assert forall inbox: seq<bytes> :: Offer(inbox, []) == inbox;
  }

  // ---- What a stream's reads return ----

  /** The bytes an event reads from stream `id`. */
  function BytesBy(t: State, e: Event, id: u32): bytes {
    if e.Poll? && e.id == id && PollResult(t, id, e.room).Ready? then PollResult(t, id, e.room).data else []
  }

  /** All bytes that the polls of stream `id` return during a run. */
  function BytesRead(s: State, events: seq<Event>, id: u32): bytes {
    if events == [] then []
    else
      var before := events[..|events| - 1];
      BytesRead(s, before, id) + BytesBy(Run(s, before), events[|events| - 1], id)
  }

  /** One undisturbed step: bytes come from the rest of the chunk and the message taken, and what is not read stays. */
  lemma StepChunk(s: State, e: Event, id: u32)
    requires id in s.active && e != Unregister(id) && !Registers(s, e, id)
    ensures ChunkOf(s, id) + Concat(PoppedBy(s, e, id)) == BytesBy(s, e, id) + ChunkOf(Step(s, e), id)
  {
    if e.Poll? && e.id == id {
      PollChunk(s, id, e.room);
    } else {
      OthersKeepChunk(s, e, id);
      NoBytes();
    }
  }

  lemma OthersKeepChunk(s: State, e: Event, id: u32)
    requires id in s.active && e != Unregister(id) && !Registers(s, e, id) && !(e.Poll? && e.id == id)
    ensures ChunkOf(Step(s, e), id) == ChunkOf(s, id) && PoppedBy(s, e, id) == [] && BytesBy(s, e, id) == []
  {
    hide Step, ChunkOf, PollResult, InboxOf;
    if e.Poll? {
      PollKeepsOtherChunks(s, e.id, e.room, id);
    } else {
      QuietKeepsChunk(s, e, id);
    }
  }

  lemma QuietKeepsChunk(s: State, e: Event, id: u32)
    requires !Registers(s, e, id) && !e.Poll?
    ensures ChunkOf(Step(s, e), id) == ChunkOf(s, id)
  {
    hide PollStep, Offer, Message;
  }

  lemma PollKeepsOtherChunks(s: State, other: u32, room: nat, id: u32)
    requires other != id
    ensures ChunkOf(Step(s, Poll(other, room)), id) == ChunkOf(s, id)
  {
    hide Cut;
  }

  lemma PollChunk(s: State, id: u32, room: nat)
    requires id in s.active
    ensures var e := Poll(id, room);
            ChunkOf(s, id) + Concat(PoppedBy(s, e, id)) == BytesBy(s, e, id) + ChunkOf(Step(s, e), id)
  {
    hide Concat;
    NoBytes();
    var taken := ChunkOf(s, id) == [] && s.active[id] != [];
    var chunk := if taken then s.active[id][0] else ChunkOf(s, id);
    OneMessage(chunk);
    assert chunk == chunk[..Cut(chunk, room)] + chunk[Cut(chunk, room)..];
  }

  lemma OneMessage(m: bytes)
    ensures Concat([m]) == m
  {
    assert Concat([m]) == m + Concat([]);
  }

  /**
   * Whatever the interleaving and the buffer sizes, the bytes read and the unread rest of the last chunk
   * are exactly the messages taken, joined.
   */
  lemma {:induction false} ReadsJoinMessages(s: State, events: seq<Event>, id: u32)
    requires id in s.active && s.active[id] == [] && ChunkOf(s, id) == []
    requires Undisturbed(s, events, id)
    ensures BytesRead(s, events, id) + ChunkOf(Run(s, events), id) == Concat(Popped(s, events, id))
  {
    hide Run, Step, Popped, PoppedBy, BytesRead, BytesBy, Dispatched, Messages, ChunkOf, Concat, Subsequence;
    if events == [] {
      NothingYet(s, id);
      NoBytes();
    } else {
      var n := |events| - 1;
      var before, e := events[..n], events[n];
      assert forall i :: 0 <= i < n ==> before[..i] == events[..i];
      ReadsJoinMessages(s, before, id);
      StreamGetsItsMessages(s, before, id);
      var t := Run(s, before);
      LastEvent(s, events, id);
      StepChunk(t, e, id);
      ConcatAppend(Popped(s, before, id), PoppedBy(t, e, id));
      var read, rest := BytesRead(s, before, id), ChunkOf(t, id);
      assert read + BytesBy(t, e, id) + ChunkOf(Step(t, e), id) == read + (rest + Concat(PoppedBy(t, e, id)));
    }
  }

  lemma NoBytes()
    ensures Concat([]) == []
  {
  }

  /** The messages of a stream up to its first end mark. */
  function UntilEnd(messages: seq<bytes>): seq<bytes> {
    if messages == [] || messages[0] == [] then [] else [messages[0]] + UntilEnd(messages[1..])
  }

  lemma {:induction false} UntilEndAfter(a: seq<bytes>, b: seq<bytes>)
    requires [] !in a
    ensures UntilEnd(a + b) == a + UntilEnd(b)
  {
    if a == [] {
      assert a + b == b;
    } else {
      assert (a + b)[1..] == a[1..] + b;
      UntilEndAfter(a[1..], b);
    }
  }

  /**
   * Reading while data still arrives: as long as no end mark was taken, what the polls of a stream have
   * returned is a prefix of its messages, joined, up to the first end mark, and so it is with one more
   * poll. A poll into a non-empty buffer returns no bytes, or must wait, exactly when everything that has
   * arrived up to the first end mark has been read.
   */
  lemma ReadsAreExact(s: State, events: seq<Event>, id: u32, room: nat)
    requires id in s.active && s.active[id] == [] && ChunkOf(s, id) == []
    requires Undisturbed(s, events, id) && NeverFull(s, events, id) && [] !in Popped(s, events, id)
    ensures var read, sent := BytesRead(s, events, id), Concat(UntilEnd(Messages(Dispatched(events), id)));
            var r := PollResult(Run(s, events), id, room);
            && read <= sent
            && (r.Ready? ==> read + r.data <= sent)
            && (room > 0 ==> (r == Pending || r == Ready([]) <==> read == sent))
  {
    hide Run, Step, Popped, BytesRead, Dispatched, Messages, Concat, UntilEnd, Undisturbed, NeverFull, Subsequence, ChunkOf;
    StreamGetsItsMessages(s, events, id);
    ReadsJoinMessages(s, events, id);
    var t, popped := Run(s, events), Popped(s, events, id);
    var inbox := t.active[id];
    UntilEndAfter(popped, inbox);
    ConcatAppend(popped, UntilEnd(inbox));
    PollFits(BytesRead(s, events, id), ChunkOf(t, id), inbox, room, PollResult(t, id, room));
  }

  /**
   * The reader that ends with its connection tells its streams nothing, and a stream's inbox never closes,
   * as the table that holds its sender lives with the stream. So a stream to which no end mark was sent
   * never reads an end, whatever happens to its connection: with all that came read, it waits.
   */
  lemma NoEndWithoutMark(s: State, events: seq<Event>, id: u32, room: nat)
    requires id in s.active && s.active[id] == [] && ChunkOf(s, id) == []
    requires Undisturbed(s, events, id) && [] !in Messages(Dispatched(events), id) && room > 0
    ensures PollResult(Run(s, events), id, room) != Ready([])
    ensures NeverFull(s, events, id) ==>
              (PollResult(Run(s, events), id, room) == Pending <==>
               BytesRead(s, events, id) == Concat(Messages(Dispatched(events), id)))
  {
    hide Run, Popped, BytesRead, Dispatched, Messages, Concat, UntilEnd, Undisturbed, NeverFull, Subsequence;
    StreamGetsItsMessages(s, events, id);
    var t, sent := Run(s, events), Messages(Dispatched(events), id);
    var got := Popped(s, events, id) + t.active[id];
    NothingElseIn(got, sent, []);
    if t.active[id] != [] {
      assert t.active[id][0] == got[|Popped(s, events, id)|];
    }
    if NeverFull(s, events, id) {
      assert forall m :: m in Popped(s, events, id) ==> m in got;
      ReadsAreExact(s, events, id, room);
      UntilEndAfter(sent, []);
      NoMessages();
      assert sent + [] == sent;
    }
  }

  lemma NoMessages()
    ensures UntilEnd([]) == []
  {
  }

  lemma {:induction false} NothingElseIn<T>(a: seq<T>, b: seq<T>, x: T)
    requires Subsequence(a, b) && x !in b
    ensures x !in a
    decreases |b|
  {
    if a != [] {
      var m, n := |a| - 1, |b| - 1;
      if a[m] == b[n] && Subsequence(a[..m], b[..n]) {
        NothingElseIn(a[..m], b[..n], x);
        assert a == a[..m] + [a[m]];
      } else {
        NothingElseIn(a, b[..n], x);
      }
    }
  }

  /** A stream that has read all that came goes on waiting until a frame for it arrives. */
  lemma WaitsForAFrame(s: State, events: seq<Event>, id: u32, room: nat)
    requires id in s.active && s.active[id] == [] && ChunkOf(s, id) == []
    requires Undisturbed(s, events, id) && Messages(Dispatched(events), id) == []
    ensures PollResult(Run(s, events), id, room) == Pending
  {
    hide Run, Popped, BytesRead, Dispatched, Messages, Undisturbed, Subsequence;
    StreamGetsItsMessages(s, events, id);
    ReadsJoinMessages(s, events, id);
    var got := Popped(s, events, id) + Run(s, events).active[id];
    assert got == [] by {
      NothingIn(got);
    }
    NoBytes();
  }

  lemma NothingIn(a: seq<bytes>)
    requires Subsequence(a, [])
    ensures a == []
  {
  }

  /** A poll, as sequences: what was read, the rest of the last chunk, the inbox, and what the poll returns. */
  lemma PollFits(read: bytes, chunk: bytes, inbox: seq<bytes>, room: nat, r: ReadResult)
    requires r == if chunk != [] then Ready(chunk[..Cut(chunk, room)])
                  else if inbox == [] then Pending else Ready(inbox[0][..Cut(inbox[0], room)])
    ensures var sent := read + chunk + Concat(UntilEnd(inbox));
            && read <= sent
            && (r.Ready? ==> read + r.data <= sent)
            && (room > 0 ==> (r == Pending || r == Ready([]) <==> read == sent))
  {
    hide Concat, UntilEnd;
    UntilEndFirst(inbox);
    var waiting := Concat(UntilEnd(inbox));
    var c := if chunk != [] then chunk else if inbox == [] then [] else inbox[0];
    var cut := c[..Cut(c, room)];
    assert c == cut + c[Cut(c, room)..];
    if chunk != [] {
      PrefixOf(read, cut, c[Cut(c, room)..], waiting);
    } else if c != [] {
      PrefixOf(read, cut, c[Cut(c, room)..], Concat(UntilEnd(inbox[1..])));
    }
  }

  lemma PrefixOf(a: bytes, b: bytes, c: bytes, d: bytes)
    ensures a + b <= a + (b + c) + d && a + b <= a + ((b + c) + d)
    ensures a + [] + ((b + c) + d) == a + (b + c) + d
  {
  }

  lemma UntilEndFirst(messages: seq<bytes>)
    ensures messages == [] || messages[0] == [] ==> Concat(UntilEnd(messages)) == []
    ensures messages != [] && messages[0] != [] ==>
      Concat(UntilEnd(messages)) == messages[0] + Concat(UntilEnd(messages[1..]))
  {
    if messages != [] && messages[0] != [] {
      ConcatAppend([messages[0]], UntilEnd(messages[1..]));
      assert Concat([messages[0]]) == messages[0] + Concat([]);
    }
  }

  lemma RunAppend(events: seq<Event>, e: Event)
    ensures Run(Fresh, events + [e]) == Step(Run(Fresh, events), e)
    ensures Dispatched(events + [e]) == Dispatched(events) + if e.Dispatch? then [e.frame] else []
  {
    assert (events + [e])[..|events|] == events;
  }
}
