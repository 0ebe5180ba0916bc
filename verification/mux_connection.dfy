/**
 * A multiplexed connection at work: its table as an object shared by tasks, the reader's loop, a stream
 * owner's reads, and what holds from the writer's queues to those reads.
 */
module MuxConnections {
  import opened Bytes
  import opened Sockets
  import opened MuxFrames
  import opened MuxStreams
  import MuxScheduler

  /** Which task speaks: the connection's reader, the lease under the pool's lock, or the owner of a stream. */
  datatype Role = Reader | Leaser | Owner(id: u32)

  predicate Mine(e: Event, who: Role) {
    match who
    case Reader => e.Dispatch?
    case Leaser => e.Choose? || e.Count? || e.Register?
    case Owner(id) => e == Unregister(id) || e == Uncount(id) || (e.Poll? && e.id == id)
  }

  lemma {:induction false} OthersDispatchNothing(events: seq<Event>, done: seq<Event>)
    requires forall e :: e in done ==> !e.Dispatch?
    ensures Dispatched(events + done) == Dispatched(events)
  {
    if done == [] {
      assert events + done == events;
    } else {
      var n := |done| - 1;
      OthersDispatchNothing(events, done[..n]);
      assert events + done == events + done[..n] + [done[n]];
      assert done[n] in done;
      DispatchedAppend(events + done[..n], done[n]);
    }
  }

  lemma DispatchedAppend(events: seq<Event>, e: Event)
    ensures Dispatched(events + [e]) == if e.Dispatch? then Dispatched(events) + [e.frame] else Dispatched(events)
  {
    assert (events + [e])[..|events|] == events;
  }

  class Connection {
    var active: map<u32, seq<bytes>>
    var chunks: map<u32, bytes>
    var nextStreamId: u32
    var streamCount: u32
    var lease: Stage
    ghost var events: seq<Event>

    ghost predicate Valid()
      reads this
    {
      var s := Run(Fresh, events);
      && active == s.active && chunks == s.chunks
      && nextStreamId == s.nextId && streamCount == s.count && lease == s.lease
    }

    constructor ()
      ensures Valid() && events == []
    {
      active, chunks, nextStreamId, streamCount, lease, events := map[], map[], 1, 0, NoLease, [];
    }

    ghost method Record(e: Event)
      modifies this`events
      ensures events == old(events) + [e]
      ensures Run(Fresh, events) == Step(Run(Fresh, old(events)), e)
    {
      events := events + [e];
      RunAppend(old(events), e);
    }

    /** A lease looks at the stream counter, under the pool's lock, which it keeps if it may go on. */
    method ChooseConnection(maxStreams: u32) returns (chosen: bool)
      requires Valid()
      modifies this`lease, this`events
      ensures Valid() && events == old(events) + [Choose(maxStreams)]
      ensures old(lease).NoLease? ==> lease == if chosen then Chosen else NoLease
      ensures chosen <==> old(lease).NoLease? && streamCount < maxStreams
    {
      hide Run;
      chosen := lease.NoLease? && streamCount < maxStreams;
      if chosen {
        lease := Chosen;
      }
      Record(Choose(maxStreams));
    }

    method CountStream()
      requires Valid()
      modifies this`lease, this`nextStreamId, this`streamCount, this`events
      ensures Valid() && events == old(events) + [Count]
      ensures old(lease).Chosen? ==> lease == Counted(old(nextStreamId))
    {
      hide Run;
      if lease.Chosen? {
        lease := Counted(nextStreamId);
        nextStreamId := (nextStreamId + 1) % IDS;
        streamCount := (streamCount + 1) % IDS;
      }
      Record(Count);
    }

    method RegisterStream()
      requires Valid()
      modifies this`lease, this`active, this`chunks, this`events
      ensures Valid() && events == old(events) + [Register]
      ensures old(lease).Counted? ==>
        var id := old(lease).id; lease == NoLease && id in active && active[id] == [] && id !in chunks
    {
      hide Run;
      if lease.Counted? {
        active := active[lease.id := []];
        chunks := chunks - {lease.id};
        lease := NoLease;
      }
      Record(Register);
    }

    /**
     * The part of `lease_stream` under the pool's lock: the counter is below the limit, an id, a counter
     * rise and a registered inbox. Dispatches, polls and drops go on between these steps, so the counter
     * may have moved by the time it rises; other leases wait.
     */
    method LeaseStream(maxStreams: u32)
      returns (leased: bool, streamId: u32, ghost first: seq<Event>, ghost second: seq<Event>)
      requires Valid() && lease.NoLease?
      modifies this
      ensures Valid() && lease.NoLease?
      ensures leased <==> old(streamCount) < maxStreams
      ensures events == if leased then old(events) + [Choose(maxStreams)] + first + [Count] + second + [Register]
                        else old(events) + [Choose(maxStreams)]
      ensures forall e :: e in first + second ==> !Mine(e, Leaser)
      ensures leased ==>
        streamId == old(nextStreamId) && streamId in active && active[streamId] == [] && streamId !in chunks
    {
      hide Run;
      first, second, streamId := [], [], nextStreamId;
      leased := ChooseConnection(maxStreams);
      if leased {
        first := OtherTasks(Leaser);
        CountStream();
        second := OtherTasks(Leaser);
        RegisterStream();
      }
    }

    /** What follows a lease: with the opening frame sent the stream exists, else nothing is undone. */
    method FinishLease(streamId: u32, sent: bool)
      requires Valid()
      modifies this`events
      ensures Valid() && events == old(events) + [if sent then Build(streamId) else Abandon(streamId)]
    {
      hide Run;
      Record(if sent then Build(streamId) else Abandon(streamId));
    }

    method UnregisterStream(streamId: u32)
      requires Valid()
      modifies this`active, this`events
      ensures Valid() && events == old(events) + [Unregister(streamId)]
    {
      hide Run;
      active := active - {streamId};
      Record(Unregister(streamId));
    }

    method UncountStream(streamId: u32)
      requires Valid()
      modifies this`streamCount, this`events
      ensures Valid() && events == old(events) + [Uncount(streamId)]
    {
      hide Run;
      streamCount := (streamCount - 1) % IDS;
      Record(Uncount(streamId));
    }

    /** What dropping a virtual stream does to its connection: it leaves the table, and then the counter. */
    method DropStream(streamId: u32) returns (ghost between: seq<Event>)
      requires Valid()
      modifies this
      ensures Valid() && events == old(events) + [Unregister(streamId)] + between + [Uncount(streamId)]
      ensures forall e :: e in between ==> !Mine(e, Owner(streamId))
    {
      hide Run;
      UnregisterStream(streamId);
      between := OtherTasks(Owner(streamId));
      UncountStream(streamId);
    }

    /** `poll_read` of a virtual stream into a buffer with `room` free bytes. */
    method PollRead(streamId: u32, room: nat) returns (r: ReadResult)
      requires Valid()
      modifies this`active, this`chunks, this`events
      ensures Valid() && events == old(events) + [Poll(streamId, room)]
      ensures r == PollResult(Run(Fresh, old(events)), streamId, room)
    {
      hide Run;
      ghost var s := Run(Fresh, events);
      var chunk := if streamId in chunks then chunks[streamId] else [];
      if chunk == [] {
        if streamId !in active {
          Record(Poll(streamId, room));
          return Ready([]);
        }
        if active[streamId] == [] {
          Record(Poll(streamId, room));
          return Pending;
        }
        chunk := active[streamId][0];
        active := active[streamId := active[streamId][1..]];
      }
      var toRead := if |chunk| < room then |chunk| else room;
      chunks := chunks[streamId := chunk[toRead..]];
      Record(Poll(streamId, room));
      r := Ready(chunk[..toRead]);
    }

    method DispatchFrame(f: Frame)
      requires Valid()
      modifies this`active, this`events
      ensures Valid() && events == old(events) + [Dispatch(f)]
      ensures Dispatched(events) == Dispatched(old(events)) + [f]
    {
      hide Run, Dispatched;
      if f.streamId in active {
        var inbox := active[f.streamId];
        assert active[f.streamId := inbox] == active && inbox + [] == inbox;
        if f.cmd == 0 {
          if |inbox| < INBOX {
            active := active[f.streamId := inbox + [f.payload]];
          }
        } else if f.cmd == 2 {
          if |inbox| < INBOX {
            active := active[f.streamId := inbox + [[]]];
          }
        }
      }
      DispatchedAppend(events, Dispatch(f));
      Record(Dispatch(f));
    }

    /** Whatever the other tasks do while one waits. */
    method OtherTasks(who: Role) returns (ghost done: seq<Event>)
      requires Valid()
      modifies this
      ensures Valid() && events == old(events) + done
      ensures forall e :: e in done ==> !Mine(e, who)
      ensures who.Reader? ==> Dispatched(events) == Dispatched(old(events))
      ensures who.Leaser? ==> lease == old(lease) && nextStreamId == old(nextStreamId)
    {
      hide Run, Dispatched;
      done := [];
      var left: nat := *;
      while left > 0
        invariant Valid() && events == old(events) + done
        invariant forall e :: e in done ==> !Mine(e, who)
        invariant who.Leaser? ==> lease == old(lease) && nextStreamId == old(nextStreamId)
      {
        ghost var before := events;
        var id: u32, room: nat, choice: nat := *, *, *;
        if choice == 0 && who != Leaser {
          var _ := ChooseConnection(id);
        } else if choice == 1 && who != Leaser {
          CountStream();
        } else if choice == 2 && who != Leaser {
          RegisterStream();
        } else if choice == 3 {
          FinishLease(id, room > 0);
        } else if choice == 4 && who != Owner(id) {
          UnregisterStream(id);
        } else if choice == 5 && who != Owner(id) {
          UncountStream(id);
        } else if choice == 6 && who != Owner(id) {
          var _ := PollRead(id, room);
        } else if choice == 7 && who != Reader {
          var f: Frame := *;
          DispatchFrame(f);
        }
        done := done + events[|before|..];
        left := left - 1;
      }
      if who.Reader? {
        OthersDispatchNothing(old(events), done);
      }
    }

    /**
     * A stream's owner reads with arbitrary non-empty buffers while everything else goes on, until the end
     * or until it gives up. Its bytes are what its polls read; no end mark was taken before the end.
     */
    method ReadStream(streamId: u32) returns (data: bytes, ended: bool, ghost more: seq<Event>)
      requires Valid()
      modifies this
      ensures Valid() && events == old(events) + more
      ensures var s := Run(Fresh, old(events));
              && data == BytesRead(s, more, streamId) && (ended ==> more != [])
              && [] !in Popped(s, if ended then more[..|more| - 1] else more, streamId)
              && (ended ==>
                    && more[|more| - 1].Poll? && more[|more| - 1].id == streamId && more[|more| - 1].room > 0
                    && PollResult(Run(s, more[..|more| - 1]), streamId, more[|more| - 1].room) == Ready([]))
    {
      hide Run, PollResult, BytesRead, Popped;
      data, ended, more := [], false, [];
      ghost var s := Run(Fresh, events);
      NothingYet(s, streamId);
      var patience: nat := *;
      while patience > 0
        invariant Valid() && events == old(events) + more
        invariant data == BytesRead(s, more, streamId) && [] !in Popped(s, more, streamId)
      {
        var room: nat :| room > 0;
        RunJoin(old(events), more);
        ReadOne(s, more, streamId, room);
        var r := PollRead(streamId, room);
        ghost var before := more;
        more := more + [Poll(streamId, room)];
        assert more[..|more| - 1] == before;
        if r.Ready? {
          data := data + r.data;
          if r.data == [] {
            ended := true;
            return;
          }
        }
        ghost var done := OtherTasks(Owner(streamId));
        OthersReadNothing(s, more, done, streamId);
        more := more + done;
        patience := patience - 1;
      }
    }
  }

  /**
   * A stream read to its end, as `ReadStream` reads it, has given its owner exactly the messages that had
   * arrived for it up to the first end mark, joined.
   */
  lemma ReadToTheEnd(s: State, events: seq<Event>, id: u32, room: nat)
    requires id in s.active && s.active[id] == [] && ChunkOf(s, id) == []
    requires Undisturbed(s, events, id) && NeverFull(s, events, id) && [] !in Popped(s, events, id)
    requires room > 0 && PollResult(Run(s, events), id, room) == Ready([])
    ensures BytesRead(s, events + [Poll(id, room)], id) == Concat(UntilEnd(Messages(Dispatched(events), id)))
  {
    hide Run, PollResult, BytesRead, Popped, Dispatched, Messages, Concat, UntilEnd, Undisturbed, NeverFull;
    ReadsAreExact(s, events, id, room);
    ReadOne(s, events, id, room);
  }

  lemma {:induction false} RunJoin(events: seq<Event>, more: seq<Event>)
    ensures Run(Fresh, events + more) == Run(Run(Fresh, events), more)
  {
    hide Step;
    if more == [] {
      assert events + more == events;
    } else {
      var n := |more| - 1;
      RunJoin(events, more[..n]);
      assert events + more == events + more[..n] + [more[n]];
      RunAppend(events + more[..n], more[n]);
    }
  }

  /** One more poll into a non-empty buffer: its bytes, and a message taken that is empty only at the end. */
  lemma ReadOne(s: State, events: seq<Event>, id: u32, room: nat)
    requires room > 0
    ensures var r, more := PollResult(Run(s, events), id, room), events + [Poll(id, room)];
            && BytesRead(s, more, id) == BytesRead(s, events, id) + (if r.Ready? then r.data else [])
            && ([] !in Popped(s, events, id) && r != Ready([]) ==> [] !in Popped(s, more, id))
  {
    hide Run;
    assert (events + [Poll(id, room)])[..|events|] == events;
  }

  lemma {:induction false} OthersReadNothing(s: State, events: seq<Event>, done: seq<Event>, id: u32)
    requires forall e :: e in done ==> !Mine(e, Owner(id))
    ensures BytesRead(s, events + done, id) == BytesRead(s, events, id)
    ensures Popped(s, events + done, id) == Popped(s, events, id)
  {
    hide Run, BytesRead, Popped;
    if done == [] {
      assert events + done == events;
    } else {
      var n := |done| - 1;
      OthersReadNothing(s, events, done[..n], id);
      assert events + done == events + done[..n] + [done[n]];
      assert done[n] in done;
      OtherReadsNothing(s, events + done[..n], done[n], id);
    }
  }

  lemma OtherReadsNothing(s: State, events: seq<Event>, e: Event, id: u32)
    requires !Mine(e, Owner(id))
    ensures BytesRead(s, events + [e], id) == BytesRead(s, events, id)
    ensures Popped(s, events + [e], id) == Popped(s, events, id)
  {
    hide Run;
    assert (events + [e])[..|events|] == events;
    var t := Run(s, events);
    assert BytesBy(t, e, id) == [] && PoppedBy(t, e, id) == [];
  }

  lemma DecodeUnfinished(b: bytes)
    requires |b| < 6 || |b| < 6 + U16(b[4], b[5])
    ensures Decode(b) == Received([], b)
  {
  }

  lemma DecodeFirst(b: bytes)
    requires 6 <= |b| && 6 + U16(b[4], b[5]) <= |b|
    ensures var end := 6 + U16(b[4], b[5]);
            var h := U32(b[0], b[1], b[2], b[3]);
            h / ID_LIMIT < 256
            && Decode(b) == Received([Frame(h % ID_LIMIT, h / ID_LIMIT, b[6..end])] + Decode(b[end..]).frames,
                                     Decode(b[end..]).rest)
  {
  }

  /** Reads until the buffer holds `n` bytes, or the connection ends. */
  method Fill(reader: Source, buf: bytes, n: nat, room: nat) returns (enough: bool, alive: bool, filled: bytes)
    requires room > 0
    modifies reader
    ensures filled + reader.data == buf + old(reader.data)
    ensures enough <==> n <= |buf| + |old(reader.data)|
    ensures if enough then n <= |filled| else reader.data == [] && alive == reader.clean
  {
    alive, filled := true, buf;
    while |filled| < n
      invariant filled + reader.data == buf + old(reader.data)
      decreases |reader.data|
    {
      var chunk;
      alive, chunk := reader.Read(room);
      if chunk == [] {
        return false, alive, filled;
      }
      filled := filled + chunk;
    }
    enough := true;
  }

  /**
   * The reader's loop, with other tasks running whenever it waits: it dispatches exactly the complete
   * frames of what arrived, in order, whatever the reads, and succeeds only on a close inside no payload.
   */
  method RunConnectionReader(reader: Source, streams: Connection) returns (ok: bool)
    requires streams.Valid()
    modifies reader, streams
    ensures streams.Valid()
    ensures Dispatched(streams.events) == Dispatched(old(streams.events)) + Decode(old(reader.data)).frames
    ensures ok <==> reader.clean && |Decode(old(reader.data)).rest| < 6
  {
    hide Run, Dispatched, Decode, U16, U32;
    var mainBuf: bytes := [];
    ghost var input, seen := reader.data, [];
    assert mainBuf + reader.data == input && seen + Decode(input).frames == Decode(input).frames;
    while true
      invariant streams.Valid()
      invariant Dispatched(streams.events) == Dispatched(old(streams.events)) + seen
      invariant Decode(input).frames == seen + Decode(mainBuf + reader.data).frames
      invariant Decode(input).rest == Decode(mainBuf + reader.data).rest
      decreases |mainBuf| + |reader.data|
    {
      var room: nat :| room > 0;
      ghost var pending := mainBuf + reader.data;
      var enough, alive;
      enough, alive, mainBuf := Fill(reader, mainBuf, 6, room);
      if !enough {
        DecodeUnfinished(pending);
        return alive;
      }
      var header := U32(mainBuf[0], mainBuf[1], mainBuf[2], mainBuf[3]);
      var payloadLen := U16(mainBuf[4], mainBuf[5]);
      var cmd, streamId := header / ID_LIMIT, header % ID_LIMIT;
      var totalFrameLen := 6 + payloadLen;
      assert forall k :: 0 <= k < 6 ==> pending[k] == mainBuf[k];
      enough, alive, mainBuf := Fill(reader, mainBuf, totalFrameLen, room);
      if !enough {
        DecodeUnfinished(pending);
        return false;
      }
      var payload := mainBuf[6..totalFrameLen];
      mainBuf := mainBuf[totalFrameLen..];
      assert pending[totalFrameLen..] == mainBuf + reader.data;
      assert pending[6..totalFrameLen] == payload;
      DecodeFirst(pending);
      var frame := Frame(streamId, cmd, payload);
      ghost var done := streams.OtherTasks(Reader);
      streams.DispatchFrame(frame);
      seen := seen + [frame];
    }
  }

  // ---- Identifiers on the wire ----

  /** What a frame sent for any id puts into the inbox of stream `id` at the other end. */
  function WireMessage(f: Frame, id: u32): (m: seq<bytes>) {
    if |f.payload| <= MAX_PAYLOAD && f.streamId % ID_LIMIT == id then Message(f.(cmd := f.cmd % 4)) else []
  }

  function WireMessages(frames: seq<Frame>, id: u32): seq<bytes> {
    if frames == [] then []
    else WireMessages(frames[..|frames| - 1], id) + WireMessage(frames[|frames| - 1], id)
  }

  /**
   * Stream ids are distinct up to 2^32, but the wire carries 30 bits of them. What is received for an id
   * below 2^30 is what was sent for every id congruent to it; for an id from there on nothing is.
   */
  lemma {:induction false} IdsAliasOnTheWire(frames: seq<Frame>, id: u32)
    ensures Messages(OnWire(frames), id) == if id < ID_LIMIT then WireMessages(frames, id) else []
  {
    hide WireMessage, OnWire, Messages, Carried;
    if frames == [] {
      NoFrames(id);
    } else {
      var n := |frames| - 1;
      IdsAliasOnTheWire(frames[..n], id);
      OnWireAppend(frames[..n], frames[n]);
      assert frames == frames[..n] + [frames[n]];
      CarriedMessages(OnWire(frames[..n]), frames[n], id);
    }
  }

  lemma NoFrames(id: u32)
    ensures OnWire([]) == [] && Messages([], id) == []
  {
  }

  lemma CarriedMessages(before: seq<Frame>, f: Frame, id: u32)
    ensures Messages(before + Carried(f), id) ==
            if id < ID_LIMIT then Messages(before, id) + WireMessage(f, id) else Messages(before, id)
  {
    var got := Messages(before, id);
    assert got + [] == got && before + [] == before;
    forall g ensures Messages(before + [g], id) == got + if g.streamId == id then Message(g) else [] {
      assert (before + [g])[..|before|] == before;
    }
  }

  lemma {:induction false} OnWireAppend(frames: seq<Frame>, f: Frame)
    ensures OnWire(frames + [f]) == OnWire(frames) + Carried(f)
  {
    if frames == [] {
      assert frames + [f] == [f] && [f][1..] == [];
    } else {
      assert (frames + [f])[1..] == frames[1..] + [f];
      OnWireAppend(frames[1..], f);
    }
  }

  // ---- End to end ----

  /** What has arrived of frames within the format's limits decodes to a prefix of them. */
  lemma ReceivedIsPrefix(sent: seq<Frame>, wire: bytes)
    requires (forall f :: f in sent ==> Faithful(f)) && wire <= EncodeAll(sent)
    ensures Decode(wire).frames <= sent
    ensures wire == EncodeAll(sent) ==> Decode(wire).frames == sent
  {
    hide EncodeAll, OnWire, Faithful, Decode;
    var all := EncodeAll(sent);
    var rest := all[|wire|..];
    OnWireExact(sent);
    DecodeEncodeAll(sent, []);
    NothingDecoded();
    assert all + [] == all && OnWire(sent) + [] == OnWire(sent);
    assert all == wire + rest;
    DecodeResumes(wire, rest);
    if wire == all {
      assert Decode(wire).frames == sent;
    }
  }

  lemma NothingDecoded()
    ensures Decode([]) == Received([], [])
  {
  }

  /** A connection from end to end: the writer's loop, any part of its bytes that arrives, the reader's loop. */
  method Transfer(schedule: seq<MuxScheduler.Event>, streams: Connection)
    returns (ghost wire: bytes, ghost steps: nat)
    requires streams.Valid()
    modifies streams
    ensures streams.Valid() && steps <= |schedule|
    ensures wire <= EncodeAll(MuxScheduler.Frames(MuxScheduler.Run(MuxScheduler.Start, schedule[..steps]).picks))
    ensures Dispatched(streams.events) == Dispatched(old(streams.events)) + Decode(wire).frames
  {
    hide MuxScheduler.Run, MuxScheduler.Frames, EncodeAll, Decode, Dispatched, Run;
    var writer := new Sink();
    var written, last := MuxScheduler.RunConnectionWriter(writer, schedule);
    steps := if written then |schedule| else last + 1;
    assert schedule[..|schedule|] == schedule;
    assert [] + EncodeAll(MuxScheduler.Frames(MuxScheduler.Run(MuxScheduler.Start, schedule[..steps]).picks)) ==
           EncodeAll(MuxScheduler.Frames(MuxScheduler.Run(MuxScheduler.Start, schedule[..steps]).picks));
    var arrived: nat, clean: bool := *, *;
    arrived := if arrived < |writer.written| then arrived else |writer.written|;
    wire := writer.written[..arrived];
    var reader := new Source(writer.written[..arrived], clean);
    var _ := RunConnectionReader(reader, streams);
  }

  /**
   * From the queues of one end to the reads of the other: let the frames the scheduler picked be within
   * the format's limits, any part of their encoding have arrived and been dispatched, and a stream have
   * been registered after some of that. Then the dispatched frames are a prefix of the picked ones; of those
   * dispatched since, the stream has got its messages in order, all of them if its inbox never filled;
   * and with no end mark taken yet its polls have returned a prefix of these messages, joined, up to the
   * first end mark, and all of it when a poll into a non-empty buffer comes back empty or must wait.
   */
  lemma MuxEndToEnd(schedule: seq<MuxScheduler.Event>, wire: bytes,
                    before: seq<Event>, id: u32, after: seq<Event>, room: nat)
    requires var sent := MuxScheduler.Frames(MuxScheduler.Run(MuxScheduler.Start, schedule).picks);
             && (forall f :: f in sent ==> Faithful(f)) && wire <= EncodeAll(sent)
    requires Dispatched(before) + Dispatched(after) == Decode(wire).frames
    requires Run(Fresh, before).lease == Counted(id) && Undisturbed(Run(Fresh, before + [Register]), after, id)
    ensures Dispatched(before) + Dispatched(after) <=
            MuxScheduler.Frames(MuxScheduler.Run(MuxScheduler.Start, schedule).picks)
    ensures var s := Run(Fresh, before + [Register]);
            var messages, read := Messages(Dispatched(after), id), BytesRead(s, after, id);
            && id in Run(s, after).active
            && Subsequence(Popped(s, after, id) + Run(s, after).active[id], messages)
            && read + ChunkOf(Run(s, after), id) == Concat(Popped(s, after, id))
            && (NeverFull(s, after, id) ==>
                  && Popped(s, after, id) + Run(s, after).active[id] == messages
                  && ([] !in Popped(s, after, id) ==>
                        && read <= Concat(UntilEnd(messages))
                        && (room > 0 ==>
                              (PollResult(Run(s, after), id, room) == Pending || PollResult(Run(s, after), id, room) == Ready([])
                               <==> read == Concat(UntilEnd(messages))))))
  {
    hide Run, Popped, Subsequence, Messages, Dispatched, NeverFull, Undisturbed, EncodeAll, BytesRead, PollResult,
      Concat, UntilEnd, Decode, MuxScheduler.Run, MuxScheduler.Frames, Faithful;
    ReceivedIsPrefix(MuxScheduler.Frames(MuxScheduler.Run(MuxScheduler.Start, schedule).picks), wire);
    RunAppend(before, Register);
    var s := Run(Fresh, before + [Register]);
    StreamGetsItsMessages(s, after, id);
    ReadsJoinMessages(s, after, id);
    if NeverFull(s, after, id) && [] !in Popped(s, after, id) {
      ReadsAreExact(s, after, id, room);
    }
  }
}
