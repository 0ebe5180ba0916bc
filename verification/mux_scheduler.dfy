/**
 * The connection writer of the multiplexer: two queues, the high one preferred, but after 32 high
 * frames in a row the low one goes first. Producers and the writer interleave freely; an `Event` is
 * one step of either.
 */
module MuxScheduler {
  import opened Bytes
  import opened Sockets
  import opened MuxFrames

  const BURST := 32
  const WRAP := 0x1_0000_0000

  datatype Event = SendHigh(frame: Frame) | SendLow(frame: Frame) | CloseHigh | CloseLow | Turn

  datatype Pick = Pick(fromHigh: bool, frame: Frame)

  /** The queues, the writer's counter, and what has been sent into and picked from the queues so far. */
  datatype State = State(
    high: seq<Frame>, low: seq<Frame>, highClosed: bool, lowClosed: bool,
    consecutive: nat, stopped: bool,
    picks: seq<Pick>, sentHigh: seq<Frame>, sentLow: seq<Frame>)

  const Start := State([], [], false, false, 0, false, [], [], [])

  function PickHigh(s: State): State
    requires s.high != []
  {
    s.(high := s.high[1..], consecutive := (s.consecutive + 1) % WRAP, picks := s.picks + [Pick(true, s.high[0])])
  }

  function PickLow(s: State): State
    requires s.low != []
  {
    s.(low := s.low[1..], consecutive := 0, picks := s.picks + [Pick(false, s.low[0])])
  }

  /**
   * One turn of the writer's loop: the preferred queue is polled first and decides if it has a frame or
   * is closed; only when it is pending does the other one decide. With both pending nothing happens.
   */
  function WriterTurn(s: State): State {
    if s.consecutive >= BURST then
      if s.low != [] then PickLow(s)
      else if s.lowClosed then s.(stopped := true)
      else if s.high != [] then PickHigh(s)
      else if s.highClosed then s.(stopped := true)
      else s
    else
      if s.high != [] then PickHigh(s)
      else if s.highClosed then s.(stopped := true)
      else if s.low != [] then PickLow(s)
      else if s.lowClosed then s.(stopped := true)
      else s
  }

  function Step(s: State, e: Event): State {
    if s.stopped then s
    else match e
      case SendHigh(f) => if s.highClosed then s else s.(high := s.high + [f], sentHigh := s.sentHigh + [f])
      case SendLow(f) => if s.lowClosed then s else s.(low := s.low + [f], sentLow := s.sentLow + [f])
      case CloseHigh => s.(highClosed := true)
      case CloseLow => s.(lowClosed := true)
      case Turn => WriterTurn(s)
  }

  function Run(s: State, events: seq<Event>): State {
    if events == [] then s
    else Step(Run(s, events[..|events| - 1]), events[|events| - 1])
  }

  /** The frames picked from one of the queues, in order. */
  function Taken(picks: seq<Pick>, fromHigh: bool): seq<Frame> {
    if picks == [] then []
    else
      var last := picks[|picks| - 1];
      Taken(picks[..|picks| - 1], fromHigh) + if last.fromHigh == fromHigh then [last.frame] else []
  }

  function Frames(picks: seq<Pick>): (fs: seq<Frame>)
    ensures |fs| == |picks|
  {
    if picks == [] then [] else Frames(picks[..|picks| - 1]) + [picks[|picks| - 1].frame]
  }

  /** How many of the latest picks in a row came from the high queue. */
  function TrailingHigh(picks: seq<Pick>): (n: nat)
    ensures n <= |picks|
    ensures forall i :: |picks| - n <= i < |picks| ==> picks[i].fromHigh
  {
    if picks == [] || !picks[|picks| - 1].fromHigh then 0 else 1 + TrailingHigh(picks[..|picks| - 1])
  }

  ghost predicate Consistent(s: State) {
    && Taken(s.picks, true) + s.high == s.sentHigh
    && Taken(s.picks, false) + s.low == s.sentLow
    && s.consecutive == TrailingHigh(s.picks) % WRAP
    && (s.stopped ==> (s.highClosed && s.high == []) || (s.lowClosed && s.low == []))
  }

  lemma PicksAppend(picks: seq<Pick>, p: Pick)
    ensures Taken(picks + [p], true) == Taken(picks, true) + if p.fromHigh then [p.frame] else []
    ensures Taken(picks + [p], false) == Taken(picks, false) + if p.fromHigh then [] else [p.frame]
    ensures TrailingHigh(picks + [p]) == if p.fromHigh then TrailingHigh(picks) + 1 else 0
    ensures Frames(picks + [p]) == Frames(picks) + [p.frame]
  {
    assert (picks + [p])[..|picks|] == picks;
  }

  lemma PickHighKeepsConsistent(s: State)
    requires Consistent(s) && !s.stopped && s.high != []
    ensures Consistent(PickHigh(s))
  {
    hide Taken, TrailingHigh;
    PicksAppend(s.picks, Pick(true, s.high[0]));
    assert [s.high[0]] + s.high[1..] == s.high;
  }

  lemma PickLowKeepsConsistent(s: State)
    requires Consistent(s) && !s.stopped && s.low != []
    ensures Consistent(PickLow(s))
  {
    hide Taken, TrailingHigh;
    PicksAppend(s.picks, Pick(false, s.low[0]));
    assert [s.low[0]] + s.low[1..] == s.low;
  }

  lemma StepKeepsConsistent(s: State, e: Event)
    requires Consistent(s)
    ensures Consistent(Step(s, e))
  {
    hide Taken, TrailingHigh, PickHigh, PickLow;
    if !s.stopped && s.high != [] {
      PickHighKeepsConsistent(s);
    }
    if !s.stopped && s.low != [] {
      PickLowKeepsConsistent(s);
    }
  }

  lemma StartIsConsistent()
    ensures Consistent(Start)
  {
  }

  lemma {:induction false} RunIsConsistent(events: seq<Event>)
    ensures Consistent(Run(Start, events))
  {
    hide Step, Taken, TrailingHigh;
    if events == [] {
      StartIsConsistent();
    } else {
      var before := events[..|events| - 1];
      RunIsConsistent(before);
      StepKeepsConsistent(Run(Start, before), events[|events| - 1]);
    }
  }

  /**
   * On every run, what was picked is an order-preserving merge of a prefix of each queue's frames, and
   * the unpicked frames are exactly what is still queued. The writer stops only once some queue is
   * closed, and then that queue has been written out completely.
   */
  lemma OutputMergesPrefixes(events: seq<Event>)
    ensures var s := Run(Start, events);
            && s.sentHigh == Taken(s.picks, true) + s.high
            && s.sentLow == Taken(s.picks, false) + s.low
            && (s.stopped ==>
                || (s.highClosed && Taken(s.picks, true) == s.sentHigh)
                || (s.lowClosed && Taken(s.picks, false) == s.sentLow))
  {
    RunIsConsistent(events);
  }

  ghost predicate LowAlwaysWaits(s: State, events: seq<Event>) {
    forall i :: 0 <= i < |events| && events[i] == Turn ==> Run(s, events[..i]).low != []
  }

  /** One step adds at most one pick; it comes from the low queue if a burst is over and that queue has a frame. */
  lemma StepPicks(s: State, e: Event)
    ensures var t := Step(s, e);
            || (t.picks == s.picks && t.consecutive == s.consecutive)
            || (e == Turn && s.low != [] && t.consecutive == 0 && t.picks == s.picks + [Pick(false, s.low[0])]
                && (s.high != [] ==> s.consecutive >= BURST))
            || (e == Turn && s.high != [] && t.consecutive == (s.consecutive + 1) % WRAP
                && t.picks == s.picks + [Pick(true, s.high[0])] && (s.low != [] ==> s.consecutive < BURST))
  {
  }

  lemma {:induction false} TakenGrows(s: State, events: seq<Event>, fromHigh: bool)
    ensures Taken(s.picks, fromHigh) <= Taken(Run(s, events).picks, fromHigh)
    ensures |s.picks| <= |Run(s, events).picks|
  {
    hide Step, Taken, TrailingHigh;
    if events != [] {
      var before := events[..|events| - 1];
      var mid := Run(s, before);
      TakenGrows(s, before, fromHigh);
      StepPicks(mid, events[|events| - 1]);
      forall p ensures Taken(mid.picks, fromHigh) <= Taken(mid.picks + [p], fromHigh) {
        PicksAppend(mid.picks, p);
      }
    }
  }

  /**
   * However producers interfere, as long as the low queue has a frame at each turn, the writer takes at
   * most 32 high frames before a low one, less those the counter already holds.
   */
  lemma {:induction false} LowWaitsForAtMostABurst(s: State, events: seq<Event>)
    requires LowAlwaysWaits(s, events)
    requires Taken(Run(s, events).picks, false) == Taken(s.picks, false)
    ensures |s.picks| <= |Run(s, events).picks|
    ensures |Run(s, events).picks| - |s.picks| <= if s.consecutive < 32 then 32 - s.consecutive else 0
    ensures Run(s, events).consecutive == s.consecutive + |Run(s, events).picks| - |s.picks|
  {
    hide Step, Taken, TrailingHigh;
    if events != [] {
      var n := |events| - 1;
      var before := events[..n];
      var mid := Run(s, before);
      assert forall i :: 0 <= i < n ==> before[..i] == events[..i];
      TakenGrows(s, before, false);
      StepPicks(mid, events[n]);
      if mid.low != [] {
        PicksAppend(mid.picks, Pick(false, mid.low[0]));
      }
      if mid.high != [] {
        PicksAppend(mid.picks, Pick(true, mid.high[0]));
      }
      LowWaitsForAtMostABurst(s, before);
    }
  }

  /** A low frame passes a waiting high frame only right after at least 32 high frames in a row. */
  lemma LowOvertakesOnlyAfterABurst(events: seq<Event>)
    requires var s := Run(Start, events);
             s.high != [] && Taken(Step(s, Turn).picks, false) != Taken(s.picks, false)
    ensures var picks := Run(Start, events).picks;
            32 <= |picks| && forall i :: |picks| - 32 <= i < |picks| ==> picks[i].fromHigh
  {
    hide Step, Taken, TrailingHigh, Run;
    RunIsConsistent(events);
    var s := Run(Start, events);
    StepPicks(s, Turn);
    PicksAppend(s.picks, Pick(true, s.high[0]));
    assert TrailingHigh(s.picks) >= BURST;
  }

  // ---- Progress ----

  function Queued(s: State): nat {
    |s.high| + |s.low|
  }

  /** The queue that is asked first, and the other one. */
  function Asked(s: State, first: bool): (seq<Frame>, bool) {
    if (s.consecutive < 32) == first then (s.high, s.highClosed) else (s.low, s.lowClosed)
  }

  /**
   * A turn of a running writer stops it exactly if the queue it asks first is closed and empty, or that one
   * has nothing yet and the other is closed and empty; it waits exactly if both are empty and open; and
   * else it takes one frame, from the queue asked first if that has one.
   */
  lemma TurnDecides(s: State)
    requires !s.stopped
    ensures var t, (first, firstClosed), (other, otherClosed) := Step(s, Turn), Asked(s, true), Asked(s, false);
            && (t.stopped <==> first == [] && (firstClosed || (other == [] && otherClosed)))
            && (t == s <==> first == [] && other == [] && !firstClosed && !otherClosed)
            && (t == s || t.stopped ==> t.picks == s.picks && t.high == s.high && t.low == s.low)
            && (t != s && !t.stopped ==>
                  || (first != [] && t.picks == s.picks + [Pick(s.consecutive < 32, first[0])])
                  || (first == [] && other != [] && t.picks == s.picks + [Pick(s.consecutive >= 32, other[0])]))
  {
  }

  /** With both queues open, a turn takes a frame whenever there is one. */
  lemma TurnMakesProgress(s: State)
    requires !s.stopped && !s.highClosed && !s.lowClosed && Queued(s) > 0
    ensures var t := Step(s, Turn);
            && |t.picks| == |s.picks| + 1 && Queued(t) == Queued(s) - 1
            && !t.stopped && !t.highClosed && !t.lowClosed
  {
  }

  function Turns(events: seq<Event>): (n: nat)
    ensures n <= |events|
  {
    if events == [] then 0
    else Turns(events[..|events| - 1]) + if events[|events| - 1] == Turn then 1 else 0
  }

  ghost predicate Emptied(s: State, events: seq<Event>) {
    exists i :: 0 <= i <= |events| && Queued(Run(s, events[..i])) == 0
  }

  /**
   * Whatever producers send meanwhile, as many turns as there are frames waiting and arriving empty both
   * queues at some moment: no frame waits for ever, in either queue.
   */
  lemma EnoughTurnsEmptyTheQueues(s: State, events: seq<Event>)
    requires !s.stopped && !s.highClosed && !s.lowClosed && CloseHigh !in events && CloseLow !in events
    requires Turns(events) >= Queued(s) + (|events| - Turns(events))
    ensures Emptied(s, events)
  {
    hide Run, Emptied;
    EmptiedOrBusy(s, events);
    if !Emptied(s, events) {
      LastMoment(s, events);
    }
  }

  lemma LastMoment(s: State, events: seq<Event>)
    requires Queued(Run(s, events)) == 0
    ensures Emptied(s, events)
  {
    assert events[..|events|] == events;
  }

  lemma {:induction false} EmptiedOrBusy(s: State, events: seq<Event>)
    requires !s.stopped && !s.highClosed && !s.lowClosed && CloseHigh !in events && CloseLow !in events
    ensures var t := Run(s, events);
            && !t.stopped && !t.highClosed && !t.lowClosed
            && (Emptied(s, events) || Queued(t) + Turns(events) == Queued(s) + (|events| - Turns(events)))
  {
    hide Step, Emptied;
    if events != [] {
      var before, e := events[..|events| - 1], events[|events| - 1];
      EmptiedOrBusy(s, before);
      var mid := Run(s, before);
      if Emptied(s, before) {
        EmptiedStays(s, events);
      }
      if Queued(mid) == 0 {
        LastMoment(s, before);
      }
      assert e in events;
      if e == Turn && Queued(mid) > 0 {
        TurnMakesProgress(mid);
      } else {
        SendOrWait(mid, e);
      }
    }
  }

  lemma SendOrWait(s: State, e: Event)
    requires !s.stopped && !s.highClosed && !s.lowClosed && e != CloseHigh && e != CloseLow
    requires e == Turn ==> Queued(s) == 0
    ensures var t := Step(s, e);
            && !t.stopped && !t.highClosed && !t.lowClosed
            && Queued(t) == Queued(s) + if e == Turn then 0 else 1
  {
  }

  lemma EmptiedStays(s: State, events: seq<Event>)
    requires events != [] && Emptied(s, events[..|events| - 1])
    ensures Emptied(s, events)
  {
    var before := events[..|events| - 1];
    var i :| 0 <= i <= |before| && Queued(Run(s, before[..i])) == 0;
    assert before[..i] == events[..i];
  }

  /** A closed high queue ends the writer although low frames wait, which are lost. */
  lemma AClosedQueueStrandsTheOther(f: Frame)
    ensures var s := Run(Start, [SendLow(f), CloseHigh, Turn]); s.stopped && s.picks == [] && s.low == [f]
  {
    var one, two, run := [SendLow(f)], [SendLow(f), CloseHigh], [SendLow(f), CloseHigh, Turn];
    assert run[..2] == two && two[..1] == one && one[..0] == [];
    assert [] + [f] == [f];
    assert Run(Start, one).low == [f];
    assert Run(Start, two).low == [f];
  }

  lemma StartOfRun()
    ensures Run(Start, []) == Start && EncodeAll(Frames(Start.picks)) == []
  {
  }

  lemma RunAppend(events: seq<Event>, e: Event)
    ensures Run(Start, events + [e]) == Step(Run(Start, events), e)
  {
    assert (events + [e])[..|events|] == events;
  }

  lemma {:induction false} StoppedStays(events: seq<Event>, n: nat)
    requires n <= |events| && Run(Start, events[..n]).stopped
    ensures Run(Start, events) == Run(Start, events[..n])
  {
    if n < |events| {
      assert events[..|events| - 1][..n] == events[..n];
      StoppedStays(events[..|events| - 1], n);
    } else {
      assert events[..n] == events;
    }
  }

  /** One of the two queues, as a receiver shared with its producers. */
  class Queue {
    var frames: seq<Frame>
    var closed: bool

    constructor ()
      ensures frames == [] && !closed
    {
      frames, closed := [], false;
    }

    method Send(f: Frame)
      modifies this
      ensures closed == old(closed)
      ensures frames == if old(closed) then old(frames) else old(frames) + [f]
    {
      if !closed {
        frames := frames + [f];
      }
    }

    method Recv() returns (f: Frame)
      requires frames != []
      modifies this
      ensures [f] + frames == old(frames) && closed == old(closed)
    {
      f, frames := frames[0], frames[1..];
    }
  }

  /** What the biased selection comes to: nothing ready, a closed queue, or a frame. */
  datatype Selection = Nothing | Closed | Picked(pick: Pick)

  ghost predicate QueuesHold(rxHigh: Queue, rxLow: Queue, s: State)
    reads rxHigh, rxLow
  {
    && rxHigh.frames == s.high && rxHigh.closed == s.highClosed
    && rxLow.frames == s.low && rxLow.closed == s.lowClosed
  }

  /** The selection of one turn, which polls the preferred queue first. */
  method Select(rxHigh: Queue, rxLow: Queue, consecutiveHigh: nat, ghost s: State)
    returns (selection: Selection, consecutive: nat)
    requires rxHigh != rxLow && !s.stopped && QueuesHold(rxHigh, rxLow, s) && consecutiveHigh == s.consecutive
    modifies rxHigh, rxLow
    ensures var t := WriterTurn(s);
            && QueuesHold(rxHigh, rxLow, t) && consecutive == t.consecutive
            && (selection.Closed? <==> t.stopped)
            && t.picks == (if selection.Picked? then s.picks + [selection.pick] else s.picks)
            && (selection.Nothing? ==> t == s)
  {
    consecutive := consecutiveHigh;
    var lowFirst := consecutiveHigh >= BURST;
    var fromHigh: bool;
    if lowFirst && (rxLow.frames != [] || rxLow.closed) {
      fromHigh := false;
    } else if rxHigh.frames != [] || rxHigh.closed {
      fromHigh := true;
    } else if rxLow.frames != [] || rxLow.closed {
      fromHigh := false;
    } else {
      return Nothing, consecutive;
    }
    if (fromHigh && rxHigh.frames == []) || (!fromHigh && rxLow.frames == []) {
      return Closed, consecutive;
    }
    var frame: Frame;
    if fromHigh {
      frame := rxHigh.Recv();
      consecutive := (consecutiveHigh + 1) % WRAP;
    } else {
      frame := rxLow.Recv();
      consecutive := 0;
    }
    selection := Picked(Pick(fromHigh, frame));
  }

  /**
   * The writer's loop under a given schedule. It ends when the schedule does, when a polled queue turns
   * out closed, or when a write fails; a failure comes with the pick of event `last`, whose frame may be
   * cut short.
   */
  method RunConnectionWriter(writer: Sink, events: seq<Event>) returns (ok: bool, ghost last: nat)
    modifies writer
    ensures ok ==> writer.written == old(writer.written) + EncodeAll(Frames(Run(Start, events).picks))
    ensures !ok ==>
      && writer.broken && last < |events| && events[last] == Turn
      && old(writer.written) + EncodeAll(Frames(Run(Start, events[..last]).picks)) <= writer.written
      && writer.written <= old(writer.written) + EncodeAll(Frames(Run(Start, events[..last + 1]).picks))
  {
    hide Encode, EncodeAll, TrailingHigh, Taken, Frames, Run, WriterTurn;
    var rxHigh := new Queue();
    var rxLow := new Queue();
    var headerBuf := new byte[6];
    var consecutiveHigh: nat := 0;
    var i := 0;
    ghost var s := Start;
    last := 0;
    StartOfRun();
    while i < |events|
      invariant i <= |events|
      invariant s == Run(Start, events[..i]) && !s.stopped
      invariant QueuesHold(rxHigh, rxLow, s) && consecutiveHigh == s.consecutive
      invariant writer.written == old(writer.written) + EncodeAll(Frames(s.picks))
      invariant fresh(rxHigh) && fresh(rxLow) && fresh(headerBuf) && rxHigh != rxLow
    {
      var event := events[i];
      ghost var next := Step(s, event);
      RunAppend(events[..i], event);
      assert events[..i] + [event] == events[..i + 1];
      match event {
        case SendHigh(f) => rxHigh.Send(f);
        case SendLow(f) => rxLow.Send(f);
        case CloseHigh => rxHigh.closed := true;
        case CloseLow => rxLow.closed := true;
        case Turn =>
          var selection;
          selection, consecutiveHigh := Select(rxHigh, rxLow, consecutiveHigh, s);
          if selection.Closed? {
            StoppedStays(events, i + 1);
            return true, i;
          }
          if selection.Picked? {
            PicksAppend(s.picks, selection.pick);
            EncodeAllAppend(Frames(s.picks), selection.pick.frame);
            ok := WriteFrame(writer, selection.pick.frame, headerBuf);
            if !ok {
              last := i;
              return;
            }
          }
      }
      s := next;
      i := i + 1;
    }
    assert events[..i] == events;
    ok := true;
  }
}
