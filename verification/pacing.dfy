/**
 * The rate limiter's virtual clock. Each chunk moves the next permitted send instant on by the time the
 * chunk takes at the limit; a sender more than 10 ms late starts again from now. Times are exact seconds.
 */
module Pacing {

  const SLACK: real := 0.01

  /** What happened to one chunk: its size, the clock read before sending, the send instant, the write. */
  datatype Chunk = Chunk(size: nat, now: real, nextSend: real, written: real)

  function Advance(nextSend: real, size: nat, limit: nat, now: real): real
    requires limit > 0
  {
    var next := nextSend + size as real / limit as real;
    if next <= now && now - next > SLACK then now else next
  }

  function Total(chunks: seq<Chunk>): nat {
    if chunks == [] then 0 else Total(chunks[..|chunks| - 1]) + chunks[|chunks| - 1].size
  }

  function LastSend(start: real, chunks: seq<Chunk>): real {
    if chunks == [] then start else chunks[|chunks| - 1].nextSend
  }

  function LastInstant(start: real, chunks: seq<Chunk>): real {
    if chunks == [] then start else chunks[|chunks| - 1].written
  }

  /** One chunk's timing is what the limiter does: monotone clock readings, and no sleep ends early. */
  ghost predicate Timed(start: real, limit: nat, before: seq<Chunk>, c: Chunk)
    requires limit > 0
  {
    && LastInstant(start, before) <= c.now <= c.written
    && c.nextSend == Advance(LastSend(start, before), c.size, limit, c.now)
    && c.nextSend <= c.written
  }

  /** A history of the limiter. */
  ghost predicate Paced(start: real, limit: nat, chunks: seq<Chunk>)
    requires limit > 0
  {
    chunks == [] ||
    (Paced(start, limit, chunks[..|chunks| - 1])
     && Timed(start, limit, chunks[..|chunks| - 1], chunks[|chunks| - 1]))
  }

  lemma SendTime(size: nat, limit: nat)
    requires limit > 0
    ensures limit as real * (size as real / limit as real) == size as real
  {
  }

  lemma Scale(limit: nat, a: real, b: real)
    requires limit > 0 && a <= b
    ensures limit as real * a <= limit as real * b
  {
  }

  /** The send instant keeps up with the bytes: it moves at least as far as they take at the limit. */
  lemma AdvanceCoversChunk(nextSend: real, size: nat, limit: nat, now: real)
    requires limit > 0
    ensures limit as real * Advance(nextSend, size, limit, now) >= limit as real * nextSend + size as real
    ensures Advance(nextSend, size, limit, now) >= now - SLACK
  {
    var step := size as real / limit as real;
    SendTime(size, limit);
    Scale(limit, nextSend + step, Advance(nextSend, size, limit, now));
    assert limit as real * (nextSend + step) == limit as real * nextSend + limit as real * step;
  }

  lemma {:induction false} SendCoversPrefix(start: real, limit: nat, chunks: seq<Chunk>, i: nat)
    requires limit > 0 && Paced(start, limit, chunks) && i <= |chunks|
    ensures limit as real * LastSend(start, chunks) >=
            limit as real * LastSend(start, chunks[..i]) + (Total(chunks) - Total(chunks[..i])) as real
  {
    hide Advance;
    var n := |chunks| - 1;
    if i <= n {
      var before := chunks[..n];
      assert before[..i] == chunks[..i];
      SendCoversPrefix(start, limit, before, i);
      AdvanceCoversChunk(LastSend(start, before), chunks[n].size, limit, chunks[n].now);
    } else {
      assert chunks[..i] == chunks;
    }
  }

  /**
   * The bound from the start of the connection: at every write instant, the bytes written so far are at
   * most the limit times the time since the start.
   */
  lemma RateBound(start: real, limit: nat, chunks: seq<Chunk>)
    requires limit > 0 && Paced(start, limit, chunks) && chunks != []
    ensures Total(chunks) as real <= limit as real * (chunks[|chunks| - 1].written - start)
  {
    hide Advance;
    SendCoversPrefix(start, limit, chunks, 0);
    Scale(limit, LastSend(start, chunks), chunks[|chunks| - 1].written);
  }

  /**
   * The bound over any window: the bytes of the chunks after chunk i up to chunk j are at most the limit
   * times the time from reading the clock for i to writing j, plus 10 ms.
   */
  lemma WindowBound(start: real, limit: nat, chunks: seq<Chunk>, i: nat)
    requires limit > 0 && Paced(start, limit, chunks) && i < |chunks|
    ensures (Total(chunks) - Total(chunks[..i + 1])) as real <=
            limit as real * (chunks[|chunks| - 1].written - chunks[i].now + 0.01)
  {
    hide Advance, Paced, Total;
    var last, now := chunks[|chunks| - 1].written, chunks[i].now;
    SendCoversPrefix(start, limit, chunks, i + 1);
    SentAfterReading(start, limit, chunks, i);
    PacedEnd(start, limit, chunks);
    Scale(limit, LastSend(start, chunks), last);
    Scale(limit, now - SLACK, chunks[i].nextSend);
    assert LastSend(start, chunks[..i + 1]) == chunks[i].nextSend;
    Distribute(limit, last, now - SLACK, last - now + SLACK);
    var l, d := limit as real, (Total(chunks) - Total(chunks[..i + 1])) as real;
    assert l * LastSend(start, chunks) >= l * chunks[i].nextSend + d;
    assert l * (last - now + SLACK) >= d;
  }

  lemma Distribute(limit: nat, a: real, b: real, c: real)
    requires c == a - b
    ensures limit as real * c == limit as real * a - limit as real * b
  {
  }

  lemma PacedEnd(start: real, limit: nat, chunks: seq<Chunk>)
    requires limit > 0 && Paced(start, limit, chunks) && chunks != []
    ensures LastSend(start, chunks) <= chunks[|chunks| - 1].written
  {
    hide Advance;
  }

  /** No chunk is sent more than 10 ms earlier than its clock reading. */
  lemma SentAfterReading(start: real, limit: nat, chunks: seq<Chunk>, i: nat)
    requires limit > 0 && Paced(start, limit, chunks) && i < |chunks|
    ensures chunks[i].nextSend >= chunks[i].now - SLACK
  {
    hide Advance;
    PacedPrefix(start, limit, chunks, i + 1);
    var upToI := chunks[..i + 1];
    AdvanceCoversChunk(LastSend(start, upToI[..i]), chunks[i].size, limit, chunks[i].now);
  }

  lemma {:induction false} PacedPrefix(start: real, limit: nat, chunks: seq<Chunk>, i: nat)
    requires limit > 0 && Paced(start, limit, chunks) && i <= |chunks|
    ensures Paced(start, limit, chunks[..i])
  {
    if i < |chunks| {
      PacedPrefix(start, limit, chunks[..|chunks| - 1], i);
      assert chunks[..|chunks| - 1][..i] == chunks[..i];
    } else {
      assert chunks[..i] == chunks;
    }
  }

  /** When the send instant would be, from the last one and the chunk's size alone. */
  function Due(start: real, limit: nat, before: seq<Chunk>, c: Chunk): real
    requires limit > 0
  {
    LastSend(start, before) + c.size as real / limit as real
  }

  /** A chunk that is due more than 10 ms before it is looked at starts again from then, and no other does. */
  lemma LateSendersStartAgain(start: real, limit: nat, before: seq<Chunk>, c: Chunk)
    requires limit > 0 && Timed(start, limit, before, c)
    ensures c.nextSend == if c.now - Due(start, limit, before, c) > 0.01 then c.now else Due(start, limit, before, c)
  {
  }

  /** No chunk of the history is looked at more than 10 ms after it was due. */
  ghost predicate Punctual(start: real, limit: nat, chunks: seq<Chunk>)
    requires limit > 0
  {
    forall i :: 0 <= i < |chunks| ==> chunks[i].now - Due(start, limit, chunks[..i], chunks[i]) <= 0.01
  }

  /**
   * The limiter costs no throughput: as long as the sender is never more than 10 ms late, the send instant is
   * exactly as far from the start as all its bytes take at the limit.
   */
  lemma {:induction false} NoTimeIsLost(start: real, limit: nat, chunks: seq<Chunk>)
    requires limit > 0 && Paced(start, limit, chunks) && Punctual(start, limit, chunks)
    ensures limit as real * (LastSend(start, chunks) - start) == Total(chunks) as real
  {
    hide Advance, Timed, Due, Total, LastSend, Punctual;
    if chunks == [] {
      NothingSent(start);
    } else {
      var before, c := chunks[..|chunks| - 1], chunks[|chunks| - 1];
      PunctualStep(start, limit, chunks);
      NoTimeIsLost(start, limit, before);
      Extend(limit, LastSend(start, before) - start, Total(before), c.size);
    }
  }

  lemma NothingSent(start: real)
    ensures LastSend(start, []) == start && Total([]) == 0
  {
  }

  lemma PunctualStep(start: real, limit: nat, chunks: seq<Chunk>)
    requires limit > 0 && chunks != [] && Paced(start, limit, chunks) && Punctual(start, limit, chunks)
    ensures var before, c := chunks[..|chunks| - 1], chunks[|chunks| - 1];
            && Punctual(start, limit, before) && Total(chunks) == Total(before) + c.size
            && LastSend(start, chunks) == LastSend(start, before) + c.size as real / limit as real
  {
    hide Advance, Timed;
    var before, c := chunks[..|chunks| - 1], chunks[|chunks| - 1];
    assert forall i :: 0 <= i < |before| ==> before[..i] == chunks[..i];
    LateSendersStartAgain(start, limit, before, c);
  }

  lemma Extend(limit: nat, time: real, total: nat, size: nat)
    requires limit > 0 && limit as real * time == total as real
    ensures limit as real * (time + size as real / limit as real) == (total + size) as real
  {
    var step := size as real / limit as real;
    SendTime(size, limit);
    assert limit as real * (time + step) == limit as real * time + limit as real * step;
  }

  /** A chunk: the most whole bytes that 5 ms allow, within bounds that depend on the limit. */
  function MaxChunk(limit: nat): (n: nat)
    ensures 256 <= n <= 65536
    ensures limit < 1_250_000 ==> n <= 4096
    ensures limit < 12_500_000 ==> n <= 16384
    ensures n > 256 ==> 200 * n <= limit
    ensures n < (if limit < 1_250_000 then 4096 else if limit < 12_500_000 then 16384 else 65536) ==> limit < 200 * (n + 1)
  {
    var perInterval := limit * 5_000_000 / 1_000_000_000;
    var bound := if limit < 1_250_000 then 4096 else if limit < 12_500_000 then 16384 else 65536;
    if perInterval < 256 then 256 else if perInterval > bound then bound else perInterval
  }
}
