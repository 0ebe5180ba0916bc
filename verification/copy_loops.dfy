/**
 * The one-way copy loops of a proxied connection and what they account: bytes written, the connection's
 * and the user's traffic counters, and the user's remaining budget.
 */
module CopyLoops {
  import opened Bytes
  import opened Clocks
  import opened Options
  import opened Sockets
  import opened Quota
  import Pacing

  const COMMIT_AT := 1048576

  datatype IoError = IoError

  class Counter {
    var value: nat

    constructor ()
      ensures value == 0
    {
      value := 0;
    }
  }

  class UserStats {
    var rx: nat
    var tx: nat
    const remainingBytes: AtomicI64

    constructor (rx: nat, tx: nat, remainingBytes: AtomicI64)
      ensures this.rx == rx && this.tx == tx && this.remainingBytes == remainingBytes
    {
      this.rx, this.tx, this.remainingBytes := rx, tx, remainingBytes;
    }
  }

  /** How much of `len` bytes a user may still move: all of it without a user, nothing of a spent budget. */
  function Allowance(limited: bool, budget: int, len: nat): nat {
    if !limited then len else if budget <= 0 then 0 else Min(len, budget)
  }

  /** The numbers one direction of a connection books into; zeros for a missing user. */
  datatype Books = Books(connection: nat, user: nat, other: nat, budget: int)

  ghost function Accounts(connection: Counter, user: UserStats?, isRx: bool): Books
    reads connection, user, if user == null then {} else {user.remainingBytes}
  {
    if user == null then Books(connection.value, 0, 0, 0)
    else if isRx then Books(connection.value, user.rx, user.tx, user.remainingBytes.value)
    else Books(connection.value, user.tx, user.rx, user.remainingBytes.value)
  }

  /** The books with `n` more bytes in the counters. */
  function Booked(books: Books, limited: bool, n: nat): Books {
    books.(connection := books.connection + n, user := if limited then books.user + n else books.user)
  }

  /** Moves what has been copied since the last commit into the counters. */
  method Commit(connection: Counter, user: UserStats?, isRx: bool, bytesCopied: nat)
    modifies connection, user
    ensures var before := old(Accounts(connection, user, isRx));
            Accounts(connection, user, isRx) == Booked(before, user != null, bytesCopied)
  {
    connection.value := connection.value + bytesCopied;
    if user != null {
      if isRx {
        user.rx := user.rx + bytesCopied;
      } else {
        user.tx := user.tx + bytesCopied;
      }
    }
  }

  /** What has been copied is in the counters or waits for the next commit, and has left the budget. */
  ghost predicate Balanced(before: Books, now: Books, limited: bool, total: nat, waiting: nat) {
    && waiting <= total && now.connection + waiting == before.connection + total
    && (limited ==>
          && now.user + waiting == before.user + total && now.other == before.other
          && now.budget == before.budget - total && (total > 0 ==> total <= before.budget))
    && (!limited ==> now.user == now.other == now.budget == 0)
  }

  /** Everything moved has been booked: both counters rose, and the budget fell, by exactly that much. */
  ghost predicate Settled(before: Books, after: Books, limited: bool, moved: nat) {
    && after.connection == before.connection + moved
    && (limited ==>
          after.user == before.user + moved && after.other == before.other && after.budget == before.budget - moved)
  }

  /**
   * The next bytes of a connection that the quota admits: read, and cut to what the budget grants. None
   * are left to admit after a cut, and what was moved in all is then what the budget allowed.
   */
  method ReadAdmitted(reader: Source, max: nat, connection: Counter, user: UserStats?, isRx: bool,
                      ghost before: Books, ghost total: nat, ghost waiting: nat)
    returns (r: Result<bytes, IoError>, cut: bool)
    requires max > 0
    requires Balanced(before, Accounts(connection, user, isRx), user != null, total, waiting)
    modifies reader, if user == null then {} else {user.remainingBytes}
    ensures r.Err? ==> Balanced(before, Accounts(connection, user, isRx), user != null, total, waiting)
    ensures r.Err? ==> !reader.clean && reader.data == []
    ensures r.Ok? ==>
      && var moved := |r.value|;
      && r.value <= old(reader.data) && moved <= max
      && Balanced(before, Accounts(connection, user, isRx), user != null, total + moved, waiting + moved)
      && (cut ==> total + moved == Allowance(user != null, before.budget, total + |old(reader.data)|))
      && (!cut ==> 0 < moved && r.value + reader.data == old(reader.data))
  {
    cut := true;
    if user != null && user.remainingBytes.value <= 0 {
      return Ok([]), true;
    }
    var ok, chunk := reader.Read(max);
    if !ok {
      return Err(IoError), true;
    }
    if chunk == [] {
      return Ok([]), true;
    }
    var allowedToWrite := |chunk|;
    if user != null {
      allowedToWrite := ReserveQuota(user.remainingBytes, |chunk|);
    }
    r, cut := Ok(chunk[..allowedToWrite]), allowedToWrite < |chunk|;
  }

  /** Commits when a megabyte has gathered or half a second has passed. */
  method CommitIfDue(connection: Counter, user: UserStats?, isRx: bool, accumulated: nat,
                     ghost before: Books, ghost total: nat)
    returns (left: nat)
    requires Balanced(before, Accounts(connection, user, isRx), user != null, total, accumulated)
    modifies connection, user
    ensures Balanced(before, Accounts(connection, user, isRx), user != null, total, left) && left < 1048576
  {
    left := accumulated;
    var halfSecondPassed: bool := *;
    if accumulated >= COMMIT_AT || halfSecondPassed {
      Commit(connection, user, isRx, accumulated);
      left := 0;
    }
  }

  method CommitRest(connection: Counter, user: UserStats?, isRx: bool, accumulated: nat,
                    ghost before: Books, ghost total: nat)
    requires Balanced(before, Accounts(connection, user, isRx), user != null, total, accumulated)
    modifies connection, user
    ensures Balanced(before, Accounts(connection, user, isRx), user != null, total, 0)
  {
    if accumulated > 0 {
      Commit(connection, user, isRx, accumulated);
    }
  }

  /** Writes the next bytes of `data` after the first `total` of them. */
  method WriteNext(writer: Sink, chunk: bytes, ghost start: bytes, ghost data: bytes, ghost total: nat)
    returns (ok: bool)
    requires total <= |data| && chunk <= data[total..] && writer.written == start + data[..total]
    modifies writer
    ensures ok ==> writer.written == start + data[..total + |chunk|]
    ensures |writer.written| <= |start| + total + |chunk|
    ensures start <= writer.written <= start + data
    ensures !ok ==> writer.broken
  {
    ok := writer.WriteAll(chunk);
    assert data[..total] + chunk == data[..total + |chunk|];
    assert start + data[..total] + chunk + data[total + |chunk|..] == start + data;
  }

  /** The write of an admitted chunk and the commit that may be due after it. */
  method WriteAndBook(writer: Sink, chunk: bytes, connection: Counter, user: UserStats?, isRx: bool, accumulated: nat,
                      ghost start: bytes, ghost data: bytes, ghost before: Books, ghost total: nat)
    returns (ok: bool, left: nat)
    requires total <= |data| && chunk <= data[total..] && writer.written == start + data[..total]
    requires Balanced(before, Accounts(connection, user, isRx), user != null, total + |chunk|, accumulated + |chunk|)
    modifies writer, connection, user
    ensures ok ==> writer.written == start + data[..total + |chunk|]
    ensures |writer.written| <= |start| + total + |chunk|
    ensures start <= writer.written <= start + data
    ensures !ok ==> writer.broken
    ensures Balanced(before, Accounts(connection, user, isRx), user != null, total + |chunk|, left)
    ensures if ok then left < 1048576 else left == accumulated + |chunk|
  {
    hide Balanced, Accounts;
    ok := WriteNext(writer, chunk, start, data, total);
    left := accumulated + |chunk|;
    if ok {
      left := CommitIfDue(connection, user, isRx, left, before, total + |chunk|);
    }
  }

  /** Copying starts with balanced books. */
  lemma BooksOpen(connection: Counter, user: UserStats?, isRx: bool)
    ensures var now := Accounts(connection, user, isRx); Balanced(now, now, user != null, 0, 0)
  {
  }

  /** Which counters the books are: the direction's own, the other one's, the connection's, and the budget. */
  lemma AccountsAre(connection: Counter, user: UserStats?, isRx: bool)
    ensures var books := Accounts(connection, user, isRx);
            && books.connection == connection.value
            && (user != null && isRx ==> books.user == user.rx && books.other == user.tx)
            && (user != null && !isRx ==> books.user == user.tx && books.other == user.rx)
            && (user != null ==> books.budget == user.remainingBytes.value)
  {
  }

  lemma SettledMeans(before: Books, after: Books, limited: bool, moved: nat)
    requires Settled(before, after, limited, moved)
    ensures after.connection == before.connection + moved
    ensures limited ==>
      after.user == before.user + moved && after.other == before.other && after.budget == before.budget - moved
  {
  }

  /** What a budget allows of `len` bytes: nothing if it is spent or unlimited by mark, else the smaller of the two. */
  lemma AllowanceIs(budget: int, len: nat)
    ensures Allowance(false, budget, len) == len
    ensures budget <= 0 ==> Allowance(true, budget, len) == 0
    ensures 0 < budget <= len ==> Allowance(true, budget, len) == budget
    ensures len <= budget ==> Allowance(true, budget, len) == len
  {
  }

  lemma BooksMeaning(before: Books, now: Books, limited: bool, total: nat, waiting: nat)
    requires Balanced(before, now, limited, total, waiting)
    ensures waiting <= total
    ensures waiting == 0 ==> Settled(before, now, limited, total)
    ensures limited ==>
      0 <= now.connection - before.connection == now.user - before.user == before.budget - now.budget - waiting
  {
  }

  /** The end of a copy loop: the last commit, and the shutdown of the writer. */
  method Finish(writer: Sink, connection: Counter, user: UserStats?, isRx: bool, totalBytes: nat, accumulated: nat,
                ghost before: Books)
    returns (r: Result<nat, IoError>)
    requires Balanced(before, Accounts(connection, user, isRx), user != null, totalBytes, accumulated)
    modifies writer`broken, connection, user
    ensures r.Ok? ==> r.value == totalBytes
    ensures r.Err? ==> writer.broken
    ensures Settled(before, Accounts(connection, user, isRx), user != null, totalBytes)
    ensures var after := Accounts(connection, user, isRx);
            user != null ==> 0 <= after.connection - before.connection == after.user - before.user == before.budget - after.budget
    ensures connection.value == before.connection + totalBytes
    ensures user != null ==> user.remainingBytes.value == before.budget - totalBytes
    ensures user != null && isRx ==> user.rx == before.user + totalBytes && user.tx == before.other
    ensures user != null && !isRx ==> user.tx == before.user + totalBytes && user.rx == before.other
  {
    hide Accounts, Balanced, Settled;
    CommitRest(connection, user, isRx, accumulated, before, totalBytes);
    BooksMeaning(before, Accounts(connection, user, isRx), user != null, totalBytes, 0);
    AccountsAre(connection, user, isRx);
    SettledMeans(before, Accounts(connection, user, isRx), user != null, totalBytes);
    var shutdown := writer.Shutdown();
    r := if shutdown then Ok(totalBytes) else Err(IoError);
  }

  /** The commit that may be due, where there is no budget. */
  method BookIfDue(connection: Counter, user: UserStats?, isRx: bool, accumulated: nat, ghost before: Books, ghost total: nat)
    returns (left: nat)
    requires accumulated <= total && Accounts(connection, user, isRx) == Booked(before, user != null, total - accumulated)
    modifies connection, user
    ensures left <= total && Accounts(connection, user, isRx) == Booked(before, user != null, total - left)
  {
    hide Accounts;
    left := accumulated;
    var halfSecondPassed: bool := *;
    if accumulated >= COMMIT_AT || halfSecondPassed {
      Commit(connection, user, isRx, accumulated);
      left := 0;
    }
  }

  /** The copy loop without a quota: it moves everything, and both counters rise by just that much. */
  method CopyOneWayUnlimited(reader: Source, writer: Sink, connection: Counter, user: UserStats?, isRx: bool)
    returns (r: Result<nat, IoError>)
    modifies reader, writer, connection, user
    ensures r.Ok? ==>
      && r.value == |old(reader.data)| && writer.written == old(writer.written) + old(reader.data)
      && Accounts(connection, user, isRx) == Booked(old(Accounts(connection, user, isRx)), user != null, r.value)
    ensures old(writer.written) <= writer.written <= old(writer.written) + old(reader.data)
    ensures r.Err? ==> writer.broken || (!reader.clean && reader.data == [])
    ensures r.Ok? && user != null && isRx ==> user.rx == old(user.rx) + r.value && user.tx == old(user.tx)
    ensures r.Ok? && user != null && !isRx ==> user.tx == old(user.tx) + r.value && user.rx == old(user.rx)
    ensures r.Ok? ==> connection.value == old(connection.value) + r.value
  {
    hide Accounts;
    var totalBytes: nat, accumulatedBytes: nat := 0, 0;
    ghost var data, before := reader.data, Accounts(connection, user, isRx);
    AccountsAre(connection, user, isRx);
    BooksOpen(connection, user, isRx);
    while true
      invariant totalBytes <= |data| && reader.data == data[totalBytes..] && accumulatedBytes <= totalBytes
      invariant writer.written == old(writer.written) + data[..totalBytes]
      invariant Accounts(connection, user, isRx) == Booked(before, user != null, totalBytes - accumulatedBytes)
      decreases |reader.data|
    {
      var ok, chunk := reader.Read(32768);
      if !ok {
        return Err(IoError);
      }
      if chunk == [] {
        break;
      }
      ok := WriteNext(writer, chunk, old(writer.written), data, totalBytes);
      if !ok {
        return Err(IoError);
      }
      totalBytes := totalBytes + |chunk|;
      accumulatedBytes := BookIfDue(connection, user, isRx, accumulatedBytes + |chunk|, before, totalBytes);
    }
    if accumulatedBytes > 0 {
      Commit(connection, user, isRx, accumulatedBytes);
    }
    assert data[..totalBytes] == data;
    AccountsAre(connection, user, isRx);
    var shutdown := writer.Shutdown();
    r := if shutdown then Ok(totalBytes) else Err(IoError);
  }

  /**
   * The copy loop under a quota. On success, as the only user of the budget, it has written exactly the
   * first bytes of its input the budget allowed, and its result, both counters' rise and the budget's
   * drop are that one number, whatever the reads and the commit times. However it ends, the budget fell
   * by at least what the counters rose, and both counters rose alike.
   */
  method CopyOneWayFast(reader: Source, writer: Sink, connection: Counter, user: UserStats?, isRx: bool)
    returns (r: Result<nat, IoError>)
    modifies reader, writer, connection, user, if user == null then {} else {user.remainingBytes}
    ensures r.Ok? ==>
      && r.value == Allowance(user != null, old(Accounts(connection, user, isRx)).budget, |old(reader.data)|)
      && r.value <= |old(reader.data)|
      && writer.written == old(writer.written) + old(reader.data)[..r.value]
      && Settled(old(Accounts(connection, user, isRx)), Accounts(connection, user, isRx), user != null, r.value)
    ensures var before, after := old(Accounts(connection, user, isRx)), Accounts(connection, user, isRx);
            user != null ==>
              && 0 <= after.connection - before.connection == after.user - before.user <= before.budget - after.budget
              && before.budget - after.budget - (after.user - before.user) < 1048576 + 32768
    ensures old(writer.written) <= writer.written <= old(writer.written) + old(reader.data)
    ensures r.Err? ==> writer.broken || (!reader.clean && reader.data == [])
    ensures r.Ok? && user != null && isRx ==> user.rx == old(user.rx) + r.value && user.tx == old(user.tx)
    ensures r.Ok? && user != null && !isRx ==> user.tx == old(user.tx) + r.value && user.rx == old(user.rx)
    ensures r.Ok? ==> connection.value == old(connection.value) + r.value
    ensures r.Ok? && user != null ==> user.remainingBytes.value == old(user.remainingBytes.value) - r.value
  {
    hide Accounts, Balanced, Allowance, Settled;
    var totalBytes: nat, accumulatedBytes: nat := 0, 0;
    ghost var data, before := reader.data, Accounts(connection, user, isRx);
    AccountsAre(connection, user, isRx);
    BooksOpen(connection, user, isRx);
    var cut := false;
    while !cut
      invariant totalBytes <= |data| && (!cut ==> reader.data == data[totalBytes..])
      invariant cut ==> totalBytes == Allowance(user != null, before.budget, |data|)
      invariant writer.written == old(writer.written) + data[..totalBytes]
      invariant accumulatedBytes < 1048576
      invariant Balanced(before, Accounts(connection, user, isRx), user != null, totalBytes, accumulatedBytes)
      decreases !cut, |reader.data|
    {
      var chunk;
      chunk, cut := ReadAdmitted(reader, 32768, connection, user, isRx, before, totalBytes, accumulatedBytes);
      if chunk.Err? {
        BooksMeaning(before, Accounts(connection, user, isRx), user != null, totalBytes, accumulatedBytes);
        return Err(IoError);
      }
      if chunk.value == [] {
        break;
      }
      var ok;
      ok, accumulatedBytes := WriteAndBook(writer, chunk.value, connection, user, isRx, accumulatedBytes,
                                           old(writer.written), data, before, totalBytes);
      totalBytes := totalBytes + |chunk.value|;
      if !ok {
        BooksMeaning(before, Accounts(connection, user, isRx), user != null, totalBytes, accumulatedBytes);
        return Err(IoError);
      }
    }
    r := Finish(writer, connection, user, isRx, totalBytes, accumulatedBytes, before);
  }

  lemma NoChunks(start: real, limit: nat, max: nat)
    requires limit > 0
    ensures OnSchedule(start, limit, [], max, 0, start, start)
  {
  }

  lemma AdvanceIs(nextSend: real, size: nat, limit: nat, now: real)
    requires limit > 0
    ensures var next := nextSend + size as real / limit as real;
            Pacing.Advance(nextSend, size, limit, now) == if next <= now && now - next > Pacing.SLACK then now else next
  {
  }

  lemma AddChunk(start: real, limit: nat, chunks: seq<Pacing.Chunk>, c: Pacing.Chunk)
    requires limit > 0 && Pacing.Paced(start, limit, chunks) && Pacing.Timed(start, limit, chunks, c)
    ensures Pacing.LastSend(start, chunks + [c]) == c.nextSend && Pacing.LastInstant(start, chunks + [c]) == c.written
    ensures Pacing.Paced(start, limit, chunks + [c]) && Pacing.Total(chunks + [c]) == Pacing.Total(chunks) + c.size
  {
    assert (chunks + [c])[..|chunks|] == chunks;
  }

  /** A history of the rate limiter that has come to this point, with no chunk above `max`. */
  ghost predicate OnSchedule(start: real, limit: nat, chunks: seq<Pacing.Chunk>, max: nat,
                             total: nat, nextSend: real, time: real)
  {
    && limit > 0 && Pacing.Paced(start, limit, chunks) && Pacing.Total(chunks) == total
    && nextSend == Pacing.LastSend(start, chunks) && Pacing.LastInstant(start, chunks) <= time
    && forall c :: c in chunks ==> c.size <= max
  }

  lemma ScheduleMeaning(start: real, limit: nat, chunks: seq<Pacing.Chunk>, max: nat,
                        total: nat, nextSend: real, time: real)
    requires OnSchedule(start, limit, chunks, max, total, nextSend, time)
    ensures limit > 0 && Pacing.Paced(start, limit, chunks) && Pacing.Total(chunks) == total
    ensures forall c :: c in chunks ==> c.size <= max
  {
  }

  /**
   * The pause before a chunk is written: the virtual clock moves on, and the sender waits for it or, when
   * more than 10 ms late, starts again from now.
   */
  method Pause(limit: nat, size: nat, clock: Clock, nextSend: real,
               ghost start: real, ghost chunks: seq<Pacing.Chunk>, ghost max: nat, ghost total: nat)
    returns (next: real, ghost sent: seq<Pacing.Chunk>)
    requires limit > 0 && size <= max && OnSchedule(start, limit, chunks, max, total, nextSend, clock.time)
    modifies clock
    ensures OnSchedule(start, limit, sent, max, total + size, next, clock.time)
  {
    hide Pacing.Total, Pacing.Advance, Pacing.Paced;
    next := nextSend + size as real / limit as real;
    var now := clock.Now();
    AdvanceIs(nextSend, size, limit, now);
    if next > now {
      clock.SleepUntil(next);
    } else if now - next > Pacing.SLACK {
      next := now;
    }
    ghost var c := Pacing.Chunk(size, now, next, clock.time);
    AddChunk(start, limit, chunks, c);
    sent := chunks + [c];
  }

  /** The pause, the write and the booking of one admitted chunk. */
  method SendPaced(
    writer: Sink, chunk: bytes, limit: nat, connection: Counter, user: UserStats?, isRx: bool, clock: Clock,
    nextSend: real, accumulated: nat, ghost start: real, ghost chunks: seq<Pacing.Chunk>, ghost max: nat,
    ghost old_: bytes, ghost data: bytes, ghost before: Books, ghost total: nat)
    returns (ok: bool, next: real, left: nat, ghost sent: seq<Pacing.Chunk>)
    requires |chunk| <= max && OnSchedule(start, limit, chunks, max, total, nextSend, clock.time)
    requires total <= |data| && chunk <= data[total..] && writer.written == old_ + data[..total]
    requires Balanced(before, Accounts(connection, user, isRx), user != null, total + |chunk|, accumulated + |chunk|)
    modifies clock, writer, connection, user
    ensures OnSchedule(start, limit, sent, max, total + |chunk|, next, clock.time)
    ensures ok ==> writer.written == old_ + data[..total + |chunk|]
    ensures |writer.written| <= |old_| + total + |chunk| && old_ <= writer.written <= old_ + data
    ensures !ok ==> writer.broken
    ensures Balanced(before, Accounts(connection, user, isRx), user != null, total + |chunk|, left)
    ensures if ok then left < 1048576 else left == accumulated + |chunk|
  {
    hide Accounts, Balanced, OnSchedule;
    ScheduleMeaning(start, limit, chunks, max, total, nextSend, clock.time);
    next, sent := Pause(limit, |chunk|, clock, nextSend, start, chunks, max, total);
    ok, left := WriteAndBook(writer, chunk, connection, user, isRx, accumulated, old_, data, before, total);
  }

  /**
   * The copy loop under a rate limit: the same accounting, in chunks of bounded size, and a history of
   * send times that obeys the virtual clock, so that its bounds hold for every run. The unlimited mark
   * is a spent budget here.
   */
  method CopyOneWayRateLimited(
    reader: Source, writer: Sink, limit: nat, connection: Counter, user: UserStats?, isRx: bool, clock: Clock)
    returns (r: Result<nat, IoError>, ghost start: real, ghost chunks: seq<Pacing.Chunk>)
    requires limit > 0
    modifies reader, writer, connection, clock, user, if user == null then {} else {user.remainingBytes}
    ensures old(clock.time) <= start && Pacing.Paced(start, limit, chunks)
    ensures forall c :: c in chunks ==> c.size <= Pacing.MaxChunk(limit)
    ensures r.Ok? ==>
      && r.value == Allowance(user != null, old(Accounts(connection, user, isRx)).budget, |old(reader.data)|)
      && r.value == Pacing.Total(chunks) && r.value <= |old(reader.data)|
      && writer.written == old(writer.written) + old(reader.data)[..r.value]
      && Settled(old(Accounts(connection, user, isRx)), Accounts(connection, user, isRx), user != null, r.value)
    ensures |writer.written| <= |old(writer.written)| + Pacing.Total(chunks)
    ensures var before, after := old(Accounts(connection, user, isRx)), Accounts(connection, user, isRx);
            user != null ==>
              && 0 <= after.connection - before.connection == after.user - before.user <= before.budget - after.budget
              && before.budget - after.budget - (after.user - before.user) < 1048576 + 65536
    ensures old(writer.written) <= writer.written <= old(writer.written) + old(reader.data)
    ensures r.Err? ==> writer.broken || (!reader.clean && reader.data == [])
    ensures r.Ok? && user != null && isRx ==> user.rx == old(user.rx) + r.value && user.tx == old(user.tx)
    ensures r.Ok? && user != null && !isRx ==> user.tx == old(user.tx) + r.value && user.rx == old(user.rx)
    ensures r.Ok? ==> connection.value == old(connection.value) + r.value
    ensures r.Ok? && user != null ==> user.remainingBytes.value == old(user.remainingBytes.value) - r.value
  {
    hide Accounts, Balanced, Allowance, Settled, Pacing.Total, Pacing.MaxChunk, Pacing.Paced, Pacing.Advance, OnSchedule;
    var totalBytes: nat, accumulatedBytes: nat := 0, 0;
    ghost var data, before := reader.data, Accounts(connection, user, isRx);
    AccountsAre(connection, user, isRx);
    BooksOpen(connection, user, isRx);
    var maxChunk := Pacing.MaxChunk(limit);
    var nextSend := clock.Now();
    start, chunks := nextSend, [];
    NoChunks(start, limit, maxChunk);
    var cut := false;
    while !cut
      invariant totalBytes <= |data| && (!cut ==> reader.data == data[totalBytes..])
      invariant cut ==> totalBytes == Allowance(user != null, before.budget, |data|)
      invariant writer.written == old(writer.written) + data[..totalBytes]
      invariant accumulatedBytes < 1048576
      invariant Balanced(before, Accounts(connection, user, isRx), user != null, totalBytes, accumulatedBytes)
      invariant OnSchedule(start, limit, chunks, maxChunk, totalBytes, nextSend, clock.time)
      decreases !cut, |reader.data|
    {
      var chunk;
      chunk, cut := ReadAdmitted(reader, maxChunk, connection, user, isRx, before, totalBytes, accumulatedBytes);
      if chunk.Err? {
        ScheduleMeaning(start, limit, chunks, maxChunk, totalBytes, nextSend, clock.time);
        BooksMeaning(before, Accounts(connection, user, isRx), user != null, totalBytes, accumulatedBytes);
        return Err(IoError), start, chunks;
      }
      if chunk.value == [] {
        break;
      }
      var ok;
      ok, nextSend, accumulatedBytes, chunks := SendPaced(
        writer, chunk.value, limit, connection, user, isRx, clock, nextSend, accumulatedBytes, start, chunks, maxChunk,
        old(writer.written), data, before, totalBytes);
      totalBytes := totalBytes + |chunk.value|;
      if !ok {
        ScheduleMeaning(start, limit, chunks, maxChunk, totalBytes, nextSend, clock.time);
        BooksMeaning(before, Accounts(connection, user, isRx), user != null, totalBytes, accumulatedBytes);
        return Err(IoError), start, chunks;
      }
    }
    ScheduleMeaning(start, limit, chunks, maxChunk, totalBytes, nextSend, clock.time);
    r := Finish(writer, connection, user, isRx, totalBytes, accumulatedBytes, before);
  }
}
