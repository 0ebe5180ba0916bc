/**
 * The persistence worker's choice of what to write: it drains its queue, keeps the newest request, and
 * writes it unless something as new has been written. How the queue splits into batches is left open.
 */
module Persistence {

  datatype Request = Request(generation: nat, config: string)

  /** A write of a request, and whether it succeeded; a failed one marks the state dirty again. */
  datatype Write = Write(request: Request, ok: bool)

  function LastWritten(writes: seq<Write>): nat {
    if writes == [] then 0
    else
      var last := writes[|writes| - 1];
      if last.ok then last.request.generation else LastWritten(writes[..|writes| - 1])
  }

  /** Every write is newer than all that succeeded before it. */
  ghost predicate OnlyForward(writes: seq<Write>) {
    writes == [] ||
    (OnlyForward(writes[..|writes| - 1])
     && writes[|writes| - 1].request.generation > LastWritten(writes[..|writes| - 1]))
  }

  lemma {:induction false} LastWrittenIsNewest(writes: seq<Write>, i: nat)
    requires OnlyForward(writes) && i < |writes| && writes[i].ok
    ensures writes[i].request.generation <= LastWritten(writes)
  {
    var n := |writes| - 1;
    if i < n {
      LastWrittenIsNewest(writes[..n], i);
    }
  }

  /** The last written generation is that of the last successful write, or zero before the first. */
  lemma {:induction false} LastWrittenIs(writes: seq<Write>)
    ensures LastWritten(writes) == 0 ||
            exists i :: IsLastOk(writes, i) && LastWritten(writes) == writes[i].request.generation
    ensures (forall w :: w in writes ==> !w.ok) ==> LastWritten(writes) == 0
  {
    if writes != [] {
      var before, last := writes[..|writes| - 1], writes[|writes| - 1];
      LastWrittenIs(before);
      if last.ok {
        assert IsLastOk(writes, |writes| - 1);
      } else if LastWritten(before) != 0 {
        var i :| IsLastOk(before, i) && LastWritten(before) == before[i].request.generation;
        assert IsLastOk(writes, i);
      }
    }
  }

  ghost predicate IsLastOk(writes: seq<Write>, i: int) {
    0 <= i < |writes| && writes[i].ok && forall j :: i < j < |writes| ==> !writes[j].ok
  }

  /** Successful writes have strictly increasing generations. */
  lemma {:induction false} GenerationsIncrease(writes: seq<Write>, i: nat, j: nat)
    requires OnlyForward(writes) && i < j < |writes| && writes[i].ok
    ensures writes[i].request.generation < writes[j].request.generation
  {
    var n := |writes| - 1;
    if j < n {
      GenerationsIncrease(writes[..n], i, j);
    } else {
      LastWrittenIsNewest(writes[..n], i);
    }
  }

  /** No request is lost: what was received has been written, or something as new, or such a write failed. */
  ghost predicate Covered(r: Request, writes: seq<Write>) {
    r.generation <= LastWritten(writes) ||
    exists w :: w in writes && !w.ok && r.generation <= w.request.generation
  }

  lemma StaysCovered(r: Request, writes: seq<Write>, w: Write)
    requires Covered(r, writes) && w.request.generation > LastWritten(writes)
    ensures Covered(r, writes + [w])
  {
    assert (writes + [w])[..|writes|] == writes;
    if r.generation > LastWritten(writes) {
      var f :| f in writes && !f.ok && r.generation <= f.request.generation;
      assert f in writes + [w];
    }
  }

  /** The newest request of a batch, the first of equals. */
  method Newest(batch: seq<Request>) returns (latest: Request)
    requires batch != []
    ensures latest in batch && forall r :: r in batch ==> r.generation <= latest.generation
  {
    latest := batch[0];
    for i := 1 to |batch|
      invariant latest in batch
      invariant forall r :: r in batch[..i] ==> r.generation <= latest.generation
    {
      if batch[i].generation > latest.generation {
        latest := batch[i];
      }
    }
    assert batch[..|batch|] == batch;
  }

  /** The worker over a run of batches, as `recv` and `try_recv` happened to deliver them. */
  method RunWorker(batches: seq<seq<Request>>) returns (writes: seq<Write>, dirty: bool)
    requires forall b :: b in batches ==> b != []
    ensures OnlyForward(writes)
    ensures forall b, r :: b in batches && r in b ==> Covered(r, writes)
    ensures forall w :: w in writes ==> exists b :: b in batches && w.request in b
    ensures dirty <==> exists w :: w in writes && !w.ok
    ensures !dirty ==> forall b, r :: b in batches && r in b ==> r.generation <= LastWritten(writes)
  {
    hide LastWritten, OnlyForward;
    writes, dirty := [], false;
    var lastWritten: nat := 0;
    NothingWritten();
    for i := 0 to |batches|
      invariant OnlyForward(writes) && lastWritten == LastWritten(writes)
      invariant forall b, r :: b in batches[..i] && r in b ==> Covered(r, writes)
      invariant forall w :: w in writes ==> exists b :: b in batches && w.request in b
      invariant dirty <==> exists w :: w in writes && !w.ok
    {
      var batch := batches[i];
      assert batch in batches;
      var latest := Newest(batch);
      if latest.generation > lastWritten {
        var ok: bool := *;
        var w := Write(latest, ok);
        WriteAppend(writes, w);
        forall b, r | b in batches[..i] && r in b ensures Covered(r, writes + [w]) {
          StaysCovered(r, writes, w);
        }
        assert w in writes + [w];
        writes := writes + [w];
        if ok {
          lastWritten := latest.generation;
        } else {
          dirty := true;
        }
      }
      assert batches[..i + 1] == batches[..i] + [batch];
    }
    assert batches[..|batches|] == batches;
  }

  lemma NothingWritten()
    ensures OnlyForward([]) && LastWritten([]) == 0
  {
  }

  lemma WriteAppend(writes: seq<Write>, w: Write)
    requires OnlyForward(writes) && w.request.generation > LastWritten(writes)
    ensures OnlyForward(writes + [w])
    ensures LastWritten(writes + [w]) == if w.ok then w.request.generation else LastWritten(writes)
  {
    assert (writes + [w])[..|writes|] == writes;
  }
}
