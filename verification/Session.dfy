/** What one run does around its work: cancellation, exact reads, and the shape of a sink session. */
module Session {
  import opened Types
  import opened Streams

  datatype Config = Config(blockSize: nat, windowSize: nat)

  datatype Run = Run(error: Error, inputBytes: nat, outputBytes: nat, blocks: nat)

  function EmptyRun(error: Error): Run {
    Run(error, 0, 0, 0)
  }

  // A flag that any other thread may raise at any time, and nobody lowers.
  class CancelFlag {
    var requested: bool
    // How often a run has looked at it.
    ghost var checks: nat

    constructor ()
      ensures !requested && checks == 0
    {
      requested, checks := false, 0;
    }

    method Load() returns (r: bool)
      modifies this
      ensures r == requested && (old(requested) ==> requested) && checks == old(checks) + 1
    {
      checks := checks + 1;
      var raised: bool := *;
      if raised {
        requested := true;
      }
      return requested;
    }
  }

  method IsCancelled(flag: CancelFlag?) returns (r: bool)
    modifies flag
    ensures r ==> flag != null && flag.requested
    ensures flag != null ==> r == flag.requested && (old(flag.requested) ==> r) && flag.checks == old(flag.checks) + 1
  {
    if flag == null {
      return false;
    }
    r := flag.Load();
  }

  lemma TwoParts(data: seq<byte>, from: nat, middle: nat, to: nat)
    requires from <= middle <= to <= |data|
    ensures data[from..to] == data[from..middle] + data[middle..to]
  {
  }

  // Reads until `size` bytes are there, however the source splits them.
  method ReadExact(source: Source, buffer: array<byte>, size: nat) returns (err: Error)
    requires source.Valid() && source.isOpen && size <= buffer.Length
    modifies source, buffer
    ensures source.Valid() && source.isOpen && (old(source.faulted) ==> source.faulted)
    ensures old(source.position) <= source.position
    ensures err == Ok ==>
              && source.position == old(source.position) + size
              && buffer[..size] == source.data[old(source.position)..source.position]
    ensures err != Ok && !source.Blames(err, CorruptData) ==>
              err == CorruptData && |source.data| < old(source.position) + size
  {
    var offset: nat := 0;
    while offset < size
      invariant offset <= size && source.Valid() && source.isOpen && (old(source.faulted) ==> source.faulted)
      invariant source.position == old(source.position) + offset
      invariant buffer[..offset] == source.data[old(source.position)..source.position]
      decreases size - offset
    {
      ghost var before := source.position;
      var chunk;
      chunk, err := source.Read(buffer, offset, size - offset);
      if err != Ok {
        return;
      }
      if chunk == 0 {
        return CorruptData;
      }
      assert buffer[..offset + chunk] == buffer[..offset] + buffer[offset..offset + chunk];
      TwoParts(source.data, old(source.position), before, source.position);
      offset := offset + chunk;
    }
    return Ok;
  }

  /* ---- the calls a session makes on its sink ---- */

  ghost predicate AllWritten(calls: seq<Call>) {
    forall i | 0 <= i < |calls| :: calls[i] == WriteCall(true)
  }

  // Writes, all of which succeeded, and a commit that succeeded.
  ghost predicate Committed(calls: seq<Call>) {
    calls != [] && AllWritten(calls[..|calls| - 1]) && calls[|calls| - 1] == CommitCall(true)
  }

  // Writes that succeeded, and at most one call after them that did not.
  ghost predicate Stopped(calls: seq<Call>) {
    calls == [] || (&& AllWritten(calls[..|calls| - 1])
                    && calls[|calls| - 1] in {WriteCall(true), WriteCall(false), CommitCall(false)})
  }

  // A whole session: opened, worked on, aborted unless committed, closed.
  ghost predicate WholeSession(calls: seq<Call>, work: seq<Call>) {
    || (Committed(work) && calls == [OpenCall(true)] + work + [CloseCall])
    || (Stopped(work) && calls == [OpenCall(true)] + work + [AbortCall, CloseCall])
  }

  // A whole session, call by call: open first and close last, before it a commit that succeeded or an
  // abort, before these nothing but writes that succeeded, except one failed call before an abort.
  lemma WholeSessionMeans(calls: seq<Call>, work: seq<Call>)
    requires WholeSession(calls, work)
    ensures |calls| >= 3 && calls[0] == OpenCall(true) && calls[|calls| - 1] == CloseCall
    ensures calls[|calls| - 2] == if Committed(work) then CommitCall(true) else AbortCall
    ensures forall i | 1 <= i < |calls| - 3 :: calls[i] == WriteCall(true)
    ensures |calls| > 3 ==>
              || calls[|calls| - 3] == WriteCall(true)
              || (calls[|calls| - 2] == AbortCall && calls[|calls| - 3] in {WriteCall(false), CommitCall(false)})
  {
    var n := |calls|;
    forall i | 1 <= i < n - 3
      ensures calls[i] == WriteCall(true)
    {
      assert calls[i] == work[i - 1] == work[..|work| - 1][i - 1];
    }
    if Committed(work) {
      assert calls[n - 2] == work[|work| - 1];
      if n > 3 {
        assert calls[n - 3] == work[|work| - 2] == work[..|work| - 1][|work| - 2];
      }
    } else if n > 3 {
      assert calls[n - 3] == work[|work| - 1];
    }
  }

  lemma OneMoreCall(calls: seq<Call>, ok: bool)
    requires AllWritten(calls)
    ensures Stopped(calls) && Stopped(calls + [WriteCall(ok)])
    ensures AllWritten(calls + [WriteCall(ok)]) <==> ok
    ensures if ok then Committed(calls + [CommitCall(ok)]) else Stopped(calls + [CommitCall(ok)])
  {
    assert (calls + [WriteCall(ok)])[..|calls|] == calls;
    assert (calls + [CommitCall(ok)])[..|calls|] == calls;
    assert calls != [] ==> AllWritten(calls[..|calls| - 1]);
    assert (calls + [WriteCall(ok)])[|calls|] == WriteCall(ok);
  }

  // The last act of a run: commit, unless the flag has been raised by now.
  method CommitUnlessCancelled(sink: Sink, flag: CancelFlag?, ghost written: seq<Call>)
    returns (err: Error, ghost work: seq<Call>, ghost cancelled: bool)
    requires sink.isOpen && AllWritten(written)
    modifies sink, flag
    ensures old(sink.faulted) ==> sink.faulted
    ensures written <= work && sink.calls == old(sink.calls) + work[|written|..]
    ensures if err == Ok then Committed(work) else Stopped(work)
    ensures CommitKept(old(sink.staged), old(sink.destination), sink.destination, err)
    ensures err == Ok ==> sink.written == if sink.releases then 0 else old(sink.written)
    ensures cancelled ==> err == Cancelled && flag != null && flag.requested
    ensures err == Ok && flag != null ==> !flag.requested
    ensures flag != null ==> flag.checks == old(flag.checks) + 1
    ensures |work| <= |written| + 1 && (err == Ok ==> |work| == |written| + 1)
    ensures flag != null && old(flag.requested) ==> err != Ok
    ensures err != Ok && !cancelled ==> sink.Blames(err)
  {
    hide AllWritten, Committed, Stopped;
    work, cancelled := written, false;
    var stop := IsCancelled(flag);
    OneMoreCall(written, true);
    if stop {
      cancelled := true;
      return Cancelled, work, cancelled;
    }
    err := sink.Commit();
    OneMoreCall(written, err == Ok);
    work := written + [CommitCall(err == Ok)];
  }

  // Whatever is left undone when a run ends: abort unless committed, then close both ends.
  method EndSession(source: Source, sink: Sink, active: bool, committed: bool)
    requires source.Valid()
    modifies source, sink
    ensures source.Valid() && source.position == old(source.position)
    ensures source.faulted == old(source.faulted) && sink.faulted == old(sink.faulted)
    ensures source.position == old(source.position) && source.failure == old(source.failure)
    ensures sink.failure == old(sink.failure)
    ensures !source.isOpen && !sink.isOpen
    ensures sink.destination == old(sink.destination)
    ensures sink.calls == old(sink.calls) + (if active && !committed then [AbortCall] else []) + [CloseCall]
  {
    if active && !committed {
      sink.Abort();
    }
    sink.Close();
    source.Close();
  }

  lemma SessionEnds(before: seq<Call>, work: seq<Call>, during: seq<Call>, after: seq<Call>, committed: bool)
    requires during == before + [OpenCall(true)] + work
    requires if committed then Committed(work) else Stopped(work)
    requires after == during + (if committed then [] else [AbortCall]) + [CloseCall]
    ensures before <= after && WholeSession(after[|before|..], work) && (committed <==> Committed(work))
  {
    var last := if committed then [CloseCall] else [AbortCall, CloseCall];
    assert after == before + ([OpenCall(true)] + work + last);
  }
}
