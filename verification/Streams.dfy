/** Where bytes come from and where they go: the contracts the pipeline relies on, and the
    buffer and stream implementations that keep them. */
module Streams {
  import opened Types
  import opened Memory

  /* ---- sources ---- */

  // What one read may do. `data` is everything the source has to deliver. A read delivers at most
  // what was asked for, possibly less; it delivers nothing only at the end, which it then knows,
  // or because of a fault.
  ghost predicate ReadKept(data: seq<byte>, before: nat, after: nat, atEnd: bool, faulted: bool,
                           capacity: nat, chunk: seq<byte>, err: Error) {
    && after == before + |chunk| <= |data| && |chunk| <= capacity
    && chunk == data[before..after]
    && (atEnd ==> after == |data|)
    && (err != Ok ==> chunk == [] && faulted)
    && (chunk == [] && capacity > 0 && !faulted ==> atEnd)
  }

  // A read that fills what it can and a source that knows its end at once.
  ghost predicate ReadFull(data: seq<byte>, before: nat, after: nat, atEnd: bool,
                           capacity: nat, chunk: seq<byte>, err: Error) {
    err == Ok && |chunk| == Min(capacity, |data| - before) && (atEnd <==> after == |data|)
  }

  // Any source: reads may be short, fail or stall, and the end may be noticed one read late.
  class Source {
    const data: seq<byte>
    const known: Option<uint64>
    const steady: bool
    var isOpen: bool
    var position: nat
    var atEnd: bool
    ghost var faulted: bool
    // What the last call that went wrong returned: Ok for a read that delivered nothing before the end.
    ghost var failure: Error

    // Whether the source is why a run ended with this error; a stalled read has an error of its own.
    ghost predicate Blames(err: Error, stalled: Error)
      reads this
    {
      faulted && err == if failure == Ok then stalled else failure
    }

    ghost predicate Valid()
      reads this
    {
      && position <= |data| && (atEnd ==> position == |data|)
      && (steady && isOpen ==> (atEnd <==> position == |data|))
      && (steady ==> !faulted)
    }

    constructor (data: seq<byte>, known: Option<uint64>, steady: bool)
      ensures Valid() && !faulted && !isOpen
      ensures this.data == data && this.known == known && this.steady == steady
    {
      this.data, this.known, this.steady := data, known, steady;
      isOpen, position, atEnd, faulted, failure := false, 0, false, false, Ok;
    }

    method Open() returns (err: Error)
      requires Valid()
      modifies this
      ensures Valid() && position == 0
      ensures err == Ok ==> isOpen && faulted == old(faulted)
      ensures err != Ok ==> faulted && failure == err
    {
      position, atEnd := 0, steady && data == [];
      var fails: bool := *;
      if fails && !steady {
        err :| err != Ok;
        faulted, failure := true, err;
      } else {
        isOpen, err := true, Ok;
      }
    }

    method Close()
      requires Valid()
      modifies this`isOpen
      ensures Valid() && !isOpen
    {
      isOpen := false;
    }

    method Read(buffer: array<byte>, offset: nat, capacity: nat) returns (n: nat, err: Error)
      requires Valid() && isOpen && offset + capacity <= buffer.Length
      modifies this, buffer
      ensures Valid() && isOpen && (old(faulted) ==> faulted) && (old(atEnd) ==> atEnd)
      ensures n <= capacity
      ensures ReadKept(data, old(position), position, atEnd, faulted, capacity, buffer[offset..offset + n], err)
      ensures steady ==> ReadFull(data, old(position), position, atEnd, capacity, buffer[offset..offset + n], err)
      ensures err != Ok || (n == 0 && capacity > 0 && !atEnd) ==> faulted && failure == err
      ensures buffer[..offset] == old(buffer[..offset])
    {
      var fails: bool, stalls: bool := *, *;
      if fails && !steady {
        err :| err != Ok;
        faulted, failure := true, err;
        return 0, err;
      }
      if stalls && !steady {
        faulted, failure := true, Ok;
        return 0, Ok;
      }
      var most := Min(capacity, |data| - position);
      if steady || most == 0 {
        n := most;
      } else {
        n :| 1 <= n <= most;
      }
      forall i | 0 <= i < n {
        buffer[offset + i] := data[position + i];
      }
      position := position + n;
      var noticed: bool := *;
      if position == |data| && (noticed || steady || (n == 0 && capacity > 0)) {
        atEnd := true;
      }
      err := Ok;
    }
  }

  class BufferSource {
    const data: seq<byte>
    var offset: nat
    var isOpen: bool

    ghost predicate Valid()
      reads this
    {
      offset <= |data|
    }

    constructor (data: seq<byte>)
      ensures Valid() && this.data == data && !isOpen && offset == 0
    {
      this.data := data;
      offset, isOpen := 0, false;
    }

    method Open() returns (err: Error)
      modifies this
      ensures Valid() && err == Ok && isOpen && offset == 0
    {
      offset, isOpen := 0, true;
      return Ok;
    }

    method Read(buffer: array<byte>, at: nat, capacity: nat) returns (n: nat, err: Error)
      requires Valid() && at + capacity <= buffer.Length
      modifies this`offset, buffer
      ensures Valid() && n <= capacity
      ensures old(isOpen) ==>
                && ReadKept(data, old(offset), offset, AtEnd(), false, capacity, buffer[at..at + n], err)
                && ReadFull(data, old(offset), offset, AtEnd(), capacity, buffer[at..at + n], err)
      ensures !old(isOpen) ==> err == ReadFailed && n == 0 && offset == old(offset)
      ensures buffer[..at] == old(buffer[..at])
    {
      if !isOpen {
        return 0, ReadFailed;
      }
      var remaining := |data| - offset;
      n := if remaining < capacity then remaining else capacity;
      forall i | 0 <= i < n {
        buffer[at + i] := data[offset + i];
      }
      offset := offset + n;
      return n, Ok;
    }

    predicate AtEnd()
      reads this
    {
      offset >= |data|
    }
  }

  // A stream delivers `data` in pieces of any size; its end shows only as an empty read.
  class StreamSource {
    const data: seq<byte>
    var delivered: nat
    var atEnd: bool

    ghost predicate Valid()
      reads this
    {
      delivered <= |data| && (atEnd ==> delivered == |data|)
    }

    constructor (data: seq<byte>)
      ensures Valid() && this.data == data && delivered == 0 && !atEnd
    {
      this.data := data;
      delivered, atEnd := 0, false;
    }

    method Read(buffer: array<byte>, at: nat, capacity: nat) returns (n: nat, err: Error)
      requires Valid() && at + capacity <= buffer.Length
      modifies this, buffer
      ensures Valid() && n <= capacity && (old(atEnd) ==> atEnd)
      ensures ReadKept(data, old(delivered), delivered, atEnd, false, capacity, buffer[at..at + n], err)
      ensures buffer[..at] == old(buffer[..at])
    {
      if capacity == 0 {
        return 0, Ok;
      }
      n := ReadBytes(buffer, at, capacity);
      if n == 0 {
        atEnd := true;
      }
      return n, Ok;
    }

    // The stream behind the source: some bytes while there are any.
    method ReadBytes(buffer: array<byte>, at: nat, capacity: nat) returns (n: nat)
      requires Valid() && 0 < capacity && at + capacity <= buffer.Length
      modifies this`delivered, buffer
      ensures Valid() && n <= capacity && delivered == old(delivered) + n
      ensures n == 0 ==> delivered == |data|
      ensures buffer[at..at + n] == data[old(delivered)..delivered]
      ensures buffer[..at] == old(buffer[..at])
    {
      var most := Min(capacity, |data| - delivered);
      n := 0;
      if most > 0 {
        n :| 1 <= n <= most;
      }
      forall i | 0 <= i < n {
        buffer[at + i] := data[delivered + i];
      }
      delivered := delivered + n;
    }
  }

  /* ---- sinks ---- */

  // What writing, committing and aborting may do to the staged bytes and the destination of a
  // transactional sink: the destination changes only in a commit that succeeds.
  ghost predicate WriteKept(staged: seq<byte>, staged': seq<byte>, destination: seq<byte>,
                            destination': seq<byte>, bytes: seq<byte>, err: Error) {
    destination' == destination && (err == Ok ==> staged' == staged + bytes)
  }

  ghost predicate CommitKept(staged: seq<byte>, destination: seq<byte>, destination': seq<byte>, err: Error) {
    destination' == if err == Ok then staged else destination
  }

  datatype Call = OpenCall(ok: bool) | WriteCall(ok: bool) | CommitCall(ok: bool) | AbortCall | CloseCall

  // Any sink. One that is not transactional hands bytes on as they are written; for it only what
  // a commit confirms is modelled.
  class Sink {
    const transactional: bool
    // Whether the count of written bytes is dropped with the staged bytes at a commit.
    const releases: bool
    var isOpen: bool
    var staged: seq<byte>
    var destination: seq<byte>
    var written: nat
    ghost var calls: seq<Call>
    ghost var faulted: bool
    // What the last call that failed returned.
    ghost var failure: Error

    // Whether the sink is why a run ended with this error.
    ghost predicate Blames(err: Error)
      reads this
    {
      faulted && err == failure
    }

    constructor (transactional: bool, releases: bool, destination: seq<byte>)
      ensures this.transactional == transactional && this.releases == releases
      ensures this.destination == destination && calls == [] && !faulted
    {
      this.transactional, this.releases, this.destination := transactional, releases, destination;
      isOpen, staged, written, calls, faulted, failure := false, [], 0, [], false, Ok;
    }

    method Open() returns (err: Error)
      modifies this
      ensures calls == old(calls) + [OpenCall(err == Ok)] && destination == old(destination)
      ensures err == Ok ==> isOpen && staged == [] && written == 0 && faulted == old(faulted)
      ensures err != Ok ==> Blames(err)
    {
      var fails: bool := *;
      if fails {
        err :| err != Ok;
        faulted, failure := true, err;
      } else {
        isOpen, staged, written, err := true, [], 0, Ok;
      }
      calls := calls + [OpenCall(err == Ok)];
    }

    method Write(bytes: seq<byte>) returns (err: Error)
      requires isOpen
      modifies this
      ensures isOpen && calls == old(calls) + [WriteCall(err == Ok)]
      ensures WriteKept(old(staged), staged, old(destination), destination, bytes, err)
      ensures err == Ok ==> written == old(written) + |bytes| && faulted == old(faulted)
      ensures err != Ok ==> Blames(err)
    {
      var fails: bool := *;
      if fails {
        err :| err != Ok;
        faulted, failure := true, err;
        staged := *;
      } else {
        staged, written, err := staged + bytes, written + |bytes|, Ok;
      }
      calls := calls + [WriteCall(err == Ok)];
    }

    method Commit() returns (err: Error)
      requires isOpen
      modifies this
      ensures isOpen && calls == old(calls) + [CommitCall(err == Ok)]
      ensures CommitKept(old(staged), old(destination), destination, err)
      ensures err == Ok ==> written == (if releases then 0 else old(written)) && faulted == old(faulted)
      ensures err != Ok ==> Blames(err)
    {
      var fails: bool := *;
      if fails {
        err :| err != Ok;
        faulted, failure := true, err;
      } else {
        destination, err := staged, Ok;
        if releases {
          staged, written := [], 0;
        }
      }
      calls := calls + [CommitCall(err == Ok)];
    }

    method Abort()
      modifies this
      ensures calls == old(calls) + [AbortCall] && destination == old(destination)
      ensures faulted == old(faulted) && failure == old(failure)
    {
      staged, written, calls := [], 0, calls + [AbortCall];
    }

    method Close()
      modifies this
      ensures calls == old(calls) + [CloseCall] && destination == old(destination)
      ensures faulted == old(faulted) && failure == old(failure)
      ensures !isOpen
      ensures written == old(written)
    {
      isOpen, calls := false, calls + [CloseCall];
    }
  }

  class DynamicBufferSink {
    var out: seq<byte>
    const staging: MemoryBuffer
    var isOpen: bool

    ghost predicate Valid()
      reads this, staging
    {
      staging.Valid()
    }

    ghost function Repr(): set<object>
      reads this, staging
    {
      {this} + staging.Repr()
    }

    constructor (platform: Platform)
      requires INITIAL_CAPACITY <= platform.sizeMax
      ensures Valid() && fresh(Repr())
      ensures !isOpen && out == [] && staging.Contents() == [] && staging.platform == platform
    {
      staging := new MemoryBuffer(platform);
      out, isOpen := [], false;
    }

    method Open() returns (err: Error)
      requires Valid()
      modifies Repr()
      ensures Valid() && fresh(Repr() - old(Repr()))
      ensures err == Ok && isOpen && staging.Contents() == [] && out == old(out)
    {
      staging.Clear();
      isOpen := true;
      return Ok;
    }

    method Write(bytes: seq<byte>) returns (err: Error)
      requires Valid() && |bytes| <= staging.sizeMax
      modifies Repr()
      ensures Valid() && fresh(Repr() - old(Repr())) && isOpen == old(isOpen)
      ensures WriteKept(old(staging.Contents()), staging.Contents(), old(out), out, bytes, err)
      ensures err == WriteFailed <==> !isOpen
      ensures err != Ok && isOpen ==> err == NoMemory && staging.refusals > old(staging.refusals)
      ensures err == NoMemory ==> !staging.platform.plentiful || old(staging.size) + |bytes| > staging.sizeMax
    {
      hide MemoryBuffer.Contents, MemoryBuffer.Valid;
      if !isOpen {
        return WriteFailed;
      }
      var ok := staging.Append(bytes);
      return if ok then Ok else NoMemory;
    }

    method Commit() returns (err: Error)
      requires Valid()
      modifies Repr()
      ensures Valid() && fresh(Repr() - old(Repr())) && isOpen == old(isOpen)
      ensures CommitKept(old(staging.Contents()), old(out), out, err)
      ensures err == if isOpen then Ok else WriteFailed
      ensures err == Ok ==> BytesWritten() == 0 && staging.capacity == 0
    {
      if !isOpen {
        return WriteFailed;
      }
      if staging.size == 0 {
        out := [];
        staging.Release();
        return Ok;
      }
      out := staging.data[..staging.size];
      staging.Release();
      return Ok;
    }

    method Abort()
      requires Valid()
      modifies Repr()
      ensures Valid() && out == old(out) && staging.Contents() == []
    {
      staging.Clear();
    }

    method Close()
      requires Valid()
      modifies this
      ensures Valid() && !isOpen && out == old(out)
    {
      isOpen := false;
    }

    function BytesWritten(): nat
      reads staging
    {
      staging.size
    }
  }

  lemma FitsOrWraps(sum: nat, sizeMax: nat)
    ensures sum <= sizeMax ==> sum % (sizeMax + 1) == sum
    ensures sum % (sizeMax + 1) <= sum
  {
  }

  class FixedBufferSink {
    const buffer: array?<byte>
    const capacity: nat
    const staging: MemoryBuffer
    var isOpen: bool

    ghost predicate Valid()
      reads this, staging
    {
      && staging.Valid()
      && (buffer != null ==> capacity <= buffer.Length && buffer != staging.data)
    }

    ghost function Repr(): set<object>
      reads this, staging
    {
      {this} + staging.Repr()
    }

    constructor (buffer: array?<byte>, capacity: nat, platform: Platform)
      requires INITIAL_CAPACITY <= platform.sizeMax && (buffer != null ==> capacity <= buffer.Length)
      ensures Valid() && fresh(Repr()) && this.buffer == buffer && this.capacity == capacity
      ensures !isOpen && staging.Contents() == [] && staging.platform == platform
    {
      this.buffer, this.capacity := buffer, capacity;
      staging := new MemoryBuffer(platform);
      isOpen := false;
    }

    method Open() returns (err: Error)
      requires Valid()
      modifies Repr()
      ensures Valid() && fresh(Repr() - old(Repr()))
      ensures err == Ok && isOpen && staging.Contents() == []
      ensures buffer != null ==> buffer[..] == old(buffer[..])
    {
      staging.Clear();
      isOpen := true;
      return Ok;
    }

    method Close()
      requires Valid()
      modifies this
      ensures Valid() && !isOpen
    {
      isOpen := false;
    }

    method Write(bytes: seq<byte>) returns (err: Error)
      requires Valid() && |bytes| <= staging.sizeMax
      modifies Repr()
      ensures Valid() && fresh(Repr() - old(Repr())) && isOpen == old(isOpen)
      ensures err == Ok ==> staging.Contents() == old(staging.Contents()) + bytes && staging.size <= capacity
      ensures err != Ok ==> staging.Contents() == old(staging.Contents())
      ensures err == OutputOverflow <==>
              isOpen && (old(staging.size) + |bytes|) % (staging.sizeMax + 1) > capacity
      ensures isOpen && old(staging.size) + |bytes| > capacity ==> err == OutputOverflow || err == NoMemory
      ensures err == OutputOverflow ==> old(staging.size) + |bytes| > capacity
      ensures err == WriteFailed <==> !isOpen
      ensures err in {Ok, WriteFailed, OutputOverflow, NoMemory}
      ensures err == NoMemory ==> staging.refusals > old(staging.refusals)
      ensures err == NoMemory ==> !staging.platform.plentiful || old(staging.size) + |bytes| > staging.sizeMax
      ensures buffer != null ==> buffer[..] == old(buffer[..])
    {
      if !isOpen {
        return WriteFailed;
      }
      FitsOrWraps(staging.size + |bytes|, staging.sizeMax);
      // The sum is a size_t: one that wraps around is for the staging buffer to refuse.
      if (staging.size + |bytes|) % (staging.sizeMax + 1) > capacity {
        return OutputOverflow;
      }
      var ok := staging.Append(bytes);
      return if ok then Ok else NoMemory;
    }

    // A commit replaces the front of the buffer by the staged bytes, or changes nothing.
    method Commit() returns (err: Error)
      requires Valid()
      modifies Repr(), buffer
      ensures Valid() && isOpen == old(isOpen)
      ensures err == Ok <==> isOpen && buffer != null && old(staging.size) <= capacity
      ensures err == Ok ==> buffer[..] == old(staging.Contents()) + old(buffer[..])[|old(staging.Contents())|..]
      ensures err == WriteFailed <==> !isOpen || buffer == null
      ensures err in {Ok, WriteFailed, OutputOverflow}
      ensures err == Ok ==> staging.size == 0 && staging.capacity == 0
      ensures err != Ok && buffer != null ==> buffer[..] == old(buffer[..])
    {
      if !isOpen || buffer == null {
        return WriteFailed;
      }
      if staging.size > capacity {
        return OutputOverflow;
      }
      ghost var staged := staging.Contents();
      if staging.size != 0 {
        forall i | 0 <= i < staging.size {
          buffer[i] := staging.data[i];
        }
      }
      assert buffer[..] == staged + old(buffer[..])[|staged|..];
      staging.Release();
      return Ok;
    }

    method Abort()
      requires Valid()
      modifies Repr()
      ensures Valid() && staging.Contents() == [] && (buffer != null ==> buffer[..] == old(buffer[..]))
    {
      staging.Clear();
    }
  }
}
