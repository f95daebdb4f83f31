/** The `resparser` object: it enumerates the allocated ranges of the file, scans
    them block by block, and hands every all-zero block to a one-slot
    deallocation queue that merges adjacent blocks before issuing
    FSCTL_SET_ZERO_DATA and counting the bytes. */
module Engine {
  import opened Ranges
  import opened Storage
  import opened Coalescing
  import opened Enumeration
  import opened Scanning

  /** The zero blocks of a whole run, from the handle alone: enumerate the
      allocated ranges, then scan them from offset 0. An empty list is not
      scanned (see `Resparser.Resparse`). */
  function RunBlocks(h: FileHandle, blockSize: int, fileSize: int): (blocks: Result<seq<Range>>)
    requires h.QueryProgresses()
  {
    match Enumerate(h, fileSize, 0)
    case Err(e) => Err(e)
    case Ok(ranges) => if ranges == [] then Ok([]) else ScanFrom(h, blockSize, fileSize, ranges, 0)
  }

  lemma PrefixedNothing(r: Result<seq<Range>>)
    ensures Prefixed([], r) == r
  {
    if r.Ok? {
      assert [] + r.value == r.value;
    }
  }

  lemma PrefixedTwice(a: seq<Range>, b: seq<Range>, r: Result<seq<Range>>)
    ensures Prefixed(a, Prefixed(b, r)) == Prefixed(a + b, r)
  {
    if r.Ok? {
      assert a + (b + r.value) == (a + b) + r.value;
    }
  }

  /** When the pending range `q` is refused while block `b` arrives, the run
      cannot succeed: `q` is one of the final coalesced ranges, whatever blocks follow. */
  lemma RefusedFlushFailsRun(h: FileHandle, flushed: seq<Range>, received: seq<Range>, q: Range, b: Range, rest: Result<seq<Range>>)
    requires flushed + [q] == Coalesce(received)
    requires q.end != b.start && !h.setZeroData(q)
    ensures !(Prefixed(received + [b], rest).Ok? && h.AllAccepted(Coalesce(Prefixed(received + [b], rest).value)))
  {
    if rest.Ok? {
      var zs := received + [b];
      assert zs[..|zs| - 1] == received;
      var before := Coalesce(zs);
      assert before == flushed + [q] + [b];
      CoalesceKeepsSettled(zs, rest.value);
      assert before[|flushed|] == q;
      assert Coalesce(zs + rest.value)[|flushed|] == q;
    }
  }

  /** The queue holds at most one range, and only once a block has arrived;
      what was flushed followed by what is pending is the coalescing of every
      block received; the counter is the total length of what was flushed, and
      every flushed range was accepted. */
  ghost predicate Consistent(h: FileHandle, flushed: seq<Range>, queue: seq<Range>, received: seq<Range>, counter: int)
  {
    |queue| <= 1 &&
    (queue == [] <==> received == []) &&
    flushed + queue == Coalesce(received) &&
    counter == SumLengths(flushed) &&
    h.AllAccepted(flushed)
  }

  /** Each move of `deallocate_next` keeps the queue consistent: taking the first
      block, extending the range at the back, or flushing the range at the front
      (once it is accepted) and queueing the block behind the others. */
  lemma NextKeepsConsistent(h: FileHandle, flushed: seq<Range>, queue: seq<Range>, received: seq<Range>, counter: int,
                            r: Range, flushed': seq<Range>, queue': seq<Range>, counter': int)
    requires Consistent(h, flushed, queue, received, counter)
    requires queue == [] ==> queue' == [r] && flushed' == flushed && counter' == counter
    requires queue != [] && queue[|queue| - 1].end == r.start ==>
      queue' == queue[..|queue| - 1] + [Range(queue[|queue| - 1].start, r.end)] &&
      flushed' == flushed && counter' == counter
    requires queue != [] && queue[|queue| - 1].end != r.start ==>
      h.setZeroData(queue[0]) && queue' == queue[1..] + [r] &&
      flushed' == flushed + [queue[0]] && counter' == counter + queue[0].Length()
    ensures Consistent(h, flushed', queue', received + [r], counter')
  {
    if queue == [] {
      FirstBlockConsistent(h, flushed, received, counter, r);
    } else {
      var q := queue[0];
      assert queue == [q];
      assert queue[..0] == [] && queue[1..] == [];
      if q.end == r.start {
        ExtendConsistent(h, flushed, q, received, counter, r);
      } else {
        FlushConsistent(h, flushed, q, received, counter, r);
      }
    }
  }

  lemma FirstBlockConsistent(h: FileHandle, flushed: seq<Range>, received: seq<Range>, counter: int, r: Range)
    requires Consistent(h, flushed, [], received, counter)
    ensures Consistent(h, flushed, [r], received + [r], counter)
  {
    assert received == [] && flushed == [];
    assert received + [r] == [r];
    assert [r][..0] == [];
  }

  lemma ExtendConsistent(h: FileHandle, flushed: seq<Range>, q: Range, received: seq<Range>, counter: int, r: Range)
    requires Consistent(h, flushed, [q], received, counter)
    requires q.end == r.start
    ensures Consistent(h, flushed, [Range(q.start, r.end)], received + [r], counter)
  {
    CoalesceSnoc(flushed, q, received, r);
  }

  lemma FlushConsistent(h: FileHandle, flushed: seq<Range>, q: Range, received: seq<Range>, counter: int, r: Range)
    requires Consistent(h, flushed, [q], received, counter)
    requires q.end != r.start && h.setZeroData(q)
    ensures Consistent(h, flushed + [q], [r], received + [r], counter + q.Length())
  {
    CoalesceSnoc(flushed, q, received, r);
    var flushed' := flushed + [q];
    assert flushed' + [r] == flushed + [q] + [r];
    assert flushed'[..|flushed|] == flushed;
    assert SumLengths(flushed') == SumLengths(flushed) + q.Length();
    assert h.AllAccepted(flushed') by {
      assert forall i :: 0 <= i < |flushed| ==> flushed'[i] == flushed[i];
    }
  }

  /** Flushing the pending range at the end of a pass: once it is accepted, what
      was flushed is the whole coalescing and the counter is its total length;
      when it is refused, the coalescing holds a refused range. */
  lemma RemainedKeepsConsistent(h: FileHandle, flushed: seq<Range>, queue: seq<Range>, received: seq<Range>, counter: int,
                                flushed': seq<Range>, counter': int, ok: bool)
    requires Consistent(h, flushed, queue, received, counter)
    requires |flushed| <= |flushed'| <= |flushed| + |queue|
    requires flushed' == flushed + queue[..|flushed'| - |flushed|]
    requires counter' == counter + SumLengths(queue[..|flushed'| - |flushed|])
    requires ok <==> h.AllAccepted(queue)
    requires ok ==> flushed' == flushed + queue
    requires !ok ==> |flushed'| < |flushed| + |queue| && !h.setZeroData(queue[|flushed'| - |flushed|])
    ensures counter' == SumLengths(flushed') && h.AllAccepted(flushed')
    ensures ok ==> flushed' == Coalesce(received)
    ensures !ok ==> !h.AllAccepted(Coalesce(received))
    ensures !ok ==> Consistent(h, flushed', queue, received, counter')
  {
    if queue == [] {
      assert flushed' == flushed;
    } else {
      var q := queue[0];
      assert queue == [q];
      if ok {
        assert queue[..1] == queue;
        assert SumLengths([q]) == q.Length() by {
          assert [q][..0] == [];
        }
        assert flushed'[..|flushed|] == flushed;
        assert h.AllAccepted(flushed') by {
          assert forall i :: 0 <= i < |flushed| ==> flushed'[i] == flushed[i];
        }
      } else {
        assert queue[..0] == [];
        assert flushed' == flushed;
        assert Coalesce(received)[|flushed|] == q;
      }
    }
  }

  /** Flushed ranges are coalesced blocks, so when every received block holds only
      scanned zero bytes, so does every flushed range. */
  lemma FlushedAreScannedZeros(content: seq<bv8>, ranges: seq<Range>, fileSize: int,
                               flushed: seq<Range>, queue: seq<Range>, received: seq<Range>)
    requires flushed + queue == Coalesce(received)
    requires ScannedZeros(content, ranges, fileSize, received)
    ensures ScannedZeros(content, ranges, fileSize, flushed)
  {
    CoalesceCoversOnlyBlocks(received);
    forall x | Covers(flushed, x) ensures Covers(received, x) {
      CoversAppend(flushed, queue, x);
    }
  }

  class Resparser {
    /** The open file and the calls made on it. */
    const handle: FileHandle
    /** The size GetFileSizeEx reported when the file was opened. */
    const fileSize: nat
    /** The bytes of the file; only the handle's reads look at them. */
    ghost const content: seq<bv8>
    var blockSize: DWord
    var deallocatedBytes: int
    /** Zero ranges waiting to be deallocated; never more than one. */
    var deallocateQueue: seq<Range>
    /** Every range FSCTL_SET_ZERO_DATA accepted during the current pass, in order. */
    ghost var flushed: seq<Range>
    /** Every zero block handed to DeallocateNext during the current pass, in order. */
    ghost var received: seq<Range>

    /** Opening the file and reading its size are not modelled: the handle and the
        size come in. `deallocatedBytes` is left unset until a pass starts. */
    constructor (handle: FileHandle, fileSize: nat, ghost content: seq<bv8>)
      ensures this.handle == handle && this.fileSize == fileSize && this.content == content
      ensures deallocateQueue == [] && flushed == [] && received == []
    {
      this.handle := handle;
      this.fileSize := fileSize;
      this.content := content;
      deallocateQueue := [];
      flushed := [];
      received := [];
    }

    ghost predicate QueueConsistent()
      reads this
    {
      Consistent(handle, flushed, deallocateQueue, received, deallocatedBytes)
    }

    /** `io_deallocate_range`: FSCTL_SET_ZERO_DATA on `r`; on success the counter
        grows by the length of `r`. */
    method DeallocateRange(r: Range) returns (ok: bool)
      modifies this`deallocatedBytes, this`flushed
      ensures ok == handle.setZeroData(r)
      ensures ok ==> flushed == old(flushed) + [r] && deallocatedBytes == old(deallocatedBytes) + r.Length()
      ensures !ok ==> flushed == old(flushed) && deallocatedBytes == old(deallocatedBytes)
    {
      ok := handle.setZeroData(r);
      if !ok {
        return;
      }
      flushed := flushed + [r];
      deallocatedBytes := deallocatedBytes + (r.end - r.start);
    }

    /** `deallocate_next`: a block that starts where the range at the back of the
        queue ends extends that range; any other block first has the range at the
        front deallocated and removed, then joins the queue at the back. */
    method DeallocateNext(r: Range) returns (ok: bool)
      modifies this`deallocatedBytes, this`deallocateQueue, this`flushed, this`received
      ensures old(deallocateQueue) == [] ==>
        ok && deallocateQueue == [r] && flushed == old(flushed) && deallocatedBytes == old(deallocatedBytes)
      ensures old(deallocateQueue) != [] && old(deallocateQueue)[|old(deallocateQueue)| - 1].end == r.start ==>
        ok && flushed == old(flushed) && deallocatedBytes == old(deallocatedBytes) &&
        deallocateQueue == old(deallocateQueue)[..|old(deallocateQueue)| - 1] +
                           [Range(old(deallocateQueue)[|old(deallocateQueue)| - 1].start, r.end)]
      ensures old(deallocateQueue) != [] && old(deallocateQueue)[|old(deallocateQueue)| - 1].end != r.start ==>
        ok == handle.setZeroData(old(deallocateQueue)[0])
      ensures old(deallocateQueue) != [] && old(deallocateQueue)[|old(deallocateQueue)| - 1].end != r.start && ok ==>
        deallocateQueue == old(deallocateQueue)[1..] + [r] &&
        flushed == old(flushed) + [old(deallocateQueue)[0]] &&
        deallocatedBytes == old(deallocatedBytes) + old(deallocateQueue)[0].Length()
      ensures ok ==> received == old(received) + [r]
      ensures !ok ==> unchanged(this)
    {
      if deallocateQueue != [] {
        var back := deallocateQueue[|deallocateQueue| - 1];
        if back.end == r.start {
          // extend the range at the back
          deallocateQueue := deallocateQueue[..|deallocateQueue| - 1] + [Range(back.start, r.end)];
          received := received + [r];
          return true;
        }
        ok := DeallocateRange(deallocateQueue[0]);
        if !ok {
          return;
        }
        deallocateQueue := deallocateQueue[1..];
      }
      deallocateQueue := deallocateQueue + [r];
      received := received + [r];
      ok := true;
    }

    /** `deallocate_remained`: deallocate every queued range in order, then empty
        the queue; the first refusal stops it with the queue left as it was. */
    method DeallocateRemained() returns (ok: bool)
      modifies this`deallocatedBytes, this`deallocateQueue, this`flushed
      ensures |old(flushed)| <= |flushed| <= |old(flushed)| + |old(deallocateQueue)|
      ensures flushed == old(flushed) + old(deallocateQueue)[..|flushed| - |old(flushed)|]
      ensures deallocatedBytes ==
        old(deallocatedBytes) + SumLengths(old(deallocateQueue)[..|flushed| - |old(flushed)|])
      ensures ok <==> handle.AllAccepted(old(deallocateQueue))
      ensures ok ==> deallocateQueue == [] && flushed == old(flushed) + old(deallocateQueue)
      ensures !ok ==>
        deallocateQueue == old(deallocateQueue) &&
        |flushed| < |old(flushed)| + |old(deallocateQueue)| &&
        !handle.setZeroData(old(deallocateQueue)[|flushed| - |old(flushed)|])
    {
      var i := 0;
      assert deallocateQueue[..0] == [];
      while i < |deallocateQueue|
        invariant 0 <= i <= |deallocateQueue|
        invariant deallocateQueue == old(deallocateQueue)
        invariant flushed == old(flushed) + deallocateQueue[..i]
        invariant deallocatedBytes == old(deallocatedBytes) + SumLengths(deallocateQueue[..i])
        invariant handle.AllAccepted(deallocateQueue[..i])
      {
        ok := DeallocateRange(deallocateQueue[i]);
        if !ok {
          return;
        }
        assert deallocateQueue[..i + 1][..i] == deallocateQueue[..i];
        assert deallocateQueue[..i + 1] == deallocateQueue[..i] + [deallocateQueue[i]];
        i := i + 1;
      }
      assert deallocateQueue[..i] == deallocateQueue;
      deallocateQueue := [];
      ok := true;
    }

    /** `get_allocated_ranges`: query `[pos, fileSize)`, append `{start, start + len}`
        for every reported extent and move `pos` to the end of the last one; go on
        while the reply was "more data" and `pos` is inside the file. */
    method GetAllocatedRanges() returns (result: Result<seq<Range>>)
      requires handle.QueryProgresses()
      ensures result == Enumerate(handle, fileSize, 0)
      ensures result.Err? ==> result.error == CannotGetAllocatedRanges
    {
      var ranges: seq<Range> := [];
      var done := false;
      var pos := 0;
      PrefixedNothing(Enumerate(handle, fileSize, pos));
      while !done && pos < fileSize
        invariant Enumerate(handle, fileSize, 0) ==
          if done then Ok(ranges) else Prefixed(ranges, Enumerate(handle, fileSize, pos))
        decreases if done then 0 else 1, fileSize - pos
      {
        var reply := handle.query(pos, fileSize - pos);
        assert MovesOn(pos, reply);
        done := reply.status == Complete;
        if !done && reply.status != MoreData {
          return Err(CannotGetAllocatedRanges);
        }
        var batch := reply.batch;
        ghost var found := ToRanges(batch);
        ghost var before, from := ranges, pos;
        var i := 0;
        while i < |batch|
          invariant 0 <= i <= |batch|
          invariant ranges == before + found[..i]
          invariant i > 0 ==> pos == found[i - 1].end
          invariant i == 0 ==> pos == from
        {
          var start := batch[i].offset;
          var len := batch[i].length;
          var end := start + len;
          ranges := ranges + [Range(start, end)];
          assert found[..i + 1] == found[..i] + [Range(start, end)];
          pos := end;
          i := i + 1;
        }
        assert found[..i] == found;
        PrefixedTwice(before, found, Enumerate(handle, fileSize, pos));
      }
      assert ranges + [] == ranges;
      return Ok(ranges);
    }

    /** The all-zero branch of the `process_file` loop: the block just read goes to
        `deallocate_next`. Once it is taken, the queue stays consistent and every
        block received holds only scanned zero bytes; a refusal means that no run
        whose blocks begin with these can have every range accepted. */
    method PassZeroBlock(zero: Range, ghost allocatedRanges: seq<Range>, ghost ranges: seq<Range>,
                         ghost bytes: seq<bv8>, ghost rest: Result<seq<Range>>) returns (ok: bool)
      requires QueueConsistent()
      requires ranges != [] && zero.start < ranges[0].end && zero.end == zero.start + |bytes|
      requires handle.read(zero.start, Min(blockSize, ranges[0].end - zero.start)) == ReadOk(bytes) && AllZero(bytes)
      requires ScanRemainder(allocatedRanges, ranges, zero.start, fileSize)
      requires handle.ReadsFrom(content) && |content| == fileSize ==>
        ScannedZeros(content, allocatedRanges, fileSize, received)
      modifies this`deallocatedBytes, this`deallocateQueue, this`flushed, this`received
      ensures ok ==> received == old(received) + [zero] && QueueConsistent()
      ensures ok ==> (handle.ReadsFrom(content) && |content| == fileSize ==>
        ScannedZeros(content, allocatedRanges, fileSize, received))
      ensures !ok ==> unchanged(this)
      ensures !ok ==>
        !(Prefixed(received + [zero], rest).Ok? && handle.AllAccepted(Coalesce(Prefixed(received + [zero], rest).value)))
    {
      ghost var flushedBefore, queueBefore, receivedBefore, counterBefore :=
        flushed, deallocateQueue, received, deallocatedBytes;
      assert handle.ReadsFrom(content) && |content| == fileSize ==>
        ScannedZeros(content, allocatedRanges, fileSize, received + [zero]) by {
        if handle.ReadsFrom(content) && |content| == fileSize {
          ZeroBlockScanned(handle, content, blockSize, fileSize, allocatedRanges, ranges, zero.start, bytes, received);
        }
      }
      ok := DeallocateNext(zero);
      if !ok {
        assert !(Prefixed(received + [zero], rest).Ok? &&
                 handle.AllAccepted(Coalesce(Prefixed(received + [zero], rest).value))) by {
          RefusedFlushFailsRun(handle, flushedBefore, receivedBefore, queueBefore[0], zero, rest);
        }
        return;
      }
      assert QueueConsistent() by {
        NextKeepsConsistent(handle, flushedBefore, queueBefore, receivedBefore, counterBefore,
                            zero, flushed, deallocateQueue, deallocatedBytes);
      }
    }

    /** The loop of `process_file`, as written: `pos` starts at 0 and, whenever it
        reaches the end of the front range, that range is dropped and `pos` jumps to
        the start of the next one; otherwise a block of `min(blockSize, front.end - pos)`
        bytes is read and, if all zero, handed to the queue. */
    method ScanRanges(allocatedRanges: seq<Range>) returns (status: Status)
      requires QueueConsistent() && received == []
      requires fileSize > 0 ==> allocatedRanges != []
      modifies this`deallocatedBytes, this`deallocateQueue, this`flushed, this`received
      ensures QueueConsistent()
      ensures status.Failure? ==> status.error in {CannotSetFilePointer, CannotReadFilePart, CannotSetZeroData}
      ensures status.Success? ==> ScanFrom(handle, blockSize, fileSize, allocatedRanges, 0) == Ok(received)
      ensures status.Failure? && status.error != CannotSetZeroData ==>
        ScanFrom(handle, blockSize, fileSize, allocatedRanges, 0) == Err(status.error)
      ensures status.Failure? && status.error == CannotSetZeroData ==>
        !(ScanFrom(handle, blockSize, fileSize, allocatedRanges, 0).Ok? &&
          handle.AllAccepted(Coalesce(ScanFrom(handle, blockSize, fileSize, allocatedRanges, 0).value)))
      ensures handle.ReadsFrom(content) && |content| == fileSize ==>
        ScannedZeros(content, allocatedRanges, fileSize, received)
    {
      ghost var scan := ScanFrom(handle, blockSize, fileSize, allocatedRanges, 0);
      var ranges := allocatedRanges;
      var pos := 0;
      PrefixedNothing(scan);
      while pos < fileSize
        invariant pos < fileSize ==> ranges != []
        invariant QueueConsistent()
        invariant scan == Prefixed(received, ScanFrom(handle, blockSize, fileSize, ranges, pos))
        invariant ScanRemainder(allocatedRanges, ranges, pos, fileSize)
        invariant handle.ReadsFrom(content) && |content| == fileSize ==>
          ScannedZeros(content, allocatedRanges, fileSize, received)
        decreases |ranges|, fileSize - pos
      {
        if ranges != [] && pos >= ranges[0].end {
          // out of the current range: go to the next one
          ghost var skipped, skippedAt := ranges, pos;
          ranges := ranges[1..];
          if ranges == [] {
            assert scan == Ok(received) by {
              ScanSkipStep(handle, blockSize, fileSize, skipped, skippedAt);
              assert received + [] == received;
            }
            break;
          } else {
            pos := ranges[0].start;
            assert scan == Prefixed(received, ScanFrom(handle, blockSize, fileSize, ranges, pos)) by {
              ScanSkipStep(handle, blockSize, fileSize, skipped, skippedAt);
            }
            assert ScanRemainder(allocatedRanges, ranges, pos, fileSize) by {
              RemainderSkip(allocatedRanges, skipped, skippedAt, fileSize);
            }
            continue;
          }
        }
        if !handle.seek(pos) {
          assert scan == Err(CannotSetFilePointer);
          return Failure(CannotSetFilePointer);
        }
        var requiredSize := Min(blockSize, ranges[0].end - pos);
        var reply := handle.read(pos, requiredSize);
        if reply.ReadFailed? || |reply.bytes| == 0 {
          assert scan == Err(CannotReadFilePart);
          return Failure(CannotReadFilePart);
        }
        var bytesRead := |reply.bytes|;
        ghost var rest := ScanFrom(handle, blockSize, fileSize, ranges, pos + bytesRead);
        assert ScanRemainder(allocatedRanges, ranges, pos + bytesRead, fileSize) by {
          RemainderAdvance(allocatedRanges, ranges, pos, bytesRead, fileSize);
        }
        if AllZero(reply.bytes) {
          var zero := Range(pos, pos + bytesRead);
          assert scan == Prefixed(received + [zero], rest) by {
            ScanReadStep(handle, blockSize, fileSize, ranges, pos, reply.bytes);
            PrefixedTwice(received, [zero], rest);
          }
          var ok := PassZeroBlock(zero, allocatedRanges, ranges, reply.bytes, rest);
          if !ok {
            return Failure(CannotSetZeroData);
          }
        } else {
          assert scan == Prefixed(received, rest) by {
            ScanReadStep(handle, blockSize, fileSize, ranges, pos, reply.bytes);
          }
        }
        pos := pos + bytesRead;
      }
      assert received + [] == received;
      return Success;
    }

    /** The end of `process_file`: `deallocate_remained`, then the call to
        GetFileInformationByHandleEx that `get_file_deallocated_bytes` makes for
        the final report. It succeeds exactly when every coalesced block is
        accepted and that call succeeds; the flushed ranges stay counted,
        accepted and made of scanned zero bytes whatever happens. */
    method FlushAndReport(ghost allocatedRanges: seq<Range>) returns (status: Status)
      requires QueueConsistent()
      requires handle.ReadsFrom(content) && |content| == fileSize ==>
        ScannedZeros(content, allocatedRanges, fileSize, received)
      modifies this`deallocatedBytes, this`deallocateQueue, this`flushed
      ensures deallocatedBytes == SumLengths(flushed) && handle.AllAccepted(flushed)
      ensures handle.ReadsFrom(content) && |content| == fileSize ==>
        ScannedZeros(content, allocatedRanges, fileSize, flushed)
      ensures status.Success? <==> handle.AllAccepted(Coalesce(received)) && handle.standardInfo
      ensures status.Failure? ==> status.error in {CannotSetZeroData, CannotGetFileInfo}
      ensures status.Success? || status == Failure(CannotGetFileInfo) ==>
        flushed == Coalesce(received) && deallocateQueue == []
      ensures status == Failure(CannotSetZeroData) ==> QueueConsistent()
    {
      ghost var flushedBefore, queueBefore, counterBefore := flushed, deallocateQueue, deallocatedBytes;
      var ok := DeallocateRemained();
      assert deallocatedBytes == SumLengths(flushed) && handle.AllAccepted(flushed) &&
             (ok ==> flushed == Coalesce(received)) &&
             (!ok ==> !handle.AllAccepted(Coalesce(received)) && QueueConsistent()) by {
        RemainedKeepsConsistent(handle, flushedBefore, queueBefore, received, counterBefore,
                                flushed, deallocatedBytes, ok);
      }
      assert handle.ReadsFrom(content) && |content| == fileSize ==>
        ScannedZeros(content, allocatedRanges, fileSize, flushed) by {
        if handle.ReadsFrom(content) && |content| == fileSize {
          assert flushed + deallocateQueue == Coalesce(received) by {
            if ok {
              assert flushed + [] == flushed;
            }
          }
          FlushedAreScannedZeros(content, allocatedRanges, fileSize, flushed, deallocateQueue, received);
        }
      }
      if !ok {
        return Failure(CannotSetZeroData);
      }
      if !handle.standardInfo {
        return Failure(CannotGetFileInfo);
      }
      return Success;
    }

    /** `process_file`: reset the counter, run the scan loop, flush what is still
        queued, then ask for the file's standard information for the final report.
        The front of the list is read before anything checks that the list is not
        empty, so the list must not be empty when the file is not. Whatever the
        outcome, every range already deallocated was counted, was accepted, and
        holds only scanned zero bytes. */
    method ProcessFile(allocatedRanges: seq<Range>) returns (status: Status)
      requires deallocateQueue == []
      requires fileSize > 0 ==> allocatedRanges != []
      modifies this`deallocatedBytes, this`deallocateQueue, this`flushed, this`received
      ensures deallocatedBytes == SumLengths(flushed) && handle.AllAccepted(flushed)
      ensures handle.ReadsFrom(content) && |content| == fileSize ==>
        ScannedZeros(content, allocatedRanges, fileSize, flushed)
      ensures status.Failure? ==>
        status.error in {CannotSetFilePointer, CannotReadFilePart, CannotSetZeroData, CannotGetFileInfo}
      ensures status.Success? <==>
        ScanFrom(handle, blockSize, fileSize, allocatedRanges, 0).Ok? &&
        handle.AllAccepted(Coalesce(ScanFrom(handle, blockSize, fileSize, allocatedRanges, 0).value)) &&
        handle.standardInfo
      ensures status.Success? || status == Failure(CannotGetFileInfo) ==>
        ScanFrom(handle, blockSize, fileSize, allocatedRanges, 0) == Ok(received) &&
        flushed == Coalesce(received) && deallocateQueue == []
      ensures status.Failure? && status.error != CannotGetFileInfo ==> QueueConsistent()
      ensures status.Failure? && status.error !in {CannotSetZeroData, CannotGetFileInfo} ==>
        ScanFrom(handle, blockSize, fileSize, allocatedRanges, 0) == Err(status.error)
    {
      deallocatedBytes := 0;
      flushed := [];
      received := [];
      status := ScanRanges(allocatedRanges);
      if status.Failure? {
        if handle.ReadsFrom(content) && |content| == fileSize {
          FlushedAreScannedZeros(content, allocatedRanges, fileSize, flushed, deallocateQueue, received);
        }
        return;
      }
      status := FlushAndReport(allocatedRanges);
    }

    /** `resparse`: set the sparse flag, enumerate the allocated ranges and scan
        them. Unlike the source, an empty range list is not handed to the scan
        (a non-empty file that is all hole would have its missing front range read);
        it deallocates nothing and goes straight to the final report. On every
        outcome the ranges deallocated so far hold only zero bytes of the file. */
    method Resparse(blockSize: DWord) returns (status: Status)
      requires deallocateQueue == []
      requires handle.QueryProgresses()
      modifies this
      ensures this.blockSize == blockSize
      ensures status.Success? <==>
        handle.setSparse && RunBlocks(handle, blockSize, fileSize).Ok? &&
        handle.AllAccepted(Coalesce(RunBlocks(handle, blockSize, fileSize).value)) &&
        handle.standardInfo
      ensures status.Success? || status == Failure(CannotGetFileInfo) ==>
        RunBlocks(handle, blockSize, fileSize) == Ok(received) && flushed == Coalesce(received) &&
        deallocatedBytes == SumLengths(flushed) && deallocateQueue == []
      ensures status.Failure? && status.error !in {CannotSetSparse, CannotSetZeroData, CannotGetFileInfo} ==>
        handle.setSparse && RunBlocks(handle, blockSize, fileSize) == Err(status.error)
      ensures status.Failure? && status.error in {CannotSetSparse, CannotGetAllocatedRanges} ==>
        flushed == [] && deallocatedBytes == old(deallocatedBytes)
      ensures !(status.Failure? && status.error in {CannotSetSparse, CannotGetAllocatedRanges}) ==>
        deallocatedBytes == SumLengths(flushed) && handle.AllAccepted(flushed)
      ensures handle.ReadsFrom(content) && |content| == fileSize ==>
        forall x :: Covers(flushed, x) ==> 0 <= x < fileSize && content[x] == 0
    {
      this.blockSize := blockSize;
      flushed := [];
      received := [];
      if !handle.setSparse {
        return Failure(CannotSetSparse);
      }
      var ranges := GetAllocatedRanges();
      if ranges.Err? {
        return Failure(ranges.error);
      }
      if ranges.value == [] {
        deallocatedBytes := 0;
        if !handle.standardInfo {
          return Failure(CannotGetFileInfo);
        }
        return Success;
      }
      status := ProcessFile(ranges.value);
    }
  }
}
