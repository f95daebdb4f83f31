/** The zero blocks that `process_file` finds, as a function of the allocated-range
    list and the answers of SetFilePointerEx and ReadFile, and what they cover. */
module Scanning {
  import opened Ranges
  import opened Storage

  /** `std::all_of` over the bytes read: every one is zero. */
  predicate AllZero(bytes: seq<bv8>)
  {
    forall i :: 0 <= i < |bytes| ==> bytes[i] == 0
  }

  function Min(a: int, b: int): (m: int)
  {
    if a <= b then a else b
  }

  /** The zero blocks found from position `pos` on, with `ranges` the allocated
      ranges not yet dropped from the front. Once `pos` reaches the end of the
      front range that range is dropped and `pos` jumps to the start of the next;
      otherwise `min(blockSize, front.end - pos)` bytes are read at `pos`, a read
      of nothing is an error, an all-zero read is a block, and `pos` moves past
      what was read. */
  function ScanFrom(h: FileHandle, blockSize: int, fileSize: int, ranges: seq<Range>, pos: int): (blocks: Result<seq<Range>>)
    requires pos < fileSize ==> ranges != []
    decreases |ranges|, fileSize - pos
  {
    if pos >= fileSize then Ok([])
    else if pos >= ranges[0].end then
      if |ranges| == 1 then Ok([])
      else ScanFrom(h, blockSize, fileSize, ranges[1..], ranges[1].start)
    else if !h.seek(pos) then Err(CannotSetFilePointer)
    else
      match h.read(pos, Min(blockSize, ranges[0].end - pos))
      case ReadFailed => Err(CannotReadFilePart)
      case ReadOk(bytes) =>
        if |bytes| == 0 then Err(CannotReadFilePart)
        else
          var rest := ScanFrom(h, blockSize, fileSize, ranges, pos + |bytes|);
          if AllZero(bytes) then Prefixed([Range(pos, pos + |bytes|)], rest) else rest
  }

  /** One step of the scan at the end of the front range. */
  lemma ScanSkipStep(h: FileHandle, blockSize: int, fileSize: int, ranges: seq<Range>, pos: int)
    requires pos < fileSize && ranges != [] && pos >= ranges[0].end
    ensures ScanFrom(h, blockSize, fileSize, ranges, pos) ==
      if |ranges| == 1 then Ok([]) else ScanFrom(h, blockSize, fileSize, ranges[1..], ranges[1].start)
  {
  }

  /** One step of the scan inside the front range, once a block has been read. */
  lemma ScanReadStep(h: FileHandle, blockSize: int, fileSize: int, ranges: seq<Range>, pos: int, bytes: seq<bv8>)
    requires pos < fileSize && ranges != [] && pos < ranges[0].end && h.seek(pos)
    requires h.read(pos, Min(blockSize, ranges[0].end - pos)) == ReadOk(bytes) && |bytes| > 0
    ensures AllZero(bytes) ==> (ScanFrom(h, blockSize, fileSize, ranges, pos) ==
      Prefixed([Range(pos, pos + |bytes|)], ScanFrom(h, blockSize, fileSize, ranges, pos + |bytes|)))
    ensures !AllZero(bytes) ==> (ScanFrom(h, blockSize, fileSize, ranges, pos) ==
      ScanFrom(h, blockSize, fileSize, ranges, pos + |bytes|))
  {
  }

  /** The bytes the scan reads from position `pos` on: the rest of the front
      range from `pos`, and, if that range ends inside the file, every later range
      from its start; all below `fileSize`, and nothing once `pos` has reached it. */
  predicate InScan(ranges: seq<Range>, pos: int, fileSize: int, x: int)
    decreases |ranges|
  {
    ranges != [] && pos < fileSize && x < fileSize &&
    ((pos <= x < ranges[0].end) ||
     (|ranges| > 1 && ranges[0].end < fileSize && InScan(ranges[1..], ranges[1].start, fileSize, x)))
  }

  /** Over a sorted range list, the zero blocks come in increasing order, start
      no earlier than `pos`, end inside the file, and are at most one block long. */
  lemma {:induction false} ScanBlocksAscend(h: FileHandle, blockSize: int, fileSize: int, ranges: seq<Range>, pos: int, zs: seq<Range>)
    requires pos < fileSize ==> ranges != []
    requires ScanFrom(h, blockSize, fileSize, ranges, pos) == Ok(zs)
    requires h.ReadsAtMost()
    requires Sorted(ranges)
    requires forall k :: 0 <= k < |ranges| ==> ranges[k].end <= fileSize
    requires ranges != [] ==> pos <= ranges[0].end
    ensures Ascending(zs)
    ensures forall i :: 0 <= i < |zs| ==> pos <= zs[i].start && zs[i].end <= fileSize && zs[i].Length() <= blockSize
    decreases |ranges|, fileSize - pos
  {
    if pos < fileSize {
      if pos >= ranges[0].end {
        if |ranges| > 1 {
          var tail := ranges[1..];
          assert Sorted(tail) by {
            assert forall k :: 0 <= k < |tail| ==> tail[k] == ranges[k + 1];
          }
          assert ranges[0].end <= ranges[1].start;
          ScanBlocksAscend(h, blockSize, fileSize, tail, ranges[1].start, zs);
        }
      } else {
        var n := Min(blockSize, ranges[0].end - pos);
        var reply := h.read(pos, n);
        assert ReadFits(pos, n, reply);
        if h.seek(pos) && reply.ReadOk? && |reply.bytes| > 0 {
          var next := pos + |reply.bytes|;
          var rest := ScanFrom(h, blockSize, fileSize, ranges, next);
          if rest.Ok? {
            ScanBlocksAscend(h, blockSize, fileSize, ranges, next, rest.value);
            if AllZero(reply.bytes) {
              assert zs == [Range(pos, next)] + rest.value;
              assert forall i :: 1 <= i < |zs| ==> zs[i] == rest.value[i - 1];
            }
          }
        }
      }
    }
  }

  /** Block `b` crosses no end of a range of `ranges` and no start of a range
      after the first: it does not span a hole between two ranges. */
  predicate WithinRanges(b: Range, ranges: seq<Range>)
  {
    (forall k :: 0 <= k < |ranges| ==> !(b.start < ranges[k].end < b.end)) &&
    (forall k :: 1 <= k < |ranges| ==> !(b.start < ranges[k].start < b.end))
  }

  /** No zero block straddles the end of an allocated range, nor the start of any
      range after the first: a block never spans a hole between two ranges. */
  lemma {:induction false} ScanBlocksStayInRanges(h: FileHandle, blockSize: int, fileSize: int, ranges: seq<Range>, pos: int, zs: seq<Range>)
    requires pos < fileSize ==> ranges != []
    requires ScanFrom(h, blockSize, fileSize, ranges, pos) == Ok(zs)
    requires h.ReadsAtMost()
    requires Sorted(ranges)
    requires ranges != [] ==> pos <= ranges[0].end
    ensures forall i :: 0 <= i < |zs| ==> pos <= zs[i].start && WithinRanges(zs[i], ranges)
    decreases |ranges|, fileSize - pos
  {
    if pos < fileSize {
      if pos >= ranges[0].end {
        if |ranges| > 1 {
          var tail := ranges[1..];
          assert Sorted(tail) by {
            assert forall k :: 0 <= k < |tail| ==> tail[k] == ranges[k + 1];
          }
          ScanBlocksStayInRanges(h, blockSize, fileSize, tail, ranges[1].start, zs);
          assert pos == ranges[0].end <= ranges[1].start;
          forall i | 0 <= i < |zs| ensures WithinRanges(zs[i], ranges) {
            var b := zs[i];
            assert WithinRanges(b, tail) && ranges[1].start <= b.start;
            forall k | 0 <= k < |ranges| ensures !(b.start < ranges[k].end < b.end) {
              if k > 0 { assert ranges[k] == tail[k - 1]; }
            }
            forall k | 1 <= k < |ranges| ensures !(b.start < ranges[k].start < b.end) {
              assert ranges[k] == tail[k - 1];
            }
          }
        }
      } else {
        var n := Min(blockSize, ranges[0].end - pos);
        var reply := h.read(pos, n);
        assert ReadFits(pos, n, reply);
        if h.seek(pos) && reply.ReadOk? && |reply.bytes| > 0 {
          var next := pos + |reply.bytes|;
          var rest := ScanFrom(h, blockSize, fileSize, ranges, next);
          if rest.Ok? {
            ScanBlocksStayInRanges(h, blockSize, fileSize, ranges, next, rest.value);
            if AllZero(reply.bytes) {
              var b := Range(pos, next);
              assert WithinRanges(b, ranges) by {
                assert next <= ranges[0].end;
                assert forall k :: 1 <= k < |ranges| ==> ranges[0].end <= ranges[k].start <= ranges[k].end;
              }
              assert zs == [b] + rest.value;
              assert forall i :: 1 <= i < |zs| ==> zs[i] == rest.value[i - 1];
            }
          }
        }
      }
    }
  }

  /** Every byte inside a zero block is a byte the scan reads, and that byte is
      zero in the file: nothing else is ever handed to deallocation. */
  lemma {:induction false} ScanBlocksHoldOnlyZeros(h: FileHandle, content: seq<bv8>, blockSize: int, fileSize: int, ranges: seq<Range>, pos: int, zs: seq<Range>)
    requires pos < fileSize ==> ranges != []
    requires ScanFrom(h, blockSize, fileSize, ranges, pos) == Ok(zs)
    requires h.ReadsFrom(content) && |content| == fileSize
    ensures forall x :: Covers(zs, x) ==> InScan(ranges, pos, fileSize, x) && 0 <= x < |content| && content[x] == 0
    decreases |ranges|, fileSize - pos
  {
    if pos < fileSize {
      if pos >= ranges[0].end {
        if |ranges| > 1 {
          ScanBlocksHoldOnlyZeros(h, content, blockSize, fileSize, ranges[1..], ranges[1].start, zs);
          forall x | Covers(zs, x) ensures InScan(ranges, pos, fileSize, x) {
            assert InScan(ranges[1..], ranges[1].start, fileSize, x);
          }
        }
      } else {
        var n := Min(blockSize, ranges[0].end - pos);
        var reply := h.read(pos, n);
        assert ReadMatches(content, pos, n, reply);
        if h.seek(pos) && reply.ReadOk? && |reply.bytes| > 0 {
          var bytes := reply.bytes;
          var next := pos + |bytes|;
          var rest := ScanFrom(h, blockSize, fileSize, ranges, next);
          if rest.Ok? {
            ScanBlocksHoldOnlyZeros(h, content, blockSize, fileSize, ranges, next, rest.value);
            if AllZero(bytes) {
              var b := Range(pos, next);
              assert zs == [b] + rest.value;
              forall x | Covers(zs, x)
                ensures InScan(ranges, pos, fileSize, x) && 0 <= x < |content| && content[x] == 0
              {
                CoversAppend([b], rest.value, x);
                if b.Contains(x) {
                  assert content[x] == bytes[x - pos];
                  assert pos <= x < ranges[0].end;
                } else {
                  assert Covers(rest.value, x);
                  assert InScan(ranges, next, fileSize, x);
                }
              }
            } else {
              forall x | Covers(zs, x) ensures InScan(ranges, pos, fileSize, x) {
                assert InScan(ranges, next, fileSize, x);
              }
            }
          }
        }
      }
    }
  }

  /** Every byte the scan reads but leaves out of the zero blocks lies less than
      one block away from a non-zero byte of the file: the scan misses no block
      that is entirely zero. */
  lemma {:induction false} ScanMissesNoZeroBlock(h: FileHandle, content: seq<bv8>, blockSize: int, fileSize: int, ranges: seq<Range>, pos: int, zs: seq<Range>)
    requires pos < fileSize ==> ranges != []
    requires ScanFrom(h, blockSize, fileSize, ranges, pos) == Ok(zs)
    requires h.ReadsFrom(content) && |content| == fileSize
    ensures forall x :: InScan(ranges, pos, fileSize, x) && !Covers(zs, x) ==>
      exists y :: x - blockSize < y < x + blockSize && 0 <= y < |content| && content[y] != 0
    decreases |ranges|, fileSize - pos
  {
    if pos < fileSize {
      if pos >= ranges[0].end {
        if |ranges| > 1 {
          ScanMissesNoZeroBlock(h, content, blockSize, fileSize, ranges[1..], ranges[1].start, zs);
          forall x | InScan(ranges, pos, fileSize, x) && !Covers(zs, x)
            ensures exists y :: x - blockSize < y < x + blockSize && 0 <= y < |content| && content[y] != 0
          {
            assert InScan(ranges[1..], ranges[1].start, fileSize, x);
          }
        }
      } else {
        var n := Min(blockSize, ranges[0].end - pos);
        var reply := h.read(pos, n);
        assert ReadMatches(content, pos, n, reply);
        if h.seek(pos) && reply.ReadOk? && |reply.bytes| > 0 {
          var bytes := reply.bytes;
          var next := pos + |bytes|;
          var rest := ScanFrom(h, blockSize, fileSize, ranges, next);
          if rest.Ok? {
            ScanMissesNoZeroBlock(h, content, blockSize, fileSize, ranges, next, rest.value);
            forall x | InScan(ranges, pos, fileSize, x) && !Covers(zs, x)
              ensures exists y :: x - blockSize < y < x + blockSize && 0 <= y < |content| && content[y] != 0
            {
              if AllZero(bytes) {
                assert zs == [Range(pos, next)] + rest.value;
                CoversAppend([Range(pos, next)], rest.value, x);
              } else {
                assert zs == rest.value;
              }
              if pos <= x < next {
                assert !AllZero(bytes);
                var j :| 0 <= j < |bytes| && bytes[j] != 0;
                assert content[pos + j] == bytes[j];
              } else {
                assert InScan(ranges, next, fileSize, x);
              }
            }
          }
        }
      }
    }
  }

  /** Every byte covered by `zs` is read by the scan of `ranges` from offset 0 and
      is zero in `content`. */
  ghost predicate ScannedZeros(content: seq<bv8>, ranges: seq<Range>, fileSize: int, zs: seq<Range>)
  {
    forall x :: Covers(zs, x) ==> InScan(ranges, 0, fileSize, x) && 0 <= x < |content| && content[x] == 0
  }

  /** What is left to scan of `rest` from `pos` is part of the scan of `ranges` from offset 0. */
  ghost predicate ScanRemainder(ranges: seq<Range>, rest: seq<Range>, pos: int, fileSize: int)
  {
    forall x :: InScan(rest, pos, fileSize, x) ==> InScan(ranges, 0, fileSize, x)
  }

  /** Dropping the front range and jumping to the next one leaves a remainder of the scan. */
  lemma RemainderSkip(ranges: seq<Range>, rest: seq<Range>, pos: int, fileSize: int)
    requires ScanRemainder(ranges, rest, pos, fileSize)
    requires pos < fileSize && |rest| > 1 && pos >= rest[0].end
    ensures ScanRemainder(ranges, rest[1..], rest[1].start, fileSize)
  {
    forall x | InScan(rest[1..], rest[1].start, fileSize, x) ensures InScan(ranges, 0, fileSize, x) {
      assert InScan(rest, pos, fileSize, x);
    }
  }

  /** Moving past bytes just read leaves a remainder of the scan. */
  lemma RemainderAdvance(ranges: seq<Range>, rest: seq<Range>, pos: int, n: int, fileSize: int)
    requires ScanRemainder(ranges, rest, pos, fileSize) && 0 <= n
    ensures ScanRemainder(ranges, rest, pos + n, fileSize)
  {
    forall x | InScan(rest, pos + n, fileSize, x) ensures InScan(ranges, 0, fileSize, x) {
      assert InScan(rest, pos, fileSize, x);
    }
  }

  /** An all-zero block read at `pos`, while the scan is inside the front range of
      `rest`, holds only scanned zero bytes: the blocks found so far stay so. */
  lemma ZeroBlockScanned(h: FileHandle, content: seq<bv8>, blockSize: int, fileSize: int,
                         ranges: seq<Range>, rest: seq<Range>, pos: int, bytes: seq<bv8>, zs: seq<Range>)
    requires h.ReadsFrom(content) && |content| == fileSize
    requires rest != [] && pos < rest[0].end
    requires h.read(pos, Min(blockSize, rest[0].end - pos)) == ReadOk(bytes) && AllZero(bytes)
    requires ScanRemainder(ranges, rest, pos, fileSize)
    requires ScannedZeros(content, ranges, fileSize, zs)
    ensures ScannedZeros(content, ranges, fileSize, zs + [Range(pos, pos + |bytes|)])
  {
    var b := Range(pos, pos + |bytes|);
    var n := Min(blockSize, rest[0].end - pos);
    assert ReadMatches(content, pos, n, h.read(pos, n));
    var zs' := zs + [b];
    assert zs'[..|zs|] == zs;
    forall x | Covers(zs', x) ensures InScan(ranges, 0, fileSize, x) && 0 <= x < |content| && content[x] == 0 {
      if b.Contains(x) {
        assert content[x] == bytes[x - pos];
        assert InScan(rest, pos, fileSize, x);
      }
    }
  }

  /** The zero blocks found from `pos` add up to at most what is left of the front
      range plus every later range. From offset 0 that is the allocated total plus
      the hole in front of the first range; from the first range's start it would
      be the allocated total. */
  lemma {:induction false} ScanTotalBound(h: FileHandle, blockSize: int, fileSize: int, ranges: seq<Range>, pos: int, zs: seq<Range>)
    requires pos < fileSize ==> ranges != []
    requires ScanFrom(h, blockSize, fileSize, ranges, pos) == Ok(zs)
    requires h.ReadsAtMost()
    requires Sorted(ranges)
    requires ranges != [] ==> pos <= ranges[0].end
    ensures ranges == [] ==> zs == []
    ensures ranges != [] ==> SumLengths(zs) <= ranges[0].end - pos + SumLengths(ranges[1..])
    decreases |ranges|, fileSize - pos
  {
    if ranges != [] {
      var tail := ranges[1..];
      assert Sorted(tail) by {
        assert forall k :: 0 <= k < |tail| ==> tail[k] == ranges[k + 1];
      }
      SumLengthsNonNegative(tail);
      if pos < fileSize {
        if pos >= ranges[0].end {
          if |ranges| > 1 {
            assert ranges[0].end <= ranges[1].start;
            ScanTotalBound(h, blockSize, fileSize, tail, ranges[1].start, zs);
            SumLengthsFront(tail);
          }
        } else {
          var n := Min(blockSize, ranges[0].end - pos);
          var reply := h.read(pos, n);
          assert ReadFits(pos, n, reply);
          if h.seek(pos) && reply.ReadOk? && |reply.bytes| > 0 {
            var next := pos + |reply.bytes|;
            var rest := ScanFrom(h, blockSize, fileSize, ranges, next);
            if rest.Ok? {
              ScanTotalBound(h, blockSize, fileSize, ranges, next, rest.value);
              if AllZero(reply.bytes) {
                assert zs == [Range(pos, next)] + rest.value;
                SumLengthsAppend([Range(pos, next)], rest.value);
                assert [Range(pos, next)][..0] == [];
              }
            }
          }
        }
      }
    }
  }
}
