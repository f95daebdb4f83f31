/** What a whole run promises about the file: the ranges handed to
    FSCTL_SET_ZERO_DATA are the zero blocks of the scan, merged, and they hold
    only zero bytes, do not overlap or touch, and together stay within the file;
    and every scanned byte left allocated lies near a non-zero byte. */
module Pipeline {
  import opened Ranges
  import opened Storage
  import opened Coalescing
  import opened Enumeration
  import opened Scanning
  import opened Engine

  /** The zero blocks of a run over a non-empty range list, with the facts the
      scan lemmas give about them: increasing, non-empty, inside the file, and
      every byte they cover read by the scan and zero in the file. */
  lemma BlocksOfRun(h: FileHandle, content: seq<bv8>, blockSize: int, fileSize: nat, ranges: seq<Range>, zs: seq<Range>)
    requires h.QueryProgresses() && h.QueriesWellFormed()
    requires h.ReadsFrom(content) && |content| == fileSize
    requires Enumerate(h, fileSize, 0) == Ok(ranges) && ranges != []
    requires ScanFrom(h, blockSize, fileSize, ranges, 0) == Ok(zs)
    ensures Ascending(zs) && WellFormed(zs)
    ensures forall i :: 0 <= i < |zs| ==> 0 <= zs[i].start && zs[i].end <= fileSize
    ensures forall x :: Covers(zs, x) ==> InScan(ranges, 0, fileSize, x) && 0 <= x < fileSize && content[x] == 0
  {
    EnumerateSorted(h, fileSize, 0, ranges);
    ReadsFromFits(h, content);
    ScanBlocksAscend(h, blockSize, fileSize, ranges, 0, zs);
    ScanBlocksHoldOnlyZeros(h, content, blockSize, fileSize, ranges, 0, zs);
  }

  /** Soundness of a run: the ranges deallocated after a successful scan are
      separated, cover exactly the zero blocks, hold only bytes that are zero in
      the file, and add up to the bytes of the zero blocks, which is at most the
      file size. */
  lemma DeallocationIsSound(h: FileHandle, content: seq<bv8>, blockSize: int, fileSize: nat, zs: seq<Range>)
    requires h.QueryProgresses() && h.QueriesWellFormed()
    requires h.ReadsFrom(content) && |content| == fileSize
    requires RunBlocks(h, blockSize, fileSize) == Ok(zs)
    ensures Separated(Coalesce(zs))
    ensures forall x :: Covers(Coalesce(zs), x) <==> Covers(zs, x)
    ensures forall x :: Covers(Coalesce(zs), x) ==> 0 <= x < fileSize && content[x] == 0
    ensures SumLengths(Coalesce(zs)) == SumLengths(zs) <= fileSize
  {
    var ranges := Enumerate(h, fileSize, 0).value;
    if ranges != [] {
      BlocksOfRun(h, content, blockSize, fileSize, ranges, zs);
      CoalesceSeparates(zs);
      CoalescePreservesCoverage(zs);
      CoalescePreservesLength(zs);
      CoalesceWithin(zs, 0, fileSize);
      SeparatedSumBound(Coalesce(zs), 0, fileSize);
    }
  }

  /** Completeness of a run: a byte the scan reads that ends up in no
      deallocated range has a non-zero byte of the file less than one block away. */
  lemma NoZeroBlockIsMissed(h: FileHandle, content: seq<bv8>, blockSize: int, fileSize: nat, ranges: seq<Range>, zs: seq<Range>)
    requires h.QueryProgresses() && h.QueriesWellFormed()
    requires h.ReadsFrom(content) && |content| == fileSize
    requires Enumerate(h, fileSize, 0) == Ok(ranges) && ranges != []
    requires ScanFrom(h, blockSize, fileSize, ranges, 0) == Ok(zs)
    ensures forall x :: InScan(ranges, 0, fileSize, x) && !Covers(Coalesce(zs), x) ==>
      exists y :: x - blockSize < y < x + blockSize && 0 <= y < fileSize && content[y] != 0
  {
    BlocksOfRun(h, content, blockSize, fileSize, ranges, zs);
    CoalescePreservesCoverage(zs);
    ScanMissesNoZeroBlock(h, content, blockSize, fileSize, ranges, 0, zs);
  }

  /** How much a run can deallocate. The scan starts at offset 0, so on top of
      the allocated bytes it can take the hole in front of the first range:
      the total is at most that hole plus the total length of the list. */
  lemma DeallocatedBound(h: FileHandle, blockSize: int, fileSize: nat, ranges: seq<Range>, zs: seq<Range>)
    requires h.QueryProgresses() && h.QueriesWellFormed() && h.ReadsAtMost()
    requires Enumerate(h, fileSize, 0) == Ok(ranges) && ranges != []
    requires ScanFrom(h, blockSize, fileSize, ranges, 0) == Ok(zs)
    ensures SumLengths(Coalesce(zs)) <= ranges[0].start + SumLengths(ranges)
  {
    EnumerateSorted(h, fileSize, 0, ranges);
    ScanTotalBound(h, blockSize, fileSize, ranges, 0, zs);
    CoalescePreservesLength(zs);
    SumLengthsFront(ranges);
  }

  /** A scan that starts at the front of the first range instead, as the
      allocated list suggests, deallocates at most the allocated bytes. */
  lemma FirstRangeScanBound(h: FileHandle, blockSize: int, fileSize: nat, ranges: seq<Range>, zs: seq<Range>)
    requires h.QueryProgresses() && h.QueriesWellFormed() && h.ReadsAtMost()
    requires Enumerate(h, fileSize, 0) == Ok(ranges) && ranges != []
    requires ScanFrom(h, blockSize, fileSize, ranges, ranges[0].start) == Ok(zs)
    ensures SumLengths(Coalesce(zs)) <= SumLengths(ranges)
  {
    EnumerateSorted(h, fileSize, 0, ranges);
    ScanTotalBound(h, blockSize, fileSize, ranges, ranges[0].start, zs);
    CoalescePreservesLength(zs);
    SumLengthsFront(ranges);
  }

  /** The scan starts at offset 0 rather than at the first allocated range, so a
      leading hole is read and handed to deallocation again. An 8-byte file whose
      first four bytes are a hole and whose last four are allocated zeros has, with
      a block size of four, four allocated bytes and eight deallocated ones. */
  lemma LeadingHoleIsDeallocated(h: FileHandle)
    requires h.QueryProgresses()
    requires h.query(0, 8) == QueryReply(Complete, [Extent(4, 4)])
    requires h.seek(0) && h.read(0, 4) == ReadOk([0, 0, 0, 0])
    requires h.seek(4) && h.read(4, 4) == ReadOk([0, 0, 0, 0])
    ensures Enumerate(h, 8, 0) == Ok([Range(4, 8)])
    ensures RunBlocks(h, 4, 8) == Ok([Range(0, 4), Range(4, 8)])
    ensures Coalesce([Range(0, 4), Range(4, 8)]) == [Range(0, 8)]
    ensures SumLengths(Coalesce(RunBlocks(h, 4, 8).value)) > SumLengths(Enumerate(h, 8, 0).value)
  {
    var ranges := [Range(4, 8)];
    var zeros: seq<bv8> := [0, 0, 0, 0];
    assert ToRanges([Extent(4, 4)]) == ranges;
    assert AllZero(zeros);
    assert ScanFrom(h, 4, 8, ranges, 8) == Ok([]);
    ScanReadStep(h, 4, 8, ranges, 4, zeros);
    assert [Range(4, 8)] + [] == [Range(4, 8)];
    assert ScanFrom(h, 4, 8, ranges, 4) == Ok([Range(4, 8)]);
    ScanReadStep(h, 4, 8, ranges, 0, zeros);
    assert ScanFrom(h, 4, 8, ranges, 0) == Ok([Range(0, 4)] + [Range(4, 8)]);
    assert [Range(0, 4)] + [Range(4, 8)] == [Range(0, 4), Range(4, 8)];
    assert [Range(0, 4), Range(4, 8)][..1] == [Range(0, 4)];
    assert [Range(0, 8)][..0] == [];
  }
}
