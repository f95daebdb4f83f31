# resparse: the scan-and-coalesce engine in Dafny

resparse makes a Windows file sparse again. It marks the file sparse
(FSCTL_SET_SPARSE) and asks the file system which byte ranges are allocated
(FSCTL_QUERY_ALLOCATED_RANGES, repeated while the answer is ERROR_MORE_DATA).
It then reads those ranges block by block. Each block that is all zero goes to a
deallocation queue, which merges it with the pending range when the two touch.
When they do not touch, the pending range is deallocated with
FSCTL_SET_ZERO_DATA. The bytes handed over are counted.

This project models the `resparser` object of `source/main.cpp` in Dafny:

- `ranges.dfy` (`Ranges`): `struct range` as `Range`, and the shapes of range
  lists (well-formed, sorted, ascending, separated).
- `storage.dfy` (`Storage`): the Windows calls become the fields of a
  `FileHandle` value. Each call is a function from its arguments to its answer,
  and the operating system's promises are predicates on the handle. Each
  exception message becomes an `Error`.
- `enumeration.dfy` (`Enumeration`): `Enumerate` is the list that
  `get_allocated_ranges` builds, given the query answers.
- `scanning.dfy` (`Scanning`): `ScanFrom` is the sequence of zero blocks that
  the `process_file` loop finds.
- `coalescing.dfy` (`Coalescing`): `Coalesce` is the list of ranges that the
  deallocation queue turns a block sequence into.
- `engine.dfy` (`Engine`): the class `Resparser`. Its constants are the open
  `handle`, the `fileSize` and, as ghost state, the file's bytes `content`. Its
  fields are `blockSize`, `deallocatedBytes` and `deallocateQueue`, plus two
  ghost logs: the ranges flushed and the blocks received. Its methods are the imperative operations,
  each proved against the functions above. `Consistent` is the invariant that
  the queue keeps.
- `pipeline.dfy` (`Pipeline`): what a whole run promises about the file.

The scan is modelled as written. The loop jumps over the holes between ranges
(main.cpp:207-219) and stops each read at the end of the current range
(main.cpp:229). But `pos` starts at 0 rather than at the start of the first
allocated range (main.cpp:205). So a hole in front of the first range is read.
Each block of it that is all zero is deallocated again and counted in
`deallocated_bytes`; a block that runs on into the first range's data is kept
when that data is not zero (main.cpp:229-246).
`Pipeline.LeadingHoleIsDeallocated` shows such a file: four allocated bytes,
eight deallocated. `Pipeline.DeallocatedBound` bounds what a run deallocates by
that leading hole plus the allocated bytes. `Pipeline.FirstRangeScanBound`
shows that a scan starting at the first range would stay within the allocated
bytes.

## Model

| member | source | states |
|---|---|---|
| Engine.Resparser.constructor | source/main.cpp:20-40 | the object holds the opened handle, its size and (as ghost state) its bytes, with an empty deallocation queue |
| Engine.Resparser.Resparse | source/main.cpp:42-52 | succeeds exactly when the sparse flag was set, enumeration and scan succeeded, every coalesced zero range was accepted and the final file-information call succeeded; then (and when only that last call fails) the flushed ranges are the coalescing of the run's zero blocks, the counter is their total length and the queue is empty; an enumeration or scan error is that function's error; on every outcome the ranges already deallocated hold only zero bytes of the file, and after the sparse flag and the enumeration the counter is their total and all were accepted |
| Engine.Resparser.DeallocateRange | source/main.cpp:79-104 | succeeds exactly when FSCTL_SET_ZERO_DATA accepts the range; then the counter grows by the range's length, otherwise nothing changes |
| Engine.Resparser.GetAllocatedRanges | source/main.cpp:106-160 | the loop returns exactly the list `Enumerate` defines from the query answers; its only error is "Cannot get allocated ranges" |
| Enumeration.EnumerateSorted | source/main.cpp:112-150 | when every answer lies inside the queried window and is sorted, the enumerated list is sorted and lies inside `[pos, fileSize)` |
| Enumeration.FullySparseFileHasNoRanges | source/main.cpp:112-131 | a non-empty file that is all hole enumerates to the empty list |
| Engine.Resparser.DeallocateRemained | source/main.cpp:162-170 | flushes the queued ranges in order; succeeds and empties the queue exactly when all are accepted; otherwise it stops at the first refused range, with the flushed log and counter covering exactly the ranges before it |
| Engine.RemainedKeepsConsistent | source/main.cpp:162-170 | after the final flush the counter is the total length of the flushed ranges; on success the flushed ranges are exactly the coalescing of all blocks received; on failure the coalescing holds a refused range and the queue invariant still holds |
| Engine.Resparser.DeallocateNext | source/main.cpp:172-187 | an empty queue takes the block; a block that starts where the back range ends extends it; otherwise the front range is deallocated and removed and the block is queued; a refusal changes nothing |
| Engine.Resparser.PassZeroBlock | source/main.cpp:239-246 | hands an all-zero block to `deallocate_next`; once taken, the block is logged, the queue invariant holds and every received block still holds only scanned zero bytes; a refusal changes nothing and rules out a fully accepted run |
| Engine.NextKeepsConsistent | source/main.cpp:172-187 | each move of `deallocate_next` keeps the queue invariant: at most one pending range, flushed ranges plus the pending one equal the coalescing of the blocks received, counter equals flushed total, all flushed ranges accepted |
| Engine.FirstBlockConsistent | source/main.cpp:174-186 | the first block becomes the pending range and keeps the invariant |
| Engine.ExtendConsistent | source/main.cpp:176-180 | extending the pending range to the end of an adjacent block keeps the invariant |
| Engine.FlushConsistent | source/main.cpp:182-186 | flushing an accepted pending range and queueing a non-adjacent block keeps the invariant and adds the range's length to the counter |
| Engine.RefusedFlushFailsRun | source/main.cpp:176-183 | a pending range refused when a non-adjacent block arrives is a range of the final coalescing, whatever blocks follow, so the run as a whole cannot succeed |
| Engine.FlushedAreScannedZeros | source/main.cpp:162-187 | the flushed ranges are coalesced blocks, so when every received block holds only scanned zero bytes, so does every flushed range |
| Coalescing.CoalesceSnoc | source/main.cpp:172-187 | one step of `Coalesce`, seen from the pending range: a block adjacent to it widens it; any other block is appended after it |
| Coalescing.CoalesceKeepsSettled | source/main.cpp:182-183 | every coalesced range but the last is final: later blocks never change it, so a range flushed early is a range of the final result |
| Coalescing.CoalesceStep | source/main.cpp:172-187 | one step of `Coalesce`: one more block changes only the last coalesced range or appends one |
| Coalescing.CoalesceShape | source/main.cpp:172-187 | coalescing makes no more ranges than blocks, none only from none, and spans from the first block's start to the last block's end |
| Coalescing.CoalescePreservesLength | source/main.cpp:103 | the coalesced ranges add up to the same number of bytes as the blocks |
| Coalescing.CoalescePreservesCoverage | source/main.cpp:172-187 | coalesced ranges are well formed and cover exactly the bytes the blocks cover |
| Coalescing.CoalesceSeparates | source/main.cpp:176-186 | blocks in increasing order coalesce into ranges that neither overlap nor touch |
| Coalescing.CoalesceWithin | source/main.cpp:176-178 | coalescing keeps every range inside any window holding all the blocks |
| Coalescing.CoalesceCoversOnlyBlocks | source/main.cpp:172-187 | a byte in a coalesced range lies in one of the blocks |
| Engine.Resparser.ScanRanges | source/main.cpp:205-249 | the loop keeps the queue invariant and, on every exit, every block received holds only bytes the scan read and found zero; its errors are the seek, read and zero-data ones; it succeeds with the received blocks equal to `ScanFrom` from offset 0, fails with the scan's own error, or fails on a refused range only when the run could not have had every range accepted |
| Engine.Resparser.ProcessFile | source/main.cpp:200-256 | resets the counter; succeeds exactly when the scan succeeds, every coalesced zero range is accepted and the final file-information call succeeds; then (and when only that call fails) the flushed ranges are the coalescing of the zero blocks; whatever the outcome the counter is the total of the accepted flushed ranges and they hold only scanned zero bytes; a seek or read error is the scan's error, and any failure before the final call leaves the queue invariant intact |
| Engine.Resparser.FlushAndReport | source/main.cpp:251-255 | flushes the queue and makes the file-information call; succeeds exactly when every coalesced block is accepted and that call succeeds; the flushed ranges stay counted, accepted and made of scanned zero bytes on every outcome; a refusal leaves the queue invariant intact |
| Scanning.ScanSkipStep | source/main.cpp:207-219 | one step of `ScanFrom`: at the end of the front range the scan continues from the start of the next range, or ends when none is left |
| Scanning.ScanReadStep | source/main.cpp:221-248 | one step of `ScanFrom`: after a non-empty read at `pos` the scan continues after the bytes read, with a block for them in front when they are all zero |
| Scanning.ScanBlocksAscend | source/main.cpp:205-248 | over a sorted list the zero blocks are non-empty, increasing, start no earlier than `pos`, end inside the file and are at most one block long |
| Scanning.ScanBlocksStayInRanges | source/main.cpp:229 | no zero block crosses the end of an allocated range or the start of a later one |
| Scanning.ScanBlocksHoldOnlyZeros | source/main.cpp:229-243 | every byte of a zero block is read by the scan and is zero in the file |
| Scanning.ScanMissesNoZeroBlock | source/main.cpp:229-248 | every scanned byte outside the zero blocks is less than one block away from a non-zero byte |
| Scanning.ZeroBlockScanned | source/main.cpp:229-246 | a block read from the front range and found all zero holds only bytes the scan reads and that are zero in the file |
| Scanning.RemainderSkip | source/main.cpp:207-219 | dropping the front range and jumping to the next one's start reads no byte the whole scan would not read |
| Scanning.RemainderAdvance | source/main.cpp:248 | moving `pos` past the bytes read reads no byte the whole scan would not read |
| Scanning.ScanTotalBound | source/main.cpp:205-248 | the zero blocks found from `pos` add up to at most the rest of the front range plus the lengths of the later ranges |
| Pipeline.BlocksOfRun | source/main.cpp:200-248 | the zero blocks of a run over the enumerated list are increasing, inside the file, and cover only scanned zero bytes |
| Pipeline.DeallocationIsSound | source/main.cpp:200-256 | the ranges a successful run deallocates are separated, cover exactly the zero blocks, hold only zero bytes, and add up to the blocks' total, at most the file size |
| Pipeline.NoZeroBlockIsMissed | source/main.cpp:229-251 | a scanned byte left allocated after a run has a non-zero byte less than one block away |
| Pipeline.DeallocatedBound | source/main.cpp:205-251 | a run deallocates at most the hole in front of the first range plus the total length of the allocated list |
| Pipeline.FirstRangeScanBound | source/main.cpp:205-229 | a scan started at the first range's start instead of 0 deallocates at most the allocated total |
| Pipeline.LeadingHoleIsDeallocated | source/main.cpp:205 | a file whose first half is a hole has four allocated bytes, and a run with four-byte blocks deallocates eight: more than the enumerated list's total |

## Left out

- The Windows calls (CreateFileA, GetFileSizeEx, FSCTL_SET_SPARSE, FSCTL_QUERY_ALLOCATED_RANGES, SetFilePointerEx, ReadFile, FSCTL_SET_ZERO_DATA) are not executed. Each is a field of `FileHandle` that gives its answer from its arguments. The answers are fixed for the whole run, so a file changed during the scan is not modelled.
- Opening the file and reading its size (main.cpp:20-40) are inputs of the constructor. The "Cannot open file" and "Cannot get file size" failures are not modelled.
- Exceptions become `Failure(error)` results. The object is left in whatever state the failing step reached. The `wil` handle's lifetime is not modelled.
- Verbose output, `totalAllocated` (used only for that output) and the final "Done!" report are left out. Of `get_file_deallocated_bytes` (main.cpp:189-198), called inside `process_file` for that report, only the outcome of GetFileInformationByHandleEx is modelled (`FileHandle.standardInfo`, failing with "Cannot get file info"); the value it computes is only printed.
- `main` and its command-line parsing (main.cpp:259-295) are not part of this model. This includes the 512 to 1 GiB block-size limit, so `blockSize` is any DWORD.
- The fixed 64-entry reply buffer and the `bytesReturned / sizeof` count are replaced by the batch carried in each query answer.
- `LONGLONG` arithmetic is unbounded here, so offsets that overflow 64 bits are not modelled.
- `Enumerate` and `Resparser.GetAllocatedRanges`: the OS is assumed to make progress (`QueryProgresses`): an ERROR_MORE_DATA answer carries at least one range, ending past the queried offset. Without that the source loop may never end.
- Engine.Resparser.constructor: `deallocated_bytes` is left unset, as in the source; `ProcessFile` sets it to 0.
- Engine.Resparser.ProcessFile: requires a non-empty list when the file is not empty. The source reads the front of an empty deque there (undefined behaviour, see Findings).
- Engine.Resparser.Resparse: does not pass an empty list to the scan; see Findings.

## Findings

| source | as written | input that shows it | evidently intended | confidence | as-written member | corrected member |
|---|---|---|---|---|---|---|
| source/main.cpp:51,205-229 | `resparse` passes the allocated list to `process_file` unchecked. With `pos = 0 < fileSize` and an empty deque, the skip test is false, so `allocatedRanges.front().end` is read from an empty `std::deque` at line 229 | a non-empty file that is entirely a hole: the query answers success with no range | a file with no allocated range has nothing to scan: deallocate nothing and report success | high; not executed | Enumeration.FullySparseFileHasNoRanges (such a file enumerates to the empty list) with Engine.Resparser.ProcessFile, whose precondition that case breaks | Engine.Resparser.Resparse |
