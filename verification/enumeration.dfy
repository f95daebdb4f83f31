/** The allocated-range list that `get_allocated_ranges` builds, as a function of
    the answers of FSCTL_QUERY_ALLOCATED_RANGES. */
module Enumeration {
  import opened Ranges
  import opened Storage

  /** `{start, start + len}` for each reported extent, in the order reported. */
  function ToRanges(batch: seq<Extent>): (rs: seq<Range>)
  {
    seq(|batch|, i requires 0 <= i < |batch| => Range(batch[i].offset, batch[i].offset + batch[i].length))
  }

  /** The ranges gathered from offset `pos` on: ask for `[pos, fileSize)`, keep the
      batch, and ask again from the end of its last range while the reply was
      "more data" and that end is still inside the file. Any other failure ends
      the enumeration with an error. */
  function Enumerate(h: FileHandle, fileSize: int, pos: int): (found: Result<seq<Range>>)
    requires h.QueryProgresses()
    decreases fileSize - pos
  {
    if pos >= fileSize then Ok([])
    else
      var reply := h.query(pos, fileSize - pos);
      assert MovesOn(pos, reply);
      if reply.status == QueryFailed then Err(CannotGetAllocatedRanges)
      else
        var found := ToRanges(reply.batch);
        if reply.status == Complete then Ok(found)
        else Prefixed(found, Enumerate(h, fileSize, found[|found| - 1].end))
  }

  /** A batch inside the queried window `[p, p + l)` gives sorted ranges inside it. */
  lemma BatchSorted(p: int, l: int, batch: seq<Extent>)
    requires BatchWithin(p, l, batch)
    ensures Sorted(ToRanges(batch))
    ensures forall i :: 0 <= i < |batch| ==> p <= ToRanges(batch)[i].start && ToRanges(batch)[i].end <= p + l
  {
  }

  /** Two sorted lists inside `[lo, hi)`, the first ending before `mid` and the
      second starting after it, join into a sorted list inside `[lo, hi)`. */
  lemma SortedJoin(a: seq<Range>, b: seq<Range>, lo: int, mid: int, hi: int)
    requires Sorted(a) && Sorted(b)
    requires forall i :: 0 <= i < |a| ==> lo <= a[i].start && a[i].end <= mid && a[i].end <= hi
    requires forall i :: 0 <= i < |b| ==> mid <= b[i].start && lo <= b[i].start && b[i].end <= hi
    ensures Sorted(a + b)
    ensures forall i :: 0 <= i < |a + b| ==> lo <= (a + b)[i].start && (a + b)[i].end <= hi
  {
    var rs := a + b;
    forall i, j | 0 <= i < j < |rs| ensures rs[i].end <= rs[j].start {
      if j < |a| {
      } else if i < |a| {
        assert rs[j] == b[j - |a|];
      } else {
        assert rs[i] == b[i - |a|] && rs[j] == b[j - |a|];
      }
    }
    forall i | |a| <= i < |rs| ensures lo <= rs[i].start && rs[i].end <= hi {
      assert rs[i] == b[i - |a|];
    }
  }

  /** When every batch lies inside the queried region and is sorted, the whole
      list is sorted and lies inside `[pos, fileSize)`. */
  lemma {:induction false} EnumerateSorted(h: FileHandle, fileSize: int, pos: int, rs: seq<Range>)
    requires h.QueryProgresses()
    requires h.QueriesWellFormed()
    requires Enumerate(h, fileSize, pos) == Ok(rs)
    ensures Sorted(rs)
    ensures forall i :: 0 <= i < |rs| ==> pos <= rs[i].start && rs[i].end <= fileSize
    decreases fileSize - pos
  {
    if pos < fileSize {
      var reply := h.query(pos, fileSize - pos);
      assert BatchWithin(pos, fileSize - pos, reply.batch);
      var found := ToRanges(reply.batch);
      if reply.status == MoreData {
        assert MovesOn(pos, reply);
        var next := found[|found| - 1].end;
        var rest := Enumerate(h, fileSize, next).value;
        assert rs == found + rest;
        EnumerateSorted(h, fileSize, next, rest);
        BatchSorted(pos, fileSize - pos, reply.batch);
        SortedJoin(found, rest, pos, next, fileSize);
      } else {
        BatchSorted(pos, fileSize - pos, reply.batch);
      }
    }
  }

  /** A file that is entirely a hole: the query succeeds with no range at all, so
      the list is empty although the file is not. */
  lemma FullySparseFileHasNoRanges(h: FileHandle, fileSize: int)
    requires h.QueryProgresses()
    requires 0 < fileSize
    requires h.query(0, fileSize) == QueryReply(Complete, [])
    ensures Enumerate(h, fileSize, 0) == Ok([])
  {
    assert ToRanges([]) == [];
  }
}
