/** Half-open byte intervals and the facts about sequences of them that the
    scan and the deallocation queue rely on. */
module Ranges {

  /** A byte interval `[start, end)`: both `struct range` (an allocated region)
      and FILE_ZERO_DATA_INFORMATION (FileOffset, BeyondFinalZero) have this shape. */
  datatype Range = Range(start: int, end: int)
  {
    function Length(): (n: int) { end - start }

    predicate Contains(x: int) { start <= x < end }
  }

  /** Total number of bytes in `rs`; defined from the back, as ranges are appended. */
  function SumLengths(rs: seq<Range>): (total: int)
  {
    if rs == [] then 0 else SumLengths(rs[..|rs| - 1]) + rs[|rs| - 1].Length()
  }

  /** Some range of `rs` contains byte `x`. */
  predicate Covers(rs: seq<Range>, x: int)
  {
    rs != [] && (Covers(rs[..|rs| - 1], x) || rs[|rs| - 1].Contains(x))
  }

  /** No range ends before it starts. */
  predicate WellFormed(rs: seq<Range>)
  {
    forall i :: 0 <= i < |rs| ==> rs[i].start <= rs[i].end
  }

  /** Well-formed, in increasing order and non-overlapping (neighbours may touch):
      the shape of an allocated-range list. */
  predicate Sorted(rs: seq<Range>)
  {
    WellFormed(rs) && forall i, j :: 0 <= i < j < |rs| ==> rs[i].end <= rs[j].start
  }

  /** Non-empty ranges in increasing order that may touch: the zero blocks of a scan. */
  predicate Ascending(rs: seq<Range>)
  {
    (forall i :: 0 <= i < |rs| ==> rs[i].start < rs[i].end) &&
    forall i, j :: 0 <= i < j < |rs| ==> rs[i].end <= rs[j].start
  }

  /** Non-empty ranges in increasing order with at least one byte between any two:
      neither overlapping nor adjacent. */
  predicate Separated(rs: seq<Range>)
  {
    (forall i :: 0 <= i < |rs| ==> rs[i].start < rs[i].end) &&
    forall i, j :: 0 <= i < j < |rs| ==> rs[i].end < rs[j].start
  }

  /** A range that starts after the end of the last one keeps a list separated. */
  lemma SeparatedPush(rs: seq<Range>, r: Range)
    requires Separated(rs) && r.start < r.end
    requires rs != [] ==> rs[|rs| - 1].end < r.start
    ensures Separated(rs + [r])
  {
    var rs' := rs + [r];
    forall i, j | 0 <= i < j < |rs'| ensures rs'[i].end < rs'[j].start {
      if j == |rs| && i < |rs| - 1 {
        assert rs[i].end < rs[|rs| - 1].start;
      }
    }
  }

  /** Moving the end of the last range further out keeps a list separated. */
  lemma SeparatedWiden(rs: seq<Range>, e: int)
    requires Separated(rs) && rs != [] && rs[|rs| - 1].end <= e
    ensures Separated(rs[..|rs| - 1] + [Range(rs[|rs| - 1].start, e)])
  {
    var rs' := rs[..|rs| - 1] + [Range(rs[|rs| - 1].start, e)];
    assert forall i :: 0 <= i < |rs| - 1 ==> rs'[i] == rs[i];
  }

  /** The bytes covered by a concatenation are those covered by either part. */
  lemma {:induction false} CoversAppend(a: seq<Range>, b: seq<Range>, x: int)
    ensures Covers(a + b, x) <==> Covers(a, x) || Covers(b, x)
    decreases |b|
  {
    if b != [] {
      var b' := b[..|b| - 1];
      assert (a + b)[..|a + b| - 1] == a + b';
      CoversAppend(a, b', x);
    } else {
      assert a + b == a;
    }
  }

  /** Separated ranges inside `[lo, hi)` add up to at most `hi - lo` bytes. */
  lemma {:induction false} SeparatedSumBound(rs: seq<Range>, lo: int, hi: int)
    requires lo <= hi
    requires Separated(rs)
    requires forall i :: 0 <= i < |rs| ==> lo <= rs[i].start && rs[i].end <= hi
    ensures SumLengths(rs) <= hi - lo
    decreases |rs|
  {
    if rs != [] {
      var last := rs[|rs| - 1];
      var init := rs[..|rs| - 1];
      assert forall i :: 0 <= i < |init| ==> init[i] == rs[i];
      assert Separated(init);
      SeparatedSumBound(init, lo, last.start);
    }
  }

  /** The total of a concatenation is the sum of the totals. */
  lemma {:induction false} SumLengthsAppend(a: seq<Range>, b: seq<Range>)
    ensures SumLengths(a + b) == SumLengths(a) + SumLengths(b)
    decreases |b|
  {
    if b == [] {
      assert a + b == a;
    } else {
      var b' := b[..|b| - 1];
      assert (a + b)[..|a + b| - 1] == a + b';
      SumLengthsAppend(a, b');
    }
  }

  /** The total of a list is its first range's length plus the total of the rest. */
  lemma SumLengthsFront(rs: seq<Range>)
    requires rs != []
    ensures SumLengths(rs) == rs[0].Length() + SumLengths(rs[1..])
  {
    assert rs == [rs[0]] + rs[1..];
    SumLengthsAppend([rs[0]], rs[1..]);
    assert [rs[0]][..0] == [];
  }

  /** Well-formed ranges never add up to a negative total. */
  lemma {:induction false} SumLengthsNonNegative(rs: seq<Range>)
    requires WellFormed(rs)
    ensures SumLengths(rs) >= 0
    decreases |rs|
  {
    if rs != [] {
      var init := rs[..|rs| - 1];
      assert forall i :: 0 <= i < |init| ==> init[i] == rs[i];
      SumLengthsNonNegative(init);
    }
  }
}
