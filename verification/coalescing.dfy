/** The merge rule of the deallocation queue, as a function of the zero blocks
    it has been given, and what that rule guarantees. */
module Coalescing {
  import opened Ranges

  /** The ranges the deallocation queue produces from `zs`, in order: a block
      whose start is the end of the range before it extends that range, any
      other block opens a new one. The last range is the one still pending. */
  function Coalesce(zs: seq<Range>): (rs: seq<Range>)
  {
    if zs == [] then []
    else
      var prev := Coalesce(zs[..|zs| - 1]);
      var z := zs[|zs| - 1];
      if prev != [] && prev[|prev| - 1].end == z.start
      then prev[..|prev| - 1] + [Range(prev[|prev| - 1].start, z.end)]
      else prev + [z]
  }

  /** Coalescing never makes more ranges than there are blocks, makes none only
      from none, and spans from the first block's start to the last block's end. */
  lemma {:induction false} CoalesceShape(zs: seq<Range>)
    ensures |Coalesce(zs)| <= |zs|
    ensures (Coalesce(zs) == []) == (zs == [])
    ensures zs != [] ==> Coalesce(zs)[0].start == zs[0].start &&
                         Coalesce(zs)[|Coalesce(zs)| - 1].end == zs[|zs| - 1].end
    decreases |zs|
  {
    if zs != [] {
      CoalesceShape(zs[..|zs| - 1]);
    }
  }

  /** Coalescing neither adds nor loses bytes: the lengths add up to the same total. */
  lemma {:induction false} CoalescePreservesLength(zs: seq<Range>)
    ensures SumLengths(Coalesce(zs)) == SumLengths(zs)
    decreases |zs|
  {
    if zs != [] {
      var init := zs[..|zs| - 1];
      var prev := Coalesce(init);
      var z := zs[|zs| - 1];
      CoalescePreservesLength(init);
      var r := Coalesce(zs);
      if prev != [] && prev[|prev| - 1].end == z.start {
        var p := prev[|prev| - 1];
        assert r[..|r| - 1] == prev[..|prev| - 1];
        assert SumLengths(prev) == SumLengths(prev[..|prev| - 1]) + p.Length();
      } else {
        assert r[..|r| - 1] == prev;
      }
    }
  }

  /** Coalescing well-formed blocks covers exactly the bytes the blocks cover. */
  lemma {:induction false} CoalescePreservesCoverage(zs: seq<Range>)
    requires WellFormed(zs)
    ensures WellFormed(Coalesce(zs))
    ensures forall x :: Covers(Coalesce(zs), x) <==> Covers(zs, x)
    decreases |zs|
  {
    if zs != [] {
      var init := zs[..|zs| - 1];
      var prev := Coalesce(init);
      var z := zs[|zs| - 1];
      assert WellFormed(init) by {
        forall i | 0 <= i < |init| ensures init[i].start <= init[i].end {
          assert init[i] == zs[i];
        }
      }
      CoalescePreservesCoverage(init);
      var r := Coalesce(zs);
      if prev != [] && prev[|prev| - 1].end == z.start {
        var p := prev[|prev| - 1];
        var rest := prev[..|prev| - 1];
        assert r[..|r| - 1] == rest;
        assert prev[..|prev| - 1] == rest;
        assert WellFormed(r) by {
          forall i | 0 <= i < |r| ensures r[i].start <= r[i].end {
            if i < |rest| { assert r[i] == prev[i]; }
          }
        }
        forall x ensures Covers(r, x) <==> Covers(zs, x) {
          assert Covers(r, x) <==> Covers(rest, x) || p.start <= x < z.end;
          assert Covers(prev, x) <==> Covers(rest, x) || p.Contains(x);
        }
      } else {
        assert r[..|r| - 1] == prev;
        forall x ensures Covers(r, x) <==> Covers(zs, x) {
        }
      }
    }
  }

  /** Whatever the blocks, coalescing covers no byte that no block covers. */
  lemma {:induction false} CoalesceCoversOnlyBlocks(zs: seq<Range>)
    ensures forall x :: Covers(Coalesce(zs), x) ==> Covers(zs, x)
    decreases |zs|
  {
    if zs != [] {
      var init := zs[..|zs| - 1];
      var prev := Coalesce(init);
      var z := zs[|zs| - 1];
      CoalesceCoversOnlyBlocks(init);
      var r := Coalesce(zs);
      if prev != [] && prev[|prev| - 1].end == z.start {
        var p := prev[|prev| - 1];
        var rest := prev[..|prev| - 1];
        assert r[..|r| - 1] == rest;
        assert prev[..|prev| - 1] == rest;
        forall x | Covers(r, x) ensures Covers(zs, x) {
          if !Covers(rest, x) && !p.Contains(x) {
            assert z.Contains(x);
          }
        }
      } else {
        assert r[..|r| - 1] == prev;
      }
    }
  }

  /** Coalescing keeps every range inside any window that holds all the blocks. */
  lemma {:induction false} CoalesceWithin(zs: seq<Range>, lo: int, hi: int)
    requires forall i :: 0 <= i < |zs| ==> lo <= zs[i].start && zs[i].end <= hi
    ensures forall i :: 0 <= i < |Coalesce(zs)| ==> lo <= Coalesce(zs)[i].start && Coalesce(zs)[i].end <= hi
    decreases |zs|
  {
    if zs != [] {
      var init := zs[..|zs| - 1];
      assert forall i :: 0 <= i < |init| ==> init[i] == zs[i];
      CoalesceWithin(init, lo, hi);
      var prev := Coalesce(init);
      var r := Coalesce(zs);
      if prev != [] && prev[|prev| - 1].end == zs[|zs| - 1].start {
        assert forall i :: 0 <= i < |r| - 1 ==> r[i] == prev[i];
      } else {
        assert forall i :: 0 <= i < |r| - 1 ==> r[i] == prev[i];
      }
    }
  }

  /** Blocks that come in increasing order are merged into ranges that neither
      overlap nor touch: every pair of adjacent blocks ends up in one range, and
      blocks with a gap between them never do. */
  lemma {:induction false} CoalesceSeparates(zs: seq<Range>)
    requires Ascending(zs)
    ensures Separated(Coalesce(zs))
    decreases |zs|
  {
    if zs != [] {
      var init := zs[..|zs| - 1];
      var prev := Coalesce(init);
      var z := zs[|zs| - 1];
      assert Ascending(init) by {
        assert forall i :: 0 <= i < |init| ==> init[i] == zs[i];
      }
      CoalesceSeparates(init);
      CoalesceShape(init);
      if prev != [] && prev[|prev| - 1].end == z.start {
        SeparatedWiden(prev, z.end);
      } else {
        SeparatedPush(prev, z);
      }
    }
  }

  /** One more block, seen from the pending range `q`: it extends `q` when it
      starts where `q` ends, and otherwise follows it. */
  lemma CoalesceSnoc(settled: seq<Range>, q: Range, zs: seq<Range>, z: Range)
    requires settled + [q] == Coalesce(zs)
    ensures q.end == z.start ==> Coalesce(zs + [z]) == settled + [Range(q.start, z.end)]
    ensures q.end != z.start ==> Coalesce(zs + [z]) == settled + [q] + [z]
  {
    assert (zs + [z])[..|zs|] == zs;
    assert (settled + [q])[..|settled|] == settled;
  }

  /** `after` keeps every element of `before` but the last one, in place. */
  predicate Settled(before: seq<Range>, after: seq<Range>)
  {
    |before| <= |after| && forall i :: 0 <= i < |before| - 1 ==> before[i] == after[i]
  }

  /** Adding a block changes only the last coalesced range or appends one. */
  lemma CoalesceStep(zs: seq<Range>, z: Range)
    ensures Settled(Coalesce(zs), Coalesce(zs + [z]))
  {
    assert (zs + [z])[..|zs|] == zs;
  }

  /** Every coalesced range but the last is final: later blocks never change it,
      so a range flushed before the end of the scan is a range of the final result. */
  lemma {:induction false} CoalesceKeepsSettled(xs: seq<Range>, ys: seq<Range>)
    ensures Settled(Coalesce(xs), Coalesce(xs + ys))
    decreases |ys|
  {
    if ys == [] {
      assert xs + ys == xs;
    } else {
      var ys', y := ys[..|ys| - 1], ys[|ys| - 1];
      CoalesceKeepsSettled(xs, ys');
      CoalesceStep(xs + ys', y);
      assert xs + ys == (xs + ys') + [y];
    }
  }
}
