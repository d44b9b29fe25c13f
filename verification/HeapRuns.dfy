/** Whole runs of `malloc` and `free` on the list of heap segments. */
module HeapRuns {
  import opened HeapSegments
  import PageFrames

  /** `malloc` of a rounded size: expand as often as needed, then take the first segment that fits. */
  function Malloc(segs: Segments, n: nat): (r: Segments)
    requires segs != [] && LongEnough(segs) && n % 8 == 0
  {
    MallocFits(segs, n);
    var expanded := ExpandedBy(segs, n, Expansions(segs, n));
    Take(expanded, FirstFit(expanded, n), n)
  }

  /** The payload address that `malloc` returns. */
  function MallocAddress(segs: Segments, n: nat): nat
    requires segs != [] && LongEnough(segs) && n % 8 == 0
  {
    MallocFits(segs, n);
    var expanded := ExpandedBy(segs, n, Expansions(segs, n));
    expanded[FirstFit(expanded, n)].Payload()
  }

  lemma MallocFits(segs: Segments, n: nat)
    requires segs != [] && LongEnough(segs) && n % 8 == 0
    ensures HasFit(ExpandedBy(segs, n, Expansions(segs, n)), n)
  {
    TwoExpansionsSuffice(segs, n);
    var once := Expand(segs, n);
    assert ExpandedBy(once, n, 0) == once && ExpandedBy(Expand(once, n), n, 0) == Expand(once, n);
    assert ExpandedBy(once, n, 1) == Expand(once, n);
  }

  lemma {:induction false} ExpandedByWellFormed(segs: Segments, start: nat, end: nat, n: nat, times: nat)
    requires WellFormed(segs, start, end)
    ensures WellFormed(ExpandedBy(segs, n, times), start, end + times * Growth(n))
    decreases times
  {
    if times > 0 {
      ExpandWellFormed(segs, start, end, n);
      ExpandedByWellFormed(Expand(segs, n), start, end + Growth(n), n, times - 1);
    }
  }

  // ----- free undoes malloc -----

  /** Freeing what was just taken gives back the list of segments, free marks included. */
  lemma FreeUndoesTake(segs: Segments, start: nat, end: nat, i: nat, n: nat)
    requires WellFormed(segs, start, end) && i < |segs| && Fits(segs[i], n)
    ensures Free(Take(segs, i, n), i) == segs
  {
    var taken := Take(segs, i, n);
    assert taken[i := taken[i].(free := true)] == if segs[i].length == n then segs else Split(segs, i, n);
    if segs[i].length != n {
      var split := Split(segs, i, n);
      assert Merge(split, i) == segs;
    }
  }

  /** What expansions leave alone: all segments but a free last one, which only grows. */
  ghost predicate TailExtended(segs: Segments, r: Segments, bytes: nat)
    requires segs != []
  {
    var last := segs[|segs| - 1];
    if last.free then r == segs[..|segs| - 1] + [last.(length := last.length + bytes)]
    else if bytes < HEADER_SIZE then bytes == 0 && r == segs
    else r == segs + [Segment(last.End(), bytes - HEADER_SIZE, true)]
  }

  lemma {:induction false} ExpandedByTail(segs: Segments, n: nat, times: nat)
    requires segs != []
    ensures TailExtended(segs, ExpandedBy(segs, n, times), times * Growth(n))
    decreases times
  {
    var last := segs[|segs| - 1];
    if times == 0 {
      assert segs == segs[..|segs| - 1] + [last];
    } else {
      var once := Expand(segs, n);
      ExpandedByTail(once, n, times - 1);
      assert times * Growth(n) == Growth(n) + (times - 1) * Growth(n);
      if last.free {
        assert once == segs[..|segs| - 1] + [last.(length := last.length + Growth(n))];
      } else {
        assert once[..|once| - 1] == segs;
      }
    }
  }

  /** `free` of the result of `malloc` restores the heap, up to an extension of its free tail by the
      bytes of the expansions, if there were any. */
  lemma FreeUndoesMalloc(segs: Segments, start: nat, end: nat, n: nat)
    requires WellFormed(segs, start, end) && n % 8 == 0
    ensures var i := FirstFitAfterExpansion(segs, n);
            var r := Malloc(segs, n);
            && i < |r| && r[i] == Segment(MallocAddress(segs, n) - HEADER_SIZE, n, false)
            && TailExtended(segs, Free(r, i), Expansions(segs, n) * Growth(n))
            && (Expansions(segs, n) == 0 ==> Free(r, i) == segs)
  {
    var times := Expansions(segs, n);
    MallocFits(segs, n);
    ExpandedByWellFormed(segs, start, end, n, times);
    ExpandedByTail(segs, n, times);
    var expanded := ExpandedBy(segs, n, times);
    FreeUndoesTake(expanded, start, end + times * Growth(n), FirstFit(expanded, n), n);
  }

  function FirstFitAfterExpansion(segs: Segments, n: nat): nat
    requires segs != [] && LongEnough(segs) && n % 8 == 0
  {
    MallocFits(segs, n);
    FirstFit(ExpandedBy(segs, n, Expansions(segs, n)), n)
  }

  // ----- live payloads -----

  /** The segment of a payload that has been handed out and not freed. */
  ghost predicate Live(segs: Segments, seg: Segment) { seg in segs && !seg.free }

  /** Distinct live segments, headers and payloads, do not overlap. */
  lemma LiveDisjoint(segs: Segments, start: nat, end: nat, a: Segment, b: Segment)
    requires Tiled(segs, start, end) && Live(segs, a) && Live(segs, b) && a != b
    ensures a.End() <= b.address || b.End() <= a.address
    ensures start <= a.address && a.End() <= end
  {
    var i :| 0 <= i < |segs| && segs[i] == a;
    var j :| 0 <= j < |segs| && segs[j] == b;
    TiledBounds(segs, start, end, i);
    if i < j {
      TiledOrder(segs, start, end, i, j);
    } else {
      TiledOrder(segs, start, end, j, i);
    }
  }

  lemma MergeLive(segs: Segments, i: nat, seg: Segment)
    requires i + 1 < |segs| && segs[i].free && segs[i + 1].free
    ensures Live(Merge(segs, i), seg) <==> Live(segs, seg)
  {
    assert segs == segs[..i] + [segs[i], segs[i + 1]] + segs[i + 2..];
  }

  lemma ExpandLive(segs: Segments, n: nat, seg: Segment)
    requires segs != []
    ensures Live(Expand(segs, n), seg) <==> Live(segs, seg)
  {
    var last := segs[|segs| - 1];
    var extended := segs + [Segment(last.End(), Growth(n) - HEADER_SIZE, true)];
    if last.free {
      MergeLive(extended, |segs| - 1, seg);
    }
  }

  lemma {:induction false} ExpandedByLive(segs: Segments, n: nat, times: nat, seg: Segment)
    requires segs != []
    ensures Live(ExpandedBy(segs, n, times), seg) <==> Live(segs, seg)
    decreases times
  {
    if times > 0 {
      ExpandLive(segs, n, seg);
      ExpandedByLive(Expand(segs, n), n, times - 1, seg);
    }
  }

  lemma TakeLive(segs: Segments, i: nat, n: nat, seg: Segment)
    requires i < |segs| && Fits(segs[i], n)
    ensures Live(Take(segs, i, n), seg) <==> Live(segs, seg) || seg == Segment(segs[i].address, n, false)
  {
    var taken := Take(segs, i, n);
    assert segs == segs[..i] + [segs[i]] + segs[i + 1..];
    if segs[i].length == n {
      assert taken == segs[..i] + [taken[i]] + segs[i + 1..];
    } else {
      assert taken == segs[..i] + [taken[i], taken[i + 1]] + segs[i + 1..];
    }
  }

  /** `malloc` makes one payload live and leaves the others as they are. */
  lemma MallocLive(segs: Segments, n: nat, seg: Segment)
    requires segs != [] && LongEnough(segs) && n % 8 == 0
    ensures Live(Malloc(segs, n), seg) <==>
            Live(segs, seg) || seg == Segment(MallocAddress(segs, n) - HEADER_SIZE, n, false)
  {
    MallocFits(segs, n);
    var expanded := ExpandedBy(segs, n, Expansions(segs, n));
    ExpandedByLive(segs, n, Expansions(segs, n), seg);
    TakeLive(expanded, FirstFit(expanded, n), n, seg);
  }

  /** `free` ends the life of one payload and leaves the others as they are. */
  lemma FreeLive(segs: Segments, start: nat, end: nat, i: nat, seg: Segment)
    requires Tiled(segs, start, end) && i < |segs| && !segs[i].free
    ensures Live(Free(segs, i), seg) <==> Live(segs, seg) && seg != segs[i]
  {
    var marked := segs[i := segs[i].(free := true)];
    assert Live(marked, seg) <==> Live(segs, seg) && seg != segs[i] by {
      MarkedLive(segs, start, end, i, seg);
    }
    var forward := CombineForward(marked, i);
    if i + 1 < |marked| && marked[i + 1].free {
      MergeLive(marked, i, seg);
    }
    if i > 0 && forward[i - 1].free {
      MergeLive(forward, i - 1, seg);
    }
  }

  lemma MarkedLive(segs: Segments, start: nat, end: nat, i: nat, seg: Segment)
    requires Tiled(segs, start, end) && i < |segs| && !segs[i].free
    ensures Live(segs[i := segs[i].(free := true)], seg) <==> Live(segs, seg) && seg != segs[i]
  {
    var marked := segs[i := segs[i].(free := true)];
    if Live(marked, seg) {
      var j :| 0 <= j < |marked| && marked[j] == seg;
      if j < i {
        TiledOrder(segs, start, end, j, i);
      } else {
        TiledOrder(segs, start, end, i, j);
      }
      assert segs[j] == seg;
    }
    if Live(segs, seg) && seg != segs[i] {
      var j :| 0 <= j < |segs| && segs[j] == seg;
      assert marked[j] == seg;
    }
  }

  // ----- runs -----

  datatype Op = Allocate(numBytes: nat) | Release(address: nat)

  /** `free` may be called with the address of a live payload only. */
  ghost predicate Permitted(segs: Segments, op: Op) {
    op.Release? ==> exists i :: 0 <= i < |segs| && !segs[i].free && segs[i].Payload() == op.address
  }

  ghost function Step(segs: Segments, op: Op): Segments
    requires segs != [] && LongEnough(segs) && Permitted(segs, op)
  {
    match op
    case Allocate(numBytes) => if numBytes == 0 then segs else Malloc(segs, RoundUp(numBytes))
    case Release(address) =>
      var i :| 0 <= i < |segs| && !segs[i].free && segs[i].Payload() == address;
      Free(segs, i)
  }

  /** `trace` lists the segments before, between and after the operations of a run. */
  ghost predicate IsRun(trace: seq<Segments>, ops: seq<Op>) {
    && |trace| == |ops| + 1
    && forall k :: 0 <= k < |ops| ==>
         && Permitted(trace[k], ops[k])
         && (trace[k] != [] && LongEnough(trace[k]) ==> trace[k + 1] == Step(trace[k], ops[k]))
  }

  ghost predicate Heap(segs: Segments, start: nat) {
    segs != [] && WellFormed(segs, start, segs[|segs| - 1].End())
  }

  /** The heap that `init_heap` sets up: one free segment. */
  function InitialHeap(start: nat): Segments { [Segment(start, PageFrames.PAGE_SIZE - HEADER_SIZE, true)] }

  lemma StepHeap(segs: Segments, start: nat, op: Op)
    requires Heap(segs, start) && Permitted(segs, op)
    ensures Heap(Step(segs, op), start)
  {
    var end := segs[|segs| - 1].End();
    match op
    case Allocate(numBytes) =>
      if numBytes != 0 {
        var n := RoundUp(numBytes);
        MallocFits(segs, n);
        ExpandedByWellFormed(segs, start, end, n, Expansions(segs, n));
        var expanded := ExpandedBy(segs, n, Expansions(segs, n));
        TakeWellFormed(expanded, start, end + Expansions(segs, n) * Growth(n), FirstFit(expanded, n), n);
      }
    case Release(address) =>
      forall i | 0 <= i < |segs| && !segs[i].free
        ensures WellFormed(Free(segs, i), start, end)
      {
        FreeWellFormed(segs, start, end, i);
      }
  }

  /** In every reachable state the segments tile the heap, none is shorter than 8 bytes and no two
      neighbours are both free. */
  lemma {:induction false} ReachableHeap(trace: seq<Segments>, ops: seq<Op>, start: nat)
    requires IsRun(trace, ops) && trace[0] == InitialHeap(start)
    ensures forall k :: 0 <= k < |trace| ==> Heap(trace[k], start)
    decreases |ops|
  {
    if |ops| > 0 {
      var last := |ops| - 1;
      ReachableHeap(trace[..last + 1], ops[..last], start);
      assert trace[..last + 1][last] == trace[last];
      StepHeap(trace[last], start, ops[last]);
      forall k | 0 <= k < |trace|
        ensures Heap(trace[k], start)
      {
        if k <= last {
          assert trace[..last + 1][k] == trace[k];
        }
      }
    }
  }

  lemma StepLive(segs: Segments, start: nat, op: Op, seg: Segment)
    requires Heap(segs, start) && Permitted(segs, op) && Live(segs, seg)
    ensures Live(Step(segs, op), seg) <==> op != Release(seg.Payload())
  {
    match op
    case Allocate(numBytes) =>
      if numBytes != 0 {
        MallocLive(segs, RoundUp(numBytes), seg);
      }
    case Release(address) =>
      var k :| 0 <= k < |segs| && segs[k] == seg;
      forall i | 0 <= i < |segs| && !segs[i].free && segs[i].Payload() == address
        ensures Live(Free(segs, i), seg) <==> address != seg.Payload()
      {
        FreeLive(segs, start, segs[|segs| - 1].End(), i, seg);
        if i < k {
          TiledOrder(segs, start, segs[|segs| - 1].End(), i, k);
        } else if k < i {
          TiledOrder(segs, start, segs[|segs| - 1].End(), k, i);
        }
      }
  }

  /** Over any run, a live payload keeps its address and length until it is freed. */
  lemma {:induction false} LiveUntilFreed(trace: seq<Segments>, ops: seq<Op>, start: nat, j: nat, k: nat, seg: Segment)
    requires IsRun(trace, ops) && trace[0] == InitialHeap(start)
    requires j <= k < |trace| && Live(trace[j], seg)
    requires forall m :: j <= m < k ==> ops[m] != Release(seg.Payload())
    ensures Live(trace[k], seg)
    decreases k - j
  {
    if j < k {
      ReachableHeap(trace, ops, start);
      LiveUntilFreed(trace, ops, start, j, k - 1, seg);
      StepLive(trace[k - 1], start, ops[k - 1], seg);
    }
  }

  /** In every reachable state two live payloads do not overlap. */
  lemma ReachablePayloadsDisjoint(trace: seq<Segments>, ops: seq<Op>, start: nat, k: nat, a: Segment, b: Segment)
    requires IsRun(trace, ops) && trace[0] == InitialHeap(start)
    requires k < |trace| && Live(trace[k], a) && Live(trace[k], b) && a != b
    ensures a.Payload() + a.length <= b.address || b.Payload() + b.length <= a.address
  {
    ReachableHeap(trace, ops, start);
    LiveDisjoint(trace[k], start, trace[k][|trace[k]| - 1].End(), a, b);
  }
}
