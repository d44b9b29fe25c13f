/** The kernel heap of kernel/memory/heap.cpp on values: a list of segments, each a packed header of
    25 bytes followed by its payload. */
module HeapSegments {
  import PageFrames

  const HEADER_SIZE := 25
  const MIN_LENGTH := 8

  datatype Segment = Segment(address: nat, length: nat, free: bool) {
    /** The first byte behind the segment. */
    function End(): nat { address + HEADER_SIZE + length }

    function Payload(): nat { address + HEADER_SIZE }
  }

  type Segments = seq<Segment>

  // ----- shape -----

  /** The segments fill [start, end) without gap or overlap. */
  ghost predicate Tiled(segs: Segments, start: nat, end: nat) {
    && segs != [] && segs[0].address == start && segs[|segs| - 1].End() == end
    && forall i :: 0 <= i < |segs| - 1 ==> segs[i + 1].address == segs[i].End()
  }

  ghost predicate LongEnough(segs: Segments) {
    forall i :: 0 <= i < |segs| ==> segs[i].length >= MIN_LENGTH
  }

  ghost predicate NoFreeNeighbours(segs: Segments) {
    forall i :: 0 <= i < |segs| - 1 ==> !(segs[i].free && segs[i + 1].free)
  }

  ghost predicate WellFormed(segs: Segments, start: nat, end: nat) {
    Tiled(segs, start, end) && LongEnough(segs) && NoFreeNeighbours(segs)
  }

  /** Later segments lie behind earlier ones, so payloads are pairwise disjoint. */
  lemma {:induction false} TiledOrder(segs: Segments, start: nat, end: nat, i: nat, j: nat)
    requires Tiled(segs, start, end) && i < j < |segs|
    ensures segs[i].End() <= segs[j].address && start <= segs[i].address && segs[j].End() <= end
    decreases j - i
  {
    TiledBounds(segs, start, end, i);
    TiledBounds(segs, start, end, j);
    if i + 1 < j {
      TiledOrder(segs, start, end, i, j - 1);
      assert segs[j].address == segs[j - 1].End();
    }
  }

  lemma {:induction false} TiledBounds(segs: Segments, start: nat, end: nat, i: nat)
    requires Tiled(segs, start, end) && i < |segs|
    ensures start <= segs[i].address && segs[i].End() <= end
  {
    TiledAbove(segs, start, end, i);
    TiledBelow(segs, start, end, i);
  }

  lemma {:induction false} TiledAbove(segs: Segments, start: nat, end: nat, i: nat)
    requires Tiled(segs, start, end) && i < |segs|
    ensures start <= segs[i].address
  {
    if i > 0 {
      TiledAbove(segs, start, end, i - 1);
      assert segs[i].address == segs[i - 1].End();
    }
  }

  lemma {:induction false} TiledBelow(segs: Segments, start: nat, end: nat, i: nat)
    requires Tiled(segs, start, end) && i < |segs|
    ensures segs[i].End() <= end
    decreases |segs| - i
  {
    if i + 1 < |segs| {
      TiledBelow(segs, start, end, i + 1);
      assert segs[i + 1].address == segs[i].End();
    }
  }

  // ----- operations -----

  /** `combine_forward` where the next segment is free. */
  function Merge(segs: Segments, i: nat): Segments
    requires i + 1 < |segs|
  {
    segs[..i] + [segs[i].(length := segs[i].length + segs[i + 1].length + HEADER_SIZE)] + segs[i + 2..]
  }

  function CombineForward(segs: Segments, i: nat): Segments
    requires i < |segs|
  {
    if i + 1 < |segs| && segs[i + 1].free then Merge(segs, i) else segs
  }

  function CombineBackward(segs: Segments, i: nat): Segments
    requires i < |segs|
  {
    if i > 0 && segs[i - 1].free then CombineForward(segs, i - 1) else segs
  }

  /** `free` of the payload of segment `i`. */
  function Free(segs: Segments, i: nat): Segments
    requires i < |segs|
  {
    CombineBackward(CombineForward(segs[i := segs[i].(free := true)], i), i)
  }

  /** A segment that `malloc` may use for `n` bytes: split off leaves a header and 8 bytes at least. */
  predicate Fits(seg: Segment, n: nat) {
    seg.free && (seg.length == n || seg.length >= n + HEADER_SIZE + MIN_LENGTH)
  }

  predicate HasFit(segs: Segments, n: nat) {
    exists i :: 0 <= i < |segs| && Fits(segs[i], n)
  }

  predicate IsFirstFit(segs: Segments, n: nat, i: nat) {
    i < |segs| && Fits(segs[i], n) && forall j :: 0 <= j < i ==> !Fits(segs[j], n)
  }

  /** The index of the lowest segment that fits. */
  function FirstFit(segs: Segments, n: nat): (i: nat)
    requires HasFit(segs, n)
    ensures IsFirstFit(segs, n, i)
  {
    if Fits(segs[0], n) then 0 else
      assert HasFit(segs[1..], n) by {
        var k :| 0 <= k < |segs| && Fits(segs[k], n);
        assert segs[1..][k - 1] == segs[k];
      }
      var i := FirstFit(segs[1..], n);
      assert forall j :: 1 <= j < i + 1 ==> segs[j] == segs[1..][j - 1];
      i + 1
  }

  /** `split` of segment `i` after `n` bytes; both parts keep the free mark. */
  function Split(segs: Segments, i: nat, n: nat): Segments
    requires i < |segs| && segs[i].length >= n + HEADER_SIZE
  {
    var seg := segs[i];
    var rest := Segment(seg.address + HEADER_SIZE + n, seg.length - n - HEADER_SIZE, seg.free);
    segs[..i] + [seg.(length := n), rest] + segs[i + 1..]
  }

  /** Segment `i`, or its first `n` bytes, becomes used. */
  function Take(segs: Segments, i: nat, n: nat): Segments
    requires i < |segs| && Fits(segs[i], n)
  {
    var segs' := if segs[i].length == n then segs else Split(segs, i, n);
    segs'[i := segs'[i].(free := false)]
  }

  /** The bytes by which `expand_heap(n)` grows the heap. */
  function Growth(n: nat): nat { (n / PageFrames.PAGE_SIZE + 1) * PageFrames.PAGE_SIZE }

  /** `expand_heap` on the list of segments. */
  function Expand(segs: Segments, n: nat): Segments
    requires segs != []
  {
    var last := segs[|segs| - 1];
    var extended := segs + [Segment(last.End(), Growth(n) - HEADER_SIZE, true)];
    CombineBackward(extended, |segs|)
  }

  /** How often `malloc` expands the heap. */
  function Expansions(segs: Segments, n: nat): (k: nat)
    requires segs != []
    ensures k <= 2
  {
    if HasFit(segs, n) then 0 else if HasFit(Expand(segs, n), n) then 1 else 2
  }

  /** The bytes by which `malloc` grows the heap. */
  function ExpansionBytes(segs: Segments, n: nat): nat
    requires segs != []
  {
    match Expansions(segs, n)
    case 0 => 0
    case 1 => Growth(n)
    case _ => 2 * Growth(n)
  }

  function ExpandedBy(segs: Segments, n: nat, times: nat): (r: Segments)
    requires segs != []
    ensures r != []
    decreases times
  {
    if times == 0 then segs else ExpandedBy(Expand(segs, n), n, times - 1)
  }

  /** The size that `malloc` works with. */
  function RoundUp(n: nat): nat { if n % 8 > 0 then n - n % 8 + 8 else n }

  // ----- every operation keeps the shape -----

  lemma MergeTiled(segs: Segments, start: nat, end: nat, i: nat)
    requires Tiled(segs, start, end) && LongEnough(segs) && i + 1 < |segs|
    ensures Tiled(Merge(segs, i), start, end) && LongEnough(Merge(segs, i)) && |Merge(segs, i)| == |segs| - 1
  {
    var merged := Merge(segs, i);
    assert merged[i].End() == segs[i + 1].End();
    forall k | 0 <= k < |merged| - 1
      ensures merged[k + 1].address == merged[k].End()
    {
      if k == i {
        assert merged[k + 1] == segs[i + 2];
      } else if k > i {
        assert merged[k] == segs[k + 1] && merged[k + 1] == segs[k + 2];
      }
    }
  }

  lemma SplitTiled(segs: Segments, start: nat, end: nat, i: nat, n: nat)
    requires Tiled(segs, start, end) && LongEnough(segs) && i < |segs|
    requires n >= MIN_LENGTH && segs[i].length >= n + HEADER_SIZE + MIN_LENGTH
    ensures Tiled(Split(segs, i, n), start, end) && LongEnough(Split(segs, i, n))
  {
    var split := Split(segs, i, n);
    forall k | 0 <= k < |split| - 1
      ensures split[k + 1].address == split[k].End()
    {
      if k == i + 1 {
        assert split[k + 1] == segs[i + 1];
      } else if k > i + 1 {
        assert split[k] == segs[k - 1] && split[k + 1] == segs[k];
      }
    }
  }

  /** Two neighbours may both be free only if segment `i` is the right one of them. */
  ghost predicate FreePairOnlyBefore(segs: Segments, i: nat) {
    forall k :: 0 <= k < |segs| - 1 && segs[k].free && segs[k + 1].free ==> k + 1 == i
  }

  lemma ForwardClears(segs: Segments, start: nat, end: nat, i: nat)
    requires Tiled(segs, start, end) && LongEnough(segs) && i < |segs|
    requires forall k :: 0 <= k < |segs| - 1 && segs[k].free && segs[k + 1].free ==> k + 1 == i || k == i
    requires i + 2 < |segs| ==> !(segs[i + 1].free && segs[i + 2].free)
    ensures var r := CombineForward(segs, i);
            && Tiled(r, start, end) && LongEnough(r) && i < |r|
            && (segs[i].free ==> FreePairOnlyBefore(r, i))
  {
    if i + 1 < |segs| && segs[i + 1].free {
      MergeTiled(segs, start, end, i);
      var r := Merge(segs, i);
      assert forall k :: i < k < |r| ==> r[k] == segs[k + 1];
    }
  }

  lemma BackwardClears(segs: Segments, start: nat, end: nat, i: nat)
    requires Tiled(segs, start, end) && LongEnough(segs) && i < |segs| && segs[i].free && FreePairOnlyBefore(segs, i)
    ensures WellFormed(CombineBackward(segs, i), start, end)
  {
    if i > 0 && segs[i - 1].free {
      ForwardClears(segs, start, end, i - 1);
    }
  }

  /** Freeing a used segment keeps the heap well-formed: it is combined with both neighbours. */
  lemma FreeWellFormed(segs: Segments, start: nat, end: nat, i: nat)
    requires WellFormed(segs, start, end) && i < |segs| && !segs[i].free
    ensures WellFormed(Free(segs, i), start, end)
  {
    var marked := segs[i := segs[i].(free := true)];
    assert Tiled(marked, start, end) && LongEnough(marked);
    ForwardClears(marked, start, end, i);
    BackwardClears(CombineForward(marked, i), start, end, i);
  }

  /** Taking a segment that fits keeps the heap well-formed. */
  lemma TakeWellFormed(segs: Segments, start: nat, end: nat, i: nat, n: nat)
    requires WellFormed(segs, start, end) && i < |segs| && Fits(segs[i], n) && n >= MIN_LENGTH
    ensures WellFormed(Take(segs, i, n), start, end)
  {
    var taken := Take(segs, i, n);
    if segs[i].length != n {
      SplitTiled(segs, start, end, i, n);
      assert forall k :: i + 1 < k < |taken| ==> taken[k] == segs[k - 1];
    }
  }

  lemma ExpandWellFormed(segs: Segments, start: nat, end: nat, n: nat)
    requires WellFormed(segs, start, end)
    ensures WellFormed(Expand(segs, n), start, end + Growth(n))
  {
    var last := segs[|segs| - 1];
    var extended := segs + [Segment(last.End(), Growth(n) - HEADER_SIZE, true)];
    assert Tiled(extended, start, end + Growth(n)) && LongEnough(extended);
    BackwardClears(extended, start, end + Growth(n), |segs|);
  }

  // ----- how often malloc expands the heap -----

  /** After an expansion the last segment is free and has at least the new bytes less a header. */
  lemma ExpandLast(segs: Segments, n: nat)
    requires segs != []
    ensures var r := Expand(segs, n);
            var last := r[|r| - 1];
            && last.free
            && last.length >= Growth(n) - HEADER_SIZE
            && (segs[|segs| - 1].free ==> |r| == |segs| && last.length == segs[|segs| - 1].length + Growth(n))
            && (!segs[|segs| - 1].free ==> |r| == |segs| + 1 && last.length == Growth(n) - HEADER_SIZE)
            && (forall i :: 0 <= i < |segs| - 1 ==> r[i] == segs[i])
  {
  }

  /** Two expansions are always enough. */
  lemma TwoExpansionsSuffice(segs: Segments, n: nat)
    requires segs != [] && LongEnough(segs) && n % 8 == 0
    ensures HasFit(Expand(Expand(segs, n), n), n)
  {
    ExpandLast(segs, n);
    var once := Expand(segs, n);
    ExpandLast(once, n);
    var twice := Expand(once, n);
    assert twice[|twice| - 1].length >= 2 * Growth(n) - HEADER_SIZE >= n + HEADER_SIZE + MIN_LENGTH;
    assert Fits(twice[|twice| - 1], n);
  }

  /** The part of the next expansion's segment that exists already: a free last segment, or else
      the lack of a header. */
  function Tail(segs: Segments): int
    requires segs != []
  {
    var last := segs[|segs| - 1];
    if last.free then last.length else -HEADER_SIZE
  }

  /** Growth exceeds the size by at least 8 and at most one page. */
  lemma GrowthBounds(n: nat)
    ensures Growth(n) == n + (PageFrames.PAGE_SIZE - n % PageFrames.PAGE_SIZE) && Growth(n) % 8 == 0
  {
    assert Growth(n) == 8 * ((n / PageFrames.PAGE_SIZE + 1) * 512);
  }

  /** When nothing fits, one expansion is enough if and only if the rest of the last new page has
      room for a header and a minimal segment; for 4088 bytes on a fully used heap it has not. */
  lemma OneExpansionSuffices(segs: Segments, n: nat)
    requires segs != [] && n % 8 == 0 && !HasFit(segs, n)
    ensures HasFit(Expand(segs, n), n) <==> Tail(segs) + PageFrames.PAGE_SIZE - n % PageFrames.PAGE_SIZE >= HEADER_SIZE + MIN_LENGTH
  {
    ExpandLast(segs, n);
    GrowthBounds(n);
    var once := Expand(segs, n);
    var last := |once| - 1;
    assert once[last].length == Tail(segs) + Growth(n);
    forall i | 0 <= i < last
      ensures !Fits(once[i], n)
    {
      assert once[i] == segs[i];
    }
    NoExactFit(Growth(n), n);
    assert Fits(once[last], n) <==> once[last].length >= n + HEADER_SIZE + MIN_LENGTH;
  }

  lemma NoExactFit(growth: nat, n: nat)
    requires n % 8 == 0 && growth % 8 == 0
    ensures growth - HEADER_SIZE != n
  {
  }
}
