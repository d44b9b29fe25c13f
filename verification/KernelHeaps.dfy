/** The kernel heap of kernel/memory/heap.cpp in place: a doubly linked list of headers in memory,
    growing page by page. Debug printing is switched off. */
module KernelHeaps {
  import opened HeapBacking
  import opened HeapRuns
  import opened HeapSegments
  import opened MappingLoops
  import opened PageFrames
  import opened PageTrees
  import opened Paging
  import opened VirtualMemories

  /** `HeapSegmentHeader`, a packed structure; 0 is the null pointer. */
  datatype Header = Header(last: nat, next: nat, length: nat, free: bool)

  /** Header memory, by address. Headers that were combined away stay behind as garbage. */
  type Headers = map<nat, Header>

  function HeaderOf(segs: Segments, i: nat): Header
    requires i < |segs|
  {
    Header(if i == 0 then 0 else segs[i - 1].address, if i + 1 == |segs| then 0 else segs[i + 1].address,
           segs[i].length, segs[i].free)
  }

  ghost predicate HeaderAt(headers: Headers, segs: Segments, i: nat)
    requires i < |segs|
  {
    segs[i].address in headers && headers[segs[i].address] == HeaderOf(segs, i)
  }

  ghost predicate Ordered(segs: Segments, i: nat, j: nat)
    requires i < j < |segs|
  {
    0 < segs[i].address < segs[j].address
  }

  /** The linked list in memory is the list of segments: `next` and `last` mirror each other. */
  ghost predicate Represents(headers: Headers, segs: Segments) {
    && (forall i :: 0 <= i < |segs| ==> HeaderAt(headers, segs, i))
    && (forall i, j :: 0 <= i < j < |segs| ==> Ordered(segs, i, j))
  }

  /** `a` is the address of one of the segments. */
  ghost predicate IsHeader(segs: Segments, a: nat) { exists i :: 0 <= i < |segs| && segs[i].address == a }

  /** Only headers of the given segments have been written. */
  ghost predicate OnlyHeadersWritten(before: Headers, after: Headers, segs: Segments) {
    forall a :: a in after && (a !in before || after[a] != before[a]) ==> IsHeader(segs, a)
  }

  /** The header updates of `combine_forward`. */
  function Combined(headers: Headers, segment: nat): Headers
    requires segment in headers && headers[segment].next in headers
    requires var after := headers[headers[segment].next].next; after != 0 ==> after in headers
  {
    var h, next := headers[segment], headers[headers[segment].next];
    var headers := if next.next != 0 then headers[next.next := headers[next.next].(last := segment)] else headers;
    headers[segment := headers[segment].(length := h.length + next.length + HEADER_SIZE, next := next.next)]
  }

  /** The headers that `combine_forward` looks at. */
  lemma MergeLinks(headers: Headers, segs: Segments, i: nat)
    requires Represents(headers, segs) && i + 1 < |segs|
    ensures var a := segs[i].address;
            && a in headers && headers[a] == HeaderOf(segs, i)
            && segs[i + 1].address in headers && headers[segs[i + 1].address] == HeaderOf(segs, i + 1)
            && a != segs[i + 1].address && segs[i + 1].address != 0
            && (i + 2 < |segs| ==> segs[i + 2].address in headers && segs[i + 2].address != 0 && segs[i + 2].address != a
                                   && headers[segs[i + 2].address] == HeaderOf(segs, i + 2))
  {
    assert HeaderAt(headers, segs, i) && HeaderAt(headers, segs, i + 1) && Ordered(segs, i, i + 1);
    if i + 2 < |segs| {
      assert HeaderAt(headers, segs, i + 2) && Ordered(segs, i, i + 2) && Ordered(segs, i + 1, i + 2);
    }
  }

  lemma MergedHeader(headers: Headers, segs: Segments, i: nat, k: nat)
    requires Represents(headers, segs) && i + 1 < |segs| && k < |segs| - 1
    requires segs[i].address in headers && headers[segs[i].address].next in headers
    requires var after := headers[headers[segs[i].address].next].next; after != 0 ==> after in headers
    ensures HeaderAt(Combined(headers, segs[i].address), Merge(segs, i), k)
  {
    var r := Merge(segs, i);
    MergeLinks(headers, segs, i);
    if k < i {
      assert HeaderAt(headers, segs, k) && Ordered(segs, k, i);
      assert i + 2 < |segs| ==> Ordered(segs, k, i + 2);
      assert r[k] == segs[k] && r[k + 1].address == segs[k + 1].address && (k > 0 ==> r[k - 1] == segs[k - 1]);
    } else if k == i {
      assert i + 2 < |segs| ==> r[k + 1] == segs[i + 2];
      assert k > 0 ==> r[k - 1] == segs[k - 1];
    } else {
      assert HeaderAt(headers, segs, k + 1) && Ordered(segs, i, k + 1);
      assert r[k] == segs[k + 1] && (k + 1 < |r| ==> r[k + 1] == segs[k + 2]);
      if k > i + 1 {
        assert r[k - 1] == segs[k] && Ordered(segs, i + 2, k + 1);
      }
    }
  }

  lemma MergeRepresents(headers: Headers, segs: Segments, i: nat)
    requires Represents(headers, segs) && i + 1 < |segs|
    ensures segs[i].address in headers && headers[segs[i].address].next == segs[i + 1].address && segs[i + 1].address in headers
    ensures headers[segs[i + 1].address].next == (if i + 2 < |segs| then segs[i + 2].address else 0)
    ensures i + 2 < |segs| ==> segs[i + 2].address in headers
    ensures Represents(Combined(headers, segs[i].address), Merge(segs, i))
    ensures OnlyHeadersWritten(headers, Combined(headers, segs[i].address), segs)
  {
    MergeLinks(headers, segs, i);
    var r := Merge(segs, i);
    var after := Combined(headers, segs[i].address);
    forall k | 0 <= k < |r|
      ensures HeaderAt(after, r, k)
    {
      MergedHeader(headers, segs, i, k);
    }
    forall k, l | 0 <= k < l < |r|
      ensures Ordered(r, k, l)
    {
      var k', l' := if k <= i then k else k + 1, if l <= i then l else l + 1;
      assert r[k].address == segs[k'].address && r[l].address == segs[l'].address;
      assert Ordered(segs, k', l');
    }
    assert IsHeader(segs, segs[i].address);
    assert i + 2 < |segs| ==> IsHeader(segs, segs[i + 2].address);
  }

  /** The last header moves if it is combined away. */
  lemma MergeLast(headers: Headers, segs: Segments, i: nat)
    requires Represents(headers, segs) && i + 1 < |segs|
    ensures var last, r := segs[|segs| - 1].address, Merge(segs, i);
            r != [] && r[|r| - 1].address == if segs[i + 1].address == last then segs[i].address else last
  {
    if i + 2 < |segs| {
      assert Ordered(segs, i + 1, |segs| - 1);
    }
  }

  /** The header updates of `split` after `n` bytes. */
  function SplitHeaders(headers: Headers, segment: nat, n: nat): Headers
    requires segment in headers && headers[segment].length >= n + HEADER_SIZE
    requires headers[segment].next != 0 ==> headers[segment].next in headers
  {
    var h := headers[segment];
    var splitHeader := segment + HEADER_SIZE + n;
    var headers := if h.next != 0 then headers[h.next := headers[h.next].(last := splitHeader)] else headers;
    var headers := headers[splitHeader := Header(segment, h.next, h.length - n - HEADER_SIZE, h.free)];
    headers[segment := h.(next := splitHeader, length := n)]
  }

  lemma SplitLinks(headers: Headers, segs: Segments, i: nat)
    requires Represents(headers, segs) && i < |segs| && segs[i].address > 0
    ensures segs[i].address in headers && headers[segs[i].address] == HeaderOf(segs, i)
    ensures i + 1 < |segs| ==> segs[i + 1].address in headers && segs[i + 1].address != 0 && segs[i].address < segs[i + 1].address
                               && headers[segs[i + 1].address] == HeaderOf(segs, i + 1)
  {
    assert HeaderAt(headers, segs, i);
    if i + 1 < |segs| {
      assert HeaderAt(headers, segs, i + 1) && Ordered(segs, i, i + 1);
    }
  }

  /** Segment `i` can be split after `n` bytes, and ends where the next one starts. */
  ghost predicate Splittable(segs: Segments, i: nat, n: nat) {
    && i < |segs| && segs[i].length >= n + HEADER_SIZE && segs[i].address > 0
    && (i + 1 < |segs| ==> segs[i + 1].address == segs[i].End())
  }

  lemma SplitHeader(headers: Headers, segs: Segments, i: nat, n: nat, k: nat)
    requires Represents(headers, segs) && Splittable(segs, i, n) && k <= |segs|
    requires segs[i].address in headers && headers[segs[i].address] == HeaderOf(segs, i)
    requires headers[segs[i].address].next != 0 ==> headers[segs[i].address].next in headers
    ensures HeaderAt(SplitHeaders(headers, segs[i].address, n), Split(segs, i, n), k)
  {
    var r := Split(segs, i, n);
    SplitLinks(headers, segs, i);
    if k < i {
      assert HeaderAt(headers, segs, k) && Ordered(segs, k, i);
      assert i + 1 < |segs| ==> Ordered(segs, k, i + 1);
      assert r[k] == segs[k] && r[k + 1].address == segs[k + 1].address && (k > 0 ==> r[k - 1] == segs[k - 1]);
    } else if k <= i + 1 {
      assert i + 1 < |segs| ==> r[i + 2] == segs[i + 1];
      assert i > 0 ==> r[i - 1] == segs[i - 1];
    } else {
      assert HeaderAt(headers, segs, k - 1) && Ordered(segs, i, k - 1);
      assert r[k] == segs[k - 1] && (k + 1 < |r| ==> r[k + 1] == segs[k]);
      if k > i + 2 {
        assert r[k - 1] == segs[k - 2] && Ordered(segs, i + 1, k - 1);
      }
    }
  }

  lemma SplitRepresents(headers: Headers, segs: Segments, i: nat, n: nat)
    requires Represents(headers, segs) && Splittable(segs, i, n)
    ensures segs[i].address in headers && headers[segs[i].address] == HeaderOf(segs, i)
    ensures headers[segs[i].address].next != 0 ==> headers[segs[i].address].next in headers
    ensures Represents(SplitHeaders(headers, segs[i].address, n), Split(segs, i, n))
    ensures forall a :: a in SplitHeaders(headers, segs[i].address, n) ==>
              (a in headers && SplitHeaders(headers, segs[i].address, n)[a] == headers[a])
              || IsHeader(segs, a) || a == segs[i].address + HEADER_SIZE + n
  {
    SplitLinks(headers, segs, i);
    var r := Split(segs, i, n);
    var after := SplitHeaders(headers, segs[i].address, n);
    forall k | 0 <= k < |r|
      ensures HeaderAt(after, r, k)
    {
      SplitHeader(headers, segs, i, n, k);
    }
    forall k, l | 0 <= k < l < |r|
      ensures Ordered(r, k, l)
    {
      SplitOrdered(segs, i, n, k, l);
    }
    assert IsHeader(segs, segs[i].address);
    assert i + 1 < |segs| ==> IsHeader(segs, segs[i + 1].address);
  }

  lemma SplitOrdered(segs: Segments, i: nat, n: nat, k: nat, l: nat)
    requires Splittable(segs, i, n) && k < l <= |segs|
    requires forall p, q :: 0 <= p < q < |segs| ==> Ordered(segs, p, q)
    ensures Ordered(Split(segs, i, n), k, l)
  {
    var r := Split(segs, i, n);
    var k', l' := if k <= i then k else k - 1, if l <= i then l else l - 1;
    assert k != i + 1 ==> r[k].address == segs[k'].address;
    assert l != i + 1 ==> r[l].address == segs[l'].address;
    if k' < l' {
      assert Ordered(segs, k', l');
      if k == i + 1 && l > i + 2 {
        assert Ordered(segs, i + 1, l');
      }
    }
  }

  /** Setting the free mark of one segment. */
  lemma MarkRepresents(headers: Headers, segs: Segments, i: nat, free: bool)
    requires Represents(headers, segs) && i < |segs|
    ensures segs[i].address in headers && headers[segs[i].address] == HeaderOf(segs, i)
    ensures Represents(headers[segs[i].address := headers[segs[i].address].(free := free)], segs[i := segs[i].(free := free)])
  {
    assert HeaderAt(headers, segs, i);
    var r := segs[i := segs[i].(free := free)];
    var after := headers[segs[i].address := headers[segs[i].address].(free := free)];
    forall k | 0 <= k < |r|
      ensures HeaderAt(after, r, k)
    {
      assert HeaderAt(headers, segs, k);
      assert HeaderOf(r, k) == if k == i then HeaderOf(segs, i).(free := free) else HeaderOf(segs, k);
      if k < i {
        assert Ordered(segs, k, i);
      } else if k > i {
        assert Ordered(segs, i, k);
      }
    }
    forall k, l | 0 <= k < l < |r|
      ensures Ordered(r, k, l)
    {
      assert Ordered(segs, k, l);
    }
  }

  /** The header updates at the end of `expand_heap`, before combining. */
  function AppendHeader(headers: Headers, last: nat, extension: nat, length: nat): Headers
    requires last in headers
  {
    headers[last := headers[last].(next := extension)][extension := Header(last, 0, length, true)]
  }

  lemma AppendRepresents(headers: Headers, segs: Segments, length: nat)
    requires Represents(headers, segs) && segs != [] && 0 < segs[|segs| - 1].address
    ensures segs[|segs| - 1].address in headers
    ensures var last := segs[|segs| - 1];
            Represents(AppendHeader(headers, last.address, last.End(), length), segs + [Segment(last.End(), length, true)])
  {
    var n := |segs|;
    var last := segs[n - 1];
    var r := segs + [Segment(last.End(), length, true)];
    assert HeaderAt(headers, segs, n - 1);
    var after := AppendHeader(headers, last.address, last.End(), length);
    forall k | 0 <= k < |r|
      ensures HeaderAt(after, r, k)
    {
      if k < n - 1 {
        assert HeaderAt(headers, segs, k) && Ordered(segs, k, n - 1);
      }
    }
    forall k, l | 0 <= k < l < |r|
      ensures Ordered(r, k, l)
    {
      if l < n {
        assert Ordered(segs, k, l);
      } else if k < n - 1 {
        assert Ordered(segs, k, n - 1);
      }
    }
  }

  // ----- which bytes are written -----

  /** Every header written between `before` and `after` lies outside all live payloads. */
  ghost predicate PayloadsUntouched(before: Headers, after: Headers, segs: Segments) {
    forall a, seg :: Live(segs, seg) && a in after && (a !in before || after[a] != before[a]) ==>
      a + HEADER_SIZE <= seg.Payload() || seg.End() <= a
  }

  lemma HeadersOutsidePayloads(before: Headers, after: Headers, segs: Segments, start: nat, end: nat)
    requires Tiled(segs, start, end) && OnlyHeadersWritten(before, after, segs)
    ensures PayloadsUntouched(before, after, segs)
  {
    forall a: nat, seg | Live(segs, seg) && IsHeader(segs, a)
      ensures a + HEADER_SIZE <= seg.Payload() || seg.End() <= a
    {
      HeaderOutside(segs, start, end, a, seg);
    }
  }

  lemma HeaderOutside(segs: Segments, start: nat, end: nat, a: nat, seg: Segment)
    requires Tiled(segs, start, end) && Live(segs, seg) && IsHeader(segs, a)
    ensures a + HEADER_SIZE <= seg.Payload() || seg.End() <= a
  {
    var i :| 0 <= i < |segs| && segs[i].address == a;
    var j :| 0 <= j < |segs| && segs[j] == seg;
    if i < j {
      TiledOrder(segs, start, end, i, j);
    } else if j < i {
      TiledOrder(segs, start, end, j, i);
    }
  }

  lemma NewHeaderOutside(before: Headers, after: Headers, segs: Segments, start: nat, end: nat, added: nat)
    requires Tiled(segs, start, end)
    requires forall a :: a in after && (a !in before || after[a] != before[a]) ==> IsHeader(segs, a) || a == added
    requires forall seg :: Live(segs, seg) ==> added + HEADER_SIZE <= seg.Payload() || seg.End() <= added
    ensures PayloadsUntouched(before, after, segs)
  {
    forall a: nat, seg | Live(segs, seg) && IsHeader(segs, a)
      ensures a + HEADER_SIZE <= seg.Payload() || seg.End() <= a
    {
      HeaderOutside(segs, start, end, a, seg);
    }
  }

  lemma UntouchedTransitive(h0: Headers, h1: Headers, h2: Headers, segs: Segments, segs': Segments)
    requires PayloadsUntouched(h0, h1, segs) && PayloadsUntouched(h1, h2, segs')
    requires h0.Keys <= h1.Keys && forall seg :: Live(segs, seg) ==> Live(segs', seg)
    ensures PayloadsUntouched(h0, h2, segs)
  {
  }

  /** The list in memory is `segs`, which tile the heap. */
  ghost predicate IsLinked(headers: Headers, segs: Segments, start: nat, end: nat, lastHeader: nat) {
    && start > 0
    && Tiled(segs, start, end) && LongEnough(segs)
    && Represents(headers, segs) && lastHeader == segs[|segs| - 1].address
  }

  lemma MergeLinked(headers: Headers, segs: Segments, start: nat, end: nat, lastHeader: nat, i: nat)
    requires IsLinked(headers, segs, start, end, lastHeader) && i + 1 < |segs|
    requires segs[i].address in headers && headers[segs[i].address].next in headers
    requires var after := headers[headers[segs[i].address].next].next; after != 0 ==> after in headers
    ensures var after := Combined(headers, segs[i].address);
            && IsLinked(after, Merge(segs, i), start, end,
                        if segs[i + 1].address == lastHeader then segs[i].address else lastHeader)
            && headers.Keys <= after.Keys && PayloadsUntouched(headers, after, segs)
  {
    MergeRepresents(headers, segs, i);
    MergeTiled(segs, start, end, i);
    MergeLast(headers, segs, i);
    HeadersOutsidePayloads(headers, Combined(headers, segs[i].address), segs, start, end);
  }

  /** The new header of a split lies in the free segment, outside all live payloads. */
  lemma SplitOutside(segs: Segments, start: nat, end: nat, i: nat, n: nat, seg: Segment)
    requires Tiled(segs, start, end) && i < |segs| && segs[i].free && segs[i].length >= n + HEADER_SIZE && Live(segs, seg)
    ensures var added := segs[i].address + HEADER_SIZE + n; added + HEADER_SIZE <= seg.Payload() || seg.End() <= added
  {
    var j :| 0 <= j < |segs| && segs[j] == seg;
    if i < j {
      TiledOrder(segs, start, end, i, j);
    } else if j < i {
      TiledOrder(segs, start, end, j, i);
    }
  }

  lemma SplitUntouched(headers: Headers, after: Headers, segs: Segments, start: nat, end: nat, i: nat, n: nat)
    requires Tiled(segs, start, end) && i < |segs| && segs[i].free && segs[i].length >= n + HEADER_SIZE
    requires forall a :: a in after ==>
               (a in headers && after[a] == headers[a]) || IsHeader(segs, a) || a == segs[i].address + HEADER_SIZE + n
    ensures PayloadsUntouched(headers, after, segs)
  {
    var added := segs[i].address + HEADER_SIZE + n;
    forall seg | Live(segs, seg)
      ensures added + HEADER_SIZE <= seg.Payload() || seg.End() <= added
    {
      SplitOutside(segs, start, end, i, n, seg);
    }
    NewHeaderOutside(headers, after, segs, start, end, added);
  }

  /** The segments with segment `i` counted as free. */
  function AsFree(segs: Segments, i: nat): Segments
    requires i < |segs|
  {
    segs[i := segs[i].(free := true)]
  }

  lemma SplitUntouchedOthers(headers: Headers, after: Headers, segs: Segments, start: nat, end: nat, i: nat, n: nat)
    requires Tiled(segs, start, end) && i < |segs| && segs[i].length >= n + HEADER_SIZE
    requires forall a :: a in after ==>
               (a in headers && after[a] == headers[a]) || IsHeader(segs, a) || a == segs[i].address + HEADER_SIZE + n
    ensures PayloadsUntouched(headers, after, AsFree(segs, i))
  {
    var others := AsFree(segs, i);
    forall a | IsHeader(segs, a)
      ensures IsHeader(others, a)
    {
      var k :| 0 <= k < |segs| && segs[k].address == a;
      assert others[k].address == a;
    }
    SplitUntouched(headers, after, others, start, end, i, n);
  }

  lemma SplitLinked(headers: Headers, segs: Segments, start: nat, end: nat, lastHeader: nat, i: nat, n: nat)
    requires IsLinked(headers, segs, start, end, lastHeader) && i < |segs|
    requires n >= MIN_LENGTH && segs[i].length >= n + HEADER_SIZE + MIN_LENGTH
    ensures segs[i].address in headers && headers[segs[i].address] == HeaderOf(segs, i)
    ensures var next := headers[segs[i].address].next; next != 0 ==> next in headers && next != segs[i].address
    ensures var after := SplitHeaders(headers, segs[i].address, n);
            && IsLinked(after, HeapSegments.Split(segs, i, n), start, end,
                        if headers[segs[i].address].next == 0 then segs[i].address + HEADER_SIZE + n else lastHeader)
            && headers.Keys <= after.Keys && PayloadsUntouched(headers, after, AsFree(segs, i))
  {
    TiledBounds(segs, start, end, i);
    SplitLinks(headers, segs, i);
    SplitRepresents(headers, segs, i, n);
    SplitTiled(segs, start, end, i, n);
    SplitUntouchedOthers(headers, SplitHeaders(headers, segs[i].address, n), segs, start, end, i, n);
  }

  lemma AppendLinked(headers: Headers, segs: Segments, start: nat, end: nat, lastHeader: nat, length: nat)
    requires IsLinked(headers, segs, start, end, lastHeader) && length >= MIN_LENGTH
    ensures lastHeader in headers && end == segs[|segs| - 1].End()
    ensures var after := AppendHeader(headers, lastHeader, end, length);
            && IsLinked(after, segs + [Segment(end, length, true)], start, end + HEADER_SIZE + length, end)
            && headers.Keys <= after.Keys && PayloadsUntouched(headers, after, segs)
  {
    TiledBounds(segs, start, end, |segs| - 1);
    AppendRepresents(headers, segs, length);
    forall seg | Live(segs, seg)
      ensures seg.End() <= end
    {
      var j :| 0 <= j < |segs| && segs[j] == seg;
      TiledBounds(segs, start, end, j);
    }
    assert IsHeader(segs, lastHeader);
    NewHeaderOutside(headers, AppendHeader(headers, lastHeader, end, length), segs, start, end, end);
  }

  lemma PageOfFrame(page: Frame)
    ensures page * PAGE_SIZE / PAGE_SIZE % FRAMES == page
  {
  }

  // ----- the heap in place -----

  const HEAP_VIRTUAL_BASE := 0xffff_ffff_ff00_0000
  const HEAP_INITIAL_PAGES := 1
  const ADDRESS_LIMIT := 0x1_0000_0000_0000_0000

  class KernelHeap {
    const vm: VirtualMemory
    var headers: Headers
    var heapStart: nat
    var heapEnd: nat
    var lastHeader: nat

    /** The abstract value of the heap. */
    ghost var segs: Segments

    /** The list in memory is `segs`, which tile the heap. */
    ghost predicate Linked()
      reads this
    {
      IsLinked(headers, segs, heapStart, heapEnd, lastHeader)
    }

    ghost predicate Valid()
      reads this, vm, vm.alloc
    {
      && vm.Valid() && Linked() && NoFreeNeighbours(segs)
      && heapStart <= heapEnd <= ADDRESS_LIMIT && (heapEnd - heapStart) % PAGE_SIZE == 0
    }

    /** Sets up the heap with one page, which is mapped if there are enough pages for it and for the tables that its
        address lacks. */
    constructor InitHeap(vm: VirtualMemory)
      requires vm.Valid()
      modifies vm`ram, vm.alloc, vm.alloc.pageMap.buffer
      ensures Valid() && this.vm == vm
      ensures heapStart == HEAP_VIRTUAL_BASE && segs == InitialHeap(HEAP_VIRTUAL_BASE)
      ensures Extension(old(vm.ram), old(vm.Pages()), vm.ram, vm.Pages(), vm.activePageMap, heapStart, heapStart, heapEnd)
      ensures vm.activePageMap != 0 && old(vm.Owned(vm.activePageMap)) ==>
                HeapBacked(old(vm.ram), old(vm.Pages()), vm.activePageMap, heapStart, heapStart)
    {
      ghost var ram, s := vm.ram, vm.Pages();
      var numBytes := HEAP_INITIAL_PAGES * PAGE_SIZE;
      this.vm := vm;
      heapStart, heapEnd := HEAP_VIRTUAL_BASE, HEAP_VIRTUAL_BASE;
      headers := map[HEAP_VIRTUAL_BASE := Header(0, 0, numBytes - HEADER_SIZE, true)];
      lastHeader := HEAP_VIRTUAL_BASE;
      segs := InitialHeap(HEAP_VIRTUAL_BASE);
      new;
      if OwnedIn(ram, s, vm.activePageMap) {
        NothingBacked(ram, s, vm.activePageMap, HEAP_VIRTUAL_BASE);
      }
      BackPages(HEAP_INITIAL_PAGES);
      assert HeaderAt(headers, segs, 0);
    }

    /** The loops that put physical pages behind the end of the heap, one at a time. */
    method BackPages(numPages: nat)
      requires vm.Valid()
      modifies this`heapEnd, vm`ram, vm.alloc, vm.alloc.pageMap.buffer
      ensures vm.Valid() && heapEnd == old(heapEnd) + numPages * PAGE_SIZE
      ensures Extension(old(vm.ram), old(vm.Pages()), vm.ram, vm.Pages(), vm.activePageMap, heapStart, old(heapEnd), heapEnd)
    {
      ghost var ram, s, end := vm.ram, vm.Pages(), heapEnd;
      GrowingStart(ram, s, vm.activePageMap, heapStart, end, numPages);
      for i := 0 to numPages
        invariant vm.Valid() && heapEnd == PageAt(end, i)
        invariant Growing(ram, s, vm.ram, vm.Pages(), vm.activePageMap, heapStart, end, numPages, i)
      {
        BackPage(ram, s, end, numPages, i);
      }
    }

    /** One round. */
    method BackPage(ghost ram: Ram, ghost s: State, ghost end: nat, ghost numPages: nat, ghost i: nat)
      requires vm.Valid() && i < numPages && heapEnd == PageAt(end, i)
      requires Growing(ram, s, vm.ram, vm.Pages(), vm.activePageMap, heapStart, end, numPages, i)
      modifies this`heapEnd, vm`ram, vm.alloc, vm.alloc.pageMap.buffer
      ensures vm.Valid() && heapEnd == PageAt(end, i + 1)
      ensures Growing(ram, s, vm.ram, vm.Pages(), vm.activePageMap, heapStart, end, numPages, i + 1)
    {
      ghost var mid, u := vm.ram, vm.Pages();
      var page := vm.RequestFrame();
      PageOfFrame(page);
      vm.Map(vm.activePageMap, heapEnd, page * PAGE_SIZE, READ_WRITE_GLOBAL);
      heapEnd := heapEnd + PAGE_SIZE;
      GrowingStep(ram, s, mid, u, vm.ram, vm.Pages(), vm.activePageMap, heapStart, end, numPages, i);
    }

    /** Combines segment `i`, whose header is at `segment`, with the next one if that is free. */
    method CombineForward(segment: nat, ghost i: nat)
      requires Linked() && i < |segs| && segs[i].address == segment
      modifies this`headers, this`lastHeader, this`segs
      ensures Linked() && segs == HeapSegments.CombineForward(old(segs), i)
      ensures old(headers).Keys <= headers.Keys && PayloadsUntouched(old(headers), headers, old(segs))
    {
      assert HeaderAt(headers, segs, i) && (i + 1 < |segs| ==> Ordered(segs, i, i + 1));
      var next := headers[segment].next;
      if next == 0 {
        return;
      }
      assert HeaderAt(headers, segs, i + 1) && segs[i + 1].address == next;
      if headers[next].free == false {
        return;
      }
      MergeLinks(headers, segs, i);
      MergeLinked(headers, segs, heapStart, heapEnd, lastHeader, i);
      LinkPast(segment, next);
      segs := Merge(segs, i);
    }

    /** The stores of `CombineForward`. */
    method LinkPast(segment: nat, next: nat)
      requires segment in headers && next in headers && segment != next && headers[segment].next == next
      requires var after := headers[next].next; after != 0 ==> after in headers && after != segment && after != next
      modifies this`headers, this`lastHeader
      ensures headers == Combined(old(headers), segment)
      ensures lastHeader == if next == old(lastHeader) then segment else old(lastHeader)
    {
      if next == lastHeader {
        lastHeader := segment;
      }
      if headers[next].next != 0 {
        var afterNext := headers[next].next;
        headers := headers[afterNext := headers[afterNext].(last := segment)];
      }
      headers := headers[segment := headers[segment].(length := headers[segment].length + headers[next].length + HEADER_SIZE)];
      headers := headers[segment := headers[segment].(next := headers[next].next)];
    }

    method CombineBackward(segment: nat, ghost i: nat)
      requires Linked() && i < |segs| && segs[i].address == segment
      modifies this`headers, this`lastHeader, this`segs
      ensures Linked() && segs == HeapSegments.CombineBackward(old(segs), i)
      ensures old(headers).Keys <= headers.Keys && PayloadsUntouched(old(headers), headers, old(segs))
    {
      assert HeaderAt(headers, segs, i) && (i > 0 ==> Ordered(segs, i - 1, i));
      var last := headers[segment].last;
      if last == 0 {
        return;
      }
      assert HeaderAt(headers, segs, i - 1) && segs[i - 1].address == last;
      if !headers[last].free {
        return;
      }
      CombineForward(last, i - 1);
    }

    /** Splits segment `i` after `splitLength` bytes. The null pointer means that it is too short. The new header is
        written inside the segment, so no other live payload is touched, and none at all if the segment is free. */
    method Split(segment: nat, splitLength: nat, ghost i: nat) returns (r: nat)
      requires Linked() && i < |segs| && segs[i].address == segment
      modifies this`headers, this`lastHeader, this`segs
      ensures Linked() && old(headers).Keys <= headers.Keys
      ensures PayloadsUntouched(old(headers), headers, AsFree(old(segs), i))
      ensures if splitLength >= MIN_LENGTH && old(segs)[i].length >= splitLength + HEADER_SIZE + MIN_LENGTH
              then r == segment && segs == HeapSegments.Split(old(segs), i, splitLength)
              else r == 0 && segs == old(segs) && headers == old(headers) && lastHeader == old(lastHeader)
    {
      assert HeaderAt(headers, segs, i);
      var length := headers[segment].length;
      if splitLength + HEADER_SIZE > length {
        return 0;
      }
      if splitLength < 8 {
        return 0;
      }
      var splitSegmentLength := length - splitLength - HEADER_SIZE;
      if splitSegmentLength < 8 {
        return 0;
      }
      SplitLinked(headers, segs, heapStart, heapEnd, lastHeader, i, splitLength);
      InsertSplitHeader(segment, splitLength, splitSegmentLength);
      segs := HeapSegments.Split(segs, i, splitLength);
      r := segment;
    }

    /** The stores of `Split`. */
    method InsertSplitHeader(segment: nat, splitLength: nat, splitSegmentLength: nat)
      requires segment in headers && headers[segment].length == splitLength + HEADER_SIZE + splitSegmentLength
      requires var next := headers[segment].next; next != 0 ==> next in headers && next != segment
      modifies this`headers, this`lastHeader
      ensures headers == SplitHeaders(old(headers), segment, splitLength)
      ensures lastHeader == if old(headers)[segment].next == 0 then segment + HEADER_SIZE + splitLength else old(lastHeader)
    {
      var splitHeader := segment + HEADER_SIZE + splitLength;
      var next := headers[segment].next;
      if next != 0 {
        headers := headers[next := headers[next].(last := splitHeader)];
      } else {
        lastHeader := splitHeader;
      }
      var free := headers[segment].free;
      headers := headers[segment := headers[segment].(next := splitHeader)];
      headers := headers[segment := headers[segment].(length := splitLength)];
      headers := headers[splitHeader := Header(segment, next, splitSegmentLength, free)];
    }

    /** Grows the heap by whole pages and combines them with a free last segment. */
    method ExpandHeap(numBytes: nat)
      requires Valid() && heapEnd + Growth(numBytes) <= ADDRESS_LIMIT
      modifies this`headers, this`lastHeader, this`segs, this`heapEnd, vm`ram, vm.alloc, vm.alloc.pageMap.buffer
      ensures Valid() && segs == Expand(old(segs), numBytes) && heapEnd == old(heapEnd) + Growth(numBytes)
      ensures old(headers).Keys <= headers.Keys && PayloadsUntouched(old(headers), headers, old(segs))
      ensures Extension(old(vm.ram), old(vm.Pages()), vm.ram, vm.Pages(), vm.activePageMap, heapStart, old(heapEnd), heapEnd)
    {
      var numPages := numBytes / PAGE_SIZE + 1;
      var rounded := numPages * PAGE_SIZE;
      var extension := heapEnd;
      TiledBounds(segs, heapStart, heapEnd, |segs| - 1);
      BackPages(numPages);
      AttachExtension(extension, rounded - HEADER_SIZE);
      ExpandWellFormed(old(segs), heapStart, extension, numBytes);
    }

    /** The header of the new pages, appended to the list and combined with a free segment before it. */
    method AttachExtension(extension: nat, length: nat)
      requires IsLinked(headers, segs, heapStart, extension, lastHeader) && heapEnd == extension + HEADER_SIZE + length
      requires length >= MIN_LENGTH
      modifies this`headers, this`lastHeader, this`segs
      ensures Linked()
      ensures segs == HeapSegments.CombineBackward(old(segs) + [Segment(extension, length, true)], |old(segs)|)
      ensures old(headers).Keys <= headers.Keys && PayloadsUntouched(old(headers), headers, old(segs))
    {
      AppendLinked(headers, segs, heapStart, extension, lastHeader, length);
      headers := headers[lastHeader := headers[lastHeader].(next := extension)];
      headers := headers[extension := Header(lastHeader, 0, length, true)];
      lastHeader := extension;
      segs := segs + [Segment(extension, length, true)];
      ghost var mid, midSegs := headers, segs;
      CombineBackward(extension, |segs| - 1);
      UntouchedTransitive(old(headers), mid, headers, old(segs), midSegs);
    }

    /** Sets the free mark of segment `i`. */
    method Mark(segment: nat, free: bool, ghost i: nat)
      requires Linked() && i < |segs| && segs[i].address == segment
      modifies this`headers, this`segs
      ensures Linked() && segs == old(segs)[i := old(segs)[i].(free := free)]
      ensures old(headers).Keys <= headers.Keys && PayloadsUntouched(old(headers), headers, old(segs))
    {
      MarkRepresents(headers, segs, i, free);
      assert IsHeader(segs, segment);
      ghost var before := headers;
      headers := headers[segment := headers[segment].(free := free)];
      HeadersOutsidePayloads(before, headers, segs, heapStart, heapEnd);
      segs := segs[i := segs[i].(free := free)];
    }

    /** Takes the first part of segment `i` if it can be split. */
    method SplitAndTake(current: nat, numBytes: nat, ghost i: nat) returns (address: nat)
      requires Linked() && i < |segs| && segs[i].address == current && segs[i].free
      requires numBytes >= MIN_LENGTH && segs[i].length > numBytes
      modifies this`headers, this`lastHeader, this`segs
      ensures Linked() && old(headers).Keys <= headers.Keys && PayloadsUntouched(old(headers), headers, old(segs))
      ensures if Fits(old(segs)[i], numBytes)
              then segs == Take(old(segs), i, numBytes) && address == old(segs)[i].Payload()
              else segs == old(segs) && headers == old(headers) && lastHeader == old(lastHeader) && address == 0
    {
      assert HeaderAt(headers, segs, i);
      ghost var before := headers;
      address := 0;
      assert AsFree(segs, i) == segs;
      var split := Split(current, numBytes, i);
      if split != 0 {
        ghost var mid, midSegs := headers, segs;
        Mark(split, false, i);
        SplitLive(old(segs), i, numBytes);
        UntouchedTransitive(before, mid, headers, old(segs), midSegs);
        address := split + HEADER_SIZE;
      }
    }

    /** The body of the search loop of `Malloc`: takes segment `i` if it fits, and returns its
        payload. */
    method TakeIfFits(current: nat, numBytes: nat, ghost i: nat) returns (address: nat)
      requires Valid() && i < |segs| && segs[i].address == current && numBytes >= MIN_LENGTH
      modifies this`headers, this`lastHeader, this`segs
      ensures Valid() && old(headers).Keys <= headers.Keys && PayloadsUntouched(old(headers), headers, old(segs))
      ensures if Fits(old(segs)[i], numBytes)
              then segs == Take(old(segs), i, numBytes) && address == old(segs)[i].Payload()
              else segs == old(segs) && headers == old(headers) && lastHeader == old(lastHeader) && address == 0
    {
      assert HeaderAt(headers, segs, i);
      ghost var before := headers;
      if Fits(segs[i], numBytes) {
        TakeWellFormed(segs, heapStart, heapEnd, i, numBytes);
      }
      address := 0;
      if headers[current].free {
        if headers[current].length > numBytes {
          address := SplitAndTake(current, numBytes, i);
        } else if headers[current].length == numBytes {
          Mark(current, false, i);
          address := current + HEADER_SIZE;
        }
      }
    }

    /** The rounding at the beginning of `Malloc`. */
    method Rounded(numBytes: nat) returns (n: nat)
      requires numBytes != 0
      ensures n == RoundUp(numBytes) && n % 8 == 0 && numBytes <= n < numBytes + 8
    {
      n := numBytes;
      if n % 8 > 0 {
        n := n - n % 8;
        n := n + 8;
      }
    }

    /** `malloc`. It expands the heap at most twice. */
    method Malloc(numBytes: nat) returns (address: nat)
      requires Valid()
      requires numBytes != 0 ==> heapEnd + ExpansionBytes(segs, RoundUp(numBytes)) <= ADDRESS_LIMIT
      modifies this`headers, this`lastHeader, this`segs, this`heapEnd, vm`ram, vm.alloc, vm.alloc.pageMap.buffer
      ensures Valid() && PayloadsUntouched(old(headers), headers, old(segs)) && old(headers).Keys <= headers.Keys
      ensures numBytes == 0 ==> address == 0 && segs == old(segs)
      ensures numBytes != 0 ==>
                var n := RoundUp(numBytes);
                && segs == HeapRuns.Malloc(old(segs), n) && address == MallocAddress(old(segs), n)
                && heapEnd == old(heapEnd) + ExpansionBytes(old(segs), n)
      ensures Extension(old(vm.ram), old(vm.Pages()), vm.ram, vm.Pages(), vm.activePageMap, heapStart, old(heapEnd), heapEnd)
      decreases if numBytes == 0 then 0 else Expansions(segs, RoundUp(numBytes)), 1
    {
      NoExtension(vm.ram, vm.Pages(), vm.activePageMap, heapStart, heapEnd);
      if numBytes == 0 {
        return 0;
      }
      var n := Rounded(numBytes);
      address := Search(n);
      if address != 0 {
        MallocWithoutExpansion(old(segs), n);
        return;
      }
      address := ExpandAndRetry(n);
    }

    /** The end of `Malloc`, when nothing fits. */
    method ExpandAndRetry(n: nat) returns (address: nat)
      requires Valid() && n > 0 && n % 8 == 0 && !HasFit(segs, n) && heapEnd + ExpansionBytes(segs, n) <= ADDRESS_LIMIT
      modifies this`headers, this`lastHeader, this`segs, this`heapEnd, vm`ram, vm.alloc, vm.alloc.pageMap.buffer
      ensures Valid() && PayloadsUntouched(old(headers), headers, old(segs)) && old(headers).Keys <= headers.Keys
      ensures segs == HeapRuns.Malloc(old(segs), n) && address == MallocAddress(old(segs), n)
      ensures heapEnd == old(heapEnd) + ExpansionBytes(old(segs), n)
      ensures Extension(old(vm.ram), old(vm.Pages()), vm.ram, vm.Pages(), vm.activePageMap, heapStart, old(heapEnd), heapEnd)
      decreases Expansions(segs, n), 0
    {
      MallocAfterExpansion(segs, n);
      ghost var segs0, headers0 := segs, headers;
      ghost var ram0, s0, end0 := vm.ram, vm.Pages(), heapEnd;
      ExpandHeap(n);
      ghost var segs1, headers1 := segs, headers;
      ghost var ram1, s1, end1 := vm.ram, vm.Pages(), heapEnd;
      address := Malloc(n);
      ExtensionsJoin(ram0, s0, ram1, s1, vm.ram, vm.Pages(), vm.activePageMap, heapStart, end0, end1, heapEnd);
      ExpandKeepsLive(segs0, n);
      UntouchedTransitive(headers0, headers1, headers, segs0, segs1);
    }

    /** The search loop of `Malloc`, from the start of the heap; the null pointer means that nothing
        fits. */
    method Search(n: nat) returns (address: nat)
      requires Valid() && n >= MIN_LENGTH
      modifies this`headers, this`lastHeader, this`segs
      ensures Valid() && PayloadsUntouched(old(headers), headers, old(segs)) && old(headers).Keys <= headers.Keys
      ensures if HasFit(old(segs), n)
              then var i := FirstFit(old(segs), n); segs == Take(old(segs), i, n) && address == old(segs)[i].Payload()
              else segs == old(segs) && headers == old(headers) && lastHeader == old(lastHeader) && address == 0
    {
      var current := heapStart;
      ghost var i := 0;
      while true
        invariant Valid() && segs == old(segs) && headers == old(headers) && lastHeader == old(lastHeader)
        invariant i < |segs| && segs[i].address == current
        invariant forall j :: 0 <= j < i ==> !Fits(segs[j], n)
        decreases |segs| - i
      {
        address := TakeIfFits(current, n, i);
        if address != 0 {
          FirstFitUnique(old(segs), n, i);
          return;
        }
        assert HeaderAt(headers, segs, i) && (i + 1 < |segs| ==> Ordered(segs, i, i + 1));
        if headers[current].next == 0 {
          break;
        }
        current := headers[current].next;
        i := i + 1;
      }
    }

    /** `free` of the payload of segment `i`. */
    method Free(address: nat, ghost i: nat)
      requires Valid() && i < |segs| && !segs[i].free && address == segs[i].Payload()
      modifies this`headers, this`lastHeader, this`segs
      ensures Valid() && segs == HeapSegments.Free(old(segs), i)
      ensures PayloadsUntouched(old(headers), headers, segs) && old(headers).Keys <= headers.Keys
    {
      FreeWellFormed(segs, heapStart, heapEnd, i);
      ghost var segs0, headers0 := segs, headers;
      var segment := address - HEADER_SIZE;
      Mark(segment, true, i);
      ghost var segs1, headers1 := segs, headers;
      CombineForward(segment, i);
      ghost var segs2, headers2 := segs, headers;
      CombineBackward(segment, i);
      FreeUntouched(headers0, headers1, headers2, headers, segs0, heapStart, heapEnd, i);
    }
  }

  lemma FreeUntouched(h0: Headers, h1: Headers, h2: Headers, h3: Headers, segs: Segments, start: nat, end: nat, i: nat)
    requires Tiled(segs, start, end) && i < |segs| && !segs[i].free
    requires h0.Keys <= h1.Keys <= h2.Keys
    requires var marked := segs[i := segs[i].(free := true)];
             && PayloadsUntouched(h0, h1, segs) && PayloadsUntouched(h1, h2, marked)
             && PayloadsUntouched(h2, h3, HeapSegments.CombineForward(marked, i))
    ensures PayloadsUntouched(h0, h3, HeapSegments.Free(segs, i))
  {
    var marked := segs[i := segs[i].(free := true)];
    FreeStepsLive(segs, start, end, i);
    UntouchedTransitive(h1, h2, h3, marked, HeapSegments.CombineForward(marked, i));
    UntouchedTransitive(h0, h1, h3, HeapSegments.Free(segs, i), marked);
  }

  /** What is live after `free` was live at each of its steps. */
  lemma FreeStepsLive(segs: Segments, start: nat, end: nat, i: nat)
    requires Tiled(segs, start, end) && i < |segs| && !segs[i].free
    ensures var marked := segs[i := segs[i].(free := true)];
            var forward := HeapSegments.CombineForward(marked, i);
            forall seg :: (Live(marked, seg) <==> Live(forward, seg)) && (Live(HeapSegments.Free(segs, i), seg) ==> Live(segs, seg))
                          && (Live(HeapSegments.Free(segs, i), seg) ==> Live(marked, seg))
  {
    var marked := segs[i := segs[i].(free := true)];
    forall seg
      ensures Live(marked, seg) <==> Live(HeapSegments.CombineForward(marked, i), seg)
      ensures Live(HeapSegments.Free(segs, i), seg) ==> Live(segs, seg) && Live(marked, seg)
    {
      FreeLive(segs, start, end, i, seg);
      MarkedLive(segs, start, end, i, seg);
      if i + 1 < |marked| && marked[i + 1].free {
        MergeLive(marked, i, seg);
      }
    }
  }

  /** Splitting a free segment leaves the live ones alone. */
  lemma SplitLive(segs: Segments, i: nat, n: nat)
    requires i < |segs| && segs[i].free && segs[i].length >= n + HEADER_SIZE
    ensures forall seg :: Live(segs, seg) ==> Live(HeapSegments.Split(segs, i, n), seg)
  {
    var r := HeapSegments.Split(segs, i, n);
    assert segs == segs[..i] + [segs[i]] + segs[i + 1..];
    assert r == segs[..i] + [r[i], r[i + 1]] + segs[i + 1..];
  }

  lemma ExpandKeepsLive(segs: Segments, n: nat)
    requires segs != []
    ensures forall seg :: Live(segs, seg) ==> Live(Expand(segs, n), seg)
  {
    forall seg | Live(segs, seg)
      ensures Live(Expand(segs, n), seg)
    {
      ExpandLive(segs, n, seg);
    }
  }

  lemma FirstFitUnique(segs: Segments, n: nat, i: nat)
    requires IsFirstFit(segs, n, i)
    ensures HasFit(segs, n) && FirstFit(segs, n) == i
  {
    assert HasFit(segs, n);
    var j := FirstFit(segs, n);
    assert !(i < j) && !(j < i);
  }

  lemma MallocWithoutExpansion(segs: Segments, n: nat)
    requires segs != [] && LongEnough(segs) && n % 8 == 0 && HasFit(segs, n)
    ensures HeapRuns.Malloc(segs, n) == Take(segs, FirstFit(segs, n), n)
    ensures MallocAddress(segs, n) == segs[FirstFit(segs, n)].Payload() && Expansions(segs, n) == 0
  {
  }

  /** A search without result costs one expansion, and the second search starts from there. */
  lemma MallocAfterExpansion(segs: Segments, n: nat)
    requires segs != [] && LongEnough(segs) && LongEnough(Expand(segs, n)) && n % 8 == 0 && !HasFit(segs, n)
    ensures var once := Expand(segs, n);
            && HeapRuns.Malloc(segs, n) == HeapRuns.Malloc(once, n) && MallocAddress(segs, n) == MallocAddress(once, n)
            && Expansions(segs, n) == 1 + Expansions(once, n)
            && ExpansionBytes(segs, n) == Growth(n) + ExpansionBytes(once, n)
  {
    TwoExpansionsSuffice(segs, n);
  }
}
