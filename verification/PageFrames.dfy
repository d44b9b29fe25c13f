/** The page frame allocator of kernel/memory/physical_memory_manager.cc, on values.

    A page is named by its index, that is, its physical address divided by PAGE_SIZE. */
module PageFrames {
  import opened Bitmaps
  import opened Wrappers

  const PAGE_SIZE := 4096
  const KERNEL_PHYSICAL := 0x10_0000
  const TWO_64 := 0x1_0000_0000_0000_0000

  /** The index of the page that holds an address. */
  function PageOf(address: nat): nat { address / PAGE_SIZE }

  lemma PageOfOffset(address: nat, i: nat)
    ensures PageOf(address + i * PAGE_SIZE) == PageOf(address) + i
  {
  }

  // Unsigned 64-bit counters wrap around.
  function Incremented(x: nat): nat { if x == TWO_64 - 1 then 0 else x + 1 }

  function Decremented(x: nat): nat { if x == 0 then TWO_64 - 1 else x - 1 }

  /** One value of the allocator's globals. `cursor` is FirstFreePage; `panicked` records that
      `panic` has been called. */
  datatype State = State(bits: seq<bool>, totalPages: nat, totalFree: nat, totalUsed: nat,
                         maxRun: nat, cursor: nat, panicked: bool)

  function LockPage(s: State, page: nat): State {
    if Get(s.bits, page) || page >= |s.bits| then s
    else s.(bits := s.bits[page := true], totalFree := Decremented(s.totalFree), totalUsed := Incremented(s.totalUsed))
  }

  function FreePage(s: State, page: nat): State {
    if !Get(s.bits, page) then s
    else s.(bits := s.bits[page := false], totalUsed := Decremented(s.totalUsed), totalFree := Incremented(s.totalFree))
  }

  /** `count` pages locked, lowest first. */
  function LockRange(s: State, first: nat, count: nat): State {
    if count == 0 then s else LockPage(LockRange(s, first, count - 1), first + count - 1)
  }

  function FreeRange(s: State, first: nat, count: nat): State {
    if count == 0 then s else FreePage(FreeRange(s, first, count - 1), first + count - 1)
  }

  /** The lowest page in [from, limit) whose bit is clear. */
  function FirstClear(bits: seq<bool>, from: nat, limit: nat): (r: Option<nat>)
    ensures r.Some? ==> from <= r.value < limit && !Get(bits, r.value)
                        && forall j :: from <= j < r.value ==> Get(bits, j)
    ensures r.None? ==> forall j :: from <= j < limit ==> Get(bits, j)
    decreases limit - from
  {
    if from >= limit then None
    else if !Get(bits, from) then Some(from)
    else FirstClear(bits, from + 1, limit)
  }

  function RequestPage(s: State): (r: (State, Option<nat>)) {
    match FirstClear(s.bits, s.cursor, s.totalPages)
    case Some(page) => (LockPage(s, page).(cursor := page + 1), Some(page))
    case None => (s.(cursor := if s.cursor < s.totalPages then s.totalPages else s.cursor, panicked := true), None)
  }

  /** Pages i..i+n-1 are clear and end strictly below `bound`. */
  ghost predicate Candidate(bits: seq<bool>, n: nat, bound: nat, i: nat) {
    i + n < bound && forall k :: i <= k < i + n ==> !Get(bits, k)
  }

  /** What `RequestPages` must find: `i` is the lowest candidate at or above `from`. */
  ghost predicate LowestCandidate(bits: seq<bool>, n: nat, bound: nat, from: nat, i: nat) {
    from <= i && Candidate(bits, n, bound, i) && forall j :: from <= j < i ==> !Candidate(bits, n, bound, j)
  }

  ghost predicate NoCandidate(bits: seq<bool>, n: nat, bound: nat, from: nat) {
    forall j :: from <= j ==> !Candidate(bits, n, bound, j)
  }

  /** The bound that the search loops use: the length of the bitmap in bytes. */
  function SearchBound(s: State): nat { |s.bits| / 8 }

  ghost predicate Guarded(s: State, n: nat) { n <= s.totalFree && n <= s.maxRun }

  /** The new state and the first page of the run that `RequestPages(n)` hands out. */
  ghost function RequestPages(s: State, n: nat): (r: (State, Option<nat>)) {
    if n == 0 then (s, None)
    else if n == 1 then RequestPage(s)
    else if !Guarded(s, n) then (s, None)
    else if exists i: nat :: LowestCandidate(s.bits, n, SearchBound(s), s.cursor, i) then
      var i: nat :| LowestCandidate(s.bits, n, SearchBound(s), s.cursor, i);
      (LockRange(s, i, n), Some(i))
    else
      (s.(panicked := s.panicked || (s.cursor < SearchBound(s) && !Get(s.bits, SearchBound(s) - 1))), None)
  }

  /** `RequestPages` is deterministic: there is at most one lowest candidate. */
  lemma RequestPagesFinds(s: State, n: nat, i: nat)
    requires n >= 2 && Guarded(s, n) && LowestCandidate(s.bits, n, SearchBound(s), s.cursor, i)
    ensures RequestPages(s, n) == (LockRange(s, i, n), Some(i))
  {
    var j: nat :| LowestCandidate(s.bits, n, SearchBound(s), s.cursor, j) && RequestPages(s, n) == (LockRange(s, j, n), Some(j));
    assert !(i < j) && !(j < i);
  }

  lemma RequestPagesFails(s: State, n: nat)
    requires n >= 2 && Guarded(s, n) && NoCandidate(s.bits, n, SearchBound(s), s.cursor)
    ensures RequestPages(s, n)
            == (s.(panicked := s.panicked || (s.cursor < SearchBound(s) && !Get(s.bits, SearchBound(s) - 1))), None)
  {
  }

  /** A page that `RequestPage` will not hand out any more while the bitmap stays in place: it lies
      below the cursor or its bit is set. */
  ghost predicate Held(s: State, page: nat) { page < s.cursor || Get(s.bits, page) }

  /** `page` was not held before and is the only page held since. */
  ghost predicate NewlyHeld(s: State, t: State, page: nat) {
    !Held(s, page) && forall p: nat :: Held(t, p) <==> Held(s, p) || p == page
  }

  lemma RequestPageHolds(s: State)
    ensures var (t, page) := RequestPage(s);
            && t.totalPages == s.totalPages && |t.bits| == |s.bits| && s.cursor <= t.cursor
            && (s.panicked || page.None? <==> t.panicked)
            && (page.Some? ==> page.value < s.totalPages && page.value < t.cursor && NewlyHeld(s, t, page.value))
            && (page.None? ==> forall p: nat :: Held(t, p) <==> Held(s, p))
  {
  }

  // ----- the switch from the initial bitmap to the one that covers all of memory -----

  const CONVENTIONAL_MEMORY := 7

  datatype Descriptor = Descriptor(kind: nat, physicalAddress: nat, numPages: nat)

  function FreeSegments(s: State, segments: seq<Descriptor>): State {
    if segments == [] then s
    else
      var before := FreeSegments(s, segments[..|segments| - 1]);
      var last := segments[|segments| - 1];
      if last.kind == CONVENTIONAL_MEMORY then FreeRange(before, PageOf(last.physicalAddress), last.numPages) else before
  }

  function LargestSegment(segments: seq<Descriptor>, atLeast: nat): (max: nat)
    ensures max >= atLeast
    ensures forall d :: d in segments && d.kind == CONVENTIONAL_MEMORY ==> d.numPages <= max
  {
    if segments == [] then atLeast
    else
      var before := LargestSegment(segments[..|segments| - 1], atLeast);
      var last := segments[|segments| - 1];
      if last.kind == CONVENTIONAL_MEMORY && last.numPages > before then last.numPages else before
  }

  /** The number of bytes of the full bitmap. */
  function FullBitmapSize(totalPages: nat): nat { totalPages / 8 + 1 }

  /** The second half of `init_physical`, from the full bitmap's `init` on. */
  function SwapBitmap(s: State, segments: seq<Descriptor>, base: nat, kernel: nat, kernelPages: nat): State {
    var size := FullBitmapSize(s.totalPages);
    var freed := FreeSegments(AllLocked(s), segments).(maxRun := LargestSegment(segments, s.maxRun));
    var withBitmap := LockRange(freed, PageOf(base), PageOf(size) + 1);
    LockRange(withBitmap, PageOf(kernel), kernelPages)
  }

  /** The full bitmap once all its pages are locked. The free counter has wrapped around by then
      and is reset. */
  function AllLocked(s: State): State {
    var empty := s.(bits := seq(8 * FullBitmapSize(s.totalPages), i => false), totalUsed := 0);
    LockRange(empty, 0, s.totalPages + 1).(totalFree := 0)
  }

  /** `maxRun` plays no part in freeing pages. */
  lemma {:induction false} FreeRangeMaxRun(s: State, first: nat, count: nat, maxRun: nat)
    ensures FreeRange(s.(maxRun := maxRun), first, count) == FreeRange(s, first, count).(maxRun := maxRun)
  {
    if count > 0 {
      FreeRangeMaxRun(s, first, count - 1, maxRun);
    }
  }

  // ----- counting -----

  /** The number of bits that are set. */
  function CountSet(bits: seq<bool>): (n: nat)
    ensures n <= |bits|
  {
    if bits == [] then 0 else CountSet(bits[..|bits| - 1]) + if bits[|bits| - 1] then 1 else 0
  }

  lemma {:induction false} CountSetUpdate(bits: seq<bool>, i: nat, value: bool)
    requires i < |bits|
    ensures CountSet(bits[i := value]) == CountSet(bits) - (if bits[i] then 1 else 0) + (if value then 1 else 0)
  {
    var last := |bits| - 1;
    if i == last {
      assert bits[i := value][..last] == bits[..last];
    } else {
      assert bits[i := value][..last] == bits[..last][i := value];
      CountSetUpdate(bits[..last], i, value);
    }
  }

  lemma {:induction false} CountSetConstant(bits: seq<bool>, value: bool)
    requires forall i :: 0 <= i < |bits| ==> bits[i] == value
    ensures CountSet(bits) == if value then |bits| else 0
  {
    if bits != [] {
      CountSetConstant(bits[..|bits| - 1], value);
    }
  }

  /** The counters agree with the bitmap, and together count `total` pages modulo 2^64. */
  ghost predicate Counted(s: State, total: nat) {
    && |s.bits| < TWO_64
    && s.totalUsed == CountSet(s.bits)
    && s.totalFree < TWO_64
    && (s.totalFree + s.totalUsed) % TWO_64 == total % TWO_64
  }

  /** Everything but the bitmap and the two page counters. */
  ghost predicate SameShape(s: State, t: State) {
    && |t.bits| == |s.bits| && t.totalPages == s.totalPages && t.maxRun == s.maxRun
    && t.cursor == s.cursor && t.panicked == s.panicked
  }

  lemma LockPageCounted(s: State, page: nat, total: nat)
    requires Counted(s, total)
    ensures Counted(LockPage(s, page), total)
  {
    if page < |s.bits| {
      CountSetUpdate(s.bits, page, true);
    }
  }

  lemma FreePageCounted(s: State, page: nat, total: nat)
    requires Counted(s, total)
    ensures Counted(FreePage(s, page), total)
  {
    if page < |s.bits| {
      CountSetUpdate(s.bits, page, false);
    }
  }

  /** Locking a range sets exactly the bits of the range. */
  lemma {:induction false} LockRangeEffect(s: State, first: nat, count: nat)
    ensures var t := LockRange(s, first, count);
            && SameShape(s, t)
            && (forall i :: 0 <= i < |s.bits| ==> t.bits[i] == (s.bits[i] || first <= i < first + count))
  {
    if count > 0 {
      LockRangeEffect(s, first, count - 1);
    }
  }

  /** Locking clear pages inside the bitmap moves each of them from one counter to the other. */
  lemma {:induction false} LockClearRange(s: State, first: nat, count: nat)
    requires first + count <= |s.bits| && forall k :: first <= k < first + count ==> !s.bits[k]
    requires count <= s.totalFree && s.totalUsed + count < TWO_64
    ensures LockRange(s, first, count).totalFree == s.totalFree - count
    ensures LockRange(s, first, count).totalUsed == s.totalUsed + count
  {
    if count > 0 {
      LockClearRange(s, first, count - 1);
      LockRangeEffect(s, first, count - 1);
    }
  }

  /** A run handed out by `request_pages`: its `n` pages were clear, exactly their bits are set now, the counters
      have moved by `n`, and the cursor has not. */
  lemma RequestPagesEffect(s: State, n: nat)
    requires n >= 2 && RequestPages(s, n).1.Some? && s.totalUsed + n < TWO_64
    ensures var (t, page) := RequestPages(s, n);
            && s.cursor <= page.value && page.value + n < SearchBound(s)
            && SameShape(s, t) && t.totalFree == s.totalFree - n && t.totalUsed == s.totalUsed + n
            && (forall k :: page.value <= k < page.value + n ==> !Get(s.bits, k))
            && (forall k :: 0 <= k < |s.bits| ==> t.bits[k] == (s.bits[k] || page.value <= k < page.value + n))
  {
    var i: nat :| LowestCandidate(s.bits, n, SearchBound(s), s.cursor, i);
    RequestPagesFinds(s, n, i);
    forall k | i <= k < i + n ensures !s.bits[k] {
      var isSet := Get(s.bits, k);
    }
    LockRangeEffect(s, i, n);
    LockClearRange(s, i, n);
  }

  /** The same for a single page: the lowest clear one from the cursor on is handed out, exactly its bit is set now, the
      counters have moved by one, and the cursor is behind it. A page that the bitmap does not cover has no bit. */
  lemma RequestPageEffect(s: State)
    requires s.totalUsed + 1 < TWO_64 && s.totalFree > 0
    ensures var (t, page) := RequestPage(s);
            && (page.None? <==> forall k :: s.cursor <= k < s.totalPages ==> Get(s.bits, k))
            && (page.None? ==> t == s.(cursor := t.cursor, panicked := true) && s.cursor <= t.cursor && s.totalPages <= t.cursor)
            && (page.Some? ==>
                  && s.cursor <= page.value < s.totalPages && !Get(s.bits, page.value) && t.cursor == page.value + 1
                  && (forall k :: s.cursor <= k < page.value ==> Get(s.bits, k))
                  && SameShape(s.(cursor := t.cursor), t)
                  && (forall k :: 0 <= k < |s.bits| ==> t.bits[k] == (s.bits[k] || k == page.value))
                  && var moved := if page.value < |s.bits| then 1 else 0;
                     t.totalFree == s.totalFree - moved && t.totalUsed == s.totalUsed + moved)
  {
  }

  lemma {:induction false} LowestCandidateExists(s: State, n: nat, from: nat, i: nat)
    requires from <= i && Candidate(s.bits, n, SearchBound(s), i)
    ensures exists lowest: nat :: LowestCandidate(s.bits, n, SearchBound(s), from, lowest)
    decreases i - from
  {
    if Candidate(s.bits, n, SearchBound(s), from) {
      assert LowestCandidate(s.bits, n, SearchBound(s), from, from);
    } else {
      LowestCandidateExists(s, n, from + 1, i);
      var lowest: nat :| LowestCandidate(s.bits, n, SearchBound(s), from + 1, lowest);
      assert LowestCandidate(s.bits, n, SearchBound(s), from, lowest);
    }
  }

  /** Within its guards `request_pages` finds a run exactly if there is one at or above the cursor that ends below
      the number of bytes of the bitmap; pages beyond, seven eighths of all, are never handed out by it. */
  lemma RequestPagesSucceeds(s: State, n: nat)
    requires n >= 2 && Guarded(s, n)
    ensures RequestPages(s, n).1.Some? <==> exists i: nat :: s.cursor <= i && Candidate(s.bits, n, |s.bits| / 8, i)
  {
    if i: nat :| s.cursor <= i && Candidate(s.bits, n, |s.bits| / 8, i) {
      LowestCandidateExists(s, n, s.cursor, i);
      var lowest: nat :| LowestCandidate(s.bits, n, SearchBound(s), s.cursor, lowest);
      RequestPagesFinds(s, n, lowest);
    }
  }

  lemma {:induction false} LockRangeCounted(s: State, first: nat, count: nat, total: nat)
    requires Counted(s, total)
    ensures Counted(LockRange(s, first, count), total)
  {
    if count > 0 {
      LockRangeCounted(s, first, count - 1, total);
      LockPageCounted(LockRange(s, first, count - 1), first + count - 1, total);
    }
  }

  lemma {:induction false} FreeRangeEffect(s: State, first: nat, count: nat)
    ensures var t := FreeRange(s, first, count);
            && SameShape(s, t)
            && (forall i :: 0 <= i < |s.bits| ==> t.bits[i] == (s.bits[i] && !(first <= i < first + count)))
  {
    if count > 0 {
      FreeRangeEffect(s, first, count - 1);
    }
  }

  lemma {:induction false} FreeRangeCounted(s: State, first: nat, count: nat, total: nat)
    requires Counted(s, total)
    ensures Counted(FreeRange(s, first, count), total)
  {
    if count > 0 {
      FreeRangeCounted(s, first, count - 1, total);
      FreePageCounted(FreeRange(s, first, count - 1), first + count - 1, total);
    }
  }

  ghost predicate Conventional(segments: seq<Descriptor>, page: nat) {
    exists d :: d in segments && d.kind == CONVENTIONAL_MEMORY
                && PageOf(d.physicalAddress) <= page < PageOf(d.physicalAddress) + d.numPages
  }

  lemma {:induction false} FreeSegmentsEffect(s: State, segments: seq<Descriptor>)
    ensures var t := FreeSegments(s, segments);
            && SameShape(s, t)
            && (forall i :: 0 <= i < |s.bits| ==> t.bits[i] == (s.bits[i] && !Conventional(segments, i)))
  {
    if segments != [] {
      var init, last := segments[..|segments| - 1], segments[|segments| - 1];
      assert segments == init + [last];
      FreeSegmentsEffect(s, init);
      if last.kind == CONVENTIONAL_MEMORY {
        FreeRangeEffect(FreeSegments(s, init), PageOf(last.physicalAddress), last.numPages);
      }
    }
  }

  lemma {:induction false} FreeSegmentsCounted(s: State, segments: seq<Descriptor>, total: nat)
    requires Counted(s, total)
    ensures Counted(FreeSegments(s, segments), total)
  {
    if segments != [] {
      var init, last := segments[..|segments| - 1], segments[|segments| - 1];
      FreeSegmentsCounted(s, init, total);
      FreeRangeCounted(FreeSegments(s, init), PageOf(last.physicalAddress), last.numPages, total);
    }
  }

  lemma LockClearPage(s: State, page: nat)
    requires page < |s.bits| && !s.bits[page] && s.totalUsed + 1 < TWO_64
    ensures LockPage(s, page).bits == s.bits[page := true] && LockPage(s, page).totalUsed == s.totalUsed + 1
    ensures CountSet(LockPage(s, page).bits) == CountSet(s.bits) + 1
  {
    CountSetUpdate(s.bits, page, true);
  }

  lemma NextStaysClear(s: State, count: nat)
    requires count < |s.bits| && forall i :: 0 <= i < |s.bits| ==> !s.bits[i]
    ensures var t := LockRange(s, 0, count); |t.bits| == |s.bits| && !t.bits[count]
  {
    LockRangeEffect(s, 0, count);
  }

  /** Locking the first `count` pages of an empty bitmap counts them. */
  lemma {:induction false} LockedCount(s: State, count: nat)
    requires count <= |s.bits| < TWO_64 && s.totalUsed == 0
    requires forall i :: 0 <= i < |s.bits| ==> !s.bits[i]
    ensures LockRange(s, 0, count).totalUsed == CountSet(LockRange(s, 0, count).bits) == count
  {
    if count == 0 {
      CountSetConstant(s.bits, false);
    } else {
      LockedCount(s, count - 1);
      NextStaysClear(s, count - 1);
      LockClearPage(LockRange(s, 0, count - 1), count - 1);
    }
  }

  lemma AllLockedEffect(s: State)
    ensures var t := AllLocked(s);
            && |t.bits| == 8 * FullBitmapSize(s.totalPages)
            && t.totalPages == s.totalPages && t.cursor == s.cursor && t.panicked == s.panicked && t.maxRun == s.maxRun
            && (forall i :: 0 <= i < |t.bits| ==> t.bits[i] == (i <= s.totalPages))
            && (s.totalPages + 16 < TWO_64 ==> Counted(t, s.totalPages + 1))
  {
    var empty := s.(bits := seq(8 * FullBitmapSize(s.totalPages), i => false), totalUsed := 0);
    LockRangeEffect(empty, 0, s.totalPages + 1);
    if s.totalPages + 16 < TWO_64 {
      LockedCount(empty, s.totalPages + 1);
    }
  }

  /** After `init_physical`, whatever the state was before, a page is clear exactly if it is
      conventional memory outside the bitmap and the kernel; the cursor has not moved. */
  lemma SwapBitmapEffect(s: State, segments: seq<Descriptor>, base: nat, kernel: nat, kernelPages: nat)
    ensures var t := SwapBitmap(s, segments, base, kernel, kernelPages);
            var size := FullBitmapSize(s.totalPages);
            && |t.bits| == 8 * size && t.cursor == s.cursor && t.totalPages == s.totalPages && t.panicked == s.panicked
            && (forall i :: 0 <= i <= s.totalPages ==>
                  t.bits[i] == (!Conventional(segments, i)
                                || PageOf(base) <= i < PageOf(base) + PageOf(size) + 1
                                || PageOf(kernel) <= i < PageOf(kernel) + kernelPages))
  {
    AllLockedEffect(s);
    FreeSegmentsEffect(AllLocked(s), segments);
    var freed := FreeSegments(AllLocked(s), segments).(maxRun := LargestSegment(segments, s.maxRun));
    var first, count := PageOf(base), PageOf(FullBitmapSize(s.totalPages)) + 1;
    var locked := LockRange(freed, first, count);
    var t := LockRange(locked, PageOf(kernel), kernelPages);
    LockRangeEffect(freed, first, count);
    LockRangeEffect(locked, PageOf(kernel), kernelPages);
    assert t == SwapBitmap(s, segments, base, kernel, kernelPages);
    forall i | 0 <= i <= s.totalPages
      ensures t.bits[i] == (!Conventional(segments, i) || first <= i < first + count
                            || PageOf(kernel) <= i < PageOf(kernel) + kernelPages)
    {
      assert freed.bits[i] == !Conventional(segments, i);
    }
  }

  /** After `init_physical` the counters are right, whatever they were before. */
  lemma SwapBitmapCounted(s: State, segments: seq<Descriptor>, base: nat, kernel: nat, kernelPages: nat)
    requires s.totalPages + 16 < TWO_64
    ensures Counted(SwapBitmap(s, segments, base, kernel, kernelPages), s.totalPages + 1)
  {
    var size, total := FullBitmapSize(s.totalPages), s.totalPages + 1;
    AllLockedEffect(s);
    FreeSegmentsCounted(AllLocked(s), segments, total);
    var freed := FreeSegments(AllLocked(s), segments).(maxRun := LargestSegment(segments, s.maxRun));
    LockRangeCounted(freed, PageOf(base), PageOf(size) + 1, total);
    LockRangeCounted(LockRange(freed, PageOf(base), PageOf(size) + 1), PageOf(kernel), kernelPages, total);
  }

  // ----- an example of pages that cannot be had -----

  /** All bits set but those of one range. */
  lemma {:induction false} CountOutside(bits: seq<bool>, first: nat, count: nat)
    requires first + count <= |bits| && forall i :: 0 <= i < |bits| ==> bits[i] == !(first <= i < first + count)
    ensures CountSet(bits) == |bits| - count
    decreases count
  {
    if count == 0 {
      CountSetConstant(bits, true);
    } else {
      var last := first + count - 1;
      CountOutside(bits[last := true], first, count - 1);
      CountSetUpdate(bits, last, true);
    }
  }

  /** 303 pages, of which the ones from 64 to 127 are conventional memory, and the kernel is the ones from 256 to 287. */
  const SMALL_MEMORY: seq<Descriptor> := [
    Descriptor(0, 0, 64), Descriptor(CONVENTIONAL_MEMORY, 0x4_0000, 64), Descriptor(0, 0x8_0000, 175)]

  const SMALL_KERNEL := 32

  /** The allocator after `init_physical` on that memory, with the bitmap in page 64. */
  function SmallState(): State {
    SwapBitmap(State([], 303, 0, 0, 0, 0, false), SMALL_MEMORY, 0x4_0000, KERNEL_PHYSICAL, SMALL_KERNEL)
  }

  lemma SmallStateBits()
    ensures var s := SmallState();
            && |s.bits| == 304 && s.cursor == 0 && s.maxRun == 64
            && forall i :: 0 <= i < 304 ==> s.bits[i] == !(65 <= i < 128)
  {
    var start := State([], 303, 0, 0, 0, 0, false);
    SwapBitmapEffect(start, SMALL_MEMORY, 0x4_0000, KERNEL_PHYSICAL, SMALL_KERNEL);
    SmallMaxRun();
    assert SMALL_MEMORY[1] in SMALL_MEMORY;
    forall i: nat | i < 304
      ensures Conventional(SMALL_MEMORY, i) == (64 <= i < 128)
    {
      assert forall d :: d in SMALL_MEMORY && d.kind == CONVENTIONAL_MEMORY ==> d == SMALL_MEMORY[1];
    }
  }

  lemma SmallMaxRun()
    ensures SmallState().maxRun == 64
  {
    var start := State([], 303, 0, 0, 0, 0, false);
    var freed := FreeSegments(AllLocked(start), SMALL_MEMORY).(maxRun := LargestSegment(SMALL_MEMORY, 0));
    LockRangeEffect(freed, PageOf(0x4_0000), PageOf(FullBitmapSize(303)) + 1);
    LockRangeEffect(LockRange(freed, PageOf(0x4_0000), PageOf(FullBitmapSize(303)) + 1), PageOf(KERNEL_PHYSICAL), SMALL_KERNEL);
    assert SMALL_MEMORY[..2] == [SMALL_MEMORY[0], SMALL_MEMORY[1]] && SMALL_MEMORY[..2][..1] == [SMALL_MEMORY[0]];
    assert LargestSegment(SMALL_MEMORY[..1], 0) == 0;
    assert LargestSegment(SMALL_MEMORY[..2], 0) == 64;
    assert LargestSegment(SMALL_MEMORY, 0) == 64;
  }

  lemma SmallStateCounts()
    ensures var s := SmallState();
            Counted(s, 304) && s.totalPages == 303 && !s.panicked && s.totalFree == 63
  {
    var start, s := State([], 303, 0, 0, 0, 0, false), SmallState();
    SmallStateBits();
    SwapBitmapEffect(start, SMALL_MEMORY, 0x4_0000, KERNEL_PHYSICAL, SMALL_KERNEL);
    SwapBitmapCounted(start, SMALL_MEMORY, 0x4_0000, KERNEL_PHYSICAL, SMALL_KERNEL);
    CountOutside(s.bits, 65, 63);
  }

  /** 63 pages in a row are free there, but two of them cannot be had. */
  lemma RequestPagesRefusesFreePages()
    ensures var s := SmallState();
            && Counted(s, s.totalPages + 1) && |s.bits| == 8 * FullBitmapSize(s.totalPages) && s.totalFree == 63
            && Guarded(s, 2) && Candidate(s.bits, 2, |s.bits|, 65) && RequestPages(s, 2) == (s, None)
  {
    var s := SmallState();
    SmallStateBits();
    SmallStateCounts();
    forall j | Candidate(s.bits, 2, SearchBound(s), j) && s.cursor <= j ensures false {
      var isSet := Get(s.bits, j);
    }
    RequestPagesFails(s, 2);
  }

  // ----- runs -----

  datatype Op =
    | Lock(address: nat, count: nat)
    | Free(address: nat, count: nat)
    | Request
    | RequestMany(count: nat)
    | Swap(segments: seq<Descriptor>, base: nat, kernel: nat, kernelPages: nat)

  /** Pages first..first+count-1 handed out by one call; `single` for `request_page`. */
  datatype Grant = Grant(first: nat, count: nat, single: bool)

  ghost function Step(s: State, op: Op): (State, Option<Grant>) {
    match op
    case Lock(address, count) => (LockRange(s, PageOf(address), count), None)
    case Free(address, count) => (FreeRange(s, PageOf(address), count), None)
    case Request =>
      var (t, page) := RequestPage(s);
      (t, if page.Some? then Some(Grant(page.value, 1, true)) else None)
    case RequestMany(count) =>
      var (t, page) := RequestPages(s, count);
      (t, if page.Some? then Some(Grant(page.value, count, count == 1)) else None)
    case Swap(segments, base, kernel, kernelPages) => (SwapBitmap(s, segments, base, kernel, kernelPages), None)
  }

  /** The state after a run and the grants made during it, in order. */
  ghost function Run(s: State, ops: seq<Op>): (State, seq<Grant>) {
    if ops == [] then (s, [])
    else
      var (t, grants) := Run(s, ops[..|ops| - 1]);
      var (u, grant) := Step(t, ops[|ops| - 1]);
      (u, if grant.Some? then grants + [grant.value] else grants)
  }

  /** No step moves the cursor back; what it grants starts at or above the cursor, and a page
      granted alone ends up below it. */
  lemma StepCursor(s: State, op: Op)
    ensures var (t, grant) := Step(s, op);
            && s.cursor <= t.cursor
            && t.totalPages == s.totalPages
            && (grant.Some? ==> s.cursor <= grant.value.first)
            && (grant.Some? && grant.value.single ==> grant.value.first < t.cursor)
  {
    match op
    case Lock(address, count) => LockRangeEffect(s, PageOf(address), count);
    case Free(address, count) => FreeRangeEffect(s, PageOf(address), count);
    case Request =>
    case RequestMany(count) =>
      forall i: nat { LockRangeEffect(s, i, count); }
    case Swap(segments, base, kernel, kernelPages) => SwapBitmapEffect(s, segments, base, kernel, kernelPages);
  }

  /** Over any run, a page that `request_page` handed out lies strictly below everything handed
      out later, by `request_page` or `request_pages`, even across a change of bitmap. */
  lemma {:induction false} SinglePagesNeverReissued(s: State, ops: seq<Op>)
    ensures var (t, grants) := Run(s, ops);
            && s.cursor <= t.cursor
            && (forall i :: 0 <= i < |grants| ==> s.cursor <= grants[i].first)
            && (forall i :: 0 <= i < |grants| && grants[i].single ==> grants[i].first < t.cursor)
            && (forall i, j :: 0 <= i < j < |grants| && grants[i].single ==> grants[i].first < grants[j].first)
  {
    if ops != [] {
      SinglePagesNeverReissued(s, ops[..|ops| - 1]);
      StepCursor(Run(s, ops[..|ops| - 1]).0, ops[|ops| - 1]);
    }
  }

  lemma RequestPageCounted(s: State, total: nat)
    requires Counted(s, total)
    ensures Counted(RequestPage(s).0, total)
  {
    match FirstClear(s.bits, s.cursor, s.totalPages)
    case Some(page) => LockPageCounted(s, page, total);
    case None =>
  }

  lemma StepCounted(s: State, op: Op)
    requires s.totalPages + 16 < TWO_64
    requires Counted(s, s.totalPages + 1)
    ensures Counted(Step(s, op).0, s.totalPages + 1)
  {
    var total := s.totalPages + 1;
    match op
    case Lock(address, count) => LockRangeCounted(s, PageOf(address), count, total);
    case Free(address, count) => FreeRangeCounted(s, PageOf(address), count, total);
    case Request => RequestPageCounted(s, total);
    case RequestMany(count) =>
      RequestPageCounted(s, total);
      forall i: nat { LockRangeCounted(s, i, count, total); }
    case Swap(segments, base, kernel, kernelPages) => SwapBitmapCounted(s, segments, base, kernel, kernelPages);
  }

  /** Over any run the used-page counter is the number of set bits, and the two counters add up
      to TotalPages + 1 modulo 2^64. */
  lemma {:induction false} CountersStayRight(s: State, ops: seq<Op>)
    requires s.totalPages + 16 < TWO_64
    requires Counted(s, s.totalPages + 1)
    ensures Counted(Run(s, ops).0, s.totalPages + 1) && Run(s, ops).0.totalPages == s.totalPages
  {
    if ops != [] {
      CountersStayRight(s, ops[..|ops| - 1]);
      StepCursor(Run(s, ops[..|ops| - 1]).0, ops[|ops| - 1]);
      StepCounted(Run(s, ops[..|ops| - 1]).0, ops[|ops| - 1]);
    }
  }
}
