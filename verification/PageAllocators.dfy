/** The page frame allocator of kernel/memory/physical_memory_manager.cc, in place.

    Every method is tied to the operation of the same name on `PageFrames.State`. */
module PageAllocators {
  import opened Bitmaps
  import opened PageFrames

  const INITIAL_PAGE_BITMAP_MAX_ADDRESS := 0x400_0000  // 64 MiB
  const INITIAL_PAGE_BITMAP_PAGE_COUNT := 0x4000
  const INITIAL_PAGE_BITMAP_SIZE := 0x800

  class PageAllocator {
    const pageMap: Bitmap
    var totalPages: nat
    var totalFreePages: nat
    var totalUsedPages: nat
    var maxFreePagesInARow: nat
    var firstFreePage: nat
    var panicked: bool

    /** The abstract value of the allocator's globals. */
    ghost function Model(): (s: State)
      reads this, pageMap, pageMap.buffer
      ensures |s.bits| == 8 * pageMap.buffer.Length
    {
      State(pageMap.Bits(), totalPages, totalFreePages, totalUsedPages, maxFreePagesInARow, firstFreePage, panicked)
    }

    constructor ()
      ensures fresh(pageMap) && fresh(pageMap.buffer)
      ensures Model() == State([], 0, 0, 0, 0, 0, false)
    {
      pageMap := new Bitmap();
      totalPages, totalFreePages, totalUsedPages := 0, 0, 0;
      maxFreePagesInARow, firstFreePage, panicked := 0, 0, false;
    }

    method LockPage(address: nat)
      modifies this, pageMap.buffer
      ensures Model() == PageFrames.LockPage(old(Model()), PageOf(address))
    {
      var index := address / PAGE_SIZE;
      var locked := pageMap.Test(index);
      if locked {
        return;
      }
      var inRange := pageMap.Set(index, true);
      if inRange {
        totalFreePages := Decremented(totalFreePages);
        totalUsedPages := Incremented(totalUsedPages);
      }
    }

    method LockPages(address: nat, numberOfPages: nat)
      modifies this, pageMap.buffer
      ensures Model() == LockRange(old(Model()), PageOf(address), numberOfPages)
    {
      for i := 0 to numberOfPages
        invariant Model() == LockRange(old(Model()), PageOf(address), i)
      {
        PageOfOffset(address, i);
        LockPage(address + i * PAGE_SIZE);
      }
    }

    method FreePage(address: nat)
      modifies this, pageMap.buffer
      ensures Model() == PageFrames.FreePage(old(Model()), PageOf(address))
    {
      var index := address / PAGE_SIZE;
      var locked := pageMap.Test(index);
      if locked == false {
        return;
      }
      var inRange := pageMap.Set(index, false);
      if inRange {
        totalUsedPages := Decremented(totalUsedPages);
        totalFreePages := Incremented(totalFreePages);
      }
    }

    method FreePages(address: nat, numberOfPages: nat)
      modifies this, pageMap.buffer
      ensures Model() == FreeRange(old(Model()), PageOf(address), numberOfPages)
    {
      for i := 0 to numberOfPages
        invariant Model() == FreeRange(old(Model()), PageOf(address), i)
      {
        PageOfOffset(address, i);
        FreePage(address + i * PAGE_SIZE);
      }
    }

    /** Hands out the lowest clear page at or above the cursor. The null address stands for
        failure, after a panic, but is also the address of page 0. */
    method RequestPage() returns (address: nat)
      modifies this, pageMap.buffer
      ensures var (s, page) := PageFrames.RequestPage(old(Model()));
              && Model() == s
              && address == (if page.Some? then page.value * PAGE_SIZE else 0)
    {
      ghost var s := Model();
      while firstFreePage < totalPages
        invariant s.cursor <= firstFreePage <= if s.cursor < s.totalPages then s.totalPages else s.cursor
        invariant Model() == s.(cursor := firstFreePage)
        invariant FirstClear(s.bits, s.cursor, s.totalPages) == FirstClear(s.bits, firstFreePage, s.totalPages)
      {
        var locked := pageMap.Test(firstFreePage);
        if locked == false {
          address := firstFreePage * PAGE_SIZE;
          PageOfOffset(0, firstFreePage);
          LockPage(address);
          firstFreePage := firstFreePage + 1;
          return;
        }
        firstFreePage := firstFreePage + 1;
      }
      panicked := true;
      address := 0;
    }

    /** For two pages or more, hands out the lowest run of clear pages at or above the cursor that
        ends below the length of the bitmap in bytes. */
    method RequestPages(numberOfPages: nat) returns (address: nat)
      modifies this, pageMap.buffer
      ensures var (s, page) := PageFrames.RequestPages(old(Model()), numberOfPages);
              && Model() == s
              && address == (if page.Some? then page.value * PAGE_SIZE else 0)
    {
      if numberOfPages == 0 {
        return 0;
      }
      if numberOfPages == 1 {
        address := RequestPage();
        return;
      }
      if numberOfPages > totalFreePages {
        return 0;
      }
      if numberOfPages > maxFreePagesInARow {
        return 0;
      }
      var found, first, atEnd := FindRun(numberOfPages);
      if found {
        address := first * PAGE_SIZE;
        RequestPagesFinds(Model(), numberOfPages, first);
        PageOfOffset(0, first);
        LockPages(address, numberOfPages);
        return;
      }
      RequestPagesFails(Model(), numberOfPages);
      if atEnd {
        panicked := true;
      }
      address := 0;
    }

    /** The search of `RequestPages`. After a run that was cut short by a locked page it goes on
        behind that page; `atEnd` tells that a run was cut short by the end of the bitmap. */
    method FindRun(numberOfPages: nat) returns (found: bool, first: nat, atEnd: bool)
      requires numberOfPages >= 1
      ensures var (bits, bound) := (Model().bits, SearchBound(Model()));
              && (found ==> LowestCandidate(bits, numberOfPages, bound, firstFreePage, first))
              && (!found ==> NoCandidate(bits, numberOfPages, bound, firstFreePage))
              && (!found ==> atEnd == (firstFreePage < bound && !Get(bits, bound - 1)))
    {
      ghost var bits := Model().bits;
      var bound := pageMap.Length();
      var i := firstFreePage;
      while i < bound
        invariant bits == Model().bits && firstFreePage <= i
        invariant firstFreePage < bound <= i ==> Get(bits, bound - 1)
        invariant forall j :: firstFreePage <= j < i ==> !Candidate(bits, numberOfPages, bound, j)
      {
        var locked := pageMap.Test(i);
        if locked == true {
          i := i + 1;
          continue;
        }
        var index;
        found, index := ScanRun(i, numberOfPages);
        if found {
          return true, i, false;
        }
        assert forall j :: i <= j <= index && index < bound && Candidate(bits, numberOfPages, bound, j) ==> !Get(bits, index);
        if index >= bound {
          return false, 0, true;
        }
        i := index + 1;
      }
      return false, 0, false;
    }

    /** The inner loop of `RequestPages`: from a clear page, either a run that is long enough, or
        the locked page or the end of the bitmap that cuts it short. */
    method ScanRun(first: nat, numberOfPages: nat) returns (found: bool, index: nat)
      requires first < SearchBound(Model()) && !Get(Model().bits, first)
      requires numberOfPages >= 1
      ensures found ==> Candidate(Model().bits, numberOfPages, SearchBound(Model()), first)
      ensures !found ==> first < index <= first + numberOfPages && forall k :: first <= k < index ==> !Get(Model().bits, k)
      ensures !found ==> index == SearchBound(Model())
                         || (index < SearchBound(Model()) && index < first + numberOfPages && Get(Model().bits, index))
    {
      var run := 0;
      var taken := false;
      index := first;
      while !taken
        invariant index == first + run && index < SearchBound(Model()) && run < numberOfPages
        invariant forall k :: first <= k < index ==> !Get(Model().bits, k)
        invariant taken == Get(Model().bits, index)
        decreases SearchBound(Model()) - index
      {
        run := run + 1;
        index := index + 1;
        if index >= pageMap.Length() {
          return false, index;
        }
        if run >= numberOfPages {
          return true, index;
        }
        taken := pageMap.Test(index);
      }
      found := false;
    }

    /** The first loop of `init_physical`: counts all pages and finds the first largest segment of
        conventional memory that passes the test. */
    method CountSegments(segments: seq<Descriptor>) returns (largest: nat, pageCount: nat)
      modifies this`totalPages
      ensures Model() == old(Model()).(totalPages := old(totalPages) + TotalPages(segments))
      ensures (largest, pageCount) == ChosenSegment(segments)
    {
      largest, pageCount := 0, 0;
      assert segments[..|segments|] == segments;
      for i := 0 to |segments|
        invariant Model() == old(Model()).(totalPages := old(totalPages) + TotalPages(segments[..i]))
        invariant (largest, pageCount) == ChosenSegment(segments[..i])
      {
        var d := segments[i];
        assert segments[..i + 1][..i] == segments[..i];
        if d.kind == CONVENTIONAL_MEMORY {
          if d.numPages > pageCount && d.physicalAddress + d.numPages < INITIAL_PAGE_BITMAP_MAX_ADDRESS {
            largest := d.physicalAddress;
            pageCount := d.numPages;
          }
        }
        totalPages := totalPages + d.numPages;
      }
    }

    /** The part of `init_physical` before the page tables: the initial bitmap. */
    method InitInitialBitmap(segments: seq<Descriptor>, initialPageBitmap: array<bv8>, kernel: nat, kernelPages: nat)
      requires initialPageBitmap.Length == INITIAL_PAGE_BITMAP_SIZE
      modifies this, pageMap, initialPageBitmap
      ensures pageMap.buffer == initialPageBitmap
      ensures Model() == InitialState(old(Model()), segments, kernel, kernelPages)
    {
      pageMap.Init(initialPageBitmap);
      LockPages(0, INITIAL_PAGE_BITMAP_PAGE_COUNT);
      FreeConventional(segments);
      LockPages(kernel, kernelPages);
    }

    method FreeConventional(segments: seq<Descriptor>)
      modifies this, pageMap.buffer
      ensures Model() == FreeSegments(old(Model()), segments)
    {
      assert segments[..|segments|] == segments;
      for i := 0 to |segments|
        invariant Model() == FreeSegments(old(Model()), segments[..i])
      {
        assert segments[..i + 1][..i] == segments[..i];
        if segments[i].kind == CONVENTIONAL_MEMORY {
          FreePages(segments[i].physicalAddress, segments[i].numPages);
        }
      }
    }

    /** The part of `init_physical` after the page tables: the bitmap for all of memory, at the
        base address of the largest free segment. */
    method SwapBitmap(segments: seq<Descriptor>, base: nat, memory: array<bv8>, kernel: nat, kernelPages: nat)
      requires memory.Length == FullBitmapSize(totalPages)
      modifies this, pageMap, memory
      ensures pageMap.buffer == memory
      ensures Model() == PageFrames.SwapBitmap(old(Model()), segments, base, kernel, kernelPages)
    {
      InstallFullBitmap(memory);
      ghost var s := old(Model());
      AllLockedEffect(s);
      FreeSegmentsEffect(AllLocked(s), segments);
      FreeAndMeasure(segments);
      assert pageMap.Length() == FullBitmapSize(s.totalPages);
      LockPages(base, pageMap.Length() / PAGE_SIZE + 1);
      LockPages(kernel, kernelPages);
    }

    /** The first steps of `SwapBitmap`: every page of memory is locked in the new bitmap. */
    method InstallFullBitmap(memory: array<bv8>)
      requires memory.Length == FullBitmapSize(totalPages)
      modifies this, pageMap, memory
      ensures pageMap.buffer == memory
      ensures Model() == AllLocked(old(Model()))
    {
      pageMap.Init(memory);
      totalUsedPages := 0;
      LockPages(0, totalPages + 1);
      totalFreePages := 0;
    }

    method FreeAndMeasure(segments: seq<Descriptor>)
      modifies this, pageMap.buffer
      ensures Model() == FreeSegments(old(Model()), segments).(maxRun := LargestSegment(segments, old(Model()).maxRun))
    {
      assert segments[..|segments|] == segments;
      for i := 0 to |segments|
        invariant Model() == FreeSegments(old(Model()), segments[..i])
                             .(maxRun := LargestSegment(segments[..i], old(Model()).maxRun))
      {
        assert segments[..i + 1][..i] == segments[..i];
        if segments[i].kind == CONVENTIONAL_MEMORY {
          FreeRangeMaxRun(FreeSegments(old(Model()), segments[..i]), PageOf(segments[i].physicalAddress),
                          segments[i].numPages, maxFreePagesInARow);
          FreePages(segments[i].physicalAddress, segments[i].numPages);
          if segments[i].numPages > maxFreePagesInARow {
            maxFreePagesInARow := segments[i].numPages;
          }
        }
      }
    }
  }

  function TotalPages(segments: seq<Descriptor>): nat {
    if segments == [] then 0 else TotalPages(segments[..|segments| - 1]) + segments[|segments| - 1].numPages
  }

  /** It counts the pages of all segments, wherever they stand in the list. */
  lemma {:induction false} TotalPagesOfBoth(a: seq<Descriptor>, b: seq<Descriptor>)
    ensures TotalPages(a + b) == TotalPages(a) + TotalPages(b)
    ensures forall d: Descriptor :: TotalPages([d]) == d.numPages
  {
    if b == [] {
      assert a + b == a;
    } else {
      TotalPagesOfBoth(a, b[..|b| - 1]);
      assert (a + b)[..|a + b| - 1] == a + b[..|b| - 1];
    }
  }

  /** The test of `init_physical`, which adds a number of pages to an address. */
  predicate WithinInitialBitmap(d: Descriptor) {
    d.kind == CONVENTIONAL_MEMORY && d.physicalAddress + d.numPages < INITIAL_PAGE_BITMAP_MAX_ADDRESS
  }

  /** The address and the number of pages of the segment that the full bitmap is put in; zero pages if there is none. It
      is a largest one among those that pass the test. */
  function ChosenSegment(segments: seq<Descriptor>): (chosen: (nat, nat))
    ensures forall d :: d in segments && WithinInitialBitmap(d) ==> d.numPages <= chosen.1
    ensures if chosen.1 == 0 then chosen.0 == 0
            else exists d :: d in segments && WithinInitialBitmap(d) && d.physicalAddress == chosen.0 && d.numPages == chosen.1
  {
    if segments == [] then (0, 0)
    else
      var before := ChosenSegment(segments[..|segments| - 1]);
      var last := segments[|segments| - 1];
      if WithinInitialBitmap(last) && last.numPages > before.1 then (last.physicalAddress, last.numPages) else before
  }

  /** The allocator's value once the initial bitmap is in place. */
  function InitialState(s: State, segments: seq<Descriptor>, kernel: nat, kernelPages: nat): State {
    var empty := s.(bits := seq(8 * INITIAL_PAGE_BITMAP_SIZE, i => false));
    var locked := LockRange(empty, 0, INITIAL_PAGE_BITMAP_PAGE_COUNT);
    LockRange(FreeSegments(locked, segments), PageOf(kernel), kernelPages)
  }

  /** In the initial bitmap a page that it covers is clear exactly if it is conventional memory outside the kernel. */
  lemma InitialStateEffect(s: State, segments: seq<Descriptor>, kernel: nat, kernelPages: nat)
    ensures var t := InitialState(s, segments, kernel, kernelPages);
            && |t.bits| == 8 * INITIAL_PAGE_BITMAP_SIZE
            && t.totalPages == s.totalPages && t.cursor == s.cursor && t.panicked == s.panicked
            && forall i :: 0 <= i < INITIAL_PAGE_BITMAP_PAGE_COUNT ==>
                 t.bits[i] == (!Conventional(segments, i) || PageOf(kernel) <= i < PageOf(kernel) + kernelPages)
  {
    var empty := s.(bits := seq(8 * INITIAL_PAGE_BITMAP_SIZE, i => false));
    LockRangeEffect(empty, 0, INITIAL_PAGE_BITMAP_PAGE_COUNT);
    var locked := LockRange(empty, 0, INITIAL_PAGE_BITMAP_PAGE_COUNT);
    FreeSegmentsEffect(locked, segments);
    LockRangeEffect(FreeSegments(locked, segments), PageOf(kernel), kernelPages);
  }
}
