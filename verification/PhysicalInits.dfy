/** `init_physical` of kernel/memory/physical_memory_manager.cc: the initial bitmap, the map of low memory made under it,
    and the full bitmap, which is written into memory. */
module PhysicalInits {
  import opened BitmapPlacements
  import opened Bitmaps
  import opened MappingLoops
  import opened PageAllocators
  import opened PageFrames
  import opened PageTrees
  import opened Paging
  import opened TableDemands
  import opened VirtualMemories
  import opened Wrappers

  /** The allocator when the mapping loop begins. */
  function StateBefore(s: State, segments: seq<Descriptor>, kernelPages: nat): State {
    InitialState(s.(totalPages := s.totalPages + TotalPages(segments)), segments, KERNEL_PHYSICAL, kernelPages)
  }

  /** The full bitmap: a page is clear exactly if it is conventional memory outside the bitmap and the kernel. */
  ghost predicate FullBitmap(t: State, segments: seq<Descriptor>, base: nat, kernelPages: nat) {
    var size := FullBitmapSize(t.totalPages);
    && |t.bits| == 8 * size
    && forall i :: 0 <= i <= t.totalPages ==>
         t.bits[i] == (InUse(segments, kernelPages, i) || PageOf(base) <= i < PageOf(base) + PageOf(size) + 1)
  }

  /** What `init_physical` leaves behind, (ram, s) being the state in which the mapping loop began: `mapped` is memory once
      low memory is mapped, `after` what it is with the bitmap in place, and `t` the allocator. */
  ghost predicate Initialised(ram: Ram, s: State, root: Frame, segments: seq<Descriptor>, kernelPages: nat,
                              mapped: Ram, after: Ram, t: State, bytes: seq<bv8>, edges: Ram) {
    var base := ChosenSegment(segments).0;
    && LowMapped(ram, mapped, t, root, LowPages(s.totalPages))
    && (forall f: Frame :: IsTable(mapped, root, f) <==> TableAfter(ram, s, root, f))
    && t.totalPages == s.totalPages && FullBitmap(t, segments, base, kernelPages) && t.bits == BitsOf(bytes)
    && after == WithBitmap(mapped, base, bytes, edges)
  }

  /** The low pages are mapped to themselves and nothing else has changed, whatever the bytes of the bitmap are. */
  ghost predicate RightWhateverTheBitmapHolds(ram: Ram, after: Ram, t: State, root: Frame, base: nat) {
    forall content: Ram ::
      LowMapped(ram, Overwritten(after, base, FullBitmapSize(t.totalPages), content), t, root, LowPages(t.totalPages))
  }

  /** The result for a tree of reserved tables. Unless there are not enough pages for the missing ones, the low pages are
      mapped when the bitmap is written, and they still are afterwards, whatever the bytes of the bitmap, if and only if it
      is harmless to put it there. */
  ghost predicate MapsLowMemory(ram: Ram, s: State, root: Frame, segments: seq<Descriptor>, kernelPages: nat,
                                mapped: Ram, after: Ram, t: State, bytes: seq<bv8>, edges: Ram) {
    var base := ChosenSegment(segments).0;
    root != 0 && Tree(ram, root) && TablesReserved(ram, root, segments, kernelPages, s.totalPages) ==>
      && (t.panicked <==> s.panicked || TablesTaken(ram, root, s.totalPages) > FreePages(s))
      && (TablesTaken(ram, root, s.totalPages) <= FreePages(s) ==>
            && Initialised(ram, s, root, segments, kernelPages, mapped, after, t, bytes, edges)
            && (Harmless(ram, s, root, base) <==> RightWhateverTheBitmapHolds(ram, after, t, root, base))
            && (Harmless(ram, s, root, base) ==> LowMapped(ram, after, t, root, LowPages(t.totalPages))))
  }

  /** The map is right in the end, whatever the bytes of the bitmap are, if and only if there is no table where the bitmap
      is put. That can be checked before the mapping loop begins. */
  lemma RightIfHarmless(ram: Ram, s: State, root: Frame, segments: seq<Descriptor>, kernelPages: nat,
                        mapped: Ram, after: Ram, t: State, bytes: seq<bv8>, edges: Ram)
    requires Initialised(ram, s, root, segments, kernelPages, mapped, after, t, bytes, edges)
    ensures var base := ChosenSegment(segments).0;
            && (Harmless(ram, s, root, base) <==> RightWhateverTheBitmapHolds(ram, after, t, root, base))
            && (Harmless(ram, s, root, base) ==> LowMapped(ram, after, t, root, LowPages(t.totalPages)))
  {
    var base, size, n := ChosenSegment(segments).0, FullBitmapSize(s.totalPages), LowPages(s.totalPages);
    assert |bytes| == size;
    forall content: Ram
      ensures Overwritten(after, base, size, content) == Overwritten(mapped, base, size, content)
      ensures Overwritten(mapped, base, size, after) == after
    {
      BitmapOverwrites(mapped, base, bytes, edges, content);
    }
    assert Harmless(ram, s, root, base) <==> TablesSpared(mapped, root, base, size);
    SparedOrBroken(ram, mapped, t, root, n, base, size);
    if Harmless(ram, s, root, base) {
      assert LowMapped(ram, Overwritten(after, base, size, after), t, root, n);
    }
  }

  /** The pages of the bitmap are never handed out again, so no table gets there later. */
  lemma BitmapHeld(t: State, segments: seq<Descriptor>, base: nat, kernelPages: nat, f: nat)
    requires FullBitmap(t, segments, base, kernelPages) && base % PAGE_SIZE == 0
    requires FrameHit(base, FullBitmapSize(t.totalPages), f) && f <= t.totalPages
    ensures Held(t, f)
  {
    assert base == PageOf(base) * PAGE_SIZE;
  }

  /** When the bitmap fits, it is written through the map that was just made. */
  lemma BitmapMapped(ram: Ram, mapped: Ram, t: State, root: Frame, d: Descriptor, address: nat)
    requires LowMapped(ram, mapped, t, root, LowPages(t.totalPages)) && BitmapFits(d, t.totalPages)
    requires d.physicalAddress + FullBitmapSize(t.totalPages) <= t.totalPages * PAGE_SIZE
    requires d.physicalAddress <= address < d.physicalAddress + FullBitmapSize(t.totalPages)
    ensures Translate(mapped, root, address) == Some(FrameOf(address))
  {
    IndicesComposePage(address);
    BelowLowPages(address, t.totalPages);
  }

  lemma BelowLowPages(address: nat, totalPages: nat)
    requires address < totalPages * PAGE_SIZE && address < INITIAL_PAGE_BITMAP_MAX_ADDRESS
    ensures VirtualPage(address) == FrameOf(address) == PageOf(address) < LowPages(totalPages)
  {
  }

  /** Installs the initial bitmap, maps low memory to itself in the active page map, and then puts a bitmap for all of
      memory at the segment that was found. Nothing checks that it fits there, or that the mapping loop has not taken
      pages from that segment: the map is right in the end if and only if it is `Harmless` to put the bitmap there. */
  method InitPhysical(vm: VirtualMemory, segments: seq<Descriptor>, kernelBytes: nat,
                      initialPageBitmap: array<bv8>, fullPageBitmap: array<bv8>, edges: Ram)
    returns (ok: bool, ghost mapped: Ram)
    requires vm.alloc.totalPages + TotalPages(segments) <= FRAMES
    requires initialPageBitmap.Length == INITIAL_PAGE_BITMAP_SIZE
    requires fullPageBitmap.Length == FullBitmapSize(vm.alloc.totalPages + TotalPages(segments))
    modifies vm`ram, vm`activePageMap, vm.alloc, vm.alloc.pageMap, initialPageBitmap, fullPageBitmap
    ensures vm.Valid() && vm.alloc.totalPages == old(vm.alloc.totalPages) + TotalPages(segments)
    ensures ok <==> ChosenSegment(segments).0 != 0 && ChosenSegment(segments).1 != 0
    ensures ok ==> Counted(vm.Pages(), vm.alloc.totalPages + 1) && old(vm.Pages()).cursor <= vm.Pages().cursor
    ensures ok ==> vm.activePageMap == if old(vm.activePageMap) == 0 then vm.cr3 else old(vm.activePageMap)
    ensures ok ==>
              var s := StateBefore(old(vm.Pages()), segments, kernelBytes / PAGE_SIZE);
              MapsLowMemory(old(vm.ram), s, vm.activePageMap, segments, kernelBytes / PAGE_SIZE,
                            mapped, vm.ram, vm.Pages(), fullPageBitmap[..], edges)
  {
    mapped := vm.ram;
    var largest, pageCount := vm.alloc.CountSegments(segments);
    if largest == 0 || pageCount == 0 {
      return false, mapped;
    }
    ghost var s0, before := vm.Pages(), StateBefore(old(vm.Pages()), segments, kernelBytes / PAGE_SIZE);
    ghost var s, t;
    s, mapped, t := InitTables(vm, segments, largest, kernelBytes / PAGE_SIZE, initialPageBitmap, fullPageBitmap, edges);
    ok := true;
    assert s == before;
    AllInitialised(old(vm.ram), s0, before, vm.activePageMap, segments, kernelBytes / PAGE_SIZE, mapped, t, vm.ram, vm.Pages(),
                   fullPageBitmap[..], edges);
  }

  /** Everything after the segment has been found. The loop leads from (old(vm.ram), s) to (mapped, t). */
  method InitTables(vm: VirtualMemory, segments: seq<Descriptor>, base: nat, kernelPageCount: nat,
                    initialPageBitmap: array<bv8>, fullPageBitmap: array<bv8>, edges: Ram)
    returns (ghost s: State, ghost mapped: Ram, ghost t: State)
    requires vm.Valid() && initialPageBitmap.Length == INITIAL_PAGE_BITMAP_SIZE
    requires fullPageBitmap.Length == FullBitmapSize(vm.alloc.totalPages)
    modifies vm`ram, vm`activePageMap, vm.alloc, vm.alloc.pageMap, initialPageBitmap, fullPageBitmap
    ensures vm.Valid() && vm.alloc.totalPages == old(vm.alloc.totalPages)
    ensures vm.activePageMap == if old(vm.activePageMap) == 0 then vm.cr3 else old(vm.activePageMap)
    ensures s == InitialState(old(vm.Pages()), segments, KERNEL_PHYSICAL, kernelPageCount) && Progress(s, t)
    ensures s.totalPages == vm.alloc.totalPages && s.cursor == old(vm.Pages()).cursor
    ensures var root, n := vm.activePageMap, LowPages(s.totalPages);
            root != 0 && OwnedIn(old(vm.ram), s, root) ==>
              LoopEffect(old(vm.ram), s, mapped, t, root, LoopPaths(0, n), LoopPages(0, n), READ_WRITE_GLOBAL)
    ensures BitmapPut(t, mapped, vm.Pages(), vm.ram, segments, base, kernelPageCount, fullPageBitmap[..], edges)
  {
    ghost var s0 := vm.Pages();
    vm.alloc.InitInitialBitmap(segments, initialPageBitmap, KERNEL_PHYSICAL, kernelPageCount);
    InitialStateEffect(s0, segments, KERNEL_PHYSICAL, kernelPageCount);
    s := vm.Pages();
    var activePML4 := vm.ActivePageMap();
    MapLowMemory(vm, activePML4);
    mapped, t := vm.ram, vm.Pages();
    PutFullBitmap(vm, segments, base, fullPageBitmap, kernelPageCount, edges);
  }

  /** From (ram, t) to (after, swapped) the bitmap is put in place. */
  ghost predicate BitmapPut(t: State, ram: Ram, swapped: State, after: Ram, segments: seq<Descriptor>, base: nat,
                            kernelPages: nat, bytes: seq<bv8>, edges: Ram) {
    && after == WithBitmap(ram, base, bytes, edges)
    && FullBitmap(swapped, segments, base, kernelPages) && Counted(swapped, swapped.totalPages + 1)
    && swapped.bits == BitsOf(bytes)
    && swapped.totalPages == t.totalPages && swapped.cursor == t.cursor && swapped.panicked == t.panicked
  }

  /** The change of bitmap. */
  method PutFullBitmap(vm: VirtualMemory, segments: seq<Descriptor>, base: nat, fullPageBitmap: array<bv8>,
                       kernelPageCount: nat, edges: Ram)
    requires vm.Valid() && fullPageBitmap.Length == FullBitmapSize(vm.alloc.totalPages)
    modifies vm`ram, vm.alloc, vm.alloc.pageMap, fullPageBitmap
    ensures vm.Valid() && vm.alloc.totalPages == old(vm.alloc.totalPages)
    ensures BitmapPut(old(vm.Pages()), old(vm.ram), vm.Pages(), vm.ram, segments, base, kernelPageCount, fullPageBitmap[..], edges)
  {
    ghost var t := vm.Pages();
    vm.alloc.SwapBitmap(segments, base, fullPageBitmap, KERNEL_PHYSICAL, kernelPageCount);
    vm.ram := WithBitmap(vm.ram, base, fullPageBitmap[..], edges);
    SwapBitmapCounted(t, segments, base, KERNEL_PHYSICAL, kernelPageCount);
    SwapBitmapEffect(t, segments, base, KERNEL_PHYSICAL, kernelPageCount);
  }

  lemma LowRounds(totalPages: nat)
    ensures RoundsOf(0, Min(totalPages * PAGE_SIZE, INITIAL_PAGE_BITMAP_MAX_ADDRESS)) == LowPages(totalPages)
  {
  }

  /** The mapping loop of `init_physical`. */
  method MapLowMemory(vm: VirtualMemory, root: Frame)
    requires vm.Valid()
    modifies vm`ram, vm.alloc, vm.alloc.pageMap.buffer
    ensures vm.Valid() && Progress(old(vm.Pages()), vm.Pages())
    ensures root != 0 && old(vm.Owned(root)) ==>
              var n := LowPages(vm.alloc.totalPages);
              LoopEffect(old(vm.ram), old(vm.Pages()), vm.ram, vm.Pages(), root, LoopPaths(0, n), LoopPages(0, n), READ_WRITE_GLOBAL)
  {
    ghost var ram, s, n := vm.ram, vm.Pages(), LowPages(vm.alloc.totalPages);
    LowRounds(vm.alloc.totalPages);
    var end := Min(vm.alloc.totalPages * PAGE_SIZE, INITIAL_PAGE_BITMAP_MAX_ADDRESS);
    ghost var ram1, s1 := MapRange(vm, root, 0, 0, end, READ_WRITE_GLOBAL, 0);
    RoundsProgress(LoopOf(root, 0, 0, end, READ_WRITE_GLOBAL, 0), ram, s, ram1, s1, vm.ram, vm.Pages());
    if root != 0 {
      WholeRangeDone(root, 0, 0, end, READ_WRITE_GLOBAL, n, ram, s, ram1, s1, vm.ram, vm.Pages(), LoopPaths(0, n), LoopPages(0, n));
    }
  }

  /** Page tables remain held across the change of bitmap: they were reserved, or they lie below the cursor. */
  lemma TablesStayHeld(ram: Ram, s: State, after: Ram, t: State, swapped: State, root: Frame, segments: seq<Descriptor>,
                       base: nat, kernelPages: nat)
    requires OwnedIn(ram, s, root) && Kept(ram, s, after, t, root) && Progress(s, t)
    requires TablesReserved(ram, root, segments, kernelPages, t.totalPages)
    requires swapped.cursor == t.cursor && swapped.totalPages == t.totalPages && FullBitmap(swapped, segments, base, kernelPages)
    ensures OwnedIn(after, swapped, root)
  {
  }

  lemma AllInitialised(ram: Ram, s0: State, s: State, root: Frame, segments: seq<Descriptor>, kernelPages: nat,
                       mapped: Ram, t: State, after: Ram, swapped: State, bytes: seq<bv8>, edges: Ram)
    requires s == InitialState(s0, segments, KERNEL_PHYSICAL, kernelPages) && s.totalPages == s0.totalPages && Progress(s, t)
    requires var n := LowPages(s.totalPages);
             root != 0 && OwnedIn(ram, s, root) ==>
               LoopEffect(ram, s, mapped, t, root, LoopPaths(0, n), LoopPages(0, n), READ_WRITE_GLOBAL)
    requires BitmapPut(t, mapped, swapped, after, segments, ChosenSegment(segments).0, kernelPages, bytes, edges)
    ensures MapsLowMemory(ram, s, root, segments, kernelPages, mapped, after, swapped, bytes, edges)
  {
    if root != 0 && Tree(ram, root) && TablesReserved(ram, root, segments, kernelPages, s.totalPages) {
      var n := LowPages(s.totalPages);
      ReservedTablesOwned(ram, s0, root, segments, kernelPages);
      RunEffectMeans(ram, s, mapped, t, root, LoopPaths(0, n), LoopPages(0, n), READ_WRITE_GLOBAL, n);
      if TablesTaken(ram, root, s.totalPages) <= FreePages(s) {
        RoundsInitialised(ram, s, root, segments, kernelPages, mapped, t, after, swapped, bytes, edges);
        RightIfHarmless(ram, s, root, segments, kernelPages, mapped, after, swapped, bytes, edges);
      }
    }
  }

  lemma RoundsInitialised(ram: Ram, s: State, root: Frame, segments: seq<Descriptor>, kernelPages: nat,
                          mapped: Ram, t: State, after: Ram, swapped: State, bytes: seq<bv8>, edges: Ram)
    requires OwnedIn(ram, s, root) && Progress(s, t) && TablesReserved(ram, root, segments, kernelPages, s.totalPages)
    requires var n := LowPages(s.totalPages);
             MappedRounds(ram, s, mapped, t, root, LoopPaths(0, n), LoopPages(0, n), READ_WRITE_GLOBAL, n)
    requires BitmapPut(t, mapped, swapped, after, segments, ChosenSegment(segments).0, kernelPages, bytes, edges)
    ensures Initialised(ram, s, root, segments, kernelPages, mapped, after, swapped, bytes, edges)
  {
    LowMappedFromRounds(ram, s, mapped, t, root, LowPages(s.totalPages));
    TablesStayHeld(ram, s, mapped, t, swapped, root, segments, ChosenSegment(segments).0, kernelPages);
    forall f: Frame
      ensures IsTable(mapped, root, f) <==> TableAfter(ram, s, root, f)
    {
      TablesSettled(ram, s, mapped, t, root, f);
    }
  }
}
