/** What `init_physical` overwrites when it puts the full bitmap at the segment that it found, and when that does no harm
    to page tables. */
module BitmapPlacements {
  import opened Bitmaps
  import opened MappingLoops
  import opened PageAllocators
  import opened PageFrames
  import opened PageTrees
  import opened Paging
  import opened TableDemands
  import opened VirtualMemories
  import opened Wrappers

  // ----- bytes and entries -----

  const ENTRY_SIZE := 8

  function EntryAddress(f: nat, i: nat): nat { f * PAGE_SIZE + i * ENTRY_SIZE }

  /** Some of the `size` bytes at `base` lie in frame `f`. */
  predicate FrameHit(base: nat, size: nat, f: nat) { f * PAGE_SIZE < base + size && base < (f + 1) * PAGE_SIZE }

  predicate EntryHit(base: nat, size: nat, f: nat, i: nat) {
    EntryAddress(f, i) < base + size && base < EntryAddress(f, i) + ENTRY_SIZE
  }

  lemma HitEntry(base: nat, size: nat, f: nat) returns (i: Index)
    requires size > 0 && FrameHit(base, size, f)
    ensures EntryHit(base, size, f, i)
  {
    i := if base <= f * PAGE_SIZE then 0 else (base - f * PAGE_SIZE) / ENTRY_SIZE;
  }

  lemma EntryInFrame(base: nat, size: nat, f: nat, i: Index)
    requires EntryHit(base, size, f, i)
    ensures FrameHit(base, size, f)
  {
  }

  /** Bit `j` of the little-endian word at byte `at`. A bitmap counts the bits of a byte from the other end. */
  predicate WordBit(bytes: seq<bv8>, at: nat, j: nat)
    requires at + ENTRY_SIZE <= |bytes| && j < 64
  {
    TestBit(bytes[at + j / 8], 7 - j % 8)
  }

  /** The number in bits from..from+count-1 of a word. */
  function WordNumber(bytes: seq<bv8>, at: nat, from: nat, count: nat): nat
    requires at + ENTRY_SIZE <= |bytes| && from + count <= 64
    decreases count
  {
    if count == 0 then 0 else (if WordBit(bytes, at, from) then 1 else 0) + 2 * WordNumber(bytes, at, from + 1, count - 1)
  }

  /** The entry that a word of memory is. */
  function EntryOf(bytes: seq<bv8>, at: nat): PageDirectoryEntry
    requires at + ENTRY_SIZE <= |bytes|
  {
    Entry(Flags(WordBit(bytes, at, 0), WordBit(bytes, at, 1), WordBit(bytes, at, 2), WordBit(bytes, at, 3), WordBit(bytes, at, 4),
                WordBit(bytes, at, 5), WordBit(bytes, at, 6), WordBit(bytes, at, 7), WordBit(bytes, at, 8), WordBit(bytes, at, 63)),
          WordNumber(bytes, at, 12, 40) % FRAMES,
          WordNumber(bytes, at, 9, 3) + 8 * WordNumber(bytes, at, 52, 11))
  }

  // ----- what is overwritten -----

  /** Memory in which the entries that the `size` bytes at `base` reach into are those of `content`. */
  function Overwritten(ram: Ram, base: nat, size: nat, content: Ram): (after: Ram)
    ensures forall f: Frame, i: Index :: after[f][i] == if EntryHit(base, size, f, i) then content[f][i] else ram[f][i]
  {
    seq(FRAMES, (f: nat) requires f < FRAMES => OverwrittenTable(ram[f], base, size, content[f], f))
  }

  function OverwrittenTable(table: Table, base: nat, size: nat, content: Table, f: nat): Table {
    seq(512, (i: nat) requires i < 512 => if EntryHit(base, size, f, i) then content[i] else table[i])
  }

  /** Memory once the bitmap `bytes` is in place at `base`. What becomes of an entry of which it covers only a part, at
      either end, is taken from `edges`. */
  function WithBitmap(ram: Ram, base: nat, bytes: seq<bv8>, edges: Ram): (after: Ram)
    ensures forall f: Frame, i: Index :: after[f][i] == BitmapEntry(ram[f][i], base, bytes, edges[f][i], EntryAddress(f, i))
  {
    seq(FRAMES, (f: nat) requires f < FRAMES => TableWithBitmap(ram[f], base, bytes, edges[f], f))
  }

  function TableWithBitmap(table: Table, base: nat, bytes: seq<bv8>, edges: Table, f: nat): Table {
    seq(512, (i: nat) requires i < 512 => BitmapEntry(table[i], base, bytes, edges[i], EntryAddress(f, i)))
  }

  function BitmapEntry(e: PageDirectoryEntry, base: nat, bytes: seq<bv8>, edge: PageDirectoryEntry, address: nat): PageDirectoryEntry {
    if address >= base + |bytes| || base >= address + ENTRY_SIZE then e
    else if base <= address && address + ENTRY_SIZE <= base + |bytes| then EntryOf(bytes, address - base)
    else edge
  }

  lemma SameRam(a: Ram, b: Ram)
    requires forall f: Frame, i: Index :: a[f][i] == b[f][i]
    ensures a == b
  {
    forall f: Frame
      ensures a[f] == b[f]
    {
      assert forall i: Index :: a[f][i] == b[f][i];
    }
  }

  /** Putting the bitmap in place overwrites what it covers and nothing else. */
  lemma BitmapOverwrites(ram: Ram, base: nat, bytes: seq<bv8>, edges: Ram, content: Ram)
    ensures var after := WithBitmap(ram, base, bytes, edges);
            && Overwritten(ram, base, |bytes|, after) == after
            && Overwritten(after, base, |bytes|, content) == Overwritten(ram, base, |bytes|, content)
  {
    var after := WithBitmap(ram, base, bytes, edges);
    SameRam(Overwritten(ram, base, |bytes|, after), after);
    SameRam(Overwritten(after, base, |bytes|, content), Overwritten(ram, base, |bytes|, content));
  }

  // ----- the map that the mapping loop has made -----

  function Min(a: nat, b: nat): nat { if a < b then a else b }

  /** The number of pages that `init_physical` maps. */
  function LowPages(totalPages: nat): nat { Min(totalPages, INITIAL_PAGE_BITMAP_PAGE_COUNT) }

  /** The first `n` pages are mapped to themselves and can be written; every other page is as in `ram0`. */
  ghost predicate LowMapped(ram0: Ram, ram: Ram, s: State, root: Frame, n: nat)
    requires n <= INITIAL_PAGE_BITMAP_PAGE_COUNT
  {
    && OwnedIn(ram, s, root)
    && forall q: Path :: |q| == 4 ==> LowLeaf(ram0, ram, root, n, q)
  }

  ghost predicate LowLeaf(ram0: Ram, ram: Ram, root: Frame, n: nat, q: Path)
    requires n <= INITIAL_PAGE_BITMAP_PAGE_COUNT && |q| == 4
  {
    if PageOfPath(q) < n then MappedFrom(ram0, ram, root, q, PageOfPath(q)) else SameLeaf(ram0, ram, root, q)
  }

  lemma LowMappedFromRounds(ram0: Ram, s: State, ram: Ram, t: State, root: Frame, n: nat)
    requires n <= INITIAL_PAGE_BITMAP_PAGE_COUNT
    requires MappedRounds(ram0, s, ram, t, root, LoopPaths(0, n), LoopPages(0, n), READ_WRITE_GLOBAL, n)
    ensures Kept(ram0, s, ram, t, root) && LowMapped(ram0, ram, t, root, n)
  {
    RoundsOwned(ram0, s, ram, t, root, LoopPaths(0, n), LoopPages(0, n), READ_WRITE_GLOBAL, n);
    forall q: Path | |q| == 4
      ensures LowLeaf(ram0, ram, root, n, q)
    {
      LowLeafFromRounds(ram0, s, ram, t, root, n, LoopPages(0, n), q);
    }
  }

  lemma LowLeafFromRounds(ram0: Ram, s: State, ram: Ram, t: State, root: Frame, n: nat, pages: seq<Frame>, q: Path)
    requires n <= INITIAL_PAGE_BITMAP_PAGE_COUNT && pages == LoopPages(0, n) && |q| == 4
    requires MappedRounds(ram0, s, ram, t, root, LoopPaths(0, n), pages, READ_WRITE_GLOBAL, n)
    ensures LowLeaf(ram0, ram, root, n, q)
  {
    PathNumbers(0, n, 0);
    RoundsLeaf(ram0, s, ram, t, root, LoopPaths(0, n), pages, READ_WRITE_GLOBAL, 0, q);
    LowPageFrames(n, pages);
  }

  lemma LowPageFrames(n: nat, pages: seq<Frame>)
    requires n <= INITIAL_PAGE_BITMAP_PAGE_COUNT && pages == LoopPages(0, n)
    ensures forall u :: 0 <= u < n ==> pages[u] == u
  {
    forall u | 0 <= u < n
      ensures pages[u] == u
    {
      PageNumber(0, u);
      assert pages[u] == FrameOf(PageAt(0, u));
    }
  }

  // ----- whatever is written into the bitmap, the map is right if and only if no table is hit -----

  ghost predicate TablesSpared(ram: Ram, root: Frame, base: nat, size: nat) {
    forall f: Frame :: IsTable(ram, root, f) ==> !FrameHit(base, size, f)
  }

  lemma SparedTable(ram: Ram, f: Frame, base: nat, size: nat, content: Ram)
    requires !FrameHit(base, size, f)
    ensures Overwritten(ram, base, size, content)[f] == ram[f]
  {
    var after := Overwritten(ram, base, size, content);
    forall i: Index
      ensures after[f][i] == ram[f][i]
    {
      if EntryHit(base, size, f, i) {
        EntryInFrame(base, size, f, i);
      }
    }
  }

  lemma SparedStaysMapped(ram0: Ram, ram: Ram, s: State, root: Frame, n: nat, base: nat, size: nat, content: Ram)
    requires n <= INITIAL_PAGE_BITMAP_PAGE_COUNT && LowMapped(ram0, ram, s, root, n) && TablesSpared(ram, root, base, size)
    ensures LowMapped(ram0, Overwritten(ram, base, size, content), s, root, n)
  {
    var after := Overwritten(ram, base, size, content);
    forall f: Frame | IsTable(ram, root, f)
      ensures after[f] == ram[f]
    {
      SparedTable(ram, f, base, size, content);
    }
    SameTablesSameLeaves(ram, after, s, root);
    forall q: Path | |q| == 4
      ensures LowLeaf(ram0, after, root, n, q)
    {
      assert LowLeaf(ram0, ram, root, n, q) && SameLeaf(ram, after, root, q);
    }
  }

  lemma RootOnce(ram: Ram, root: Frame, p: Path)
    requires Tree(ram, root) && IsTablePath(p) && Walk(ram, root, p) == Some(root)
    ensures p == []
  {
    var none: Path := [];
    assert IsTablePath(none) && Walk(ram, root, none) == Some(root);
  }

  /** If a table is hit, then there is something to write that breaks the map: above the last level an entry that leads
      back to the root, on the last level one that differs in being present. */
  lemma HitBreaks(ram0: Ram, ram: Ram, s: State, root: Frame, n: nat, base: nat, size: nat, f: Frame) returns (content: Ram)
    requires n <= INITIAL_PAGE_BITMAP_PAGE_COUNT && LowMapped(ram0, ram, s, root, n)
    requires size > 0 && IsTable(ram, root, f) && FrameHit(base, size, f)
    ensures !LowMapped(ram0, Overwritten(ram, base, size, content), s, root, n)
  {
    var i := HitEntry(base, size, f);
    var p: Path :| IsTablePath(p) && Walk(ram, root, p) == Some(f);
    var toRoot := Entry(NO_FLAGS.With(Present, true), root, 0);
    var e := if |p| == 3 && Walk(ram, root, p + [i]).Some? then ZERO_ENTRY else toRoot;
    content := WriteEntry(ram, f, i, e);
    SameRam(Overwritten(ram, base, size, content), content);
    WriteEntryStep(ram, root, p, f, i, e);
    if |p| < 3 && LowMapped(ram0, content, s, root, n) {
      RootOnce(content, root, p + [i]);
    }
  }

  lemma SparedOrBroken(ram0: Ram, ram: Ram, s: State, root: Frame, n: nat, base: nat, size: nat)
    requires n <= INITIAL_PAGE_BITMAP_PAGE_COUNT && LowMapped(ram0, ram, s, root, n) && size > 0
    ensures TablesSpared(ram, root, base, size)
            <==> forall content: Ram :: LowMapped(ram0, Overwritten(ram, base, size, content), s, root, n)
  {
    if TablesSpared(ram, root, base, size) {
      forall content: Ram
        ensures LowMapped(ram0, Overwritten(ram, base, size, content), s, root, n)
      {
        SparedStaysMapped(ram0, ram, s, root, n, base, size, content);
      }
    } else {
      var f: Frame :| IsTable(ram, root, f) && FrameHit(base, size, f);
      var content := HitBreaks(ram0, ram, s, root, n, base, size, f);
    }
  }

  // ----- which tables there will be is settled before the mapping loop -----

  /** How many pages the mapping loop takes. */
  ghost function TablesTaken(ram: Ram, root: Frame, totalPages: nat): nat {
    Demand(ram, root, LoopPaths(0, LowPages(totalPages)), LowPages(totalPages))
  }

  /** Frame `f` will hold a table: it does already, or it is among the pages that the loop takes. */
  ghost predicate TableAfter(ram: Ram, s: State, root: Frame, f: Frame) {
    IsTable(ram, root, f) || (!Held(s, f) && Held(Requested(s, TablesTaken(ram, root, s.totalPages)), f))
  }

  lemma TablesSettled(ram: Ram, s: State, after: Ram, t: State, root: Frame, f: Frame)
    requires var n := LowPages(s.totalPages);
             MappedRounds(ram, s, after, t, root, LoopPaths(0, n), LoopPages(0, n), READ_WRITE_GLOBAL, n)
    ensures IsTable(after, root, f) <==> TableAfter(ram, s, root, f)
  {
    var n := LowPages(s.totalPages);
    MappedRoundsMean(ram, s, after, t, root, LoopPaths(0, n), LoopPages(0, n), READ_WRITE_GLOBAL, n);
    if IsTable(ram, root, f) {
      var q: Path :| IsTablePath(q) && Walk(ram, root, q) == Some(f);
      assert Walk(after, root, q) == Some(f);
    }
  }

  // ----- the loop never needs more than 34 pages -----

  const MOST_TABLES := 34  // two upper tables, and one for each 512 of the low pages

  function LowPath(i: nat): (path: Path)
    ensures |path| == 4
  {
    Indices(PageAt(0, i))
  }

  /** The beginnings of the paths of low pages: all are the same on the upper two levels, and those of 512 pages on
      the third. */
  lemma LowPathStarts(i: nat)
    requires i < INITIAL_PAGE_BITMAP_PAGE_COUNT
    ensures LowPath(i)[..3] == [0, 0, i / 0x200] && LowPath(i) == [0, 0, i / 0x200, i % 0x200]
  {
    FourIndices(i);
    assert PageAt(0, i) / 0x1000 == i;
    assert LowPath(i) == [0] + [0] + [i / 0x200] + [i % 0x200];
  }

  /** What page `i` lacks after the pages before it: nothing within a group of 512, and one table at its beginning, but
      three in the very beginning. */
  lemma NewForPage(ram: Ram, root: Frame, n: nat, i: nat)
    requires i < n <= INITIAL_PAGE_BITMAP_PAGE_COUNT
    ensures NewTables(ram, root, LoopPaths(0, n), i, LoopPaths(0, n)[i][..3])
            <= if i == 0 then 3 else if i % 0x200 == 0 then 1 else 0
  {
    var paths := LoopPaths(0, n);
    var path: Path := [0, 0, i / 0x200];
    assert paths[i] == LowPath(i);
    LowPathStarts(i);
    var two: Path := [0, 0];
    var one: Path := [0];
    var none: Path := [];
    assert path[..2] == two && two[..1] == one && one[..0] == none;
    if i > 0 {
      assert paths[0] == LowPath(0);
      LowPathStarts(0);
      assert one <= paths[0] && two <= paths[0];
      assert OnPaths(one, paths, i) && OnPaths(two, paths, i);
      if i % 0x200 != 0 {
        assert paths[i - 1] == LowPath(i - 1);
        LowPathStarts(i - 1);
        assert (i - 1) / 0x200 == i / 0x200;
        assert path <= paths[i - 1];
        assert OnPaths(path, paths, i);
      }
    }
    assert NewTables(ram, root, paths, i, none) == 0;
    assert NewTables(ram, root, paths, i, one) <= if i > 0 then 0 else 1;
    assert NewTables(ram, root, paths, i, two) <= if i > 0 then 0 else 2;
  }

  lemma {:induction false} DemandOfLowPages(ram: Ram, root: Frame, n: nat, count: nat)
    requires count <= n <= INITIAL_PAGE_BITMAP_PAGE_COUNT
    ensures Demand(ram, root, LoopPaths(0, n), count) <= if count == 0 then 0 else (count - 1) / 0x200 + 3
  {
    if count > 0 {
      DemandOfLowPages(ram, root, n, count - 1);
      NewForPage(ram, root, n, count - 1);
    }
  }

  lemma FewTablesTaken(ram: Ram, root: Frame, totalPages: nat)
    ensures TablesTaken(ram, root, totalPages) <= MOST_TABLES
  {
    DemandOfLowPages(ram, root, LowPages(totalPages), LowPages(totalPages));
  }

  /** No table will be where the bitmap is put. */
  ghost predicate Harmless(ram: Ram, s: State, root: Frame, base: nat) {
    forall f: Frame :: FrameHit(base, FullBitmapSize(s.totalPages), f) ==> !TableAfter(ram, s, root, f)
  }

  // ----- the segment that was chosen -----

  /** The bitmap lies inside the segment, and below the limit of what the mapping loop maps. */
  predicate BitmapFits(d: Descriptor, totalPages: nat) {
    && FullBitmapSize(totalPages) <= d.numPages * PAGE_SIZE
    && d.physicalAddress + FullBitmapSize(totalPages) <= INITIAL_PAGE_BITMAP_MAX_ADDRESS
  }

  /** What the test of `init_physical` is meant to find out: every frame that the bitmap reaches into belongs to the
      segment and to the memory that is mapped. The size of the bitmap decides it, which the test does not look at. */
  lemma TestMeetsIntention(d: Descriptor, totalPages: nat)
    requires d.physicalAddress % PAGE_SIZE == 0
    ensures (forall f: nat :: FrameHit(d.physicalAddress, FullBitmapSize(totalPages), f) ==>
               PageOf(d.physicalAddress) <= f < PageOf(d.physicalAddress) + d.numPages && f < INITIAL_PAGE_BITMAP_PAGE_COUNT)
            <==> BitmapFits(d, totalPages)
  {
    var base, size := d.physicalAddress, FullBitmapSize(totalPages);
    var last := PageOf(base + size - 1);
    assert FrameHit(base, size, last);
    if BitmapFits(d, totalPages) {
      forall f: nat | FrameHit(base, size, f)
        ensures PageOf(base) <= f < PageOf(base) + d.numPages && f < INITIAL_PAGE_BITMAP_PAGE_COUNT
      {
        assert base == PageOf(base) * PAGE_SIZE;
      }
    } else {
      assert base == PageOf(base) * PAGE_SIZE;
      assert last * PAGE_SIZE <= base + size - 1 < (last + 1) * PAGE_SIZE;
    }
  }

  /** Segments that pass the test although the bitmap does not fit: of one page, in a memory of 4 GiB, and right below
      64 MiB, in one of 256 MiB. */
  lemma TestOverreaches()
    ensures var d := Descriptor(CONVENTIONAL_MEMORY, 0x1_0000, 1); WithinInitialBitmap(d) && !BitmapFits(d, 0x10_0000)
    ensures var d := Descriptor(CONVENTIONAL_MEMORY, 0x3ff_f000, 0x800); WithinInitialBitmap(d) && !BitmapFits(d, 0x1_0000)
  {
  }

  // ----- the tables that `init_physical` starts with -----

  /** A page that both bitmaps have locked: not conventional memory, or part of the kernel. */
  ghost predicate InUse(segments: seq<Descriptor>, kernelPages: nat, page: nat) {
    !Conventional(segments, page) || InKernel(kernelPages, page)
  }

  predicate InKernel(kernelPages: nat, page: nat) { PageOf(KERNEL_PHYSICAL) <= page < PageOf(KERNEL_PHYSICAL) + kernelPages }

  /** All tables lie in pages that both bitmaps cover and have locked. */
  ghost predicate TablesReserved(ram: Ram, root: Frame, segments: seq<Descriptor>, kernelPages: nat, totalPages: nat) {
    forall f: Frame :: IsTable(ram, root, f) ==>
      f < INITIAL_PAGE_BITMAP_PAGE_COUNT && f <= totalPages && InUse(segments, kernelPages, f)
  }

  /** Under the initial bitmap, a hierarchy of such tables is owned. */
  lemma ReservedTablesOwned(ram: Ram, s: State, root: Frame, segments: seq<Descriptor>, kernelPages: nat)
    requires Tree(ram, root) && TablesReserved(ram, root, segments, kernelPages, s.totalPages)
    ensures OwnedIn(ram, InitialState(s, segments, KERNEL_PHYSICAL, kernelPages), root)
  {
    InitialStateEffect(s, segments, KERNEL_PHYSICAL, kernelPages);
  }

  // ----- in a segment that is large enough -----

  /** The bitmap fits in an aligned segment, and the kernel is elsewhere. */
  ghost predicate WellPlaced(segments: seq<Descriptor>, d: Descriptor, kernelPages: nat, totalPages: nat) {
    && d in segments && d.kind == CONVENTIONAL_MEMORY && d.physicalAddress % PAGE_SIZE == 0 && BitmapFits(d, totalPages)
    && PageOf(d.physicalAddress) < totalPages
    && forall f: nat :: FrameHit(d.physicalAddress, FullBitmapSize(totalPages), f) ==> !InKernel(kernelPages, f)
  }

  /** Then every frame that it reaches into is clear in the initial bitmap. */
  lemma WellPlacedClear(s0: State, segments: seq<Descriptor>, d: Descriptor, kernelPages: nat, f: nat)
    requires WellPlaced(segments, d, kernelPages, s0.totalPages)
    requires FrameHit(d.physicalAddress, FullBitmapSize(s0.totalPages), f)
    ensures PageOf(d.physicalAddress) <= f && !InUse(segments, kernelPages, f)
    ensures !Get(InitialState(s0, segments, KERNEL_PHYSICAL, kernelPages).bits, f)
  {
    TestMeetsIntention(d, s0.totalPages);
    InitialStateEffect(s0, segments, KERNEL_PHYSICAL, kernelPages);
    assert Conventional(segments, f);
  }

  lemma {:induction false} ClearCountGrows(bits: seq<bool>, from: nat, limit: nat, further: nat)
    requires limit <= further
    ensures ClearCount(bits, from, limit) <= ClearCount(bits, from, further)
    decreases further - from
  {
    if from < further {
      ClearCountGrows(bits, from + 1, limit, further);
    }
  }

  /** Then the bitmap does no harm if and only if there are enough clear pages before it for the mapping loop. */
  lemma HarmlessInSegment(ram: Ram, s0: State, root: Frame, segments: seq<Descriptor>, d: Descriptor, kernelPages: nat)
    requires WellPlaced(segments, d, kernelPages, s0.totalPages) && s0.cursor <= PageOf(d.physicalAddress)
    requires TablesReserved(ram, root, segments, kernelPages, s0.totalPages)
    ensures var s := InitialState(s0, segments, KERNEL_PHYSICAL, kernelPages);
            Harmless(ram, s, root, d.physicalAddress)
            <==> TablesTaken(ram, root, s.totalPages) <= ClearCount(s.bits, s.cursor, PageOf(d.physicalAddress))
  {
    var s := InitialState(s0, segments, KERNEL_PHYSICAL, kernelPages);
    var base, first, n := d.physicalAddress, PageOf(d.physicalAddress), TablesTaken(ram, root, s0.totalPages);
    InitialStateEffect(s0, segments, KERNEL_PHYSICAL, kernelPages);
    assert FrameHit(base, FullBitmapSize(s.totalPages), first);
    WellPlacedClear(s0, segments, d, kernelPages, first);
    RequestedReaches(s, n, first);
    if n <= ClearCount(s.bits, s.cursor, first) {
      forall f: Frame | FrameHit(base, FullBitmapSize(s.totalPages), f)
        ensures !TableAfter(ram, s, root, f)
      {
        WellPlacedClear(s0, segments, d, kernelPages, f);
        NotReached(s, n, first, f);
      }
    }
  }

  lemma NotReached(s: State, n: nat, first: nat, f: nat)
    requires s.cursor <= first <= f && !Get(s.bits, f) && n <= ClearCount(s.bits, s.cursor, first)
    ensures !Held(s, f) && !Held(Requested(s, n), f)
  {
    RequestedHolds(s, n);
    if f < s.totalPages {
      ClearCountGrows(s.bits, s.cursor, first, f);
      RequestedReaches(s, n, f);
    }
  }
}
