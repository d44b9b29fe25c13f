/** Two machines on which `init_physical` overwrites its own page tables with the full bitmap. */
module BitmapCollisions {
  import opened BitmapPlacements
  import opened Bitmaps
  import opened MappingLoops
  import opened PageAllocators
  import opened PageFrames
  import opened PageTrees
  import opened Paging
  import opened PhysicalInits
  import opened TableDemands
  import opened Wrappers

  // ----- entries that are pieces of a bitmap -----

  lemma WordBitIs(bytes: seq<bv8>, at: nat, j: nat)
    requires at + ENTRY_SIZE <= |bytes| && j < 64
    ensures WordBit(bytes, at, j) == BitsOf(bytes)[8 * at + 8 * (j / 8) + 7 - j % 8]
  {
    var i := 8 * at + 8 * (j / 8) + 7 - j % 8;
    assert BitsOf(bytes)[i] == BitAt(bytes, i);
    assert i / 8 == at + j / 8 && i % 8 == 7 - j % 8;
  }

  lemma {:induction false} SameNumber(bytes: seq<bv8>, at: nat, other: nat, from: nat, count: nat)
    requires at + ENTRY_SIZE <= |bytes| && other + ENTRY_SIZE <= |bytes| && from + count <= 64
    requires forall j :: 0 <= j < 64 ==> WordBit(bytes, at, j) == WordBit(bytes, other, j)
    ensures WordNumber(bytes, at, from, count) == WordNumber(bytes, other, from, count)
    decreases count
  {
    if count > 0 {
      SameNumber(bytes, at, other, from + 1, count - 1);
    }
  }

  lemma SameFrame(bytes: seq<bv8>, at: nat, other: nat)
    requires at + ENTRY_SIZE <= |bytes| && other + ENTRY_SIZE <= |bytes|
    requires (forall j :: 0 <= j < 64 ==> WordBit(bytes, at, j)) && (forall j :: 0 <= j < 64 ==> WordBit(bytes, other, j))
    ensures EntryOf(bytes, at).frame == EntryOf(bytes, other).frame
    ensures EntryOf(bytes, at).flags.present && EntryOf(bytes, other).flags.present
  {
    SameNumber(bytes, at, other, 12, 40);
  }

  lemma LockedWord(bytes: seq<bv8>, at: nat)
    requires at + ENTRY_SIZE <= |bytes| && forall i :: 8 * at <= i < 8 * at + 64 ==> BitsOf(bytes)[i]
    ensures forall j :: 0 <= j < 64 ==> WordBit(bytes, at, j)
  {
    forall j | 0 <= j < 64
      ensures WordBit(bytes, at, j)
    {
      WordBitIs(bytes, at, j);
    }
  }

  lemma Odd(bytes: seq<bv8>, at: nat, from: nat, count: nat)
    requires at + ENTRY_SIZE <= |bytes| && from + count <= 64 && count > 0 && WordBit(bytes, at, from)
    ensures WordNumber(bytes, at, from, count) % 2 == 1
  {
    var rest := WordNumber(bytes, at, from + 1, count - 1);
    assert WordNumber(bytes, at, from, count) == 1 + 2 * rest;
    Parity(1 + 2 * rest, 1, rest);
  }

  /** Where the first twelve pages are locked, the first entry is present, leads to a large page, and to an odd frame. */
  lemma FirstEntry(bytes: seq<bv8>)
    requires ENTRY_SIZE <= |bytes| && forall i :: 0 <= i < 12 ==> BitsOf(bytes)[i]
    ensures var e := EntryOf(bytes, 0); e.flags.present && e.flags.largerPages && e.frame % 2 == 1
  {
    WordBitIs(bytes, 0, 0);
    WordBitIs(bytes, 0, 7);
    WordBitIs(bytes, 0, 12);
    Odd(bytes, 0, 12, 40);
    OddFrame(WordNumber(bytes, 0, 12, 40));
  }

  lemma OddFrame(x: nat)
    requires x % 2 == 1
    ensures x % FRAMES % 2 == 1
  {
    var q, r := x / FRAMES, x % FRAMES;
    Parity(x, r, q * 0x80_0000_0000);
  }

  lemma Parity(x: nat, r: nat, k: nat)
    requires x == 2 * k + r
    ensures x % 2 == r % 2
  {
  }

  // ----- empty roots -----

  /** A root without present entries, in use before the kernel starts. */
  ghost predicate EmptyRoot(ram: Ram, root: Frame) { forall i: Index :: !ram[root][i].flags.present }

  lemma EmptyRootTables(ram: Ram, root: Frame)
    requires EmptyRoot(ram, root)
    ensures Tree(ram, root) && forall f: Frame :: IsTable(ram, root, f) <==> f == root
    ensures forall p: Path :: Walk(ram, root, p) == if p == [] then Some(root) else None
  {
    forall p: Path
      ensures Walk(ram, root, p) == if p == [] then Some(root) else None
    {
      assert p != [] ==> !ram[root][p[0]].flags.present;
    }
    var none: Path := [];
    assert IsTablePath(none) && Walk(ram, root, none) == Some(root);
  }

  lemma {:induction false} NewTablesSome(ram: Ram, root: Frame, paths: seq<Path>, path: Path)
    requires path != [] && Walk(ram, root, path[..1]).None?
    ensures NewTables(ram, root, paths, 0, path) >= 1
    decreases |path|
  {
    if |path| == 1 {
      assert path[..1] == path;
    } else {
      assert path[..|path| - 1][..1] == path[..1];
      NewTablesSome(ram, root, paths, path[..|path| - 1]);
    }
  }

  lemma {:induction false} DemandSome(ram: Ram, root: Frame, paths: seq<Path>, count: nat)
    requires 0 < count <= |paths| && forall i :: 0 <= i < |paths| ==> |paths[i]| == 4
    requires Walk(ram, root, paths[0][..1]).None?
    ensures Demand(ram, root, paths, count) >= 1
    decreases count
  {
    if count == 1 {
      assert paths[0][..3][..1] == paths[0][..1];
      NewTablesSome(ram, root, paths, paths[0][..3]);
    } else {
      DemandSome(ram, root, paths, count - 1);
    }
  }

  /** A change of one table does not change the walk that leads there. */
  lemma {:induction false} WalkToChanged(ram: Ram, root: Frame, p: Path, f: Frame, after: Ram, k: nat)
    requires Tree(ram, root) && IsTablePath(p) && Walk(ram, root, p) == Some(f) && k <= |p|
    requires forall g: Frame :: g != f ==> after[g] == ram[g]
    ensures Walk(after, root, p[..k]) == Walk(ram, root, p[..k])
    decreases k
  {
    if k > 0 {
      var q := p[..k - 1];
      assert p[..k] == q + [p[k - 1]];
      WalkToChanged(ram, root, p, f, after, k - 1);
      WalkAppend(ram, root, q, [p[k - 1]]);
      WalkAppend(after, root, q, [p[k - 1]]);
      WalkPrefix(ram, root, p, k - 1);
      assert IsTablePath(q) && q != p;
    }
  }

  lemma {:induction false} ClearRun(bits: seq<bool>, from: nat, first: nat, count: nat, limit: nat)
    requires from <= first && first + count <= limit && forall j :: first <= j < first + count ==> !Get(bits, j)
    ensures ClearCount(bits, from, limit) >= count
    decreases limit - from
  {
    if from < first {
      ClearRun(bits, from + 1, first, count, limit);
    } else if count > 0 {
      ClearRun(bits, from + 1, first + 1, count - 1, limit);
    }
  }

  /** Where that many clear pages lie in a row, the mapping loop does not run out of pages. */
  lemma EnoughPages(ram: Ram, s: State, root: Frame, first: nat)
    requires s.cursor <= first && first + MOST_TABLES <= s.totalPages
    requires forall j :: first <= j < first + MOST_TABLES ==> !Get(s.bits, j)
    ensures TablesTaken(ram, root, s.totalPages) <= FreePages(s)
  {
    FewTablesTaken(ram, root, s.totalPages);
    ClearRun(s.bits, s.cursor, first, MOST_TABLES, s.totalPages);
  }

  // ----- the first table that is taken -----

  /** 48 MiB of free memory behind 64 KiB in use. */
  const FREE_FROM_64K: seq<Descriptor> := [Descriptor(0, 0, 16), Descriptor(CONVENTIONAL_MEMORY, 0x1_0000, 0x3000)]

  /** A fresh allocator. */
  predicate Fresh(s: State) { s.totalPages == 0 && s.cursor == 0 }

  lemma FreeFrom64K(s: State)
    requires Fresh(s)
    ensures ChosenSegment(FREE_FROM_64K) == (0x1_0000, 0x3000) && TotalPages(FREE_FROM_64K) == 0x3010
    ensures forall i: nat :: Conventional(FREE_FROM_64K, i) <==> 0x10 <= i < 0x3010
    ensures var t := StateBefore(s, FREE_FROM_64K, 64);
            && t.cursor == 0 && t.totalPages == 0x3010
            && (forall i :: 0 <= i < 16 ==> Get(t.bits, i)) && forall i :: 16 <= i < 0x100 ==> !Get(t.bits, i)
  {
    var ds := FREE_FROM_64K;
    assert ds[..1] == [ds[0]] && ds[..1][..0] == [];
    assert ChosenSegment(ds[..1]) == (0, 0) && TotalPages(ds[..1]) == 16;
    assert ds[1] in ds;
    forall i: nat
      ensures Conventional(ds, i) <==> 0x10 <= i < 0x3010
    {
      assert forall d :: d in ds && d.kind == CONVENTIONAL_MEMORY ==> d == ds[1];
    }
    InitialStateEffect(s.(totalPages := 0x3010), ds, KERNEL_PHYSICAL, 64);
  }

  /** The segment at 64 KiB is chosen for the bitmap, but page 16, its first page, is also the first one that the mapping
      loop takes for a table. */
  lemma BitmapOnFirstTable(ram: Ram, s: State)
    requires EmptyRoot(ram, 1) && Fresh(s)
    ensures Tree(ram, 1) && TablesReserved(ram, 1, FREE_FROM_64K, 64, 0x3010)
    ensures TableAfter(ram, StateBefore(s, FREE_FROM_64K, 64), 1, 16)
    ensures !Harmless(ram, StateBefore(s, FREE_FROM_64K, 64), 1, ChosenSegment(FREE_FROM_64K).0)
  {
    FreeFrom64K(s);
    EmptyRootTables(ram, 1);
    var before, n := StateBefore(s, FREE_FROM_64K, 64), LowPages(0x3010);
    DemandSome(ram, 1, LoopPaths(0, n), n);
    RequestedReaches(before, TablesTaken(ram, 1, 0x3010), 16);
    ClearCountSkips(before.bits, 0, 16, 16);
    assert FrameHit(0x1_0000, FullBitmapSize(0x3010), 16);
  }

  /** Memory there with the bitmap in place: page 16 has changed, and its first entry leads to a large page. */
  lemma FirstTableOverwritten(s: State, mapped: Ram, after: Ram, t: State, bytes: seq<bv8>, edges: Ram)
    requires Fresh(s) && t.totalPages == 0x3010 && FullBitmap(t, FREE_FROM_64K, 0x1_0000, 64) && t.bits == BitsOf(bytes)
    requires after == WithBitmap(mapped, 0x1_0000, bytes, edges)
    ensures forall g: Frame :: g != 16 ==> after[g] == mapped[g]
    ensures var e := after[16][0]; e.flags.present && e.flags.largerPages && e.frame % 2 == 1
  {
    FreeFrom64K(s);
    assert |bytes| == 0x603;
    FirstEntry(bytes);
    assert EntryAddress(16, 0) == 0x1_0000;
    forall g: Frame | g != 16
      ensures after[g] == mapped[g]
    {
      forall i: Index
        ensures after[g][i] == mapped[g][i]
      {
        assert EntryAddress(g, i) >= 0x1_1000 || EntryAddress(g, i) + ENTRY_SIZE <= 0x1_0000;
      }
    }
  }

  /** A map with such a table is not right. */
  lemma OddEntryBreaks(ram: Ram, mapped: Ram, after: Ram, s: State, n: nat, p: Path)
    requires EmptyRoot(ram, 1) && n <= INITIAL_PAGE_BITMAP_PAGE_COUNT
    requires Tree(mapped, 1) && IsTablePath(p) && Walk(mapped, 1, p) == Some(16)
    requires forall g: Frame :: g != 16 ==> after[g] == mapped[g]
    requires var e := after[16][0]; e.flags.present && e.flags.largerPages && e.frame % 2 == 1
    ensures !LowMapped(ram, after, s, 1, n)
  {
    WalkToChanged(mapped, 1, p, 16, after, |p|);
    assert p[..|p|] == p;
    EmptyRootTables(ram, 1);
    if |p| == 3 {
      WalkAppend(after, 1, p, [0]);
      PageOfPathAppend(p, 0);
      assert Walk(after, 1, p + [0]) == Some(after[16][0].frame);
    }
  }

  /** So whenever `init_physical` is done on such a machine, the map is broken; there is no panic. */
  lemma FirstTableBroken(ram: Ram, s: State, mapped: Ram, after: Ram, t: State, bytes: seq<bv8>, edges: Ram)
    requires EmptyRoot(ram, 1) && Fresh(s)
    requires MapsLowMemory(ram, StateBefore(s, FREE_FROM_64K, 64), 1, FREE_FROM_64K, 64, mapped, after, t, bytes, edges)
    ensures !LowMapped(ram, after, t, 1, LowPages(t.totalPages)) && t.panicked == s.panicked
  {
    BitmapOnFirstTable(ram, s);
    FreeFrom64K(s);
    EnoughPages(ram, StateBefore(s, FREE_FROM_64K, 64), 1, 16);
    InitialStateEffect(s.(totalPages := 0x3010), FREE_FROM_64K, KERNEL_PHYSICAL, 64);
    FirstTableOverwritten(s, mapped, after, t, bytes, edges);
    assert IsTable(mapped, 1, 16);
    var p: Path :| IsTablePath(p) && Walk(mapped, 1, p) == Some(16);
    OddEntryBreaks(ram, mapped, after, t, LowPages(t.totalPages), p);
  }

  // ----- a bitmap that does not fit -----

  /** One free page, and 4 GiB in use behind it. */
  const ONE_FREE_PAGE: seq<Descriptor> := [Descriptor(CONVENTIONAL_MEMORY, 0x1_0000, 1), Descriptor(0, 0x1_1000, 0x10_0000)]

  lemma OneFreePage()
    ensures ChosenSegment(ONE_FREE_PAGE) == (0x1_0000, 1) && TotalPages(ONE_FREE_PAGE) == 0x10_0001
    ensures forall i: nat :: Conventional(ONE_FREE_PAGE, i) <==> i == 16
  {
    var ds := ONE_FREE_PAGE;
    assert ds[..1] == [ds[0]] && ds[..1][..0] == [];
    assert ChosenSegment(ds[..1]) == (0x1_0000, 1) && TotalPages(ds[..1]) == 1;
    assert ds[0] in ds;
    forall i: nat
      ensures Conventional(ds, i) <==> i == 16
    {
      assert forall d :: d in ds && d.kind == CONVENTIONAL_MEMORY ==> d == ds[0];
    }
  }

  /** The bitmap takes 33 pages. It goes over the root, which lies in the page behind the free one. */
  lemma BitmapOnRoot(ram: Ram, s: State)
    requires EmptyRoot(ram, 17) && Fresh(s)
    ensures Tree(ram, 17) && TablesReserved(ram, 17, ONE_FREE_PAGE, 64, 0x10_0001)
    ensures !Harmless(ram, StateBefore(s, ONE_FREE_PAGE, 64), 17, ChosenSegment(ONE_FREE_PAGE).0)
  {
    OneFreePage();
    EmptyRootTables(ram, 17);
    InitialStateEffect(s.(totalPages := 0x10_0001), ONE_FREE_PAGE, KERNEL_PHYSICAL, 64);
    assert FrameHit(0x1_0000, FullBitmapSize(0x10_0001), 17);
  }

  /** So whenever `init_physical` is done on such a machine, the map is broken: the first two entries of the root lead to the
      same frame. There is no panic, because the initial bitmap counts the pages that it does not cover as clear. */
  lemma RootBroken(ram: Ram, s: State, mapped: Ram, after: Ram, t: State, bytes: seq<bv8>, edges: Ram)
    requires EmptyRoot(ram, 17) && Fresh(s)
    requires MapsLowMemory(ram, StateBefore(s, ONE_FREE_PAGE, 64), 17, ONE_FREE_PAGE, 64, mapped, after, t, bytes, edges)
    ensures !LowMapped(ram, after, t, 17, LowPages(t.totalPages)) && t.panicked == s.panicked
  {
    OneFreePage();
    BitmapOnRoot(ram, s);
    InitialStateEffect(s.(totalPages := 0x10_0001), ONE_FREE_PAGE, KERNEL_PHYSICAL, 64);
    EnoughPages(ram, StateBefore(s, ONE_FREE_PAGE, 64), 17, INITIAL_PAGE_BITMAP_PAGE_COUNT);
    RootOverwritten(mapped, after, t, bytes, edges);
    NotATree(after, 17);
  }

  lemma NotATree(ram: Ram, root: Frame)
    requires ram[root][0].flags.present && ram[root][1].flags.present && ram[root][0].frame == ram[root][1].frame
    ensures !Tree(ram, root)
  {
    var p, q: Path := [0], [1];
    assert Walk(ram, root, p) == Walk(ram, root, q) && IsTablePath(p) && IsTablePath(q) && p != q;
  }

  lemma RootOverwritten(mapped: Ram, after: Ram, t: State, bytes: seq<bv8>, edges: Ram)
    requires t.totalPages == 0x10_0001 && FullBitmap(t, ONE_FREE_PAGE, 0x1_0000, 64) && t.bits == BitsOf(bytes)
    requires after == WithBitmap(mapped, 0x1_0000, bytes, edges)
    ensures after[17][0].flags.present && after[17][1].flags.present && after[17][0].frame == after[17][1].frame
  {
    OneFreePage();
    assert |bytes| == 0x2_0001;
    assert forall i :: 0x8000 <= i < 0x8080 ==> t.bits[i];
    LockedWord(bytes, 0x1000);
    LockedWord(bytes, 0x1008);
    SameFrame(bytes, 0x1000, 0x1008);
    assert EntryAddress(17, 0) == 0x1_1000 && EntryAddress(17, 1) == 0x1_1008;
  }
}
