/** kernel/memory/virtual_memory_manager.cc: mapping, unmapping and cloning page tables that live in
    pages taken from the page allocator. The kernel reaches a table at its physical address. */
module VirtualMemories {
  import opened PageAllocators
  import opened PageFrames
  import opened PageTrees
  import opened Paging
  import opened TableDemands
  import opened Wrappers

  /** The ten `set_flag` calls that the mapping functions make on an entry. The last one puts the NX
      argument into the Global bit. */
  function ApplyFlags(e: PageDirectoryEntry, mappingFlags: Flags): (r: PageDirectoryEntry)
    ensures r == e.(flags := Granted(mappingFlags, e.flags.noExecute))
  {
    var e := e.SetFlag(Present, mappingFlags.present);
    var e := e.SetFlag(ReadWrite, mappingFlags.readWrite);
    var e := e.SetFlag(UserSuper, mappingFlags.userSuper);
    var e := e.SetFlag(WriteThrough, mappingFlags.writeThrough);
    var e := e.SetFlag(CacheDisabled, mappingFlags.cacheDisabled);
    var e := e.SetFlag(Accessed, mappingFlags.accessed);
    var e := e.SetFlag(Dirty, mappingFlags.dirty);
    var e := e.SetFlag(LargerPages, mappingFlags.largerPages);
    var e := e.SetFlag(Global, mappingFlags.global);
    e.SetFlag(Global, mappingFlags.noExecute)
  }

  /** The flags that a mapping ends up with: Global is the NX argument, and NX is what it was. */
  function Granted(mappingFlags: Flags, noExecute: bool): Flags {
    mappingFlags.(global := mappingFlags.noExecute, noExecute := noExecute)
  }

  /** Rewriting the flags of the entry at `i` of table `f`. */
  function WithFlags(ram: Ram, f: Frame, i: Index, mappingFlags: Flags): Ram {
    WriteEntry(ram, f, i, ApplyFlags(ram[f][i], mappingFlags))
  }

  /** The entry at `i` of table `f` leads to a page. */
  function WithPage(ram: Ram, f: Frame, i: Index, page: nat, mappingFlags: Flags): Ram {
    WriteEntry(ram, f, i, ApplyFlags(ram[f][i].SetAddress(page), mappingFlags))
  }

  /** The frame of the page that `RequestPage` hands out; 0 if there is none. */
  function FreshFrame(s: State): Frame {
    match RequestPage(s).1
    case Some(page) => if page < FRAMES then page else 0
    case None => 0
  }

  /** One upper level of `Map`, exactly: memory, the allocator and the next table. */
  function TableStep(ram: Ram, s: State, table: Frame, i: Index, mappingFlags: Flags): (Ram, State, Frame) {
    var e := ram[table][i];
    if e.flags.present then (WithFlags(ram, table, i, mappingFlags), s, e.frame)
    else
      var next := FreshFrame(s);
      (WriteEntry(ram[next := ZeroTable()], table, i, ApplyFlags(e.SetAddress(next), mappingFlags)), RequestPage(s).0, next)
  }

  function TableSteps(ram: Ram, s: State, root: Frame, path: Path, mappingFlags: Flags): (Ram, State, Frame)
    requires |path| >= 3
  {
    var (ram1, s1, pdp) := TableStep(ram, s, root, path[0], mappingFlags);
    var (ram2, s2, pd) := TableStep(ram1, s1, pdp, path[1], mappingFlags);
    TableStep(ram2, s2, pd, path[2], mappingFlags)
  }

  /** `Map`, exactly, on any memory and with any flags. */
  function Mapped(ram: Ram, s: State, root: Frame, path: Path, page: Frame, mappingFlags: Flags): (Ram, State)
    requires |path| == 4
  {
    if root == 0 then (ram, s)
    else
      var (mid, t, pt) := TableSteps(ram, s, root, path, mappingFlags);
      (WithPage(mid, pt, path[3], page, mappingFlags), t)
  }

  /** What `Map` does to the upper levels when all tables are there: only flags change. */
  function FlagsThrough(ram: Ram, f: Frame, path: Path, mappingFlags: Flags): Ram
    decreases |path|
  {
    if path == [] then ram
    else FlagsThrough(WithFlags(ram, f, path[0], mappingFlags), ram[f][path[0]].frame, path[1..], mappingFlags)
  }

  /** What `Map` does to memory, exactly, when all three tables are there, whatever else they are used for. */
  function MapThrough(ram: Ram, root: Frame, path: Path, page: Frame, mappingFlags: Flags): Ram
    requires |path| == 4 && Walk(ram, root, path[..3]).Some?
  {
    var pt := Walk(ram, root, path[..3]).value;
    WithPage(FlagsThrough(ram, root, path[..3], mappingFlags), pt, path[3], page, mappingFlags)
  }

  /** What `Unmap` does to memory, exactly. */
  function Unmapped(ram: Ram, root: Frame, virtualAddress: nat): Ram {
    var path := Indices(virtualAddress);
    var pt := Follow(ram, root, path[..3]);
    WriteEntry(ram, pt, path[3], ram[pt][path[3]].SetFlag(Present, false))
  }

  lemma WithFlagsSameLinks(ram: Ram, f: Frame, i: Index, mappingFlags: Flags)
    requires mappingFlags.present && ram[f][i].flags.present
    ensures SameLinks(ram, WithFlags(ram, f, i, mappingFlags))
  {
    SameLinkWritten(ram, f, i, ApplyFlags(ram[f][i], mappingFlags));
  }

  lemma SameLinkWritten(ram: Ram, f: Frame, i: Index, e: PageDirectoryEntry)
    requires e.frame == ram[f][i].frame && e.flags.present == ram[f][i].flags.present
    ensures SameLinks(ram, WriteEntry(ram, f, i, e))
  {
  }

  /** Rewriting flags along a walk changes no link, and only tables that the walk passes through. */
  lemma {:induction false} FlagsThroughEffect(ram: Ram, f: Frame, path: Path, mappingFlags: Flags)
    requires mappingFlags.present && Walk(ram, f, path).Some?
    ensures SameLinks(ram, FlagsThrough(ram, f, path, mappingFlags))
    ensures forall g: Frame :: !PassedThrough(ram, f, path, g) ==> FlagsThrough(ram, f, path, mappingFlags)[g] == ram[g]
    decreases |path|
  {
    if path != [] {
      var next, rest := ram[f][path[0]].frame, path[1..];
      var ram1 := WithFlags(ram, f, path[0], mappingFlags);
      WithFlagsSameLinks(ram, f, path[0], mappingFlags);
      SameLinksWalk(ram, ram1, next, rest);
      FlagsThroughEffect(ram1, next, rest, mappingFlags);
      assert path[..0] == [] && Walk(ram, f, path[..0]) == Some(f);
      forall g: Frame | PassedThrough(ram1, next, rest, g)
        ensures PassedThrough(ram, f, path, g)
      {
        var k: nat :| k < |rest| && Walk(ram1, next, rest[..k]) == Some(g);
        SameLinksWalk(ram, ram1, next, rest[..k]);
        assert path[..k + 1][1..] == rest[..k];
        assert Walk(ram, f, path[..k + 1]) == Some(g);
      }
    }
  }

  /** Mapping a page through tables that are there changes one link: that of the page. Only the tables on the path
      are written. */
  lemma MapThroughEffect(ram: Ram, root: Frame, path: Path, page: Frame, mappingFlags: Flags)
    requires |path| == 4 && Walk(ram, root, path[..3]).Some? && mappingFlags.present
    ensures var after := MapThrough(ram, root, path, page, mappingFlags);
            var pt := Walk(ram, root, path[..3]).value;
            && after[pt][path[3]].flags.present && after[pt][path[3]].frame == page
            && SameLinks(WriteEntry(ram, pt, path[3], after[pt][path[3]]), after)
            && forall g: Frame :: !PassedThrough(ram, root, path, g) ==> after[g] == ram[g]
  {
    FlagsThroughEffect(ram, root, path[..3], mappingFlags);
    var pt := Walk(ram, root, path[..3]).value;
    assert PassedThrough(ram, root, path, pt);
    forall g: Frame | PassedThrough(ram, root, path[..3], g)
      ensures PassedThrough(ram, root, path, g)
    {
      var k: nat :| k < 3 && Walk(ram, root, path[..3][..k]) == Some(g);
      assert path[..3][..k] == path[..k];
    }
  }

  class VirtualMemory {
    const alloc: PageAllocator
    var ram: Ram
    var activePageMap: Frame  // frame 0 stands for the null pointer
    var cr3: Frame

    ghost predicate Valid()
      reads this, alloc
    {
      alloc.totalPages <= FRAMES
    }

    ghost function Pages(): State
      reads alloc, alloc.pageMap, alloc.pageMap.buffer
    {
      alloc.Model()
    }

    ghost predicate Owned(root: Frame)
      reads this, alloc, alloc.pageMap, alloc.pageMap.buffer
    {
      OwnedIn(ram, Pages(), root)
    }

    constructor (alloc: PageAllocator, ram: Ram, cr3: Frame)
      requires alloc.totalPages <= FRAMES
      ensures Valid() && this.alloc == alloc && this.ram == ram && this.activePageMap == 0 && this.cr3 == cr3
    {
      this.alloc, this.ram, this.activePageMap, this.cr3 := alloc, ram, 0, cr3;
    }

    /** A page from the allocator. Frame 0 stands for failure, but is also page 0. */
    method RequestFrame() returns (f: Frame)
      requires Valid()
      modifies alloc, alloc.pageMap.buffer
      ensures Valid() && Progress(old(Pages()), Pages())
      ensures Pages() == RequestPage(old(Pages())).0 && f == FreshFrame(old(Pages()))
      ensures if FreePages(old(Pages())) > 0 then NewlyHeld(old(Pages()), Pages(), f) && f < Pages().cursor
              else f == 0 && Pages().panicked && forall p: nat :: Held(Pages(), p) <==> Held(old(Pages()), p)
    {
      FreshFrameHolds(Pages());
      var address := alloc.RequestPage();
      f := address / PAGE_SIZE;
    }

    /** Lets an entry lead to a fresh page, which is zeroed. */
    method PointToNewTable(pde: PageDirectoryEntry) returns (r: PageDirectoryEntry)
      requires Valid()
      modifies this`ram, alloc, alloc.pageMap.buffer
      ensures Valid() && Pages() == RequestPage(old(Pages())).0
      ensures r == pde.SetAddress(FreshFrame(old(Pages()))) && ram == old(ram)[FreshFrame(old(Pages())) := ZeroTable()]
    {
      var page := RequestFrame();
      ram := ram[page := ZeroTable()];
      r := pde.SetAddress(page);
    }

    /** The block that `Map` repeats for each of the upper three levels: make sure that entry `i` of
        `table` leads to a table and give the entry the mapping's flags. */
    method EnsureTable(table: Frame, i: Index, mappingFlags: Flags) returns (next: Frame)
      requires Valid()
      modifies this`ram, alloc, alloc.pageMap.buffer
      ensures Valid() && (ram, Pages(), next) == TableStep(old(ram), old(Pages()), table, i, mappingFlags)
    {
      var pde := ram[table][i];
      if !pde.Flag(Present) {
        pde := PointToNewTable(pde);
      }
      pde := ApplyFlags(pde, mappingFlags);
      ram := WriteEntry(ram, table, i, pde);
      next := pde.frame;
    }

    /** The upper three levels of `Map`: the last-level table for a virtual address. */
    method EnsurePageTable(pageMapLevelFour: Frame, indexer: Path, mappingFlags: Flags) returns (pt: Frame)
      requires Valid() && |indexer| == 4
      modifies this`ram, alloc, alloc.pageMap.buffer
      ensures Valid() && (ram, Pages(), pt) == TableSteps(old(ram), old(Pages()), pageMapLevelFour, indexer, mappingFlags)
    {
      var pdp := EnsureTable(pageMapLevelFour, indexer[0], mappingFlags);
      var pd := EnsureTable(pdp, indexer[1], mappingFlags);
      pt := EnsureTable(pd, indexer[2], mappingFlags);
    }

    /** Maps the page of a virtual address; without effect on the null table. If there are as many free pages as tables
        are missing on the path, exactly one translation changes and the tables remain a tree; otherwise, and only then,
        it panics. */
    method Map(pageMapLevelFour: Frame, virtualAddress: nat, physicalAddress: nat, mappingFlags: Flags)
      requires Valid()
      modifies this`ram, alloc, alloc.pageMap.buffer
      ensures Valid()
      ensures (ram, Pages()) == Mapped(old(ram), old(Pages()), pageMapLevelFour, Indices(virtualAddress),
                                       physicalAddress / PAGE_SIZE % FRAMES, mappingFlags)
      ensures MapsOne(pageMapLevelFour, mappingFlags, Indices(virtualAddress), physicalAddress / PAGE_SIZE % FRAMES,
                      old(ram), old(Pages()), ram, Pages())
    {
      MappedMapsOne(ram, Pages(), pageMapLevelFour, Indices(virtualAddress), physicalAddress / PAGE_SIZE % FRAMES, mappingFlags);
      if pageMapLevelFour == 0 {
        return;
      }
      var indexer := Indices(virtualAddress);
      var pt := EnsurePageTable(pageMapLevelFour, indexer, mappingFlags);
      SetPage(pt, indexer[3], physicalAddress / PAGE_SIZE, mappingFlags);
    }

    /** The last level of `Map`. */
    method SetPage(pt: Frame, i: Index, page: nat, mappingFlags: Flags)
      modifies this`ram
      ensures ram == WithPage(old(ram), pt, i, page % FRAMES, mappingFlags)
    {
      var pde := ram[pt][i];
      pde := pde.SetAddress(page);
      pde := ApplyFlags(pde, mappingFlags);
      ram := WriteEntry(ram, pt, i, pde);
    }

    /** Clears the present flag of the page of a virtual address. Upper-level entries are followed
        whether they are present or not. */
    method Unmap(pageMapLevelFour: Frame, virtualAddress: nat)
      modifies this`ram
      ensures ram == Unmapped(old(ram), pageMapLevelFour, virtualAddress)
      ensures old(Owned(pageMapLevelFour)) && Walk(old(ram), pageMapLevelFour, Indices(virtualAddress)[..3]).Some? ==>
                && Kept(old(ram), Pages(), ram, Pages(), pageMapLevelFour)
                && Remapped(old(ram), ram, pageMapLevelFour, Indices(virtualAddress), None)
    {
      var indexer := Indices(virtualAddress);
      var pde := ram[pageMapLevelFour][indexer[0]];
      var pdp := pde.frame;
      pde := ram[pdp][indexer[1]];
      var pd := pde.frame;
      pde := ram[pd][indexer[2]];
      var pt := pde.frame;
      pde := ram[pt][indexer[3]];
      pde := pde.SetFlag(Present, false);
      ram := WriteEntry(ram, pt, indexer[3], pde);
      ThreeFollowed(old(ram), pageMapLevelFour, indexer);
      if OwnedIn(old(ram), Pages(), pageMapLevelFour) && Walk(old(ram), pageMapLevelFour, indexer[..3]).Some? {
        UnmappedEffect(old(ram), Pages(), pageMapLevelFour, virtualAddress);
      }
    }

    /** The active page map, taken from the control register as long as none has been installed. */
    method ActivePageMap() returns (root: Frame)
      modifies this`activePageMap
      ensures root == activePageMap == if old(activePageMap) == 0 then cr3 else old(activePageMap)
    {
      if activePageMap == 0 {
        activePageMap := cr3;
      }
      root := activePageMap;
    }

    method FlushPageMap(pageMapLevelFour: Frame)
      modifies this`activePageMap, this`cr3
      ensures activePageMap == cr3 == pageMapLevelFour
    {
      cr3 := pageMapLevelFour;
      activePageMap := pageMapLevelFour;
    }
  }

  /** `root` is a hierarchy of tables in pages that the allocator will not hand out again. */
  ghost predicate OwnedIn(ram: Ram, s: State, root: Frame) {
    Tree(ram, root) && forall f: Frame :: IsTable(ram, root, f) ==> Held(s, f)
  }

  /** Flags with which `Map` builds tables of 4-KByte pages. */
  predicate MapsTables(mappingFlags: Flags) { mappingFlags.present && !mappingFlags.largerPages }

  /** What every operation does to the allocator as far as the tables care: pages stay held, newly
      held ones lie below the cursor, the cursor does not move back, a panic is not undone. */
  ghost predicate Progress(s: State, t: State) {
    && t.totalPages == s.totalPages && s.cursor <= t.cursor && (s.panicked ==> t.panicked)
    && (forall p: nat :: Held(s, p) ==> Held(t, p))
    && (forall p: nat :: Held(t, p) ==> Held(s, p) || p < t.cursor)
  }

  /** From (ram, s) to (after, t) the hierarchy under `root` is still owned, its new tables are in
      pages that were not held before, and no held page outside the hierarchy was written. */
  ghost predicate Kept(ram: Ram, s: State, after: Ram, t: State, root: Frame) {
    && OwnedIn(after, t, root)
    && (forall f: Frame :: IsTable(after, root, f) ==> IsTable(ram, root, f) || !Held(s, f))
    && (forall f: Frame :: Held(s, f) && !IsTable(ram, root, f) ==> after[f] == ram[f])
  }

  /** In addition `path` now leads to the table in `next`, and no translation has changed. */
  ghost predicate Reached(ram: Ram, s: State, after: Ram, t: State, root: Frame, path: Path, next: Frame) {
    && Kept(ram, s, after, t, root)
    && Walk(after, root, path) == Some(next)
    && forall q: Path :: |q| == 4 ==> Walk(after, root, q) == Walk(ram, root, q)
  }

  /** The walk along `path` now ends at `page`; all other translations are as before. */
  ghost predicate Remapped(ram: Ram, after: Ram, root: Frame, path: Path, page: Option<Frame>) {
    forall q: Path :: |q| == 4 ==> Walk(after, root, q) == if q == path then page else Walk(ram, root, q)
  }

  lemma KeptTransitive(ram: Ram, s: State, mid: Ram, u: State, after: Ram, t: State, root: Frame)
    requires Kept(ram, s, mid, u, root) && Kept(mid, u, after, t, root) && Progress(s, u)
    ensures Kept(ram, s, after, t, root)
  {
  }

  lemma ReachedTransitive(ram: Ram, s: State, mid: Ram, u: State, after: Ram, t: State, root: Frame,
                          p: Path, f: Frame, q: Path, g: Frame)
    requires Reached(ram, s, mid, u, root, p, f) && Reached(mid, u, after, t, root, q, g) && Progress(s, u)
    ensures Reached(ram, s, after, t, root, q, g)
  {
    KeptTransitive(ram, s, mid, u, after, t, root);
  }

  // ----- what one call of `Map` is worth -----

  /** There are enough pages for the tables that `path` lacks. */
  ghost predicate Affordable(ram: Ram, s: State, root: Frame, path: Path) { MissingTables(ram, root, path) <= FreePages(s) }

  /** In an owned hierarchy: panics if and only if pages run out. Otherwise exactly the translation of `path` changes, the
      missing tables are added, and only entries on `path` are written. And on any tables, if all three are there, the
      exact effect. */
  ghost predicate MapEffect(root: Frame, mappingFlags: Flags, path: Path, page: Frame, ram: Ram, s: State, after: Ram, t: State)
    requires |path| == 4
  {
    && Progress(s, t)
    && (root == 0 ==> after == ram && t == s)
    && (root != 0 && OwnedIn(ram, s, root) && MapsTables(mappingFlags) ==>
          && (t.panicked <==> s.panicked || !Affordable(ram, s, root, path[..3]))
          && (Affordable(ram, s, root, path[..3]) ==>
                && Kept(ram, s, after, t, root) && Remapped(ram, after, root, path, Some(page))
                && Extended(ram, s, after, t, root, path[..3]) && Written(ram, after, root, 0, path, mappingFlags)))
    && (root != 0 && mappingFlags.present && Walk(ram, root, path[..3]).Some? ==>
          after == MapThrough(ram, root, path, page, mappingFlags) && t == s)
  }

  /** The same under a name of its own, so that other proofs need not look into it. */
  ghost predicate MapsOne(root: Frame, mappingFlags: Flags, path: Path, page: Frame, ram: Ram, s: State, after: Ram, t: State)
    requires |path| == 4
  {
    MapsOneIsDefined(root, mappingFlags, path, page, ram, s, after, t);
    var truth: bool :| MapsOneIs(truth, root, mappingFlags, path, page, ram, s, after, t);
    truth
  }

  ghost predicate MapsOneIs(truth: bool, root: Frame, mappingFlags: Flags, path: Path, page: Frame, ram: Ram, s: State, after: Ram, t: State)
    requires |path| == 4
  {
    forall k {:trigger Shown(k)} :: Shown(k) ==> (truth <==> (MapEffect(root, mappingFlags, path, page, ram, s, after, t)))
  }

  lemma MapsOneIsDefined(root: Frame, mappingFlags: Flags, path: Path, page: Frame, ram: Ram, s: State, after: Ram, t: State)
    requires |path| == 4
    ensures exists truth: bool :: MapsOneIs(truth, root, mappingFlags, path, page, ram, s, after, t)
  {
    assert MapsOneIs(MapEffect(root, mappingFlags, path, page, ram, s, after, t), root, mappingFlags, path, page, ram, s, after, t);
  }

  lemma MapsOneMeans(root: Frame, mappingFlags: Flags, path: Path, page: Frame, ram: Ram, s: State, after: Ram, t: State)
    requires |path| == 4
    ensures MapsOne(root, mappingFlags, path, page, ram, s, after, t)
            <==> MapEffect(root, mappingFlags, path, page, ram, s, after, t)
  {
    assert Shown(0);
  }

  /** The tables on `path` are there, the last one is `next`; the entries behind the first `from` levels have been
      written. */
  ghost predicate Ensured(ram: Ram, s: State, after: Ram, t: State, root: Frame, from: nat, path: Path, next: Frame,
                          mappingFlags: Flags) {
    && Reached(ram, s, after, t, root, path, next) && Extended(ram, s, after, t, root, path)
    && Written(ram, after, root, from, path, mappingFlags)
  }

  /** The same under a name of its own, so that other proofs need not look into it. */
  ghost predicate IsEnsured(ram: Ram, s: State, after: Ram, t: State, root: Frame, from: nat, path: Path, next: Frame,
                            mappingFlags: Flags)
  {
    EnsuredIsDefined(ram, s, after, t, root, from, path, next, mappingFlags);
    var truth: bool :| EnsuredIs(truth, ram, s, after, t, root, from, path, next, mappingFlags);
    truth
  }

  ghost predicate EnsuredIs(truth: bool, ram: Ram, s: State, after: Ram, t: State, root: Frame, from: nat, path: Path, next: Frame,
                            mappingFlags: Flags)
  {
    forall k {:trigger Shown(k)} :: Shown(k) ==> (truth <==> (Ensured(ram, s, after, t, root, from, path, next, mappingFlags)))
  }

  lemma EnsuredIsDefined(ram: Ram, s: State, after: Ram, t: State, root: Frame, from: nat, path: Path, next: Frame,
                            mappingFlags: Flags)
    ensures exists truth: bool :: EnsuredIs(truth, ram, s, after, t, root, from, path, next, mappingFlags)
  {
    assert EnsuredIs(Ensured(ram, s, after, t, root, from, path, next, mappingFlags), ram, s, after, t, root, from, path, next, mappingFlags);
  }

  lemma EnsuredMeans(ram: Ram, s: State, after: Ram, t: State, root: Frame, from: nat, path: Path, next: Frame, mappingFlags: Flags)
    ensures IsEnsured(ram, s, after, t, root, from, path, next, mappingFlags)
            <==> Ensured(ram, s, after, t, root, from, path, next, mappingFlags)
  {
    assert Shown(0);
  }

  lemma FreshFrameHolds(s: State)
    requires s.totalPages <= FRAMES
    ensures Progress(s, RequestPage(s).0)
    ensures FreshFrame(s) == match RequestPage(s).1 case Some(page) => page case None => 0
    ensures var (t, f) := (RequestPage(s).0, FreshFrame(s));
            if FreePages(s) > 0 then NewlyHeld(s, t, f) && f < t.cursor
            else f == 0 && t.panicked && forall p: nat :: Held(t, p) <==> Held(s, p)
  {
    RequestPageHolds(s);
    RequestTakes(s);
  }

  lemma StepProgress(ram: Ram, s: State, table: Frame, i: Index, mappingFlags: Flags)
    requires s.totalPages <= FRAMES
    ensures Progress(s, TableStep(ram, s, table, i, mappingFlags).1)
  {
    FreshFrameHolds(s);
  }

  lemma RewriteEnsured(ram: Ram, s: State, root: Frame, p: Path, table: Frame, i: Index, mappingFlags: Flags)
    requires OwnedIn(ram, s, root) && |p| <= 2 && Walk(ram, root, p) == Some(table)
    requires MapsTables(mappingFlags) && ram[table][i].flags.present
    ensures IsEnsured(ram, s, WithFlags(ram, table, i, mappingFlags), s, root, |p|, p + [i], ram[table][i].frame, mappingFlags)
  {
    var after, e := WithFlags(ram, table, i, mappingFlags), ApplyFlags(ram[table][i], mappingFlags);
    RewriteWritten(ram, root, p, table, i, e, mappingFlags);
    TableEnsured(ram, s, after, s, root, p, table, i, e);
    TableAdded(ram, s, after, s, root, p, table, i, e);
    AllEnsured(ram, s, after, s, root, |p|, p + [i], e.frame, mappingFlags);
  }

  lemma LinkEnsured(ram: Ram, s: State, t: State, root: Frame, p: Path, table: Frame, i: Index, next: Frame, mappingFlags: Flags)
    requires OwnedIn(ram, s, root) && |p| <= 2 && Walk(ram, root, p) == Some(table)
    requires MapsTables(mappingFlags) && !ram[table][i].flags.present
    requires Progress(s, t) && NewlyHeld(s, t, next) && t == RequestPage(s).0
    ensures var after := WriteEntry(ram[next := ZeroTable()], table, i, ApplyFlags(ram[table][i].SetAddress(next), mappingFlags));
            IsEnsured(ram, s, after, t, root, |p|, p + [i], next, mappingFlags)
  {
    LinkEntryEnsured(ram, s, t, root, p, table, i, next, ApplyFlags(ram[table][i].SetAddress(next), mappingFlags), mappingFlags);
  }

  lemma LinkEntryEnsured(ram: Ram, s: State, t: State, root: Frame, p: Path, table: Frame, i: Index, next: Frame,
                         e: PageDirectoryEntry, mappingFlags: Flags)
    requires OwnedIn(ram, s, root) && |p| <= 2 && Walk(ram, root, p) == Some(table) && !ram[table][i].flags.present
    requires Progress(s, t) && NewlyHeld(s, t, next) && t == RequestPage(s).0
    requires e == ApplyFlags(ram[table][i].SetAddress(next), mappingFlags) && e.frame == next
    requires e.flags.present && !e.flags.largerPages
    ensures IsEnsured(ram, s, WriteEntry(ram[next := ZeroTable()], table, i, e), t, root, |p|, p + [i], next, mappingFlags)
  {
    var after := WriteEntry(ram[next := ZeroTable()], table, i, e);
    LinkWritten(ram, root, p, table, i, e, mappingFlags);
    TableEnsured(ram, s, after, t, root, p, table, i, e);
    TableAdded(ram, s, after, t, root, p, table, i, e);
    AllEnsured(ram, s, after, t, root, |p|, p + [i], next, mappingFlags);
  }

  lemma AllEnsured(ram: Ram, s: State, after: Ram, t: State, root: Frame, from: nat, path: Path, next: Frame, mappingFlags: Flags)
    requires Reached(ram, s, after, t, root, path, next) && Extended(ram, s, after, t, root, path)
    requires Written(ram, after, root, from, path, mappingFlags)
    ensures IsEnsured(ram, s, after, t, root, from, path, next, mappingFlags)
  {
    EnsuredMeans(ram, s, after, t, root, from, path, next, mappingFlags);
  }

  /** One upper level of `Map`, in an owned hierarchy. */
  lemma StepEnsures(ram: Ram, s: State, root: Frame, p: Path, table: Frame, i: Index, mappingFlags: Flags)
    requires OwnedIn(ram, s, root) && |p| <= 2 && Walk(ram, root, p) == Some(table)
    requires MapsTables(mappingFlags) && s.totalPages <= FRAMES
    ensures var (after, t, next) := TableStep(ram, s, table, i, mappingFlags);
            && (t.panicked <==> s.panicked || !Affordable(ram, s, root, p + [i]))
            && (Affordable(ram, s, root, p + [i]) ==> IsEnsured(ram, s, after, t, root, |p|, p + [i], next, mappingFlags))
  {
    StepTables(ram, root, p, table, i);
    FreshFrameHolds(s);
    RequestTakes(s);
    if ram[table][i].flags.present {
      RewriteEnsured(ram, s, root, p, table, i, mappingFlags);
    } else if FreePages(s) > 0 {
      LinkEnsured(ram, s, RequestPage(s).0, root, p, table, i, FreshFrame(s), mappingFlags);
    }
  }

  lemma EnsuredFurther(ram: Ram, s: State, mid: Ram, u: State, after: Ram, t: State, root: Frame,
                       p: Path, f: Frame, i: Index, g: Frame, mappingFlags: Flags)
    requires |p| <= 2 && Progress(s, u) && IsEnsured(ram, s, mid, u, root, 0, p, f, mappingFlags)
    requires IsEnsured(mid, u, after, t, root, |p|, p + [i], g, mappingFlags)
    ensures IsEnsured(ram, s, after, t, root, 0, p + [i], g, mappingFlags)
  {
    EnsuredMeans(ram, s, mid, u, root, 0, p, f, mappingFlags);
    EnsuredMeans(mid, u, after, t, root, |p|, p + [i], g, mappingFlags);
    ReachedTransitive(ram, s, mid, u, after, t, root, p, f, p + [i], g);
    ExtendedFurther(ram, s, mid, u, after, t, root, p, i);
    WrittenFurther(ram, mid, after, root, p, i, mappingFlags);
    EnsuredMeans(ram, s, after, t, root, 0, p + [i], g, mappingFlags);
  }

  /** What is missing further down, and the pages that are left for it. */
  lemma RestAffordable(ram: Ram, s: State, mid: Ram, u: State, root: Frame, p: Path, f: Frame, i: Index, mappingFlags: Flags)
    requires |p| <= 2 && IsEnsured(ram, s, mid, u, root, 0, p, f, mappingFlags) && Affordable(ram, s, root, p)
    ensures OwnedIn(mid, u, root) && Walk(mid, root, p) == Some(f) && u.panicked == s.panicked
    ensures Affordable(mid, u, root, p + [i]) <==> Affordable(ram, s, root, p + [i])
  {
    EnsuredMeans(ram, s, mid, u, root, 0, p, f, mappingFlags);
    MissingRest(ram, s, mid, u, root, p, i);
    RequestedFree(s, MissingTables(ram, root, p));
  }

  /** The level below one that is there. */
  lemma NextStep(ram: Ram, s: State, mid: Ram, u: State, root: Frame, p: Path, f: Frame, i: Index, mappingFlags: Flags)
    requires |p| <= 2 && IsEnsured(ram, s, mid, u, root, 0, p, f, mappingFlags) && Progress(s, u)
    requires MapsTables(mappingFlags) && u.totalPages <= FRAMES && Affordable(ram, s, root, p)
    ensures var (after, t, next) := TableStep(mid, u, f, i, mappingFlags);
            && (t.panicked <==> s.panicked || !Affordable(ram, s, root, p + [i]))
            && (Affordable(ram, s, root, p + [i]) ==> IsEnsured(ram, s, after, t, root, 0, p + [i], next, mappingFlags))
  {
    var (after, t, next) := TableStep(mid, u, f, i, mappingFlags);
    RestAffordable(ram, s, mid, u, root, p, f, i, mappingFlags);
    StepEnsures(mid, u, root, p, f, i, mappingFlags);
    if Affordable(ram, s, root, p + [i]) {
      EnsuredFurther(ram, s, mid, u, after, t, root, p, f, i, next, mappingFlags);
    }
  }

  lemma PathOfThree(ram: Ram, s: State, root: Frame, path: Path)
    requires |path| == 4
    ensures path[..1] == [] + [path[0]] && path[..2] == path[..1] + [path[1]] && path[..3] == path[..2] + [path[2]]
    ensures Affordable(ram, s, root, path[..2]) ==> Affordable(ram, s, root, path[..1])
    ensures Affordable(ram, s, root, path[..3]) ==> Affordable(ram, s, root, path[..2])
  {
    assert path[..3][..2] == path[..2] && path[..2][..1] == path[..1];
  }

  /** All three upper levels, in an owned hierarchy. */
  lemma StepsEnsure(ram: Ram, s: State, root: Frame, path: Path, mappingFlags: Flags)
    requires OwnedIn(ram, s, root) && |path| == 4 && MapsTables(mappingFlags) && s.totalPages <= FRAMES
    ensures var (after, t, pt) := TableSteps(ram, s, root, path, mappingFlags);
            && (t.panicked <==> s.panicked || !Affordable(ram, s, root, path[..3]))
            && (Affordable(ram, s, root, path[..3]) ==> IsEnsured(ram, s, after, t, root, 0, path[..3], pt, mappingFlags))
  {
    var none: Path := [];
    PathOfThree(ram, s, root, path);
    var (ram1, s1, pdp) := TableStep(ram, s, root, path[0], mappingFlags);
    var (ram2, s2, pd) := TableStep(ram1, s1, pdp, path[1], mappingFlags);
    StepProgress(ram, s, root, path[0], mappingFlags);
    StepProgress(ram1, s1, pdp, path[1], mappingFlags);
    StepProgress(ram2, s2, pd, path[2], mappingFlags);
    StepEnsures(ram, s, root, none, root, path[0], mappingFlags);
    if Affordable(ram, s, root, path[..1]) {
      NextStep(ram, s, ram1, s1, root, path[..1], pdp, path[1], mappingFlags);
      if Affordable(ram, s, root, path[..2]) {
        NextStep(ram, s, ram2, s2, root, path[..2], pd, path[2], mappingFlags);
      }
    }
  }

  lemma StepsProgress(ram: Ram, s: State, root: Frame, path: Path, mappingFlags: Flags)
    requires |path| >= 3 && s.totalPages <= FRAMES
    ensures Progress(s, TableSteps(ram, s, root, path, mappingFlags).1)
  {
    var (ram1, s1, pdp) := TableStep(ram, s, root, path[0], mappingFlags);
    var (ram2, s2, pd) := TableStep(ram1, s1, pdp, path[1], mappingFlags);
    StepProgress(ram, s, root, path[0], mappingFlags);
    StepProgress(ram1, s1, pdp, path[1], mappingFlags);
    StepProgress(ram2, s2, pd, path[2], mappingFlags);
  }

  /** The last level below tables that are there. */
  lemma PageSet(ram: Ram, s: State, mid: Ram, t: State, root: Frame, path: Path, pt: Frame, page: Frame, mappingFlags: Flags)
    requires |path| == 4 && Progress(s, t) && mappingFlags.present
    requires IsEnsured(ram, s, mid, t, root, 0, path[..3], pt, mappingFlags)
    ensures var after := WithPage(mid, pt, path[3], page, mappingFlags);
            && Kept(ram, s, after, t, root) && Remapped(ram, after, root, path, Some(page))
            && Extended(ram, s, after, t, root, path[..3]) && Written(ram, after, root, 0, path, mappingFlags)
  {
    LeafSet(ram, s, mid, t, root, path[..3], path[3], pt, page, mappingFlags);
    assert path == path[..3] + [path[3]];
  }

  lemma LeafSet(ram: Ram, s: State, mid: Ram, t: State, root: Frame, p: Path, i: Index, pt: Frame, page: Frame, mappingFlags: Flags)
    requires |p| == 3 && Progress(s, t) && mappingFlags.present && IsEnsured(ram, s, mid, t, root, 0, p, pt, mappingFlags)
    ensures var after := WithPage(mid, pt, i, page, mappingFlags);
            && Kept(ram, s, after, t, root) && Remapped(ram, after, root, p + [i], Some(page))
            && Extended(ram, s, after, t, root, p) && Written(ram, after, root, 0, p + [i], mappingFlags)
  {
    LeafKept(ram, s, mid, t, root, p, i, pt, page, mappingFlags);
    LeafMapped(ram, s, mid, t, root, p, i, pt, page, mappingFlags);
    LeafTables(ram, s, mid, t, root, p, i, pt, page, mappingFlags);
    LeafFlags(ram, s, mid, t, root, p, i, pt, page, mappingFlags);
  }

  lemma EnsuredKept(ram: Ram, s: State, after: Ram, t: State, root: Frame, from: nat, path: Path, next: Frame, mappingFlags: Flags)
    requires IsEnsured(ram, s, after, t, root, from, path, next, mappingFlags)
    ensures Kept(ram, s, after, t, root) && Walk(after, root, path) == Some(next)
  {
    EnsuredMeans(ram, s, after, t, root, from, path, next, mappingFlags);
  }

  lemma EnsuredSame(ram: Ram, s: State, after: Ram, t: State, root: Frame, from: nat, path: Path, next: Frame, mappingFlags: Flags)
    requires IsEnsured(ram, s, after, t, root, from, path, next, mappingFlags)
    ensures OwnedIn(after, t, root) && Walk(after, root, path) == Some(next)
    ensures forall q: Path :: |q| == 4 ==> Walk(after, root, q) == Walk(ram, root, q)
  {
    EnsuredMeans(ram, s, after, t, root, from, path, next, mappingFlags);
  }

  lemma EnsuredExtended(ram: Ram, s: State, after: Ram, t: State, root: Frame, from: nat, path: Path, next: Frame, mappingFlags: Flags)
    requires IsEnsured(ram, s, after, t, root, from, path, next, mappingFlags)
    ensures OwnedIn(after, t, root) && Walk(after, root, path) == Some(next) && Extended(ram, s, after, t, root, path)
  {
    EnsuredMeans(ram, s, after, t, root, from, path, next, mappingFlags);
  }

  lemma EnsuredWritten(ram: Ram, s: State, after: Ram, t: State, root: Frame, from: nat, path: Path, next: Frame, mappingFlags: Flags)
    requires IsEnsured(ram, s, after, t, root, from, path, next, mappingFlags)
    ensures OwnedIn(after, t, root) && Walk(after, root, path) == Some(next) && Written(ram, after, root, from, path, mappingFlags)
    ensures forall q: Path :: IsTablePath(q) && Walk(ram, root, q).Some? ==> Walk(after, root, q).Some?
  {
    EnsuredMeans(ram, s, after, t, root, from, path, next, mappingFlags);
  }

  lemma LeafKept(ram: Ram, s: State, mid: Ram, t: State, root: Frame, p: Path, i: Index, pt: Frame, page: Frame, mappingFlags: Flags)
    requires |p| == 3 && Progress(s, t) && IsEnsured(ram, s, mid, t, root, 0, p, pt, mappingFlags)
    ensures Kept(ram, s, WithPage(mid, pt, i, page, mappingFlags), t, root)
  {
    var after := WithPage(mid, pt, i, page, mappingFlags);
    EnsuredKept(ram, s, mid, t, root, 0, p, pt, mappingFlags);
    LeafWritten(mid, t, root, p, pt, i, after[pt][i]);
    KeptTransitive(ram, s, mid, t, after, t, root);
  }

  lemma LeafMapped(ram: Ram, s: State, mid: Ram, t: State, root: Frame, p: Path, i: Index, pt: Frame, page: Frame, mappingFlags: Flags)
    requires |p| == 3 && mappingFlags.present && IsEnsured(ram, s, mid, t, root, 0, p, pt, mappingFlags)
    ensures Remapped(ram, WithPage(mid, pt, i, page, mappingFlags), root, p + [i], Some(page))
  {
    var after := WithPage(mid, pt, i, page, mappingFlags);
    EnsuredSame(ram, s, mid, t, root, 0, p, pt, mappingFlags);
    LeafWritten(mid, t, root, p, pt, i, after[pt][i]);
    RemappedFurther(ram, mid, after, root, p + [i], Some(page));
  }

  lemma LeafTables(ram: Ram, s: State, mid: Ram, t: State, root: Frame, p: Path, i: Index, pt: Frame, page: Frame, mappingFlags: Flags)
    requires |p| == 3 && IsEnsured(ram, s, mid, t, root, 0, p, pt, mappingFlags)
    ensures Extended(ram, s, WithPage(mid, pt, i, page, mappingFlags), t, root, p)
  {
    var after := WithPage(mid, pt, i, page, mappingFlags);
    EnsuredExtended(ram, s, mid, t, root, 0, p, pt, mappingFlags);
    LeafWritten(mid, t, root, p, pt, i, after[pt][i]);
    SameTablesExtended(ram, s, mid, after, t, root, p);
  }

  lemma LeafFlags(ram: Ram, s: State, mid: Ram, t: State, root: Frame, p: Path, i: Index, pt: Frame, page: Frame, mappingFlags: Flags)
    requires |p| == 3 && IsEnsured(ram, s, mid, t, root, 0, p, pt, mappingFlags)
    ensures Written(ram, WithPage(mid, pt, i, page, mappingFlags), root, 0, p + [i], mappingFlags)
  {
    var after := WithPage(mid, pt, i, page, mappingFlags);
    EnsuredWritten(ram, s, mid, t, root, 0, p, pt, mappingFlags);
    LeafEntryWritten(mid, root, p, pt, i, after[pt][i], mappingFlags);
    WrittenFurther(ram, mid, after, root, p, i, mappingFlags);
  }

  lemma RemappedFurther(ram: Ram, mid: Ram, after: Ram, root: Frame, path: Path, page: Option<Frame>)
    requires (forall q: Path :: |q| == 4 ==> Walk(mid, root, q) == Walk(ram, root, q)) && Remapped(mid, after, root, path, page)
    ensures Remapped(ram, after, root, path, page)
  {
  }

  lemma MappedMapsOne(ram: Ram, s: State, root: Frame, path: Path, page: Frame, mappingFlags: Flags)
    requires |path| == 4 && s.totalPages <= FRAMES
    ensures var (after, t) := Mapped(ram, s, root, path, page, mappingFlags);
            MapsOne(root, mappingFlags, path, page, ram, s, after, t)
  {
    var (after, t) := Mapped(ram, s, root, path, page, mappingFlags);
    MapsOneMeans(root, mappingFlags, path, page, ram, s, after, t);
    if root != 0 {
      var (mid, t, pt) := TableSteps(ram, s, root, path, mappingFlags);
      StepsProgress(ram, s, root, path, mappingFlags);
      if OwnedIn(ram, s, root) && MapsTables(mappingFlags) {
        StepsEnsure(ram, s, root, path, mappingFlags);
        if Affordable(ram, s, root, path[..3]) {
          PageSet(ram, s, mid, t, root, path, pt, page, mappingFlags);
        }
      }
      if mappingFlags.present && Walk(ram, root, path[..3]).Some? {
        ThreeFlags(ram, root, path, mappingFlags);
      }
    }
  }

  /** The effect of one `EnsureTable` on the hierarchy that the table belongs to. */
  lemma TableEnsured(ram: Ram, s: State, after: Ram, t: State, root: Frame, p: Path, table: Frame, i: Index,
                     e: PageDirectoryEntry)
    requires OwnedIn(ram, s, root) && |p| <= 2 && Walk(ram, root, p) == Some(table) && Progress(s, t)
    requires e.flags.present && !e.flags.largerPages
    requires if ram[table][i].flags.present then e.frame == ram[table][i].frame && after == WriteEntry(ram, table, i, e)
             else NewlyHeld(s, t, e.frame) && after == WriteEntry(ram[e.frame := ZeroTable()], table, i, e)
    ensures Reached(ram, s, after, t, root, p + [i], e.frame)
  {
    assert IsTable(ram, root, table);
    if ram[table][i].flags.present {
      RewriteFlags(ram, root, p, table, i, e);
      WalkAppend(ram, root, p, [i]);
    } else {
      LinkTable(ram, root, p, table, i, e, e.frame);
    }
  }

  /** It adds at most the table that it leads to. */
  lemma TableAdded(ram: Ram, s: State, after: Ram, t: State, root: Frame, p: Path, table: Frame, i: Index,
                   e: PageDirectoryEntry)
    requires OwnedIn(ram, s, root) && |p| <= 2 && Walk(ram, root, p) == Some(table)
    requires e.flags.present && !e.flags.largerPages
    requires if ram[table][i].flags.present then e.frame == ram[table][i].frame && after == WriteEntry(ram, table, i, e) && t == s
             else NewlyHeld(s, t, e.frame) && after == WriteEntry(ram[e.frame := ZeroTable()], table, i, e) && t == RequestPage(s).0
    ensures Extended(ram, s, after, t, root, p + [i])
  {
    StepTables(ram, root, p, table, i);
    if ram[table][i].flags.present {
      RewriteFlags(ram, root, p, table, i, e);
    } else {
      LinkTable(ram, root, p, table, i, e, e.frame);
      assert Requested(s, 1) == Requested(t, 0);
    }
  }

  lemma SameTablesExtended(ram: Ram, s: State, mid: Ram, after: Ram, t: State, root: Frame, path: Path)
    requires forall q: Path :: IsTablePath(q) ==> Walk(after, root, q) == Walk(mid, root, q)
    ensures Extended(ram, s, mid, t, root, path) ==> Extended(ram, s, after, t, root, path)
  {
    forall f: Frame | IsTable(mid, root, f)
      ensures IsTable(after, root, f)
    {
      var q: Path :| IsTablePath(q) && Walk(mid, root, q) == Some(f);
      assert Walk(after, root, q) == Some(f);
    }
  }

  // ----- which entries are written -----

  /** `before` has become `e`: unchanged, or with the flags of the mapping. */
  ghost predicate EntryWritten(before: PageDirectoryEntry, e: PageDirectoryEntry, granted: bool, mappingFlags: Flags) {
    if granted then e.flags == Granted(mappingFlags, before.flags.noExecute) && e.untouched == before.untouched else e == before
  }

  /** In the hierarchy, the entries on `path`, those of its first `from` levels aside, have the flags of the mapping. All
      others are as before; new tables are empty but for those. */
  ghost predicate Written(ram: Ram, after: Ram, root: Frame, from: nat, path: Path, mappingFlags: Flags) {
    forall q: Path, j: Index {:trigger EntryAt(after, root, q, j)} :: IsTablePath(q) && EntryAt(after, root, q, j).Some? ==>
      EntryWritten(EntryOrZero(ram, root, q, j), EntryAt(after, root, q, j).value, Through(path, q, j) && |q| >= from, mappingFlags)
  }

  lemma ThroughLast(p: Path, i: Index, q: Path, j: Index)
    ensures Through(p + [i], q, j) <==> Through(p, q, j) || (q == p && j == i)
    ensures Through(p, q, j) ==> |q| < |p|
  {
    if Through(p + [i], q, j) && |q| == |p| {
      assert q == (p + [i])[..|p|] == p;
    }
  }

  /** One entry was written; the others in the hierarchy are as they were, or belong to a new table. */
  lemma OneWritten(ram: Ram, after: Ram, root: Frame, p: Path, f: Frame, i: Index, mappingFlags: Flags)
    requires IsTablePath(p) && Walk(ram, root, p) == Some(f) && Walk(after, root, p) == Some(f)
    requires EntryWritten(ram[f][i], after[f][i], true, mappingFlags)
    requires forall q: Path, j: Index :: IsTablePath(q) && (q != p || j != i) && EntryAt(after, root, q, j).Some? ==>
               EntryAt(after, root, q, j).value == EntryOrZero(ram, root, q, j)
    ensures Written(ram, after, root, |p|, p + [i], mappingFlags)
  {
    forall q: Path, j: Index | IsTablePath(q) && EntryAt(after, root, q, j).Some?
      ensures EntryWritten(EntryOrZero(ram, root, q, j), EntryAt(after, root, q, j).value,
                           Through(p + [i], q, j) && |q| >= |p|, mappingFlags)
    {
      ThroughLast(p, i, q, j);
    }
  }

  lemma RewriteWritten(ram: Ram, root: Frame, p: Path, f: Frame, i: Index, e: PageDirectoryEntry, mappingFlags: Flags)
    requires Tree(ram, root) && |p| <= 2 && Walk(ram, root, p) == Some(f)
    requires ram[f][i].flags.present && e == ApplyFlags(ram[f][i], mappingFlags) && e.flags.present && !e.flags.largerPages
    ensures Written(ram, WriteEntry(ram, f, i, e), root, |p|, p + [i], mappingFlags)
  {
    var after := WriteEntry(ram, f, i, e);
    RewriteFlags(ram, root, p, f, i, e);
    forall q: Path, j: Index | IsTablePath(q) && (q != p || j != i)
      ensures EntryAt(after, root, q, j) == EntryAt(ram, root, q, j)
    {
      EntryAtKept(ram, after, root, p, f, i, q, j);
    }
    OneWritten(ram, after, root, p, f, i, mappingFlags);
  }

  lemma LinkWritten(ram: Ram, root: Frame, p: Path, f: Frame, i: Index, e: PageDirectoryEntry, mappingFlags: Flags)
    requires Tree(ram, root) && |p| <= 2 && Walk(ram, root, p) == Some(f) && !IsTable(ram, root, e.frame)
    requires !ram[f][i].flags.present && e == ApplyFlags(ram[f][i].SetAddress(e.frame), mappingFlags)
    requires e.flags.present && !e.flags.largerPages
    ensures Written(ram, WriteEntry(ram[e.frame := ZeroTable()], f, i, e), root, |p|, p + [i], mappingFlags)
  {
    var after := WriteEntry(ram[e.frame := ZeroTable()], f, i, e);
    LinkTable(ram, root, p, f, i, e, e.frame);
    WalkAppend(ram, root, p, [i]);
    assert IsTable(ram, root, f);
    forall q: Path, j: Index | IsTablePath(q) && (q != p || j != i) && EntryAt(after, root, q, j).Some?
      ensures EntryAt(after, root, q, j).value == EntryOrZero(ram, root, q, j)
    {
      if q != p + [i] {
        EntryAtKept(ram, after, root, p, f, i, q, j);
      }
    }
    OneWritten(ram, after, root, p, f, i, mappingFlags);
  }

  lemma LeafEntryWritten(ram: Ram, root: Frame, p: Path, f: Frame, i: Index, e: PageDirectoryEntry, mappingFlags: Flags)
    requires Tree(ram, root) && |p| == 3 && Walk(ram, root, p) == Some(f)
    requires EntryWritten(ram[f][i], e, true, mappingFlags)
    ensures Written(ram, WriteEntry(ram, f, i, e), root, 3, p + [i], mappingFlags)
  {
    var after := WriteEntry(ram, f, i, e);
    WriteLeaf(ram, root, p, f, i, e);
    forall q: Path, j: Index | IsTablePath(q) && (q != p || j != i)
      ensures EntryAt(after, root, q, j) == EntryAt(ram, root, q, j)
    {
      assert |q| <= 3 && q != p + [i];
      EntryAtKept(ram, after, root, p, f, i, q, j);
    }
    OneWritten(ram, after, root, p, f, i, mappingFlags);
  }

  /** The entries of one more level. */
  lemma WrittenFurther(ram: Ram, mid: Ram, after: Ram, root: Frame, p: Path, i: Index, mappingFlags: Flags)
    requires |p| <= 3 && Written(ram, mid, root, 0, p, mappingFlags) && Written(mid, after, root, |p|, p + [i], mappingFlags)
    requires Walk(mid, root, p).Some?
    requires forall q: Path :: IsTablePath(q) && Walk(ram, root, q).Some? ==> Walk(mid, root, q).Some?
    ensures Written(ram, after, root, 0, p + [i], mappingFlags)
  {
    forall q: Path, j: Index | IsTablePath(q) && EntryAt(after, root, q, j).Some?
      ensures EntryWritten(EntryOrZero(ram, root, q, j), EntryAt(after, root, q, j).value, Through(p + [i], q, j), mappingFlags)
    {
      var before := EntryAt(mid, root, q, j);
      ThroughLast(p, i, q, j);
      if Through(p, q, j) {
        assert q == p[..|q|];
        WalkPrefix(mid, root, p, |q|);
      }
    }
  }

  /** Unmapping a page whose tables are there. */
  lemma UnmappedEffect(ram: Ram, s: State, root: Frame, virtualAddress: nat)
    requires OwnedIn(ram, s, root) && Walk(ram, root, Indices(virtualAddress)[..3]).Some?
    ensures var after := Unmapped(ram, root, virtualAddress);
            Kept(ram, s, after, s, root) && Remapped(ram, after, root, Indices(virtualAddress), None)
  {
    var path := Indices(virtualAddress);
    WalkFollows(ram, root, path[..3]);
    var pt := Walk(ram, root, path[..3]).value;
    assert path == path[..3] + [path[3]];
    LeafWritten(ram, s, root, path[..3], pt, path[3], ram[pt][path[3]].SetFlag(Present, false));
  }

  lemma ThreeFollowed(ram: Ram, root: Frame, path: Path)
    requires |path| >= 3
    ensures var pdp := ram[root][path[0]].frame;
            var pd := ram[pdp][path[1]].frame;
            Follow(ram, root, path[..3]) == ram[pd][path[2]].frame
  {
    var pdp := ram[root][path[0]].frame;
    var pd := ram[pdp][path[1]].frame;
    assert path[..3][1..] == [path[1], path[2]] && [path[1], path[2]][1..] == [path[2]] && [path[2]][1..] == [];
    assert Follow(ram, pd, [path[2]]) == ram[pd][path[2]].frame;
    assert Follow(ram, pdp, [path[1], path[2]]) == Follow(ram, pd, [path[2]]);
  }

  /** The three blocks of `Map` one after the other, when their tables are there. */
  lemma ThreeFlags(ram: Ram, root: Frame, path: Path, mappingFlags: Flags)
    requires |path| == 4 && mappingFlags.present && Walk(ram, root, path[..3]).Some?
    ensures ram[root][path[0]].flags.present
    ensures var ram1, pdp := WithFlags(ram, root, path[0], mappingFlags), ram[root][path[0]].frame;
            && ram1[pdp][path[1]].flags.present
            && var ram2, pd := WithFlags(ram1, pdp, path[1], mappingFlags), ram1[pdp][path[1]].frame;
               && ram2[pd][path[2]].flags.present
               && FlagsThrough(ram, root, path[..3], mappingFlags) == WithFlags(ram2, pd, path[2], mappingFlags)
               && Walk(ram, root, path[..3]) == Some(ram2[pd][path[2]].frame)
  {
    var q := [path[1], path[2]];
    assert path[..3][1..] == q && q[1..] == [path[2]] && [path[2]][1..] == [];
    var ram1, pdp := WithFlags(ram, root, path[0], mappingFlags), ram[root][path[0]].frame;
    WithFlagsSameLinks(ram, root, path[0], mappingFlags);
    SameLinksWalk(ram, ram1, pdp, q);
    assert Walk(ram, pdp, q).Some?;
    var ram2, pd := WithFlags(ram1, pdp, path[1], mappingFlags), ram1[pdp][path[1]].frame;
    WithFlagsSameLinks(ram1, pdp, path[1], mappingFlags);
    SameLinksWalk(ram1, ram2, pd, [path[2]]);
    assert Walk(ram1, pdp, q) == Walk(ram1, pd, [path[2]]);
    assert Walk(ram2, pd, [path[2]]) == Some(ram2[pd][path[2]].frame);
    var ram3 := WithFlags(ram2, pd, path[2], mappingFlags);
    assert FlagsThrough(ram2, pd, [path[2]], mappingFlags) == ram3;
    assert FlagsThrough(ram1, pdp, q, mappingFlags) == ram3;
  }

  lemma LeafWritten(ram: Ram, s: State, root: Frame, p: Path, table: Frame, i: Index, e: PageDirectoryEntry)
    requires OwnedIn(ram, s, root) && |p| == 3 && Walk(ram, root, p) == Some(table)
    ensures var after := WriteEntry(ram, table, i, e);
            && Kept(ram, s, after, s, root)
            && Remapped(ram, after, root, p + [i], if e.flags.present then Some(e.frame) else None)
            && (forall q: Path :: IsTablePath(q) ==> Walk(after, root, q) == Walk(ram, root, q))
  {
    assert IsTable(ram, root, table);
    WriteLeaf(ram, root, p, table, i, e);
    assert forall q: Path :: IsTablePath(q) ==> Walk(WriteEntry(ram, table, i, e), root, q) == Walk(ram, root, q);
  }

  /** A hierarchy whose tables are not written stays owned. */
  lemma SameWalksOwned(ram: Ram, after: Ram, s: State, root: Frame)
    requires OwnedIn(ram, s, root)
    requires forall q: Path :: |q| <= 4 ==> Walk(after, root, q) == Walk(ram, root, q)
    requires forall f: Frame :: IsTable(ram, root, f) ==> after[f] == ram[f]
    ensures OwnedIn(after, s, root)
  {
    forall p: Path | IsTablePath(p) && Walk(ram, root, p).Some?
      ensures IsTable(ram, root, Walk(ram, root, p).value)
    {
    }
  }
}
