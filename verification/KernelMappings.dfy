/** `init_virtual`: all of memory is mapped to itself and the kernel to its virtual address. */
module KernelMappings {
  import opened MappingLoops
  import opened PageFrames
  import opened PageTrees
  import opened Paging
  import opened TableDemands
  import opened VirtualMemories
  import opened Wrappers

  const KERNEL_VIRTUAL := 0xffff_ffff_8000_0000
  const KERNEL_PAGE := 0xf_fff8_0100  // the virtual page that the kernel begins in

  /** Memory that the low half of the address space can map to itself. */
  const IDENTITY_LIMIT := 0x8_0000_0000  // pages

  /** A kernel that fits between its virtual base and the end of the address space. */
  predicate KernelFits(kernelBytes: nat) { KERNEL_PHYSICAL + kernelBytes + 2 * PAGE_SIZE < 0x8000_0000 }

  function KernelEnd(kernelBytes: nat): nat { KERNEL_PHYSICAL + (1 + kernelBytes) + PAGE_SIZE }

  /** The rounds of the loop over the kernel. */
  function KernelRounds(kernelBytes: nat): nat { RoundsOf(KERNEL_PHYSICAL, KernelEnd(kernelBytes)) }

  /** They are one for each page that the kernel's bytes, up to the one behind the last, lie in, and one more. */
  lemma KernelRoundsCount(kernelBytes: nat)
    ensures KernelRounds(kernelBytes) == kernelBytes / PAGE_SIZE + 2
  {
  }

  // ----- what is mapped -----

  /** Every address from `first` on, below the end of memory, is mapped to itself. */
  ghost predicate IdentityMapped(ram0: Ram, ram: Ram, root: Frame, first: nat, totalPages: nat) {
    forall a: nat {:trigger Indices(a)} :: first <= a < totalPages * PAGE_SIZE ==>
      MappedFrom(ram0, ram, root, Indices(a), FrameOf(a))
  }

  /** Every byte of the kernel, and the page behind it, is mapped to its virtual address. */
  ghost predicate KernelMapped(ram0: Ram, ram: Ram, root: Frame, kernelBytes: nat) {
    forall a: nat {:trigger FrameOf(a)} :: KERNEL_PHYSICAL <= a <= KERNEL_PHYSICAL + kernelBytes + PAGE_SIZE ==>
      MappedFrom(ram0, ram, root, Indices(a + KERNEL_VIRTUAL), FrameOf(a))
  }

  /** The number of a virtual page that `init_virtual` does not map. */
  predicate LeftAlone(u: nat, totalPages: nat, kernelBytes: nat) {
    totalPages <= u && !(KERNEL_PAGE <= u < KERNEL_PAGE + kernelBytes / PAGE_SIZE + 2)
  }

  /** Page 0 aside, exactly the pages of memory and those of the kernel have been mapped. */
  ghost predicate AllMapped(ram0: Ram, ram: Ram, s: State, root: Frame, kernelBytes: nat) {
    && OwnedIn(ram, s, root)
    && IdentityMapped(ram0, ram, root, PAGE_SIZE, s.totalPages) && KernelMapped(ram0, ram, root, kernelBytes)
    && (forall q: Path :: |q| == 4 && PageOfPath(q) != 0 && LeftAlone(PageOfPath(q), s.totalPages, kernelBytes) ==>
          SameLeaf(ram0, ram, root, q))
  }

  // ----- the paths and pages of the two loops -----

  ghost function MemoryPaths(totalPages: nat): seq<Path> { LoopPaths(0, totalPages) }

  ghost function KernelPaths(kernelBytes: nat): seq<Path> { LoopPaths(KERNEL_PHYSICAL + KERNEL_VIRTUAL, KernelRounds(kernelBytes)) }

  /** All paths that `init_virtual` maps, in order. */
  ghost function InitPaths(totalPages: nat, kernelBytes: nat, from: nat): (paths: seq<Path>)
    requires from <= totalPages
    ensures |paths| == totalPages - from + KernelRounds(kernelBytes) && forall i :: 0 <= i < |paths| ==> |paths[i]| == 4
  {
    MemoryPaths(totalPages)[from..] + KernelPaths(kernelBytes)
  }

  /** There are enough pages for the tables that these paths lack. */
  ghost predicate InitAffordable(ram: Ram, s: State, root: Frame, kernelBytes: nat, from: nat)
    requires from <= s.totalPages
  {
    var paths := InitPaths(s.totalPages, kernelBytes, from);
    Demand(ram, root, paths, |paths|) <= FreePages(s)
  }

  ghost function MemoryLoop(root: Frame, totalPages: nat, from: nat): Loop {
    LoopOf(root, 0, 0, totalPages * PAGE_SIZE, READ_WRITE, from)
  }

  ghost function KernelLoop(root: Frame, kernelBytes: nat): Loop {
    LoopOf(root, KERNEL_VIRTUAL, KERNEL_PHYSICAL, KernelEnd(kernelBytes), READ_WRITE_GLOBAL, 0)
  }

  lemma RoundsOfPages(totalPages: nat)
    ensures RoundsOf(0, totalPages * PAGE_SIZE) == totalPages
  {
  }

  lemma MemoryNumbered(totalPages: nat, from: nat)
    requires from <= totalPages <= IDENTITY_LIMIT
    ensures Numbered(MemoryPaths(totalPages)[from..], from) && Distinct(MemoryPaths(totalPages))
  {
    PathNumbers(0, totalPages, 0);
    LoopDistinct(0, totalPages);
    var paths := MemoryPaths(totalPages);
    assert forall i :: 0 <= i < totalPages - from ==> paths[from..][i] == paths[from + i];
  }

  lemma KernelNumbered(kernelBytes: nat)
    requires KernelFits(kernelBytes)
    ensures Numbered(KernelPaths(kernelBytes), KERNEL_PAGE) && Distinct(KernelPaths(kernelBytes))
  {
    KernelRoundsCount(kernelBytes);
    PathNumbers(KERNEL_PHYSICAL + KERNEL_VIRTUAL, KernelRounds(kernelBytes), KERNEL_PAGE);
    LoopDistinct(KERNEL_PHYSICAL + KERNEL_VIRTUAL, KernelRounds(kernelBytes));
  }

  // ----- what the two loops do -----

  /** The number of a virtual page of the kernel. */
  predicate KernelPage(u: nat, kernelBytes: nat) { KERNEL_PAGE <= u < KERNEL_PAGE + KernelRounds(kernelBytes) }

  /** What has become of a path after both loops, of which the first one began with page `from`. */
  ghost predicate InitLeaf(ram0: Ram, ram: Ram, root: Frame, totalPages: nat, kernelBytes: nat, from: nat, q: Path)
    requires |q| == 4
  {
    var u := PageOfPath(q);
    if from <= u < totalPages then MappedFrom(ram0, ram, root, q, FrameOf(PageAt(0, u)))
    else if KernelPage(u, kernelBytes) then MappedFrom(ram0, ram, root, q, FrameOf(PageAt(KERNEL_PHYSICAL, u - KERNEL_PAGE)))
    else SameLeaf(ram0, ram, root, q)
  }

  lemma MemoryLeaf(ram: Ram, s: State, mid: Ram, u: State, root: Frame, totalPages: nat, from: nat, q: Path)
    requires from <= totalPages <= IDENTITY_LIMIT && |q| == 4
    requires MappedRounds(ram, s, mid, u, root, MemoryPaths(totalPages)[from..], LoopPages(0, totalPages)[from..], READ_WRITE,
                          totalPages - from)
    ensures var v := PageOfPath(q);
            if from <= v < totalPages then MappedFrom(ram, mid, root, q, FrameOf(PageAt(0, v))) else SameLeaf(ram, mid, root, q)
  {
    var pages, v := LoopPages(0, totalPages), PageOfPath(q);
    MemoryNumbered(totalPages, from);
    RoundsLeaf(ram, s, mid, u, root, MemoryPaths(totalPages)[from..], pages[from..], READ_WRITE, from, q);
    if from <= v < totalPages {
      assert pages[from..][v - from] == pages[v] == FrameOf(PageAt(0, v));
    }
  }

  lemma KernelLeaf(mid: Ram, u: State, after: Ram, t: State, root: Frame, kernelBytes: nat, q: Path)
    requires KernelFits(kernelBytes) && |q| == 4
    requires var n := KernelRounds(kernelBytes);
             MappedRounds(mid, u, after, t, root, KernelPaths(kernelBytes), LoopPages(KERNEL_PHYSICAL, n), READ_WRITE_GLOBAL, n)
    ensures var v := PageOfPath(q);
            if KernelPage(v, kernelBytes) then MappedFrom(mid, after, root, q, FrameOf(PageAt(KERNEL_PHYSICAL, v - KERNEL_PAGE)))
            else SameLeaf(mid, after, root, q)
  {
    var pages, v := LoopPages(KERNEL_PHYSICAL, KernelRounds(kernelBytes)), PageOfPath(q);
    KernelNumbered(kernelBytes);
    RoundsLeaf(mid, u, after, t, root, KernelPaths(kernelBytes), pages, READ_WRITE_GLOBAL, KERNEL_PAGE, q);
    if KernelPage(v, kernelBytes) {
      assert pages[v - KERNEL_PAGE] == FrameOf(PageAt(KERNEL_PHYSICAL, v - KERNEL_PAGE));
    }
  }

  lemma BothLeaves(ram: Ram, s: State, mid: Ram, u: State, after: Ram, t: State, root: Frame, totalPages: nat, kernelBytes: nat,
                   from: nat, q: Path)
    requires from <= totalPages <= IDENTITY_LIMIT && KernelFits(kernelBytes) && |q| == 4
    requires MappedRounds(ram, s, mid, u, root, MemoryPaths(totalPages)[from..], LoopPages(0, totalPages)[from..], READ_WRITE,
                          totalPages - from)
    requires var n := KernelRounds(kernelBytes);
             MappedRounds(mid, u, after, t, root, KernelPaths(kernelBytes), LoopPages(KERNEL_PHYSICAL, n), READ_WRITE_GLOBAL, n)
    ensures InitLeaf(ram, after, root, totalPages, kernelBytes, from, q)
  {
    MemoryLeaf(ram, s, mid, u, root, totalPages, from, q);
    KernelLeaf(mid, u, after, t, root, kernelBytes, q);
  }

  lemma KernelAddress(a: nat, kernelBytes: nat)
    requires KERNEL_PHYSICAL <= a <= KERNEL_PHYSICAL + kernelBytes + PAGE_SIZE && KernelFits(kernelBytes)
    ensures var u := VirtualPage(a + KERNEL_VIRTUAL);
            KernelPage(u, kernelBytes) && FrameOf(PageAt(KERNEL_PHYSICAL, u - KERNEL_PAGE)) == FrameOf(a)
  {
    KernelRoundsCount(kernelBytes);
    var i := PageOf(a) - PageOf(KERNEL_PHYSICAL);
    assert (a + KERNEL_VIRTUAL) / PAGE_SIZE == (KERNEL_PHYSICAL + KERNEL_VIRTUAL) / PAGE_SIZE + i;
    ModOffset((KERNEL_PHYSICAL + KERNEL_VIRTUAL) / PAGE_SIZE, KERNEL_PAGE, i);
    PageNumber(KERNEL_PHYSICAL, i);
  }

  lemma IdentityAddress(a: nat, totalPages: nat)
    requires a < totalPages * PAGE_SIZE && totalPages <= IDENTITY_LIMIT
    ensures var u := VirtualPage(a); u == PageOf(a) < totalPages && FrameOf(PageAt(0, u)) == FrameOf(a)
  {
    PageNumber(0, PageOf(a));
  }

  lemma IdentityFrom(ram0: Ram, ram: Ram, root: Frame, totalPages: nat, kernelBytes: nat, from: nat, a: nat)
    requires totalPages <= IDENTITY_LIMIT && from <= 1 && PAGE_SIZE <= a < totalPages * PAGE_SIZE
    requires InitLeaf(ram0, ram, root, totalPages, kernelBytes, from, Indices(a))
    ensures MappedFrom(ram0, ram, root, Indices(a), FrameOf(a))
  {
    IndicesComposePage(a);
    IdentityAddress(a, totalPages);
  }

  lemma KernelFrom(ram0: Ram, ram: Ram, root: Frame, totalPages: nat, kernelBytes: nat, from: nat, a: nat)
    requires totalPages <= IDENTITY_LIMIT && KernelFits(kernelBytes)
    requires KERNEL_PHYSICAL <= a <= KERNEL_PHYSICAL + kernelBytes + PAGE_SIZE
    requires InitLeaf(ram0, ram, root, totalPages, kernelBytes, from, Indices(a + KERNEL_VIRTUAL))
    ensures MappedFrom(ram0, ram, root, Indices(a + KERNEL_VIRTUAL), FrameOf(a))
  {
    IndicesComposePage(a + KERNEL_VIRTUAL);
    KernelAddress(a, kernelBytes);
  }

  lemma AllMappedFrom(ram0: Ram, ram: Ram, s: State, root: Frame, kernelBytes: nat, from: nat)
    requires OwnedIn(ram, s, root) && from <= 1 && RoomForBoth(s, kernelBytes)
    requires forall q: Path :: |q| == 4 ==> InitLeaf(ram0, ram, root, s.totalPages, kernelBytes, from, q)
    ensures AllMapped(ram0, ram, s, root, kernelBytes)
  {
    forall a: nat | PAGE_SIZE <= a < s.totalPages * PAGE_SIZE
      ensures MappedFrom(ram0, ram, root, Indices(a), FrameOf(a))
    {
      IdentityFrom(ram0, ram, root, s.totalPages, kernelBytes, from, a);
    }
    forall a: nat | KERNEL_PHYSICAL <= a <= KERNEL_PHYSICAL + kernelBytes + PAGE_SIZE
      ensures MappedFrom(ram0, ram, root, Indices(a + KERNEL_VIRTUAL), FrameOf(a))
    {
      KernelFrom(ram0, ram, root, s.totalPages, kernelBytes, from, a);
    }
    forall q: Path | |q| == 4 && PageOfPath(q) != 0 && LeftAlone(PageOfPath(q), s.totalPages, kernelBytes)
      ensures SameLeaf(ram0, ram, root, q)
    {
      KernelRoundsCount(kernelBytes);
      assert InitLeaf(ram0, ram, root, s.totalPages, kernelBytes, from, q);
    }
  }

  /** There is room for both loops to map different pages. */
  predicate RoomForBoth(s: State, kernelBytes: nat) { s.totalPages <= IDENTITY_LIMIT && KernelFits(kernelBytes) }

  lemma MemoryLoopDone(ram0: Ram, s0: State, ram: Ram, s: State, mid: Ram, u: State, root: Frame, totalPages: nat, from: nat,
                       paths: seq<Path>, pages: seq<Frame>)
    requires root != 0 && from <= totalPages <= IDENTITY_LIMIT && OwnedIn(ram, s, root)
    requires RoundsOf(0, totalPages * PAGE_SIZE) == totalPages
    requires AfterRounds(MemoryLoop(root, totalPages, from), ram0, s0, ram, s, mid, u, totalPages)
    requires paths == MemoryPaths(totalPages)[from..] && pages == LoopPages(0, totalPages)[from..]
    ensures LoopEffect(ram, s, mid, u, root, paths, pages, READ_WRITE)
  {
    RangeOnOwned(root, 0, 0, totalPages * PAGE_SIZE, READ_WRITE, from, ram, s);
    RangeDone(root, 0, 0, totalPages * PAGE_SIZE, READ_WRITE, from, totalPages, ram0, s0, ram, s, mid, u, paths, pages);
  }

  lemma KernelLoopDone(mid: Ram, u: State, ram2: Ram, s2: State, after: Ram, t: State, root: Frame, kernelBytes: nat, n: nat,
                       paths: seq<Path>, pages: seq<Frame>)
    requires root != 0 && KernelFits(kernelBytes) && OwnedIn(mid, u, root) && n == KernelRounds(kernelBytes)
    requires AfterRounds(KernelLoop(root, kernelBytes), mid, u, ram2, s2, after, t, n)
    requires paths == KernelPaths(kernelBytes) && pages == LoopPages(KERNEL_PHYSICAL, n)
    ensures LoopEffect(mid, u, after, t, root, paths, pages, READ_WRITE_GLOBAL)
  {
    KernelRoundsCount(kernelBytes);
    WholeRangeDone(root, KERNEL_VIRTUAL, KERNEL_PHYSICAL, KernelEnd(kernelBytes), READ_WRITE_GLOBAL, n, mid, u, ram2, s2, after, t,
                   paths, pages);
  }

  /** The two loops together: `mid` is the memory between them. */
  lemma BothLoops(ram: Ram, s: State, mid: Ram, u: State, after: Ram, t: State, root: Frame, kernelBytes: nat, from: nat,
                  a: seq<Path>, aPages: seq<Frame>, b: seq<Path>, bPages: seq<Frame>)
    requires from <= s.totalPages && from <= 1 && RoomForBoth(s, kernelBytes) && Progress(s, u) && Progress(u, t)
    requires a == MemoryPaths(s.totalPages)[from..] && aPages == LoopPages(0, s.totalPages)[from..]
    requires b == KernelPaths(kernelBytes) && bPages == LoopPages(KERNEL_PHYSICAL, KernelRounds(kernelBytes))
    requires LoopEffect(ram, s, mid, u, root, a, aPages, READ_WRITE)
    requires OwnedIn(mid, u, root) ==> LoopEffect(mid, u, after, t, root, b, bPages, READ_WRITE_GLOBAL)
    ensures t.panicked <==> s.panicked || !InitAffordable(ram, s, root, kernelBytes, from)
    ensures InitAffordable(ram, s, root, kernelBytes, from) ==> BothDone(ram, s, after, t, root, kernelBytes, from)
  {
    EffectsJoin(ram, s, mid, u, after, t, root, a, aPages, READ_WRITE, b, bPages, READ_WRITE_GLOBAL);
    assert InitPaths(s.totalPages, kernelBytes, from) == a + b;
    if InitAffordable(ram, s, root, kernelBytes, from) {
      BothKept(ram, s, mid, u, after, t, root, a, aPages, b, bPages);
      AllLeaves(ram, s, mid, u, after, t, root, s.totalPages, kernelBytes, from, a, aPages, b, bPages);
      LeavesDone(ram, s, after, t, root, kernelBytes, from);
    }
  }

  /** Both loops have done their work. */
  ghost predicate BothDone(ram: Ram, s: State, after: Ram, t: State, root: Frame, kernelBytes: nat, from: nat) {
    && Kept(ram, s, after, t, root) && AllMapped(ram, after, t, root, kernelBytes)
    && (if from == 0 && s.totalPages > 0 then MappedFrom(ram, after, root, Indices(0), 0) else SameLeaf(ram, after, root, Indices(0)))
  }

  lemma BothKept(ram: Ram, s: State, mid: Ram, u: State, after: Ram, t: State, root: Frame,
                 a: seq<Path>, aPages: seq<Frame>, b: seq<Path>, bPages: seq<Frame>)
    requires |a| == |aPages| && |b| == |bPages| && Progress(s, u)
    requires (forall i :: 0 <= i < |a| ==> |a[i]| == 4) && forall i :: 0 <= i < |b| ==> |b[i]| == 4
    requires MappedRounds(ram, s, mid, u, root, a, aPages, READ_WRITE, |a|)
    requires MappedRounds(mid, u, after, t, root, b, bPages, READ_WRITE_GLOBAL, |b|)
    ensures Kept(ram, s, after, t, root)
  {
    RoundsOwned(ram, s, mid, u, root, a, aPages, READ_WRITE, |a|);
    RoundsOwned(mid, u, after, t, root, b, bPages, READ_WRITE_GLOBAL, |b|);
    KeptTransitive(ram, s, mid, u, after, t, root);
  }

  lemma AllLeaves(ram: Ram, s: State, mid: Ram, u: State, after: Ram, t: State, root: Frame, totalPages: nat, kernelBytes: nat,
                  from: nat, a: seq<Path>, aPages: seq<Frame>, b: seq<Path>, bPages: seq<Frame>)
    requires from <= totalPages <= IDENTITY_LIMIT && KernelFits(kernelBytes)
    requires a == MemoryPaths(totalPages)[from..] && aPages == LoopPages(0, totalPages)[from..]
    requires b == KernelPaths(kernelBytes) && bPages == LoopPages(KERNEL_PHYSICAL, KernelRounds(kernelBytes))
    requires MappedRounds(ram, s, mid, u, root, a, aPages, READ_WRITE, |a|)
    requires MappedRounds(mid, u, after, t, root, b, bPages, READ_WRITE_GLOBAL, |b|)
    ensures forall q: Path :: |q| == 4 ==> InitLeaf(ram, after, root, totalPages, kernelBytes, from, q)
  {
    forall q: Path | |q| == 4
      ensures InitLeaf(ram, after, root, totalPages, kernelBytes, from, q)
    {
      BothLeaves(ram, s, mid, u, after, t, root, totalPages, kernelBytes, from, q);
    }
  }

  lemma LeavesDone(ram: Ram, s: State, after: Ram, t: State, root: Frame, kernelBytes: nat, from: nat)
    requires from <= s.totalPages == t.totalPages && from <= 1 && RoomForBoth(s, kernelBytes) && Kept(ram, s, after, t, root)
    requires forall q: Path :: |q| == 4 ==> InitLeaf(ram, after, root, s.totalPages, kernelBytes, from, q)
    ensures BothDone(ram, s, after, t, root, kernelBytes, from)
  {
    AllMappedFrom(ram, after, t, root, kernelBytes, from);
    NullLeaf(ram, after, root, s.totalPages, kernelBytes, from);
  }

  lemma NullLeaf(ram: Ram, after: Ram, root: Frame, totalPages: nat, kernelBytes: nat, from: nat)
    requires from <= totalPages && from <= 1 && InitLeaf(ram, after, root, totalPages, kernelBytes, from, Indices(0))
    ensures if from == 0 && totalPages > 0 then MappedFrom(ram, after, root, Indices(0), 0) else SameLeaf(ram, after, root, Indices(0))
  {
    IndicesComposePage(0);
    assert PageAt(0, 0) == 0;
  }

  // ----- a root that is not owned -----

  /** A root whose entry 0 leads to the root itself, and which is empty otherwise. */
  ghost predicate SelfMapped(ram: Ram, s: State, root: Frame) {
    && root != 0 && Held(s, root) && Held(s, 0)
    && (forall i: Index :: ram[root][i].flags.present <==> i == 0) && ram[root][0].frame == root
    && (forall i: Index :: !ram[0][i].flags.present)
  }

  /** It is not owned, but it is once page 0 has been mapped: the entry that is written then, last, is the one that led
      to the tables. Page 0 is not mapped afterwards. */
  lemma SelfMappedOnce(ram: Ram, s: State, root: Frame)
    requires SelfMapped(ram, s, root)
    ensures !OwnedIn(ram, s, root) && Walk(ram, root, Indices(0)[..3]).Some?
    ensures var once := MapThrough(ram, root, Indices(0), 0, READ_WRITE); OwnedIn(once, s, root) && Translate(once, root, 0) == None
  {
    var q: Path := [0, 0, 0, 0];
    assert Indices(0) == q by {
      assert IndexPath(0, 0) == [] && IndexPath(0, 1) == [0];
      assert IndexPath(0, 2) == IndexPath(0, 1) + [0] && IndexPath(0, 3) == IndexPath(0, 2) + [0];
    }
    assert q[..3][1..] == [0, 0] && [0, 0][1..] == [0] && [0][1..] == [];
    assert Walk(ram, root, [0]) == Some(root) && Walk(ram, root, []) == Some(root);
    assert Walk(ram, root, [0, 0]) == Walk(ram, root, [0]);
    assert Walk(ram, root, q[..3]) == Some(root);
    assert !Tree(ram, root) by {
      var p, none: Path := [0], [];
      assert IsTablePath(p) && IsTablePath(none) && p != none;
    }
    MapThroughEffect(ram, root, q, 0, READ_WRITE);
    OnlyPageZero(MapThrough(ram, root, q, 0, READ_WRITE), s, root);
  }

  /** Page 0 is all that is reached below the root, as a table without entries. */
  lemma OnlyPageZero(ram: Ram, s: State, root: Frame)
    requires root != 0 && Held(s, root) && Held(s, 0)
    requires (forall i: Index :: ram[root][i].flags.present <==> i == 0) && ram[root][0].frame == 0
    requires forall i: Index :: !ram[0][i].flags.present
    ensures OwnedIn(ram, s, root) && Walk(ram, root, [0, 0, 0, 0]) == None
  {
    forall p: Path
      ensures Walk(ram, root, p) == if p == [] then Some(root) else if p == [0] then Some(0) else None
    {
      if |p| >= 2 && p[0] == 0 {
        assert Walk(ram, root, p) == Walk(ram, 0, p[1..]) == None;
      }
    }
  }

  /** The memory from which on the hierarchy is known to be owned, and the number of rounds that lead there. */
  ghost function OwnedFrom(ram: Ram, s: State, root: Frame): (r: (Ram, nat))
    ensures r.1 <= 1 && r.1 <= s.totalPages
  {
    if SelfMapped(ram, s, root) && s.totalPages > 0 then
      SelfMappedOnce(ram, s, root);
      (MapThrough(ram, root, Indices(0), 0, READ_WRITE), 1)
    else (ram, 0)
  }

  lemma FirstRound(ram0: Ram, s0: State, ram: Ram, s: State, mid: Ram, u: State, root: Frame, totalPages: nat, from: nat)
    requires root != 0 && totalPages == s0.totalPages <= IDENTITY_LIMIT && from == OwnedFrom(ram0, s0, root).1
    requires RoundsOf(0, totalPages * PAGE_SIZE) == totalPages
    requires AfterRounds(MemoryLoop(root, totalPages, from), ram0, s0, ram, s, mid, u, totalPages)
    ensures OwnedIn(ram0, s0, root) || SelfMapped(ram0, s0, root) ==> ram == OwnedFrom(ram0, s0, root).0 && s == s0
  {
    var loop := MemoryLoop(root, totalPages, from);
    MemoryNumbered(totalPages, 0);
    RoundsMean(loop, ram0, s0, ram, s, mid, u, totalPages);
    if SelfMapped(ram0, s0, root) && totalPages > 0 {
      SelfMappedOnce(ram0, s0, root);
      assert PageAt(0, 0) == 0;
      assert loop.paths[0] == Indices(0) && loop.pages[0] == 0;
    }
  }

  // ----- the loops -----

  /** The loops panic if and only if pages run out; otherwise they do their work. */
  ghost predicate LoopsDone(ram: Ram, s: State, after: Ram, t: State, root: Frame, kernelBytes: nat, from: nat)
    requires from <= s.totalPages
  {
    && (t.panicked <==> s.panicked || !InitAffordable(ram, s, root, kernelBytes, from))
    && (InitAffordable(ram, s, root, kernelBytes, from) ==> BothDone(ram, s, after, t, root, kernelBytes, from))
  }

  /** A root from which both loops are known to build a map. */
  ghost predicate Suitable(ram: Ram, s: State, root: Frame, kernelBytes: nat) {
    root != 0 && RoomForBoth(s, kernelBytes) && (OwnedIn(ram, s, root) || (SelfMapped(ram, s, root) && s.totalPages > 0))
  }

  /** The two loops of `init_virtual`. */
  method MapMemoryAndKernel(vm: VirtualMemory, pageMap: Frame, kernelBytes: nat)
    requires vm.Valid()
    modifies vm`ram, vm.alloc, vm.alloc.pageMap.buffer
    ensures vm.Valid() && Progress(old(vm.Pages()), vm.Pages())
    ensures pageMap == 0 ==> vm.ram == old(vm.ram) && vm.Pages() == old(vm.Pages())
    ensures var ram, s := old(vm.ram), old(vm.Pages());
            var (from, count) := OwnedFrom(ram, s, pageMap);
            Suitable(ram, s, pageMap, kernelBytes) ==> LoopsDone(from, s, vm.ram, vm.Pages(), pageMap, kernelBytes, count)
  {
    ghost var ram0, s0, totalPages := vm.ram, vm.Pages(), vm.alloc.totalPages;
    ghost var from := OwnedFrom(ram0, s0, pageMap).1;
    var totalRam := vm.alloc.totalPages * PAGE_SIZE;
    RoundsOfPages(totalPages);
    ghost var ram, s := MapRange(vm, pageMap, 0, 0, totalRam, READ_WRITE, from);
    ghost var mid, u := vm.ram, vm.Pages();
    var kernelBytesNeeded := 1 + kernelBytes;
    ghost var ram2, s2 := MapRange(vm, pageMap, KERNEL_VIRTUAL, KERNEL_PHYSICAL, KERNEL_PHYSICAL + kernelBytesNeeded + PAGE_SIZE,
                                   READ_WRITE_GLOBAL, 0);
    LoopsSummed(ram0, s0, ram, s, mid, u, ram2, s2, vm.ram, vm.Pages(), pageMap, kernelBytes, from);
  }

  lemma LoopsSummed(ram0: Ram, s0: State, ram: Ram, s: State, mid: Ram, u: State, ram2: Ram, s2: State, after: Ram, t: State,
                    root: Frame, kernelBytes: nat, from: nat)
    requires from == OwnedFrom(ram0, s0, root).1 && RoundsOf(0, s0.totalPages * PAGE_SIZE) == s0.totalPages
    requires AfterRounds(MemoryLoop(root, s0.totalPages, from), ram0, s0, ram, s, mid, u, s0.totalPages)
    requires AfterRounds(KernelLoop(root, kernelBytes), mid, u, ram2, s2, after, t, KernelRounds(kernelBytes))
    ensures Progress(s0, t) && (root == 0 ==> after == ram0 && t == s0)
    ensures Suitable(ram0, s0, root, kernelBytes) ==> LoopsDone(OwnedFrom(ram0, s0, root).0, s0, after, t, root, kernelBytes, from)
  {
    RoundsProgress(MemoryLoop(root, s0.totalPages, from), ram0, s0, ram, s, mid, u);
    RoundsProgress(KernelLoop(root, kernelBytes), mid, u, ram2, s2, after, t);
    if Suitable(ram0, s0, root, kernelBytes) {
      FirstRound(ram0, s0, ram, s, mid, u, root, s0.totalPages, from);
      StartOwned(ram0, s0, root);
      var a, aPages := MemoryPaths(s0.totalPages)[from..], LoopPages(0, s0.totalPages)[from..];
      var b, bPages := KernelPaths(kernelBytes), LoopPages(KERNEL_PHYSICAL, KernelRounds(kernelBytes));
      MemoryLoopDone(ram0, s0, ram, s, mid, u, root, s0.totalPages, from, a, aPages);
      if OwnedIn(mid, u, root) {
        KernelLoopDone(mid, u, ram2, s2, after, t, root, kernelBytes, KernelRounds(kernelBytes), b, bPages);
      }
      BothLoops(ram, s, mid, u, after, t, root, kernelBytes, from, a, aPages, b, bPages);
    }
  }

  lemma StartOwned(ram: Ram, s: State, root: Frame)
    requires OwnedIn(ram, s, root) || (SelfMapped(ram, s, root) && s.totalPages > 0)
    ensures OwnedIn(OwnedFrom(ram, s, root).0, s, root)
    ensures OwnedIn(ram, s, root) ==> OwnedFrom(ram, s, root) == (ram, 0)
  {
    if SelfMapped(ram, s, root) {
      SelfMappedOnce(ram, s, root);
    }
  }

  lemma SuitableRoots(ram: Ram, s: State, after: Ram, t: State, root: Frame, kernelBytes: nat)
    requires var (from, count) := OwnedFrom(ram, s, root);
             Suitable(ram, s, root, kernelBytes) ==> LoopsDone(from, s, after, t, root, kernelBytes, count)
    ensures root != 0 && OwnedIn(ram, s, root) && RoomForBoth(s, kernelBytes) ==> LoopsDone(ram, s, after, t, root, kernelBytes, 0)
    ensures SelfMapped(ram, s, root) && s.totalPages > 0 && RoomForBoth(s, kernelBytes) ==>
              LoopsDone(OwnedFrom(ram, s, root).0, s, after, t, root, kernelBytes, 1)
  {
    if OwnedIn(ram, s, root) {
      StartOwned(ram, s, root);
    }
  }

  // ----- the null page -----

  /** The active page map has tables for the null page, and is either `pageMap` itself or a separate
      hierarchy. */
  ghost predicate NullPageMapped(vm: VirtualMemory, pageMap: Frame)
    reads vm, vm.alloc, vm.alloc.pageMap, vm.alloc.pageMap.buffer
  {
    ClearsNullPage(vm.ram, vm.Pages(), pageMap, vm.activePageMap)
  }

  /** The map that was active before is suited to be cleared at the null page. */
  ghost predicate ClearsNullPage(ram: Ram, s: State, pageMap: Frame, active: Frame) {
    if pageMap == active then s.totalPages > 0
    else OwnedIn(ram, s, active) && DisjointTables(ram, active, pageMap) && Walk(ram, active, Indices(0)[..3]).Some?
  }

  lemma IdentityKept(ram0: Ram, before: Ram, after: Ram, root: Frame, totalPages: nat, a: nat)
    requires MappedFrom(ram0, before, root, Indices(a), FrameOf(a)) && totalPages <= IDENTITY_LIMIT
    requires PAGE_SIZE <= a < totalPages * PAGE_SIZE
    requires Indices(a) != Indices(0) ==> SameLeaf(before, after, root, Indices(a))
    ensures MappedFrom(ram0, after, root, Indices(a), FrameOf(a))
  {
    IndicesComposePage(0);
    IdentityAddress(a, totalPages);
    IndicesComposePage(a);
  }

  lemma KernelKept(ram0: Ram, before: Ram, after: Ram, root: Frame, kernelBytes: nat, a: nat)
    requires MappedFrom(ram0, before, root, Indices(a + KERNEL_VIRTUAL), FrameOf(a)) && KernelFits(kernelBytes)
    requires KERNEL_PHYSICAL <= a <= KERNEL_PHYSICAL + kernelBytes + PAGE_SIZE
    requires Indices(a + KERNEL_VIRTUAL) != Indices(0) ==> SameLeaf(before, after, root, Indices(a + KERNEL_VIRTUAL))
    ensures MappedFrom(ram0, after, root, Indices(a + KERNEL_VIRTUAL), FrameOf(a))
  {
    IndicesComposePage(0);
    KernelAddress(a, kernelBytes);
    IndicesComposePage(a + KERNEL_VIRTUAL);
  }

  /** What is mapped stays mapped when only the entry of the null page is written. */
  lemma AllMappedKept(ram0: Ram, before: Ram, after: Ram, s: State, root: Frame, kernelBytes: nat)
    requires AllMapped(ram0, before, s, root, kernelBytes) && OwnedIn(after, s, root) && RoomForBoth(s, kernelBytes)
    requires forall q: Path :: |q| == 4 && q != Indices(0) ==> SameLeaf(before, after, root, q)
    ensures AllMapped(ram0, after, s, root, kernelBytes)
  {
    forall a: nat | PAGE_SIZE <= a < s.totalPages * PAGE_SIZE
      ensures MappedFrom(ram0, after, root, Indices(a), FrameOf(a))
    {
      IdentityKept(ram0, before, after, root, s.totalPages, a);
    }
    forall a: nat | KERNEL_PHYSICAL <= a <= KERNEL_PHYSICAL + kernelBytes + PAGE_SIZE
      ensures MappedFrom(ram0, after, root, Indices(a + KERNEL_VIRTUAL), FrameOf(a))
    {
      KernelKept(ram0, before, after, root, kernelBytes, a);
    }
    forall q: Path | |q| == 4 && PageOfPath(q) != 0 && LeftAlone(PageOfPath(q), s.totalPages, kernelBytes)
      ensures SameLeaf(ram0, after, root, q)
    {
      IndicesComposePage(0);
      assert q != Indices(0);
    }
  }

  lemma NullPageTables(ram: Ram, root: Frame)
    requires Translate(ram, root, 0).Some?
    ensures Walk(ram, root, Indices(0)[..3]).Some?
  {
    assert Indices(0) == Indices(0)[..3] + Indices(0)[3..];
    WalkAppend(ram, root, Indices(0)[..3], Indices(0)[3..]);
  }

  /** Writing one last-level entry leaves the others alone. */
  lemma LeafAside(ram: Ram, root: Frame, p: Path, pt: Frame, i: Index, e: PageDirectoryEntry, q: Path)
    requires Tree(ram, root) && |p| == 3 && Walk(ram, root, p) == Some(pt) && |q| == 4 && q != p + [i]
    ensures SameLeaf(ram, WriteEntry(ram, pt, i, e), root, q)
  {
    var after, r := WriteEntry(ram, pt, i, e), q[..3];
    assert q == r + [q[3]];
    WriteLeaf(ram, root, p, pt, i, e);
    assert Walk(after, root, r) == Walk(ram, root, r);
    EntryAtKept(ram, after, root, p, pt, i, r, q[3]);
  }

  lemma UnmappedLeaves(ram: Ram, root: Frame, q: Path)
    requires Tree(ram, root) && Walk(ram, root, Indices(0)[..3]).Some? && |q| == 4 && q != Indices(0)
    ensures SameLeaf(ram, Unmapped(ram, root, 0), root, q)
  {
    var path := Indices(0);
    var pt, i := Walk(ram, root, path[..3]).value, path[3];
    WalkFollows(ram, root, path[..3]);
    assert path == path[..3] + [i];
    LeafAside(ram, root, path[..3], pt, i, ram[pt][i].SetFlag(Present, false), q);
  }

  /** Unmapping the null page in the new map itself. */
  lemma NullPageClearedHere(ram0: Ram, before: Ram, t: State, pageMap: Frame, kernelBytes: nat)
    requires RoomForBoth(t, kernelBytes) && AllMapped(ram0, before, t, pageMap, kernelBytes) && Translate(before, pageMap, 0).Some?
    ensures var after := Unmapped(before, pageMap, 0);
            AllMapped(ram0, after, t, pageMap, kernelBytes) && Translate(after, pageMap, 0) == None
  {
    NullPageTables(before, pageMap);
    UnmappedEffect(before, t, pageMap, 0);
    forall q: Path | |q| == 4 && q != Indices(0)
      ensures SameLeaf(before, Unmapped(before, pageMap, 0), pageMap, q)
    {
      UnmappedLeaves(before, pageMap, q);
    }
    AllMappedKept(ram0, before, Unmapped(before, pageMap, 0), t, pageMap, kernelBytes);
  }

  /** Clearing the entry of the null page in one hierarchy leaves a separate one alone. */
  lemma ClearedApart(before: Ram, t: State, pageMap: Frame, active: Frame)
    requires OwnedIn(before, t, pageMap) && DisjointTables(before, active, pageMap) && Walk(before, active, Indices(0)[..3]).Some?
    ensures var after := Unmapped(before, active, 0);
            OwnedIn(after, t, pageMap) && forall q: Path :: |q| == 4 ==> SameLeaf(before, after, pageMap, q)
  {
    var pt := Walk(before, active, Indices(0)[..3]).value;
    WalkFollows(before, active, Indices(0)[..3]);
    assert IsTablePath(Indices(0)[..3]) && IsTable(before, active, pt);
    SameTablesSameLeaves(before, Unmapped(before, active, 0), t, pageMap);
  }

  /** Unmapping the null page in another map. */
  lemma NullPageClearedElsewhere(ram: Ram, s: State, before: Ram, t: State, pageMap: Frame, active: Frame, kernelBytes: nat)
    requires AllMapped(ram, before, t, pageMap, kernelBytes) && Kept(ram, s, before, t, pageMap) && Progress(s, t)
    requires OwnedIn(ram, s, active) && DisjointTables(ram, active, pageMap) && Walk(ram, active, Indices(0)[..3]).Some?
    requires RoomForBoth(t, kernelBytes)
    ensures var after := Unmapped(before, active, 0);
            AllMapped(ram, after, t, pageMap, kernelBytes) && Translate(after, pageMap, 0) == Translate(before, pageMap, 0)
  {
    OtherHierarchy(ram, s, before, t, pageMap, active);
    ClearedApart(before, t, pageMap, active);
    AllMappedKept(ram, before, Unmapped(before, active, 0), t, pageMap, kernelBytes);
  }

  /** The new map in the end: the null page is unmapped if and only if that map was active before. */
  ghost predicate NewMap(ram: Ram, after: Ram, t: State, pageMap: Frame, active: Frame, kernelBytes: nat) {
    && AllMapped(ram, after, t, pageMap, kernelBytes)
    && (t.totalPages > 0 ==> Translate(after, pageMap, 0) == if pageMap == active then None else Some(0))
  }

  lemma NullPageCleared(ram: Ram, s: State, before: Ram, t: State, pageMap: Frame, active: Frame, kernelBytes: nat)
    requires BothDone(ram, s, before, t, pageMap, kernelBytes, 0) && RoomForBoth(s, kernelBytes) && Progress(s, t)
    requires ClearsNullPage(ram, s, pageMap, active)
    ensures NewMap(ram, Unmapped(before, active, 0), t, pageMap, active, kernelBytes)
  {
    if pageMap == active {
      NullPageClearedHere(ram, before, t, pageMap, kernelBytes);
    } else {
      NullPageClearedElsewhere(ram, s, before, t, pageMap, active, kernelBytes);
    }
  }

  /** Clearing an entry maps nothing. */
  lemma {:induction false} UnmappedKeepsNone(ram: Ram, active: Frame, virtualAddress: nat, f: Frame, q: Path)
    ensures Walk(ram, f, q) == None ==> Walk(Unmapped(ram, active, virtualAddress), f, q) == None
    decreases |q|
  {
    if q != [] {
      UnmappedKeepsNone(ram, active, virtualAddress, ram[f][q[0]].frame, q[1..]);
    }
  }

  // ----- init_virtual -----

  /** Maps all of physical memory to itself and the kernel to its virtual address, clears the null page in the map that was
      active before, and makes `pageMap` the active one. `mapped` is memory when the loops are done. */
  method InitVirtual(vm: VirtualMemory, pageMap: Frame, kernelBytes: nat) returns (ghost mapped: Ram)
    requires vm.Valid()
    modifies vm`ram, vm`activePageMap, vm`cr3, vm.alloc, vm.alloc.pageMap.buffer
    ensures vm.Valid() && Progress(old(vm.Pages()), vm.Pages()) && vm.activePageMap == vm.cr3 == pageMap
    // Whatever map was active before: everything is mapped, and then one entry of that map is cleared.
    ensures vm.ram == Unmapped(mapped, old(vm.activePageMap), 0)
    ensures pageMap == 0 ==> mapped == old(vm.ram) && vm.Pages() == old(vm.Pages())
    ensures pageMap != 0 && old(vm.Owned(pageMap)) && RoomForBoth(old(vm.Pages()), kernelBytes) ==>
              LoopsDone(old(vm.ram), old(vm.Pages()), mapped, vm.Pages(), pageMap, kernelBytes, 0)
    // The null page is cleared in the new map if and only if that is the one that was active before.
    ensures pageMap != 0 && old(vm.Owned(pageMap)) && RoomForBoth(old(vm.Pages()), kernelBytes)
            && InitAffordable(old(vm.ram), old(vm.Pages()), pageMap, kernelBytes, 0) && old(NullPageMapped(vm, pageMap)) ==>
              NewMap(old(vm.ram), vm.ram, vm.Pages(), pageMap, old(vm.activePageMap), kernelBytes)
    // In a root whose entry 0 leads to itself page 0 is not mapped, whatever map was active before.
    ensures old(SelfMapped(vm.ram, vm.Pages(), pageMap)) && RoomForBoth(old(vm.Pages()), kernelBytes) && old(vm.Pages()).totalPages > 0 ==>
              InitAffordable(OwnedFrom(old(vm.ram), old(vm.Pages()), pageMap).0, old(vm.Pages()), pageMap, kernelBytes, 1) ==>
                Translate(vm.ram, pageMap, 0) == None
  {
    ghost var ram, s, active := vm.ram, vm.Pages(), vm.activePageMap;
    MapMemoryAndKernel(vm, pageMap, kernelBytes);
    SuitableRoots(ram, s, vm.ram, vm.Pages(), pageMap, kernelBytes);
    mapped := vm.ram;
    ghost var t := vm.Pages();
    vm.Unmap(vm.activePageMap, 0);
    InitSummed(ram, s, mapped, t, pageMap, active, kernelBytes);
    vm.FlushPageMap(pageMap);
  }

  lemma InitSummed(ram: Ram, s: State, mapped: Ram, t: State, pageMap: Frame, active: Frame, kernelBytes: nat)
    requires Progress(s, t)
    requires pageMap != 0 && OwnedIn(ram, s, pageMap) && RoomForBoth(s, kernelBytes) ==>
               LoopsDone(ram, s, mapped, t, pageMap, kernelBytes, 0)
    requires SelfMapped(ram, s, pageMap) && s.totalPages > 0 && RoomForBoth(s, kernelBytes) ==>
               LoopsDone(OwnedFrom(ram, s, pageMap).0, s, mapped, t, pageMap, kernelBytes, 1)
    ensures pageMap != 0 && OwnedIn(ram, s, pageMap) && RoomForBoth(s, kernelBytes)
            && InitAffordable(ram, s, pageMap, kernelBytes, 0) && ClearsNullPage(ram, s, pageMap, active) ==>
              NewMap(ram, Unmapped(mapped, active, 0), t, pageMap, active, kernelBytes)
    ensures SelfMapped(ram, s, pageMap) && RoomForBoth(s, kernelBytes) && s.totalPages > 0 ==>
              InitAffordable(OwnedFrom(ram, s, pageMap).0, s, pageMap, kernelBytes, 1) ==>
                Translate(Unmapped(mapped, active, 0), pageMap, 0) == None
  {
    if pageMap != 0 && OwnedIn(ram, s, pageMap) && RoomForBoth(s, kernelBytes)
       && InitAffordable(ram, s, pageMap, kernelBytes, 0) && ClearsNullPage(ram, s, pageMap, active) {
      NullPageCleared(ram, s, mapped, t, pageMap, active, kernelBytes);
    }
    if SelfMapped(ram, s, pageMap) {
      SelfMappedOnce(ram, s, pageMap);
      UnmappedKeepsNone(mapped, active, 0, pageMap, Indices(0));
    }
  }

  /** A page without present entries is a hierarchy without mappings. */
  lemma EmptyRootOwned(ram: Ram, s: State, root: Frame)
    requires (forall i: Index :: !ram[root][i].flags.present) && Held(s, root)
    ensures OwnedIn(ram, s, root)
    ensures forall f: Frame :: IsTable(ram, root, f) ==> f == root
  {
    forall p: Path | p != []
      ensures Walk(ram, root, p) == None
    {
      assert !ram[root][p[0]].flags.present;
    }
  }

  /** So a fresh page without present entries is a separate hierarchy. */
  lemma FreshRootSeparate(ram: Ram, s: State, u: State, active: Frame, root: Frame)
    requires OwnedIn(ram, s, active) && Progress(s, u) && NewlyHeld(s, u, root)
    requires forall i: Index :: !ram[root][i].flags.present
    ensures OwnedIn(ram, u, root) && DisjointTables(ram, active, root)
  {
    EmptyRootOwned(ram, u, root);
  }

  /** `init_virtual` without an argument: the new root is a fresh page that is not zeroed. If what it holds happens to be a
      separate hierarchy of tables in use, and nothing else, the new map is as promised; the null page stays mapped. */
  method InitVirtualOnFreshPage(vm: VirtualMemory, kernelBytes: nat)
    requires vm.Valid()
    modifies vm`ram, vm`activePageMap, vm`cr3, vm.alloc, vm.alloc.pageMap.buffer
    ensures vm.Valid() && Progress(old(vm.Pages()), vm.Pages()) && vm.activePageMap == FreshFrame(old(vm.Pages()))
    ensures var ram, s, active := old(vm.ram), old(vm.Pages()), old(vm.activePageMap);
            var (u, root) := (RequestPage(s).0, FreshFrame(s));
            OwnedIn(ram, s, active) && Walk(ram, active, Indices(0)[..3]).Some? && root != 0 && OwnedIn(ram, u, root)
            && DisjointTables(ram, active, root) && RoomForBoth(s, kernelBytes) ==>
              && root != active && (vm.Pages().panicked <==> u.panicked || !InitAffordable(ram, u, root, kernelBytes, 0))
              && (InitAffordable(ram, u, root, kernelBytes, 0) ==> NewMap(ram, vm.ram, vm.Pages(), root, active, kernelBytes))
    // It can also be a root in which page 0 is lost.
    ensures var ram, s := old(vm.ram), old(vm.Pages());
            var (u, root) := (RequestPage(s).0, FreshFrame(s));
            SelfMapped(ram, u, root) && RoomForBoth(s, kernelBytes) && s.totalPages > 0
            && InitAffordable(OwnedFrom(ram, u, root).0, u, root, kernelBytes, 1) ==>
              Translate(vm.ram, root, 0) == None
  {
    ghost var ram, s, active := vm.ram, vm.Pages(), vm.activePageMap;
    var root := vm.RequestFrame();
    ghost var u := vm.Pages();
    if OwnedIn(ram, s, active) && OwnedIn(ram, u, root) && DisjointTables(ram, active, root) {
      RootsDiffer(ram, s, u, active, root);
    }
    ghost var mapped := InitVirtual(vm, root, kernelBytes);
  }

  lemma RootsDiffer(ram: Ram, s: State, u: State, active: Frame, root: Frame)
    requires OwnedIn(ram, s, active) && Progress(s, u) && DisjointTables(ram, active, root)
    ensures OwnedIn(ram, u, active) && active != root
  {
    assert IsTable(ram, active, active) by { assert Walk(ram, active, []) == Some(active); }
    assert IsTable(ram, root, root) by { assert Walk(ram, root, []) == Some(root); }
  }
}
