/** The pages behind the kernel heap: each heap page is mapped to a physical page of its own, which
    holds no page table. */
module HeapBacking {
  import opened MappingLoops
  import opened PageFrames
  import opened PageTrees
  import opened Paging
  import opened TableDemands
  import opened VirtualMemories
  import opened Wrappers

  /** The i-th heap page is mapped to a page that is in use and holds no table. */
  ghost predicate BackedPage(ram: Ram, s: State, root: Frame, start: nat, i: nat) {
    var page := Translate(ram, root, PageAt(start, i));
    page.Some? && Held(s, page.value) && !IsTable(ram, root, page.value)
  }

  /** No two heap pages share a physical page. */
  ghost predicate BackedApart(ram: Ram, root: Frame, start: nat, i: nat, j: nat) {
    Translate(ram, root, PageAt(start, i)) != Translate(ram, root, PageAt(start, j))
  }

  ghost predicate AllBacked(ram: Ram, s: State, root: Frame, start: nat, pages: nat) {
    && OwnedIn(ram, s, root)
    && (forall i: nat :: i < pages ==> BackedPage(ram, s, root, start, i))
    && (forall i: nat, j: nat :: i < j < pages ==> BackedApart(ram, root, start, i, j))
  }

  /** The same, open only where `Shown` is mentioned. */
  ghost predicate Backed(ram: Ram, s: State, root: Frame, start: nat, pages: nat) {
    forall k {:trigger Shown(k)} :: Shown(k) ==> AllBacked(ram, s, root, start, pages)
  }

  lemma BackedMeans(ram: Ram, s: State, root: Frame, start: nat, pages: nat)
    ensures Backed(ram, s, root, start, pages) <==> AllBacked(ram, s, root, start, pages)
  {
    assert Shown(0);
  }

  lemma NothingBacked(ram: Ram, s: State, root: Frame, start: nat)
    requires OwnedIn(ram, s, root)
    ensures Backed(ram, s, root, start, 0)
  {
  }

  /** A fresh page, mapped behind the last one. */
  lemma BackedGrows(ram: Ram, s: State, u: State, after: Ram, t: State, root: Frame, start: nat, pages: nat, page: Frame)
    requires AllBacked(ram, s, root, start, pages) && pages < 0x10_0000_0000
    requires Progress(s, u) && NewlyHeld(s, u, page) && Progress(u, t)
    requires Kept(ram, u, after, t, root) && Remapped(ram, after, root, Indices(PageAt(start, pages)), Some(page))
    ensures AllBacked(after, t, root, start, pages + 1)
  {
    forall i: nat | i < pages
      ensures Translate(after, root, PageAt(start, i)) == Translate(ram, root, PageAt(start, i))
      ensures BackedPage(after, t, root, start, i) && BackedApart(after, root, start, i, pages)
    {
      assert BackedPage(ram, s, root, start, i);
      PagesDistinct(start, i, pages);
    }
    assert BackedPage(after, t, root, start, pages);
    forall i: nat, j: nat | i < j < pages
      ensures BackedApart(after, root, start, i, j)
    {
      assert BackedApart(ram, root, start, i, j);
    }
  }

  // ----- how many pages a heap takes, and whether there are enough -----

  /** The heap from `start` to `end`, in whole pages, is backed in the active map. */
  ghost predicate HeapBacked(ram: Ram, s: State, root: Frame, start: nat, end: nat) {
    root != 0 && start <= end && (end - start) % PAGE_SIZE == 0 && Backed(ram, s, root, start, (end - start) / PAGE_SIZE)
  }

  /** What `count` more pages take: one each, and one for each table that their paths lack. */
  function HeapDemand(ram: Ram, root: Frame, paths: seq<Path>, count: nat): nat
    requires count <= |paths| && forall i :: 0 <= i < |paths| ==> |paths[i]| == 4
  {
    count + Demand(ram, root, paths, count)
  }

  /** `count` pages have been added to a heap that had `pages`. */
  ghost predicate PagesAdded(ram: Ram, s: State, after: Ram, t: State, root: Frame, start: nat, pages: nat,
                             paths: seq<Path>, count: nat)
    requires count <= |paths| && forall i :: 0 <= i < |paths| ==> |paths[i]| == 4
  {
    && Backed(after, t, root, start, pages + count) && Kept(ram, s, after, t, root)
    && (forall q: Path :: |q| == 4 && Apart(q, paths, count) ==> Walk(after, root, q) == Walk(ram, root, q))
    && TablesOn(ram, after, root, paths, count) && t == Requested(s, HeapDemand(ram, root, paths, count))
  }

  /** What adding them to a backed heap does: it panics if and only if there are not enough pages. */
  ghost predicate AddingEffect(ram: Ram, s: State, after: Ram, t: State, root: Frame, start: nat, pages: nat,
                               paths: seq<Path>, count: nat)
    requires count <= |paths| && forall i :: 0 <= i < |paths| ==> |paths[i]| == 4
  {
    && (t.panicked <==> s.panicked || HeapDemand(ram, root, paths, count) > FreePages(s))
    && (HeapDemand(ram, root, paths, count) <= FreePages(s) ==> PagesAdded(ram, s, after, t, root, start, pages, paths, count))
  }

  /** The same under a name of its own, so that other proofs need not look into it. */
  ghost predicate Adding(ram: Ram, s: State, after: Ram, t: State, root: Frame, start: nat, pages: nat,
                         paths: seq<Path>, count: nat)
    requires count <= |paths| && forall i :: 0 <= i < |paths| ==> |paths[i]| == 4
  {
    forall k {:trigger Shown(k)} :: Shown(k) ==> AddingEffect(ram, s, after, t, root, start, pages, paths, count)
  }

  lemma AddingMeans(ram: Ram, s: State, after: Ram, t: State, root: Frame, start: nat, pages: nat, paths: seq<Path>, count: nat)
    requires count <= |paths| && forall i :: 0 <= i < |paths| ==> |paths[i]| == 4
    ensures Adding(ram, s, after, t, root, start, pages, paths, count)
            <==> AddingEffect(ram, s, after, t, root, start, pages, paths, count)
  {
    assert Shown(0);
  }

  lemma NothingAdded(ram: Ram, s: State, root: Frame, start: nat, pages: nat, paths: seq<Path>)
    requires Backed(ram, s, root, start, pages) && forall i :: 0 <= i < |paths| ==> |paths[i]| == 4
    ensures Adding(ram, s, ram, s, root, start, pages, paths, 0)
  {
    BackedMeans(ram, s, root, start, pages);
    AddingMeans(ram, s, ram, s, root, start, pages, paths, 0);
  }

  /** Whether there are enough pages for one more. */
  lemma DemandForNext(ram: Ram, s: State, mid: Ram, u: State, root: Frame, start: nat, pages: nat, paths: seq<Path>, count: nat)
    requires count < |paths| && forall i :: 0 <= i < |paths| ==> |paths[i]| == 4
    requires PagesAdded(ram, s, mid, u, root, start, pages, paths, count) && HeapDemand(ram, root, paths, count) <= FreePages(s)
    ensures u.panicked == s.panicked
    ensures HeapDemand(ram, root, paths, count + 1)
            == HeapDemand(ram, root, paths, count) + 1 + MissingTables(mid, root, paths[count][..3])
    ensures FreePages(u) == FreePages(s) - HeapDemand(ram, root, paths, count)
  {
    MissingIsNew(ram, mid, root, paths, count, paths[count][..3]);
    RequestedFree(s, HeapDemand(ram, root, paths, count));
  }

  lemma TablesOnNext(ram: Ram, mid: Ram, u: State, after: Ram, t: State, root: Frame, paths: seq<Path>, count: nat)
    requires count < |paths| && forall i :: 0 <= i < |paths| ==> |paths[i]| == 4
    requires TablesOn(ram, mid, root, paths, count) && Extended(mid, u, after, t, root, paths[count][..3])
    ensures TablesOn(ram, after, root, paths, count + 1)
  {
    forall q: Path | IsTablePath(q)
      ensures OnPaths(q, paths, count + 1) == (OnPaths(q, paths, count) || q <= paths[count][..3])
    {
      assert q <= paths[count][..3] <==> q <= paths[count];
    }
  }

  /** One more page, when there are enough: `v` is the allocator once the page has been taken. */
  lemma PageAdded(ram: Ram, s: State, mid: Ram, u: State, v: State, after: Ram, t: State, root: Frame, start: nat, pages: nat,
                  paths: seq<Path>, count: nat, page: Frame)
    requires count < |paths| && pages + count < 0x10_0000_0000 && forall i :: 0 <= i < |paths| ==> |paths[i]| == 4
    requires PagesAdded(ram, s, mid, u, root, start, pages, paths, count) && HeapDemand(ram, root, paths, count) <= FreePages(s)
    requires Progress(s, u) && Progress(u, v) && Progress(v, t) && v == RequestPage(u).0 && NewlyHeld(u, v, page)
    requires paths[count] == Indices(PageAt(start, pages + count))
    requires Kept(mid, v, after, t, root) && Remapped(mid, after, root, paths[count], Some(page))
    requires Extended(mid, v, after, t, root, paths[count][..3])
    ensures PagesAdded(ram, s, after, t, root, start, pages, paths, count + 1)
  {
    BackedMeans(mid, u, root, start, pages + count);
    BackedGrows(mid, u, v, after, t, root, start, pages + count, page);
    BackedMeans(after, t, root, start, pages + count + 1);
    TablesOnNext(ram, mid, v, after, t, root, paths, count);
    KeptTransitive(ram, s, mid, u, after, t, root);
    AllTaken(ram, s, mid, u, v, t, root, start, pages, paths, count);
    forall q: Path | |q| == 4 && Apart(q, paths, count + 1)
      ensures Walk(after, root, q) == Walk(ram, root, q)
    {
      assert Apart(q, paths, count) && paths[count] != q;
    }
  }

  lemma TakenForNext(s: State, u: State, v: State, t: State, taken: nat, missing: nat)
    requires u == Requested(s, taken) && v == RequestPage(u).0 && t == Requested(v, missing)
    ensures t == Requested(s, taken + 1 + missing)
  {
    assert Requested(u, 1 + missing) == Requested(v, missing);
    RequestedJoin(s, taken, 1 + missing);
  }

  lemma AllTaken(ram: Ram, s: State, mid: Ram, u: State, v: State, t: State, root: Frame, start: nat, pages: nat,
                 paths: seq<Path>, count: nat)
    requires count < |paths| && forall i :: 0 <= i < |paths| ==> |paths[i]| == 4
    requires PagesAdded(ram, s, mid, u, root, start, pages, paths, count) && HeapDemand(ram, root, paths, count) <= FreePages(s)
    requires v == RequestPage(u).0 && t == Requested(v, MissingTables(mid, root, paths[count][..3]))
    ensures t == Requested(s, HeapDemand(ram, root, paths, count + 1))
  {
    DemandForNext(ram, s, mid, u, root, start, pages, paths, count);
    TakenForNext(s, u, v, t, HeapDemand(ram, root, paths, count), MissingTables(mid, root, paths[count][..3]));
  }

  /** One round of the loops that put pages behind the heap: a request and a mapping. */
  lemma AddingStep(ram: Ram, s: State, mid: Ram, u: State, after: Ram, t: State, root: Frame, start: nat, pages: nat,
                   paths: seq<Path>, count: nat)
    requires count < |paths| && pages + count < 0x10_0000_0000 && forall i :: 0 <= i < |paths| ==> |paths[i]| == 4
    requires Adding(ram, s, mid, u, root, start, pages, paths, count) && Progress(s, u) && u.totalPages <= FRAMES && root != 0
    requires paths[count] == Indices(PageAt(start, pages + count))
    requires MapsOne(root, READ_WRITE_GLOBAL, paths[count], FreshFrame(u), mid, RequestPage(u).0, after, t)
    ensures Adding(ram, s, after, t, root, start, pages, paths, count + 1)
  {
    var v := RequestPage(u).0;
    AddingMeans(ram, s, mid, u, root, start, pages, paths, count);
    AddingMeans(ram, s, after, t, root, start, pages, paths, count + 1);
    MapsOneMeans(root, READ_WRITE_GLOBAL, paths[count], FreshFrame(u), mid, v, after, t);
    FreshFrameHolds(u);
    RequestTakes(u);
    if HeapDemand(ram, root, paths, count) <= FreePages(s) {
      DemandForNext(ram, s, mid, u, root, start, pages, paths, count);
      BackedMeans(mid, u, root, start, pages + count);
      TablesStillOwned(mid, u, v, root);
      if HeapDemand(ram, root, paths, count + 1) <= FreePages(s) {
        PageAdded(ram, s, mid, u, v, after, t, root, start, pages, paths, count, FreshFrame(u));
      }
    }
  }

  lemma TablesStillOwned(ram: Ram, s: State, t: State, root: Frame)
    requires OwnedIn(ram, s, root) && Progress(s, t)
    ensures OwnedIn(ram, t, root)
  {
  }

  // ----- the heap grows from `end` to `newEnd` -----

  /** The first `count` of `total` pages have been put behind a backed heap, or pages have run out. */
  ghost predicate Growing(ram: Ram, s: State, after: Ram, t: State, root: Frame, start: nat, end: nat, total: nat, count: nat)
    requires count <= total
  {
    forall k {:trigger Shown(k)} :: Shown(k) ==>
      && Progress(s, t)
      && (HeapBacked(ram, s, root, start, end) && end + total * PAGE_SIZE - start <= ADDRESS_SPACE ==>
            Adding(ram, s, after, t, root, start, (end - start) / PAGE_SIZE, LoopPaths(end, total), count))
  }

  lemma GrowingMeans(ram: Ram, s: State, after: Ram, t: State, root: Frame, start: nat, end: nat, total: nat, count: nat)
    requires count <= total
    ensures Growing(ram, s, after, t, root, start, end, total, count) <==>
              && Progress(s, t)
              && (HeapBacked(ram, s, root, start, end) && end + total * PAGE_SIZE - start <= ADDRESS_SPACE ==>
                    Adding(ram, s, after, t, root, start, (end - start) / PAGE_SIZE, LoopPaths(end, total), count))
  {
    assert Shown(0);
  }

  lemma GrowingStart(ram: Ram, s: State, root: Frame, start: nat, end: nat, total: nat)
    ensures Growing(ram, s, ram, s, root, start, end, total, 0)
  {
    GrowingMeans(ram, s, ram, s, root, start, end, total, 0);
    if HeapBacked(ram, s, root, start, end) {
      NothingAdded(ram, s, root, start, (end - start) / PAGE_SIZE, LoopPaths(end, total));
    }
  }

  lemma GrowingStep(ram: Ram, s: State, mid: Ram, u: State, after: Ram, t: State, root: Frame, start: nat, end: nat, total: nat,
                    count: nat)
    requires count < total && Growing(ram, s, mid, u, root, start, end, total, count) && u.totalPages <= FRAMES
    requires MapsOne(root, READ_WRITE_GLOBAL, Indices(PageAt(end, count)), FreshFrame(u), mid, RequestPage(u).0, after, t)
    ensures Growing(ram, s, after, t, root, start, end, total, count + 1)
  {
    GrowingMeans(ram, s, mid, u, root, start, end, total, count);
    GrowingMeans(ram, s, after, t, root, start, end, total, count + 1);
    MapsOneMeans(root, READ_WRITE_GLOBAL, Indices(PageAt(end, count)), FreshFrame(u), mid, RequestPage(u).0, after, t);
    FreshFrameHolds(u);
    if HeapBacked(ram, s, root, start, end) && end + total * PAGE_SIZE - start <= ADDRESS_SPACE {
      var pages := (end - start) / PAGE_SIZE;
      assert PageAt(start, pages + count) == PageAt(end, count) && pages + count < 0x10_0000_0000;
      AddingStep(ram, s, mid, u, after, t, root, start, pages, LoopPaths(end, total), count);
    }
  }

  /** A backed heap that ends at `end` has grown to `newEnd`, or pages have run out; which of the two is settled before. */
  ghost predicate Extension(ram: Ram, s: State, after: Ram, t: State, root: Frame, start: nat, end: nat, newEnd: nat) {
    exists n: nat :: newEnd == PageAt(end, n) && Growing(ram, s, after, t, root, start, end, n, n)
  }

  /** Then it is backed if there are enough pages, and otherwise, and only then, there is a panic. */
  lemma ExtensionMeans(ram: Ram, s: State, after: Ram, t: State, root: Frame, start: nat, end: nat, newEnd: nat)
    requires Extension(ram, s, after, t, root, start, end, newEnd)
    ensures Progress(s, t) && end <= newEnd
    ensures HeapBacked(ram, s, root, start, end) && newEnd - start <= ADDRESS_SPACE ==>
              var n := (newEnd - end) / PAGE_SIZE;
              var (paths, demand) := (LoopPaths(end, n), HeapDemand(ram, root, LoopPaths(end, n), n));
              && (t.panicked <==> s.panicked || demand > FreePages(s))
              && (demand <= FreePages(s) ==>
                    && HeapBacked(after, t, root, start, newEnd) && Kept(ram, s, after, t, root) && t == Requested(s, demand)
                    && forall q: Path :: |q| == 4 && Apart(q, paths, n) ==> Walk(after, root, q) == Walk(ram, root, q))
  {
    var n: nat :| newEnd == PageAt(end, n) && Growing(ram, s, after, t, root, start, end, n, n);
    PagesBetween(end, newEnd, n);
    GrowthMeans(ram, s, after, t, root, start, end, newEnd, n);
  }

  lemma PagesBetween(end: nat, newEnd: nat, n: nat)
    requires newEnd == PageAt(end, n)
    ensures end <= newEnd && (newEnd - end) / PAGE_SIZE == n
  {
  }

  lemma GrowthMeans(ram: Ram, s: State, after: Ram, t: State, root: Frame, start: nat, end: nat, newEnd: nat, n: nat)
    requires newEnd == PageAt(end, n) && Growing(ram, s, after, t, root, start, end, n, n)
    ensures Progress(s, t)
    ensures HeapBacked(ram, s, root, start, end) && newEnd - start <= ADDRESS_SPACE ==>
              var (paths, demand) := (LoopPaths(end, n), HeapDemand(ram, root, LoopPaths(end, n), n));
              && (t.panicked <==> s.panicked || demand > FreePages(s))
              && (demand <= FreePages(s) ==>
                    && HeapBacked(after, t, root, start, newEnd) && Kept(ram, s, after, t, root) && t == Requested(s, demand)
                    && forall q: Path :: |q| == 4 && Apart(q, paths, n) ==> Walk(after, root, q) == Walk(ram, root, q))
  {
    GrowingMeans(ram, s, after, t, root, start, end, n, n);
    if HeapBacked(ram, s, root, start, end) && newEnd - start <= ADDRESS_SPACE {
      AddingMeans(ram, s, after, t, root, start, (end - start) / PAGE_SIZE, LoopPaths(end, n), n);
      WholePages(start, end, n);
    }
  }

  lemma WholePages(start: nat, end: nat, n: nat)
    requires start <= end && (end - start) % PAGE_SIZE == 0
    ensures var newEnd := PageAt(end, n);
            (newEnd - start) % PAGE_SIZE == 0 && (newEnd - start) / PAGE_SIZE == (end - start) / PAGE_SIZE + n
  {
  }

  lemma NoExtension(ram: Ram, s: State, root: Frame, start: nat, end: nat)
    ensures Extension(ram, s, ram, s, root, start, end, end)
  {
    GrowingStart(ram, s, root, start, end, 0);
    assert end == PageAt(end, 0);
  }

  // ----- growing twice is growing once by both amounts -----

  lemma ExtensionsJoin(ram: Ram, s: State, mid: Ram, u: State, after: Ram, t: State, root: Frame, start: nat, end: nat,
                       midEnd: nat, newEnd: nat)
    requires Extension(ram, s, mid, u, root, start, end, midEnd) && Extension(mid, u, after, t, root, start, midEnd, newEnd)
    ensures Extension(ram, s, after, t, root, start, end, newEnd)
  {
    var a: nat :| midEnd == PageAt(end, a) && Growing(ram, s, mid, u, root, start, end, a, a);
    var b: nat :| newEnd == PageAt(midEnd, b) && Growing(mid, u, after, t, root, start, midEnd, b, b);
    GrowingJoin(ram, s, mid, u, after, t, root, start, end, a, midEnd, b, a + b);
    assert newEnd == PageAt(end, a + b);
  }

  lemma GrowingJoin(ram: Ram, s: State, mid: Ram, u: State, after: Ram, t: State, root: Frame, start: nat, end: nat, a: nat,
                    midEnd: nat, b: nat, n: nat)
    requires midEnd == PageAt(end, a) && n == a + b
    requires Growing(ram, s, mid, u, root, start, end, a, a) && Growing(mid, u, after, t, root, start, midEnd, b, b)
    ensures Growing(ram, s, after, t, root, start, end, n, n)
  {
    GrowingMeans(ram, s, mid, u, root, start, end, a, a);
    GrowingMeans(mid, u, after, t, root, start, midEnd, b, b);
    GrowingMeans(ram, s, after, t, root, start, end, n, n);
    if HeapBacked(ram, s, root, start, end) && end + n * PAGE_SIZE - start <= ADDRESS_SPACE {
      WholePages(start, end, a);
      assert midEnd + b * PAGE_SIZE == end + n * PAGE_SIZE;
      PathsJoin(end, a, b);
      GrownTwice(ram, s, mid, u, after, t, root, start, midEnd, (end - start) / PAGE_SIZE, LoopPaths(end, a),
                 LoopPaths(midEnd, b), LoopPaths(end, n));
    }
  }

  lemma GrownTwice(ram: Ram, s: State, mid: Ram, u: State, after: Ram, t: State, root: Frame, start: nat, midEnd: nat, pages: nat,
                   a: seq<Path>, b: seq<Path>, both: seq<Path>)
    requires (forall i :: 0 <= i < |a| ==> |a[i]| == 4) && forall i :: 0 <= i < |b| ==> |b[i]| == 4
    requires both == a + b && (forall i :: 0 <= i < |both| ==> |both[i]| == 4) && Progress(s, u) && Progress(u, t)
    requires Adding(ram, s, mid, u, root, start, pages, a, |a|)
    requires root != 0 && start <= midEnd && (midEnd - start) % PAGE_SIZE == 0 && (midEnd - start) / PAGE_SIZE == pages + |a|
    requires HeapBacked(mid, u, root, start, midEnd) ==> Adding(mid, u, after, t, root, start, pages + |a|, b, |b|)
    ensures Adding(ram, s, after, t, root, start, pages, both, |both|)
  {
    AddingMeans(ram, s, mid, u, root, start, pages, a, |a|);
    AddingsJoin(ram, s, mid, u, after, t, root, start, pages, a, b, both);
  }

  lemma PathsJoin(end: nat, a: nat, b: nat)
    ensures LoopPaths(end, a + b) == LoopPaths(end, a) + LoopPaths(PageAt(end, a), b)
  {
    var first, second := LoopPaths(end, a), LoopPaths(PageAt(end, a), b);
    forall i: nat | i < a + b
      ensures LoopPaths(end, a + b)[i] == (first + second)[i]
    {
      assert LoopPaths(end, a + b)[i] == Indices(PageAt(end, i));
      if i < a {
        assert first[i] == Indices(PageAt(end, i));
      } else {
        assert second[i - a] == Indices(PageAt(PageAt(end, a), i - a));
        assert PageAt(end, i) == PageAt(PageAt(end, a), i - a);
      }
    }
  }

  lemma AddingsJoin(ram: Ram, s: State, mid: Ram, u: State, after: Ram, t: State, root: Frame, start: nat, pages: nat,
                    a: seq<Path>, b: seq<Path>, both: seq<Path>)
    requires (forall i :: 0 <= i < |a| ==> |a[i]| == 4) && forall i :: 0 <= i < |b| ==> |b[i]| == 4
    requires both == a + b && (forall i :: 0 <= i < |both| ==> |both[i]| == 4) && Progress(s, u) && Progress(u, t)
    requires Adding(ram, s, mid, u, root, start, pages, a, |a|)
    requires HeapDemand(ram, root, a, |a|) <= FreePages(s) ==> Adding(mid, u, after, t, root, start, pages + |a|, b, |b|)
    ensures Adding(ram, s, after, t, root, start, pages, both, |both|)
  {
    AddingMeans(ram, s, mid, u, root, start, pages, a, |a|);
    AddingMeans(ram, s, after, t, root, start, pages, both, |both|);
    DemandPrefix(ram, root, a, both, |a|);
    DemandMonotone(ram, root, both, |a|, |both|);
    if HeapDemand(ram, root, a, |a|) <= FreePages(s) {
      AddingMeans(mid, u, after, t, root, start, pages + |a|, b, |b|);
      DemandOfBoth(ram, s, mid, u, root, a, b, both);
      if HeapDemand(ram, root, both, |both|) <= FreePages(s) {
        PagesAddedJoin(ram, s, mid, u, after, t, root, start, pages, a, b, both);
      }
    }
  }

  lemma DemandOfBoth(ram: Ram, s: State, mid: Ram, u: State, root: Frame, a: seq<Path>, b: seq<Path>, both: seq<Path>)
    requires (forall i :: 0 <= i < |a| ==> |a[i]| == 4) && forall i :: 0 <= i < |b| ==> |b[i]| == 4
    requires both == a + b && forall i :: 0 <= i < |both| ==> |both[i]| == 4
    requires HeapDemand(ram, root, a, |a|) <= FreePages(s) && TablesOn(ram, mid, root, a, |a|)
    requires u == Requested(s, HeapDemand(ram, root, a, |a|))
    ensures u.panicked == s.panicked && FreePages(u) == FreePages(s) - HeapDemand(ram, root, a, |a|)
    ensures HeapDemand(ram, root, both, |both|) == HeapDemand(ram, root, a, |a|) + HeapDemand(mid, root, b, |b|)
    ensures Requested(u, HeapDemand(mid, root, b, |b|)) == Requested(s, HeapDemand(ram, root, both, |both|))
  {
    var first, second := HeapDemand(ram, root, a, |a|), HeapDemand(mid, root, b, |b|);
    RequestedFree(s, first);
    DemandAppend(ram, mid, root, a, b, both);
    RequestedJoin(s, first, second);
  }

  lemma WalksJoin(ram: Ram, mid: Ram, after: Ram, root: Frame, a: seq<Path>, b: seq<Path>, both: seq<Path>)
    requires both == a + b
    requires forall q: Path :: |q| == 4 && Apart(q, a, |a|) ==> Walk(mid, root, q) == Walk(ram, root, q)
    requires forall q: Path :: |q| == 4 && Apart(q, b, |b|) ==> Walk(after, root, q) == Walk(mid, root, q)
    ensures forall q: Path :: |q| == 4 && Apart(q, both, |both|) ==> Walk(after, root, q) == Walk(ram, root, q)
  {
    forall q: Path | |q| == 4 && Apart(q, both, |both|)
      ensures Walk(after, root, q) == Walk(ram, root, q)
    {
      ApartJoin(q, a, b);
    }
  }

  lemma PagesAddedJoin(ram: Ram, s: State, mid: Ram, u: State, after: Ram, t: State, root: Frame, start: nat, pages: nat,
                       a: seq<Path>, b: seq<Path>, both: seq<Path>)
    requires (forall i :: 0 <= i < |a| ==> |a[i]| == 4) && (forall i :: 0 <= i < |b| ==> |b[i]| == 4)
    requires both == a + b && (forall i :: 0 <= i < |both| ==> |both[i]| == 4) && Progress(s, u)
    requires PagesAdded(ram, s, mid, u, root, start, pages, a, |a|) && PagesAdded(mid, u, after, t, root, start, pages + |a|, b, |b|)
    requires Requested(u, HeapDemand(mid, root, b, |b|)) == Requested(s, HeapDemand(ram, root, both, |both|))
    ensures PagesAdded(ram, s, after, t, root, start, pages, both, |both|)
  {
    KeptTransitive(ram, s, mid, u, after, t, root);
    TablesOnJoin(ram, mid, after, root, a, b, both);
    WalksJoin(ram, mid, after, root, a, b, both);
    assert pages + |both| == pages + |a| + |b|;
  }

  lemma TablesOnJoin(ram: Ram, mid: Ram, after: Ram, root: Frame, a: seq<Path>, b: seq<Path>, both: seq<Path>)
    requires both == a + b && TablesOn(ram, mid, root, a, |a|) && TablesOn(mid, after, root, b, |b|)
    ensures TablesOn(ram, after, root, both, |both|)
  {
    forall q: Path | IsTablePath(q)
      ensures OnPaths(q, both, |both|) <==> OnPaths(q, a, |a|) || OnPaths(q, b, |b|)
    {
      OnPathsOf(q, a, b, both, |b|);
    }
  }

  lemma ApartJoin(q: Path, a: seq<Path>, b: seq<Path>)
    requires Apart(q, a + b, |a + b|)
    ensures Apart(q, a, |a|) && Apart(q, b, |b|)
  {
    assert forall i :: 0 <= i < |a| ==> (a + b)[i] == a[i];
    assert forall i :: 0 <= i < |b| ==> (a + b)[|a| + i] == b[i];
  }
}
