/** `clone_active_page_map` of kernel/memory/virtual_memory_manager.cc: a copy of all tables of a
    hierarchy, made of fresh pages. Only the page of the new root is zeroed; in the copies of the
    middle levels an entry that the original lacks keeps whatever the fresh page contained. */
module PageMapClones {
  import opened Bitmaps
  import opened ClonePlans
  import opened PageFrames
  import opened PageMapMirrors
  import opened PageTrees
  import opened Paging
  import opened TableDemands
  import opened VirtualMemories
  import opened Wrappers

  // ----- copying -----

  /** What the copying methods may rely on. `src` is the memory at the start of the clone and `held`
      the set of pages held then: those pages, and the pages not handed out yet, are as in `src`. */
  ghost predicate Untouched(src: Ram, held: set<Frame>, ram: Ram, s: State) {
    && (forall f: Frame :: f in held ==> Held(s, f) && ram[f] == src[f])
    && (forall f: Frame :: !Held(s, f) ==> ram[f] == src[f])
  }

  /** All tables that walks of up to `depth` steps from `o` reach are in `held`. */
  ghost predicate Within(src: Ram, o: Frame, depth: nat, held: set<Frame>) {
    forall q: Path :: |q| <= depth && Walk(src, o, q).Some? ==> Walk(src, o, q).value in held
  }

  lemma WithinChild(src: Ram, o: Frame, depth: nat, held: set<Frame>, i: Index)
    requires depth > 0 && Within(src, o, depth, held) && src[o][i].flags.present
    ensures Within(src, src[o][i].frame, depth - 1, held)
  {
    forall q: Path | |q| <= depth - 1 && Walk(src, src[o][i].frame, q).Some?
      ensures Walk(src, src[o][i].frame, q).value in held
    {
      assert ([i] + q)[1..] == q;
      assert Walk(src, o, [i] + q) == Walk(src, src[o][i].frame, q);
    }
  }

  /** Only pages that were not held were written, apart from `n`, and all of them are held now. */
  ghost predicate OnlyNewPages(ram: Ram, s: State, after: Ram, t: State) {
    && Progress(s, t)
    && (forall f: Frame :: Held(s, f) ==> after[f] == ram[f])
    && (forall f: Frame :: !Held(t, f) ==> after[f] == ram[f])
  }

  ghost predicate NewPlaces(places: Places, s: State, t: State) {
    forall f: Frame :: f in places ==> !Held(s, f) && Held(t, f)
  }

  /** What one loop over the entries of a table works on: the table and its copy, `depth` levels above the last one and
      on the path `prefix`; memory and the pages held when cloning began; and the state the loop began in. */
  datatype Job = Job(src: Ram, held: set<Frame>, ram0: Ram, s0: State, original: Frame, copy: Frame, depth: nat, prefix: Path)

  /** The state of the loop: the entries below `done` have been copied, into the planned pages. */
  ghost predicate Copying(job: Job, ram: Ram, s: State, places: Places, done: nat) {
    match job
    case Job(src, held, ram0, s0, o, n, depth, prefix) =>
      && depth > 0 && done <= 512 && n !in held && Held(s0, n) && o in held
      && Untouched(src, held, ram, s) && OnlyNewPages(ram0[n := ram[n]], s0, ram, s) && NewPlaces(places, s0, s)
      && MirrorEntries(src, o, ram, n, depth, places, prefix, done)
      && PlanEntries(src, o, depth, prefix, s0, done) == (s, places)
  }

  /** From allocator state `s` to (after, t), table `n` and the pages in `places` have become a copy of table `o`, as
      planned. */
  ghost predicate Copied(src: Ram, o: Frame, depth: nat, prefix: Path, s: State, after: Ram, t: State, n: Frame, places: Places) {
    match PlanTable(src, o, depth, prefix, s)
    case (u, planned) =>
      u == t && planned == places && NewPlaces(places, s, t) && Mirror(src, o, after, n, depth, places, prefix)
  }

  // In the methods below only what follows from these two predicates matters. They are wrapped, and open where `Shown`
  // is mentioned. The places are determined by the plan.

  ghost function CopyingAt(job: Job, ram: Ram, s: State, done: nat): Option<Places> {
    var r: Option<Places> :| forall k {:trigger Shown(k)} :: Shown(k) ==>
      r == if exists places :: Copying(job, ram, s, places, done)
           then Some(PlanEntries(job.src, job.original, job.depth, job.prefix, job.s0, done).1) else None;
    r
  }

  ghost function CopiedAt(src: Ram, o: Frame, depth: nat, prefix: Path, s: State, after: Ram, t: State, n: Frame): Option<Places> {
    var r: Option<Places> :| forall k {:trigger Shown(k)} :: Shown(k) ==>
      r == if exists places :: Copied(src, o, depth, prefix, s, after, t, n, places)
           then Some(PlanTable(src, o, depth, prefix, s).1) else None;
    r
  }

  lemma CopyingShown(job: Job, ram: Ram, s: State, places: Places, done: nat)
    ensures CopyingAt(job, ram, s, done) == Some(places) <==> Copying(job, ram, s, places, done)
  {
    assert Shown(0);
  }

  lemma CopiedShown(src: Ram, o: Frame, depth: nat, prefix: Path, s: State, after: Ram, t: State, n: Frame, places: Places)
    ensures CopiedAt(src, o, depth, prefix, s, after, t, n) == Some(places)
            <==> Copied(src, o, depth, prefix, s, after, t, n, places)
  {
    assert Shown(0);
  }

  lemma CopyingSkip(job: Job, ram: Ram, s: State, places: Places, i: Index)
    requires CopyingAt(job, ram, s, i) == Some(places) && !job.src[job.original][i].flags.present
    ensures CopyingAt(job, ram, s, i + 1) == Some(places)
  {
    CopyingShown(job, ram, s, places, i);
    MirrorEntrySkipped(job.src, job.original, ram, job.copy, job.depth, places, job.prefix, i);
    CopyingShown(job, ram, s, places, i + 1);
  }

  lemma CopyingReads(job: Job, ram: Ram, s: State, places: Places, done: nat)
    requires CopyingAt(job, ram, s, done) == Some(places)
    ensures ram[job.original] == job.src[job.original] && Untouched(job.src, job.held, ram, s)
    ensures OnlyNewPages(job.ram0[job.copy := ram[job.copy]], job.s0, ram, s)
  {
    CopyingShown(job, ram, s, places, done);
  }

  /** Whether the first `done` entries can be copied is settled when the loop begins. */
  ghost predicate Copyable(job: Job, done: nat)
    requires job.depth > 0 && done <= 512
  {
    CopyableIsDefined(job, done);
    var truth: bool :| CopyableIs(truth, job, done);
    truth
  }

  ghost predicate CopyableIs(truth: bool, job: Job, done: nat)
    requires job.depth > 0 && done <= 512
  {
    forall k {:trigger Shown(k)} :: Shown(k) ==> (truth <==> (EntriesToCopy(job.src, job.original, job.depth, done) <= FreePages(job.s0)))
  }

  lemma CopyableIsDefined(job: Job, done: nat)
    requires job.depth > 0 && done <= 512
    ensures exists truth: bool :: CopyableIs(truth, job, done)
  {
    assert CopyableIs(EntriesToCopy(job.src, job.original, job.depth, done) <= FreePages(job.s0), job, done);
  }

  lemma CopyableMeans(job: Job, done: nat)
    requires job.depth > 0 && done <= 512
    ensures Copyable(job, done) <==> EntriesToCopy(job.src, job.original, job.depth, done) <= FreePages(job.s0)
  {
    assert Shown(0);
  }

  /** There are enough pages for a copy of a table and everything below it. */
  ghost predicate Affords(s: State, src: Ram, o: Frame, depth: nat)
  {
    AffordsIsDefined(s, src, o, depth);
    var truth: bool :| AffordsIs(truth, s, src, o, depth);
    truth
  }

  ghost predicate AffordsIs(truth: bool, s: State, src: Ram, o: Frame, depth: nat)
  {
    forall k {:trigger Shown(k)} :: Shown(k) ==> (truth <==> (TablesToCopy(src, o, depth) <= FreePages(s)))
  }

  lemma AffordsIsDefined(s: State, src: Ram, o: Frame, depth: nat)
    ensures exists truth: bool :: AffordsIs(truth, s, src, o, depth)
  {
    assert AffordsIs(TablesToCopy(src, o, depth) <= FreePages(s), s, src, o, depth);
  }

  lemma AffordsMeans(s: State, src: Ram, o: Frame, depth: nat)
    ensures Affords(s, src, o, depth) <==> TablesToCopy(src, o, depth) <= FreePages(s)
  {
    assert Shown(0);
  }

  /** What the loop has taken so far, and what is left. */
  lemma CopyingTakes(job: Job, ram: Ram, s: State, places: Places, done: nat)
    requires CopyingAt(job, ram, s, done) == Some(places) && job.s0.totalPages <= FRAMES && done <= 512 && job.depth > 0
    requires Copyable(job, done)
    ensures s.panicked == job.s0.panicked && (Held(job.s0, 0) ==> Held(s, 0))
    ensures FreePages(s) == FreePages(job.s0) - EntriesToCopy(job.src, job.original, job.depth, done)
  {
    var n := EntriesToCopy(job.src, job.original, job.depth, done);
    CopyableMeans(job, done);
    CopyingShown(job, ram, s, places, done);
    EntriesTake(job.src, job.original, job.depth, job.prefix, job.s0, done);
    RequestedFree(job.s0, n);
    RequestedHolds(job.s0, n);
  }

  /** The page for a table itself. */
  lemma TableRequested(s: State, src: Ram, o: Frame, depth: nat)
    requires s.totalPages <= FRAMES
    ensures Held(s, 0) ==>
              if FreshFrame(s) == 0 then !Affords(s, src, o, depth) && RequestPage(s).0.panicked
              else Held(RequestPage(s).0, 0) && (depth == 0 ==> Affords(s, src, o, depth))
  {
    AffordsMeans(s, src, o, depth);
    FreshFrameHolds(s);
    RequestTakes(s);
  }

  lemma RestCopyable(job: Job, s: State)
    requires s.totalPages <= FRAMES && FreshFrame(s) != 0 && job.s0 == RequestPage(s).0 && job.depth > 0
    ensures Copyable(job, 512) <==> Affords(s, job.src, job.original, job.depth)
  {
    AffordsMeans(s, job.src, job.original, job.depth);
    CopyableMeans(job, 512);
    RequestTakes(s);
  }

  /** So is whether the next entry can be. */
  lemma EntrySettled(job: Job, ram: Ram, s: State, places: Places, i: Index)
    requires job.s0.totalPages <= FRAMES && job.depth > 0 && job.src[job.original][i].flags.present
    requires CopyingAt(job, ram, s, i) == Some(places)
    ensures Held(job.s0, 0) && Copyable(job, i) ==>
              Held(s, 0) && (Copyable(job, i + 1) <==> Affords(s, job.src, job.src[job.original][i].frame, job.depth - 1))
  {
    AffordsMeans(s, job.src, job.src[job.original][i].frame, job.depth - 1);
    CopyableMeans(job, i);
    CopyableMeans(job, i + 1);
    if Copyable(job, i) {
      CopyingTakes(job, ram, s, places, i);
    }
  }

  lemma CopyableSkip(job: Job, i: Index)
    requires job.depth > 0 && !job.src[job.original][i].flags.present
    ensures Copyable(job, i + 1) <==> Copyable(job, i)
  {
    CopyableMeans(job, i);
    CopyableMeans(job, i + 1);
  }

  lemma CopyableBefore(job: Job, done: nat, further: nat)
    requires job.depth > 0 && done <= further <= 512 && Copyable(job, further)
    ensures Copyable(job, done)
  {
    CopyableMeans(job, done);
    CopyableMeans(job, further);
    EntriesMonotone(job.src, job.original, job.depth, done, further);
  }

  /** A child table was copied: nothing but new pages was written. */
  lemma CopyingChild(job: Job, before: Ram, s: State, mid: Ram, t: State, places: Places, i: Index)
    requires CopyingAt(job, before, s, i) == Some(places) && OnlyNewPages(before, s, mid, t)
    ensures Untouched(job.src, job.held, mid, t) && OnlyNewPages(job.ram0[job.copy := mid[job.copy]], job.s0, mid, t)
    ensures mid[job.copy] == before[job.copy] && mid[job.original] == job.src[job.original]
    ensures forall f: Frame :: f in places ==> mid[f] == before[f]
  {
    CopyingShown(job, before, s, places, i);
  }

  lemma StepWrites(job: Job, before: Ram, s: State, mid: Ram, t: State, places: Places, i: Index,
                   e: PageDirectoryEntry, childPlaces: Places)
    requires Copying(job, before, s, places, i) && OnlyNewPages(before, s, mid, t) && NewPlaces(childPlaces, s, t)
    ensures var after := WriteEntry(mid, job.copy, i, e);
            && Untouched(job.src, job.held, after, t) && OnlyNewPages(job.ram0[job.copy := after[job.copy]], job.s0, after, t)
            && NewPlaces(places + childPlaces, job.s0, t)
    ensures places.Keys !! childPlaces.Keys && job.copy !in places && job.copy !in childPlaces && mid[job.copy] == before[job.copy]
    ensures forall f: Frame :: f in places ==> mid[f] == before[f]
  {
    var after := WriteEntry(mid, job.copy, i, e);
    assert job.ram0[job.copy := after[job.copy]] == job.ram0[job.copy := mid[job.copy]][job.copy := after[job.copy]];
  }

  /** The entry for the copy of the child is written. */
  lemma CopyingStep(job: Job, before: Ram, s: State, mid: Ram, t: State, places: Places, i: Index,
                    e: PageDirectoryEntry, depth: nat, child: Frame, childPlaces: Places)
    requires CopyingAt(job, before, s, i) == Some(places) && OnlyNewPages(before, s, mid, t)
    requires depth == job.depth > 0 && e == job.src[job.original][i] && e.flags.present
    requires CopiedAt(job.src, e.frame, depth - 1, job.prefix + [i], s, mid, t, child) == Some(childPlaces)
    ensures CopyingAt(job, WriteEntry(mid, job.copy, i, e.SetAddress(child)), t, i + 1) == Some(places + childPlaces)
  {
    CopyingShown(job, before, s, places, i);
    CopiedShown(job.src, e.frame, depth - 1, job.prefix + [i], s, mid, t, child, childPlaces);
    StepWrites(job, before, s, mid, t, places, i, e.SetAddress(child), childPlaces);
    var after := WriteEntry(mid, job.copy, i, e.SetAddress(child));
    MirrorEntryDone(job.src, job.original, before, mid, after, job.copy, depth, places, childPlaces, job.prefix, i, child);
    CopyingShown(job, after, t, places + childPlaces, i + 1);
  }

  /** A copy of one table and everything below it, in fresh pages; frame 0 stands for failure. The
      tables above the last level are `depth` levels above it. */
  method CloneTable(vm: VirtualMemory, oldTable: Frame, depth: nat,
                    ghost prefix: Path, ghost src: Ram, ghost held: set<Frame>)
    returns (newTable: Frame, ghost places: Places)
    requires vm.Valid() && Untouched(src, held, vm.ram, vm.Pages()) && Within(src, oldTable, depth, held)
    modifies vm`ram, vm.alloc, vm.alloc.pageMap.buffer
    ensures vm.Valid() && OnlyNewPages(old(vm.ram), old(vm.Pages()), vm.ram, vm.Pages())
    ensures newTable != 0 ==>
              CopiedAt(src, oldTable, depth, prefix, old(vm.Pages()), vm.ram, vm.Pages(), newTable) == Some(places)
    ensures Held(old(vm.Pages()), 0) ==>
              && (newTable != 0 <==> Affords(old(vm.Pages()), src, oldTable, depth))
              && (newTable == 0 ==> vm.Pages().panicked)
    decreases depth, 2
  {
    places := map[];
    ghost var s := vm.Pages();
    TableRequested(s, src, oldTable, depth);
    newTable := vm.RequestFrame();
    if newTable == 0 {
      return;
    }
    assert Walk(src, oldTable, []) == Some(oldTable);
    if depth == 0 {
      vm.ram := vm.ram[newTable := vm.ram[oldTable]];
      places := map[newTable := prefix];
      CopiedShown(src, oldTable, depth, prefix, s, vm.ram, vm.Pages(), newTable, places);
    } else {
      ghost var job := Job(src, held, vm.ram, vm.Pages(), oldTable, newTable, depth, prefix);
      CopyingStarts(src, held, vm.ram, vm.Pages(), oldTable, newTable, depth, prefix);
      RestCopyable(job, s);
      var copied;
      copied, places := CloneEntries(vm, oldTable, newTable, depth, job);
      if !copied {
        newTable := 0;
        return;
      }
      CopyingEnds(job, s, vm.ram, vm.Pages(), places);
      places := places[newTable := prefix];
    }
  }

  /** The loop body for an entry that is present in the original. */
  method CloneEntry(vm: VirtualMemory, oldTable: Frame, newTable: Frame, depth: nat, i: Index, ghost job: Job, ghost places: Places)
    returns (copied: bool, ghost more: Places)
    requires vm.Valid() && oldTable == job.original && newTable == job.copy && depth == job.depth > 0
    requires Within(job.src, oldTable, job.depth, job.held) && job.src[oldTable][i].flags.present
    requires CopyingAt(job, vm.ram, vm.Pages(), i) == Some(places)
    modifies vm`ram, vm.alloc, vm.alloc.pageMap.buffer
    ensures vm.Valid() && OnlyNewPages(job.ram0[newTable := vm.ram[newTable]], job.s0, vm.ram, vm.Pages())
    ensures copied ==> CopyingAt(job, vm.ram, vm.Pages(), i + 1) == Some(more)
    ensures Held(job.s0, 0) && Copyable(job, i) ==> (copied <==> Copyable(job, i + 1)) && (!copied ==> vm.Pages().panicked)
    decreases depth, 0
  {
    ghost var before, s := vm.ram, vm.Pages();
    CopyingReads(job, before, s, places, i);
    EntrySettled(job, before, s, places, i);
    var pde := vm.ram[oldTable][i];
    WithinChild(job.src, oldTable, job.depth, job.held, i);
    var child;
    ghost var childPlaces;
    child, childPlaces := CloneTable(vm, pde.frame, depth - 1, job.prefix + [i], job.src, job.held);
    ghost var mid, t := vm.ram, vm.Pages();
    CopyingChild(job, before, s, mid, t, places, i);
    more := places + childPlaces;
    if child == 0 {
      return false, more;
    }
    CopyingStep(job, before, s, mid, t, places, i, pde, depth, child, childPlaces);
    pde := vm.ram[oldTable][i];
    pde := pde.SetAddress(child);
    vm.ram := WriteEntry(vm.ram, newTable, i, pde);
    CopyingReads(job, vm.ram, t, more, i + 1);
    copied := true;
  }

  /** The loop over the 512 entries of a table above the last level. */
  method CloneEntries(vm: VirtualMemory, oldTable: Frame, newTable: Frame, depth: nat, ghost job: Job)
    returns (copied: bool, ghost places: Places)
    requires vm.Valid() && oldTable == job.original && newTable == job.copy && depth == job.depth > 0
    requires Within(job.src, oldTable, job.depth, job.held) && CopyingAt(job, vm.ram, vm.Pages(), 0) == Some(map[])
    modifies vm`ram, vm.alloc, vm.alloc.pageMap.buffer
    ensures vm.Valid() && OnlyNewPages(job.ram0[newTable := vm.ram[newTable]], job.s0, vm.ram, vm.Pages())
    ensures copied ==> CopyingAt(job, vm.ram, vm.Pages(), 512) == Some(places)
    ensures Held(job.s0, 0) ==> (copied <==> Copyable(job, 512)) && (!copied ==> vm.Pages().panicked)
    decreases depth, 1
  {
    places := map[];
    CopyableMeans(job, 0);
    CopyingReads(job, vm.ram, vm.Pages(), places, 0);
    for i := 0 to 512
      invariant vm.Valid() && CopyingAt(job, vm.ram, vm.Pages(), i) == Some(places)
      invariant OnlyNewPages(job.ram0[newTable := vm.ram[newTable]], job.s0, vm.ram, vm.Pages())
      invariant Held(job.s0, 0) ==> Copyable(job, i)
    {
      CopyingReads(job, vm.ram, vm.Pages(), places, i);
      var pde := vm.ram[oldTable][i];
      if pde.Flag(Present) == false {
        CopyingSkip(job, vm.ram, vm.Pages(), places, i);
        CopyableSkip(job, i);
        continue;
      }
      copied, places := CloneEntry(vm, oldTable, newTable, depth, i, job, places);
      if !copied {
        if Copyable(job, 512) {
          CopyableBefore(job, i + 1, 512);
        }
        return;
      }
    }
    copied := true;
  }

  lemma CopyingStarts(src: Ram, held: set<Frame>, ram: Ram, s: State, o: Frame, n: Frame, depth: nat, prefix: Path)
    requires depth > 0 && Untouched(src, held, ram, s) && Within(src, o, depth, held)
    requires n !in held && Held(s, n) && ram[n] == src[n]
    ensures CopyingAt(Job(src, held, ram, s, o, n, depth, prefix), ram, s, 0) == Some(map[])
  {
    CopyingShown(Job(src, held, ram, s, o, n, depth, prefix), ram, s, map[], 0);
    assert Walk(src, o, []) == Some(o);
    assert ram[n := ram[n]] == ram;
  }

  /** All entries of table `n` are copied, so it is a copy; `s` is the allocator before its own page was requested. */
  lemma CopyingEnds(job: Job, s: State, after: Ram, t: State, places: Places)
    requires CopyingAt(job, after, t, 512) == Some(places) && job.depth > 0 && Progress(s, job.s0) && !Held(s, job.copy) && Held(job.s0, job.copy)
    requires RequestPage(s) == (job.s0, Some(job.copy))
    ensures CopiedAt(job.src, job.original, job.depth, job.prefix, s, after, t, job.copy) == Some(places[job.copy := job.prefix])
  {
    CopyingShown(job, after, t, places, 512);
    MirrorPlaced(job.src, job.original, after, job.copy, job.depth, places, job.prefix);
    CopiedShown(job.src, job.original, job.depth, job.prefix, s, after, t, job.copy, places[job.copy := job.prefix]);
  }

  // ----- the clone -----

  /** What a successful clone is, whatever the fresh pages contained. `ram` and `s` are the memory
      and the allocator before, `after` and `t` those after the call. */
  ghost predicate IsClone(ram: Ram, s: State, after: Ram, t: State, original: Frame, clone: Frame) {
    // No page that was in use has changed, so neither has the original.
    && OnlyNewPages(ram, s, after, t)
    && OwnedIn(after, t, original)
    && (forall q: Path :: |q| <= 4 ==> Walk(after, original, q) == Walk(ram, original, q))
    // Each table of the original has a copy on the same path, in a page that was not held before.
    && (forall q: Path :: IsTablePath(q) && Walk(ram, original, q).Some? ==>
          Walk(after, clone, q).Some? && !Held(s, Walk(after, clone, q).value))
    // Whatever the original translates, the clone translates to the same page.
    && (forall q: Path :: |q| == 4 && Walk(ram, original, q).Some? ==> Walk(after, clone, q) == Walk(ram, original, q))
    // Whether the clone is faithful is settled by what the fresh pages contained before the call.
    && (IsFaithful(ram, s, after, t, original, clone) <==> FreshPagesClean(ram, s, original))
    && (SameTables(ram, original, after, clone, 3) <==> FreshPagesClean(ram, s, original))
  }

  /** The clone is an owned hierarchy of its own with the same translations. */
  ghost predicate IsFaithful(ram: Ram, s: State, after: Ram, t: State, original: Frame, clone: Frame) {
    && OwnedIn(after, t, clone) && DisjointTables(after, original, clone)
    && (forall f: Frame :: IsTable(after, clone, f) ==> !Held(s, f))
    && (forall q: Path :: |q| == 4 ==> Walk(after, clone, q) == Walk(ram, original, q))
  }

  /** A clone is made if there are as many pages as the original has tables; otherwise, and only then, there is a panic.
      As long as page 0 is not held it is the one handed out for the root, which is taken for a failure. */
  ghost predicate CloneOutcome(ram: Ram, s: State, t: State, original: Frame, clone: Frame) {
    var needed, free := TablesToCopy(ram, original, 3), FreePages(s);
    if Held(s, 0) then (clone != 0 <==> needed <= free) && (t.panicked <==> s.panicked || needed > free)
    else clone == 0 && (t.panicked <==> s.panicked || free == 0)
  }

  ghost predicate CloneEffect(ram: Ram, s: State, after: Ram, t: State, original: Frame, clone: Frame) {
    && OnlyNewPages(ram, s, after, t) && CloneOutcome(ram, s, t, original, clone)
    && (clone != 0 ==> IsClone(ram, s, after, t, original, clone))
  }

  /** What the copying methods leave behind. */
  ghost predicate IsCopy(ram: Ram, s: State, after: Ram, t: State, original: Frame, clone: Frame, places: Places) {
    && s.totalPages <= FRAMES && OwnedIn(ram, s, original) && OnlyNewPages(ram, s, after, t)
    && RootPage(s) == Some(clone) && !Held(s, clone)
    && PlanEntries(WithRoot(ram, s), original, 3, [], RequestPage(s).0, 512) == (t, places)
    && Mirror(ram[clone := ZeroTable()], original, after, clone, 3, places[clone := []], [])
  }

  /** The pages of a copy: newly held, each with the place of a table of the original. */
  lemma CopyPlaces(ram: Ram, s: State, after: Ram, t: State, original: Frame, clone: Frame, places: Places)
    requires IsCopy(ram, s, after, t, original, clone, places)
    ensures var all := places[clone := []];
            && (forall f: Frame :: f in all ==> !Held(s, f) && Held(t, f))
            && (forall f: Frame :: Held(t, f) && !Held(s, f) ==> f in all)
            && AllPlaced(ram[clone := ZeroTable()], original, 3, [], all)
    ensures clone !in places && forall f: Frame :: f in places ==> 1 <= |places[f]|
  {
    var u := RequestPage(s).0;
    RequestPageHolds(s);
    EntriesPages(WithRoot(ram, s), original, 3, [], u, 512);
    EntriesPlaces(WithRoot(ram, s), original, 3, [], u, 512);
    var all := places[clone := []];
    var empty: Path := [];
    assert empty[0..] == empty;
    assert Placed(ram[clone := ZeroTable()], original, 3, [], all[clone]);
  }

  /** The loop over the root's entries has ended. */
  lemma RootCopied(ram: Ram, s: State, u: State, after: Ram, t: State, original: Frame, clone: Frame, held: set<Frame>, places: Places)
    requires s.totalPages <= FRAMES && OwnedIn(ram, s, original) && OnlyNewPages(ram, s, after, t)
    requires RequestPage(s) == (u, Some(clone)) && !Held(s, clone)
    requires CopyingAt(Job(ram[clone := ZeroTable()], held, ram[clone := ZeroTable()], u, original, clone, 3, []), after, t, 512)
             == Some(places)
    ensures IsClone(ram, s, after, t, original, clone)
  {
    var job := Job(ram[clone := ZeroTable()], held, ram[clone := ZeroTable()], u, original, clone, 3, []);
    CopyingShown(job, after, t, places, 512);
    MirrorPlaced(job.src, original, after, clone, 3, places, []);
    CopyIsClone(ram, s, after, t, original, clone, places);
  }

  lemma CopyIsClone(ram: Ram, s: State, after: Ram, t: State, original: Frame, clone: Frame, places: Places)
    requires IsCopy(ram, s, after, t, original, clone, places)
    ensures IsClone(ram, s, after, t, original, clone)
  {
    var src, all := ram[clone := ZeroTable()], places[clone := []];
    CopyPlaces(ram, s, after, t, original, clone, places);
    ZeroedTree(ram, original, clone);
    MirrorSameTables(src, original, after, clone, 3, all, []);
    CleanMeansNoStale(ram, s, after, t, original, clone, places);
    OriginalKept(ram, s, after, t, original);
    CopyTables(src, s, original, after, clone, all);
    forall q: Path | |q| == 4 && Walk(src, original, q).Some?
      ensures Walk(after, clone, q) == Walk(src, original, q)
    {
      MirrorTranslatesPath(src, original, after, clone, all, q);
    }
    SameTablesAgree(ram, src, original, after, clone);
    if SameTables(src, original, after, clone, 3) {
      FaithfulClone(ram, s, after, t, original, clone, all);
    }
    if IsFaithful(ram, s, after, t, original, clone) {
      FaithfulHasSameTables(ram, s, after, t, original, clone, places);
    }
  }

  /** The page of a table's copy is the planned one, and conversely. */
  lemma CopyAtPlace(src: Ram, original: Frame, after: Ram, clone: Frame, all: Places, f: Frame)
    requires Mirror(src, original, after, clone, 3, all, []) && AllPlaced(src, original, 3, [], all) && f in all
    ensures Walk(src, original, all[f]).Some? && |all[f]| <= 3 && Walk(after, clone, all[f]) == Some(f)
  {
    var q := all[f];
    assert Placed(src, original, 3, [], q);
    assert q[0..] == q;
    MirrorWalk(src, original, after, clone, 3, all, [], q);
    assert [] + q == q;
  }

  lemma CleanMeansNoStale(ram: Ram, s: State, after: Ram, t: State, original: Frame, clone: Frame, places: Places)
    requires IsCopy(ram, s, after, t, original, clone, places)
    ensures NoStaleEntries(ram[clone := ZeroTable()], original, after, clone, 3) <==> FreshPagesClean(ram, s, original)
  {
    var src, all := ram[clone := ZeroTable()], places[clone := []];
    CopyPlaces(ram, s, after, t, original, clone, places);
    ZeroedTree(ram, original, clone);
    if FreshPagesClean(ram, s, original) {
      forall q: Path, i: Index | |q| < 3 && Walk(src, original, q).Some? && Walk(after, clone, q).Some?
        ensures src[Walk(after, clone, q).value][i].flags.present ==> src[Walk(src, original, q).value][i].flags.present
      {
        CleanAt(ram, s, after, t, original, clone, places, q, i);
      }
    }
    if NoStaleEntries(src, original, after, clone, 3) {
      forall f: Frame, i: Index | f in places && |places[f]| <= 2 && ram[f][i].flags.present
        ensures Walk(ram, original, places[f]).Some? ==> ram[Walk(ram, original, places[f]).value][i].flags.present
      {
        NotStaleAt(ram, s, after, t, original, clone, places, f, i);
      }
    }
  }

  lemma CleanAt(ram: Ram, s: State, after: Ram, t: State, original: Frame, clone: Frame, places: Places, q: Path, i: Index)
    requires IsCopy(ram, s, after, t, original, clone, places) && FreshPagesClean(ram, s, original) && |q| < 3
    requires var src := ram[clone := ZeroTable()]; Walk(src, original, q).Some? && Walk(after, clone, q).Some?
    ensures var src := ram[clone := ZeroTable()];
            src[Walk(after, clone, q).value][i].flags.present ==> src[Walk(src, original, q).value][i].flags.present
  {
    var src, all := ram[clone := ZeroTable()], places[clone := []];
    CopyPlaces(ram, s, after, t, original, clone, places);
    ZeroedTree(ram, original, clone);
    MirrorWalk(src, original, after, clone, 3, all, [], q);
    assert [] + q == q;
    var f, o := Walk(after, clone, q).value, Walk(src, original, q).value;
    assert IsTable(ram, original, o) by { assert IsTablePath(q) && Walk(ram, original, q) == Some(o); }
    assert o != clone;
    assert ZeroTable()[i] == ZERO_ENTRY;
    if f != clone && src[f][i].flags.present {
      assert f in places && places[f] == q && ram[f][i].flags.present;
    }
  }

  lemma NotStaleAt(ram: Ram, s: State, after: Ram, t: State, original: Frame, clone: Frame, places: Places, f: Frame, i: Index)
    requires IsCopy(ram, s, after, t, original, clone, places) && f in places && |places[f]| <= 2
    requires NoStaleEntries(ram[clone := ZeroTable()], original, after, clone, 3) && ram[f][i].flags.present
    ensures Walk(ram, original, places[f]).Some? ==> ram[Walk(ram, original, places[f]).value][i].flags.present
  {
    var src, all := ram[clone := ZeroTable()], places[clone := []];
    CopyPlaces(ram, s, after, t, original, clone, places);
    ZeroedTree(ram, original, clone);
    CopyAtPlace(src, original, after, clone, all, f);
    var q := places[f];
    var o := Walk(src, original, q).value;
    assert IsTable(ram, original, o) by { assert IsTablePath(q) && Walk(ram, original, q) == Some(o); }
    assert src[f] == ram[f] && src[o] == ram[o];
    assert src[Walk(after, clone, q).value][i].flags.present;
  }

  /** A faithful clone has no further tables: they would lie in newly held pages, and each of those has its place. */
  lemma FaithfulHasSameTables(ram: Ram, s: State, after: Ram, t: State, original: Frame, clone: Frame, places: Places)
    requires IsCopy(ram, s, after, t, original, clone, places) && IsFaithful(ram, s, after, t, original, clone)
    ensures SameTables(ram[clone := ZeroTable()], original, after, clone, 3)
  {
    var src, all := ram[clone := ZeroTable()], places[clone := []];
    CopyPlaces(ram, s, after, t, original, clone, places);
    forall q: Path | |q| <= 3
      ensures Walk(src, original, q).Some? <==> Walk(after, clone, q).Some?
    {
      if Walk(after, clone, q).Some? {
        var f := Walk(after, clone, q).value;
        assert IsTablePath(q) && IsTable(after, clone, f);
        CopyAtPlace(src, original, after, clone, all, f);
        assert IsTablePath(all[f]);
        assert all[f] == q;
      }
      if Walk(src, original, q).Some? {
        MirrorWalk(src, original, after, clone, 3, all, [], q);
      }
    }
  }

  lemma OriginalKept(ram: Ram, s: State, after: Ram, t: State, original: Frame)
    requires OwnedIn(ram, s, original) && OnlyNewPages(ram, s, after, t)
    ensures OwnedIn(after, t, original)
    ensures forall q: Path :: |q| <= 4 ==> Walk(after, original, q) == Walk(ram, original, q)
  {
    forall q: Path | |q| <= 4
      ensures Walk(after, original, q) == Walk(ram, original, q)
    {
      WalkAgrees(ram, after, original, q);
    }
    SameWalksOwned(ram, after, s, original);
  }

  lemma CopyTables(src: Ram, s: State, o: Frame, after: Ram, n: Frame, places: Places)
    requires Mirror(src, o, after, n, 3, places, []) && forall f: Frame :: f in places ==> !Held(s, f)
    ensures forall q: Path :: IsTablePath(q) && Walk(src, o, q).Some? ==>
              Walk(after, n, q).Some? && !Held(s, Walk(after, n, q).value)
  {
    forall q: Path | IsTablePath(q) && Walk(src, o, q).Some?
      ensures Walk(after, n, q).Some? && !Held(s, Walk(after, n, q).value)
    {
      MirrorWalk(src, o, after, n, 3, places, [], q);
    }
  }

  lemma SameTablesAgree(ram: Ram, src: Ram, o: Frame, after: Ram, n: Frame)
    requires forall q: Path :: |q| <= 4 ==> Walk(src, o, q) == Walk(ram, o, q)
    ensures SameTables(src, o, after, n, 3) <==> SameTables(ram, o, after, n, 3)
  {
  }

  lemma MirrorTranslatesPath(src: Ram, o: Frame, ram: Ram, n: Frame, places: Places, q: Path)
    requires Mirror(src, o, ram, n, 3, places, []) && |q| == 4 && Walk(src, o, q).Some?
    ensures Walk(ram, n, q) == Walk(src, o, q)
  {
    assert q == q[..3] + q[3..];
    WalkAppend(src, o, q[..3], q[3..]);
    MirrorTranslates(src, o, ram, n, 3, places, [], q);
  }

  lemma FaithfulClone(ram: Ram, s: State, after: Ram, t: State, original: Frame, clone: Frame, places: Places)
    requires OwnedIn(ram, s, original) && !Held(s, clone) && OnlyNewPages(ram, s, after, t)
    requires Mirror(ram[clone := ZeroTable()], original, after, clone, 3, places, [])
    requires forall f: Frame :: f in places ==> !Held(s, f) && Held(t, f)
    requires SameTables(ram[clone := ZeroTable()], original, after, clone, 3)
    ensures IsFaithful(ram, s, after, t, original, clone)
  {
    var src := ram[clone := ZeroTable()];
    ZeroedTree(ram, original, clone);
    FaithfulTree(src, original, after, clone, places);
    forall q: Path | |q| == 4
      ensures Walk(after, clone, q) == Walk(ram, original, q)
    {
      assert q == q[..3] + q[3..];
      WalkAppend(src, original, q[..3], q[3..]);
      WalkAppend(after, clone, q[..3], q[3..]);
      if Walk(src, original, q[..3]).Some? {
        MirrorTranslates(src, original, after, clone, 3, places, [], q);
      }
    }
    forall f: Frame | IsTable(after, original, f)
      ensures Held(s, f)
    {
      var p: Path :| IsTablePath(p) && Walk(after, original, p) == Some(f);
      WalkAgrees(ram, after, original, p);
      assert IsTable(ram, original, f);
    }
  }

  /** A copy of the shape of the original is a tree in the pages of `places`. */
  lemma FaithfulTree(src: Ram, o: Frame, after: Ram, n: Frame, places: Places)
    requires Tree(src, o) && Mirror(src, o, after, n, 3, places, []) && SameTables(src, o, after, n, 3)
    ensures Tree(after, n) && forall f: Frame :: IsTable(after, n, f) ==> f in places
  {
    forall q: Path | |q| <= 3 && Walk(after, n, q).Some?
      ensures Walk(after, n, q).value in places && places[Walk(after, n, q).value] == q
    {
      assert Walk(src, o, q).Some?;
      MirrorWalk(src, o, after, n, 3, places, [], q);
      assert [] + q == q;
    }
    forall p: Path, i: Index | 1 <= |p| <= 2 && Walk(after, n, p).Some?
      ensures after[Walk(after, n, p).value][i].flags.present ==> !after[Walk(after, n, p).value][i].flags.largerPages
    {
      if after[Walk(after, n, p).value][i].flags.present {
        assert Walk(src, o, p).Some?;
        CopiedEntry(src, o, after, n, places, p, i);
      }
    }
  }

  /** A present entry of a copied table is present in the original, with the same flags. */
  lemma CopiedEntry(src: Ram, o: Frame, after: Ram, n: Frame, places: Places, p: Path, i: Index)
    requires Mirror(src, o, after, n, 3, places, []) && SameTables(src, o, after, n, 3) && |p| < 3
    requires Walk(src, o, p).Some? && Walk(after, n, p).Some? && after[Walk(after, n, p).value][i].flags.present
    ensures src[Walk(src, o, p).value][i].flags == after[Walk(after, n, p).value][i].flags
  {
    MirrorWalk(src, o, after, n, 3, places, [], p);
    WalkAppend(src, o, p, [i]);
    WalkAppend(after, n, p, [i]);
    assert Walk(after, Walk(after, n, p).value, [i]).Some?;
    assert Walk(src, o, p + [i]).Some?;
    assert src[Walk(src, o, p).value][i].flags.present;
  }

  /** If no page that the allocator can hand out holds a present entry, the clone is faithful. */
  lemma CleanPagesFaithful(ram: Ram, s: State, after: Ram, t: State, original: Frame, clone: Frame)
    requires IsClone(ram, s, after, t, original, clone) && s.totalPages <= FRAMES
    requires forall f: Frame, i: Index :: s.cursor <= f < s.totalPages && !Get(s.bits, f) ==> !ram[f][i].flags.present
    ensures IsFaithful(ram, s, after, t, original, clone)
  {
    NoPresentEntriesClean(ram, s, original);
  }

  /** Clones the hierarchy of the active page map. Frame 0 is the null pointer, for failure; pages taken before a failure
      are not returned. */
  method CloneActivePageMap(vm: VirtualMemory) returns (clone: Frame)
    requires vm.Valid() && vm.Owned(if vm.activePageMap == 0 then vm.cr3 else vm.activePageMap)
    modifies vm`ram, vm`activePageMap, vm.alloc, vm.alloc.pageMap.buffer
    ensures vm.Valid() && vm.activePageMap == if old(vm.activePageMap) == 0 then vm.cr3 else old(vm.activePageMap)
    ensures CloneEffect(old(vm.ram), old(vm.Pages()), vm.ram, vm.Pages(), vm.activePageMap, clone)
  {
    var oldPageTable := vm.ActivePageMap();
    clone := CloneHierarchy(vm, oldPageTable);
  }

  /** The same for any hierarchy. */
  method CloneHierarchy(vm: VirtualMemory, oldPageTable: Frame) returns (clone: Frame)
    requires vm.Valid() && vm.Owned(oldPageTable)
    modifies vm`ram, vm.alloc, vm.alloc.pageMap.buffer
    ensures vm.Valid() && CloneEffect(old(vm.ram), old(vm.Pages()), vm.ram, vm.Pages(), oldPageTable, clone)
  {
    ghost var ram, s := vm.ram, vm.Pages();
    RootTaken(ram, s, oldPageTable);
    clone := vm.RequestFrame();
    if clone == 0 {
      return;
    }
    vm.ram := vm.ram[clone := ZeroTable()];
    ghost var root, held := clone, HeldFrames(s);
    WithinHeld(ram, s, oldPageTable, root, held);
    ghost var mid, u := vm.ram, vm.Pages();
    ghost var job := Job(mid, held, mid, u, oldPageTable, clone, 3, []);
    CopyingStarts(mid, held, mid, u, oldPageTable, clone, 3, []);
    var copied;
    ghost var places;
    copied, places := CloneEntries(vm, oldPageTable, clone, 3, job);
    CloneDone(ram, s, u, vm.ram, vm.Pages(), oldPageTable, root, held, job, copied, places);
    if !copied {
      clone := 0;
      return;
    }
  }

  ghost function HeldFrames(s: State): set<Frame> { set f: Frame | Held(s, f) }

  /** The page of the new root, or none. */
  lemma RootTaken(ram: Ram, s: State, original: Frame)
    requires s.totalPages <= FRAMES && OwnedIn(ram, s, original)
    ensures var (u, root) := (RequestPage(s).0, FreshFrame(s));
            if root == 0 then CloneEffect(ram, s, ram, u, original, 0)
            else Held(s, 0) ==> RequestPage(s).1 == Some(root) && FreePages(u) == FreePages(s) - 1 && u.panicked == s.panicked
  {
    FreshFrameHolds(s);
    RequestTakes(s);
  }

  lemma CloneDone(ram: Ram, s: State, u: State, after: Ram, t: State, original: Frame, clone: Frame, held: set<Frame>, job: Job,
                  copied: bool, places: Places)
    requires s.totalPages <= FRAMES && OwnedIn(ram, s, original) && clone != 0 && clone == FreshFrame(s) && u == RequestPage(s).0
    requires job == Job(ram[clone := ZeroTable()], held, ram[clone := ZeroTable()], u, original, clone, 3, [])
    requires OnlyNewPages(job.ram0[clone := after[clone]], u, after, t)
    requires copied ==> CopyingAt(job, after, t, 512) == Some(places)
    requires Held(u, 0) ==> (copied <==> Copyable(job, 512)) && (!copied ==> t.panicked)
    ensures CloneEffect(ram, s, after, t, original, if copied then clone else 0)
  {
    FreshFrameHolds(s);
    RequestTakes(s);
    OnlyNewPagesOverall(ram, s, job.ram0, u, after, t, clone);
    CloneDemand(ram, s, original, clone);
    if copied {
      RootCopied(ram, s, u, after, t, original, clone, held, places);
    }
    CloneSettled(ram, s, u, after, t, original, clone, job, copied, places);
  }

  /** Whether the clone is made is settled before the call. */
  lemma CloneSettled(ram: Ram, s: State, u: State, after: Ram, t: State, original: Frame, clone: Frame, job: Job,
                     copied: bool, places: Places)
    requires s.totalPages <= FRAMES && clone != 0 && clone == FreshFrame(s) && u == RequestPage(s).0
    requires job.s0 == u && job.depth == 3 && job.original == original
    requires TablesToCopy(ram, original, 3) == 1 + EntriesToCopy(job.src, original, 3, 512)
    requires copied ==> CopyingAt(job, after, t, 512) == Some(places)
    requires Held(u, 0) ==> (copied <==> Copyable(job, 512)) && (!copied ==> t.panicked)
    ensures CloneOutcome(ram, s, t, original, if copied then clone else 0)
  {
    FreshFrameHolds(s);
    RequestTakes(s);
    CopyableMeans(job, 512);
    if copied && Copyable(job, 512) {
      CopyingTakes(job, after, t, places, 512);
    }
  }

  /** Zeroing the new root does not change how many tables there are. */
  lemma CloneDemand(ram: Ram, s: State, original: Frame, clone: Frame)
    requires OwnedIn(ram, s, original) && !Held(s, clone)
    ensures TablesToCopy(ram, original, 3) == 1 + EntriesToCopy(ram[clone := ZeroTable()], original, 3, 512)
  {
    forall q: Path | |q| <= 3
      ensures ReachesSame(ram, ram[clone := ZeroTable()], original, q)
    {
      if Walk(ram, original, q).Some? {
        assert IsTablePath(q) && IsTable(ram, original, Walk(ram, original, q).value);
      }
    }
    SameTablesToCopy(ram, ram[clone := ZeroTable()], original, 3);
  }

  lemma WithinHeld(ram: Ram, s: State, original: Frame, clone: Frame, held: set<Frame>)
    requires OwnedIn(ram, s, original) && !Held(s, clone) && held == HeldFrames(s)
    ensures Within(ram[clone := ZeroTable()], original, 3, held)
  {
    ZeroedTree(ram, original, clone);
    forall q: Path | |q| <= 3 && Walk(ram, original, q).Some?
      ensures Walk(ram, original, q).value in held
    {
      assert IsTable(ram, original, Walk(ram, original, q).value);
    }
  }

  lemma OnlyNewPagesOverall(ram: Ram, s: State, mid: Ram, u: State, after: Ram, t: State, clone: Frame)
    requires !Held(s, clone) && Progress(s, u) && Held(u, clone) && mid == ram[clone := ZeroTable()]
    requires OnlyNewPages(mid[clone := after[clone]], u, after, t)
    ensures OnlyNewPages(ram, s, after, t)
  {
  }
}
