/** Long runs of `Map` on one hierarchy: the loops that `init_virtual` and `init_physical` share, and arbitrary lists of
    mappings. */
module MappingLoops {
  import opened PageFrames
  import opened PageTrees
  import opened Paging
  import opened TableDemands
  import opened VirtualMemories
  import opened Wrappers

  const ADDRESS_SPACE := 0x1_0000_0000_0000  // the 48 bits that the tables translate

  const READ_WRITE := NO_FLAGS.With(Present, true).With(ReadWrite, true)
  const READ_WRITE_GLOBAL := READ_WRITE.With(Global, true)

  /** The i-th page boundary from `start`. */
  function PageAt(start: nat, i: nat): nat { start + i * PAGE_SIZE }

  /** The frame of a physical address. */
  function FrameOf(address: nat): Frame { address / PAGE_SIZE % FRAMES }

  ghost predicate Apart(q: Path, paths: seq<Path>, count: nat)
    requires count <= |paths|
  {
    forall i :: 0 <= i < count ==> paths[i] != q
  }

  /** Each of the first `count` paths leads to its page; no other translation has changed; the
      hierarchy is kept. */
  ghost predicate Added(ram: Ram, s: State, after: Ram, t: State, root: Frame, paths: seq<Path>, pages: seq<Frame>, count: nat)
    requires count <= |paths| == |pages|
  {
    && Kept(ram, s, after, t, root)
    && (forall i :: 0 <= i < count ==> Walk(after, root, paths[i]) == Some(pages[i]))
    && (forall q: Path :: |q| == 4 && Apart(q, paths, count) ==> Walk(after, root, q) == Walk(ram, root, q))
  }

  ghost predicate Distinct(paths: seq<Path>) {
    forall k {:trigger Shown(k)} :: Shown(k) ==> forall i, j :: 0 <= i < j < |paths| ==> paths[i] != paths[j]
  }

  lemma DistinctMeans(paths: seq<Path>)
    ensures Distinct(paths) <==> forall i, j :: 0 <= i < j < |paths| ==> paths[i] != paths[j]
  {
    assert Shown(0);
  }

  /** Mapping one more path keeps the earlier mappings. */
  lemma AddedGrows(ram: Ram, s: State, before: Ram, u: State, after: Ram, t: State, root: Frame,
                   paths: seq<Path>, pages: seq<Frame>, count: nat)
    requires count < |paths| == |pages| && Distinct(paths) && forall i :: 0 <= i < |paths| ==> |paths[i]| == 4
    requires Progress(s, u) && Added(ram, s, before, u, root, paths, pages, count)
    requires Kept(before, u, after, t, root) && Remapped(before, after, root, paths[count], Some(pages[count]))
    ensures Added(ram, s, after, t, root, paths, pages, count + 1)
  {
    DistinctMeans(paths);
    KeptTransitive(ram, s, before, u, after, t, root);
    forall i | 0 <= i <= count
      ensures Walk(after, root, paths[i]) == Some(pages[i])
    {
      assert i < count ==> paths[i] != paths[count];
    }
    forall q: Path | |q| == 4 && Apart(q, paths, count + 1)
      ensures Walk(after, root, q) == Walk(ram, root, q)
    {
      assert Apart(q, paths, count) && paths[count] != q;
    }
  }

  /** `paths` are the paths of the virtual pages from `start` on. */
  ghost predicate PathsFrom(paths: seq<Path>, start: nat) {
    forall i {:trigger PageAt(start, i)} :: 0 <= i < |paths| ==> paths[i] == Indices(PageAt(start, i))
  }

  /** `pages` are the frames of the physical pages from `start` on. */
  ghost predicate PagesFrom(pages: seq<Frame>, start: nat) {
    forall i {:trigger PageAt(start, i)} :: 0 <= i < |pages| ==> pages[i] == FrameOf(PageAt(start, i))
  }

  /** The number of rounds of `for (t = start; t < end; t += PAGE_SIZE)`. */
  function RoundsOf(start: nat, end: nat): nat {
    if start < end then (end - start + PAGE_SIZE - 1) / PAGE_SIZE else 0
  }

  lemma RoundsCount(start: nat, end: nat, i: nat)
    ensures PageAt(start, i) < end <==> i < RoundsOf(start, end)
  {
  }

  lemma ModDistinct(x: nat, k: nat)
    requires 0 < k < 0x10_0000_0000
    ensures (x + k) % 0x10_0000_0000 != x % 0x10_0000_0000
  {
  }

  lemma PagesDistinct(start: nat, i: nat, j: nat)
    requires i < j < i + 0x10_0000_0000
    ensures Indices(PageAt(start, i)) != Indices(PageAt(start, j))
  {
    var a, b := PageAt(start, i), PageAt(start, j);
    assert b / 0x1000 == a / 0x1000 + (j - i);
    ModDistinct(a / 0x1000, j - i);
    IndicesDeterminePage(a, b);
  }

  lemma PageNumber(start: nat, i: nat)
    requires start % PAGE_SIZE == 0
    ensures PageAt(start, i) / PAGE_SIZE == start / PAGE_SIZE + i
  {
  }

  /** The paths and the frames of `n` rounds. */
  function LoopPaths(start: nat, n: nat): (paths: seq<Path>)
    ensures |paths| == n && PathsFrom(paths, start) && forall i :: 0 <= i < n ==> |paths[i]| == 4
  {
    seq(n, (i: nat) => Indices(PageAt(start, i)))
  }

  function LoopPages(start: nat, n: nat): (pages: seq<Frame>)
    ensures |pages| == n && PagesFrom(pages, start)
  {
    seq(n, (i: nat) => FrameOf(PageAt(start, i)))
  }

  /** The paths are distinct if the loop covers no more than the address space. */
  lemma LoopDistinct(start: nat, n: nat)
    requires n <= 0x10_0000_0000
    ensures Distinct(LoopPaths(start, n))
  {
    var paths := LoopPaths(start, n);
    DistinctMeans(paths);
    forall i, j | 0 <= i < j < n
      ensures paths[i] != paths[j]
    {
      PagesDistinct(start, i, j);
      assert paths[i] == Indices(PageAt(start, i)) && paths[j] == Indices(PageAt(start, j));
    }
  }

  /** The last-level entry for a path; empty if there is no table for it. */
  function Leaf(ram: Ram, root: Frame, path: Path): PageDirectoryEntry
    requires |path| == 4
  {
    EntryOrZero(ram, root, path[..3], path[3])
  }

  /** The entries of the first `count` paths have the flags of the mapping, those of all other pages are as before. */
  ghost predicate FlagsAdded(ram: Ram, after: Ram, root: Frame, paths: seq<Path>, mappingFlags: Flags, count: nat)
    requires count <= |paths| && forall i :: 0 <= i < |paths| ==> |paths[i]| == 4
  {
    && (forall i :: 0 <= i < count ==>
          Leaf(after, root, paths[i]).flags == Granted(mappingFlags, Leaf(ram, root, paths[i]).flags.noExecute))
    && (forall q: Path :: |q| == 4 && Apart(q, paths, count) ==> Leaf(after, root, q) == Leaf(ram, root, q))
  }

  lemma LeafThrough(path: Path, q: Path)
    requires |path| == |q| == 4
    ensures Through(path, q[..3], q[3]) <==> q == path
  {
    assert q == q[..3] + [q[3]];
  }

  /** Mapping one page writes its last-level entry and no other. */
  lemma OneLeafWritten(ram: Ram, after: Ram, root: Frame, path: Path, mappingFlags: Flags, q: Path)
    requires |path| == |q| == 4 && Written(ram, after, root, 0, path, mappingFlags) && Walk(after, root, path[..3]).Some?
    requires forall p: Path :: IsTablePath(p) && Walk(ram, root, p).Some? ==> Walk(after, root, p).Some?
    ensures if q == path then Leaf(after, root, q).flags == Granted(mappingFlags, Leaf(ram, root, q).flags.noExecute)
            else Leaf(after, root, q) == Leaf(ram, root, q)
  {
    LeafThrough(path, q);
    assert IsTablePath(q[..3]);
    var e := EntryAt(after, root, q[..3], q[3]);
  }

  lemma FlagsGrow(ram: Ram, before: Ram, after: Ram, root: Frame, paths: seq<Path>, mappingFlags: Flags, count: nat)
    requires count < |paths| && Distinct(paths) && forall i :: 0 <= i < |paths| ==> |paths[i]| == 4
    requires FlagsAdded(ram, before, root, paths, mappingFlags, count)
    requires Written(before, after, root, 0, paths[count], mappingFlags) && Walk(after, root, paths[count][..3]).Some?
    requires forall p: Path :: IsTablePath(p) && Walk(before, root, p).Some? ==> Walk(after, root, p).Some?
    ensures FlagsAdded(ram, after, root, paths, mappingFlags, count + 1)
  {
    var path := paths[count];
    DistinctMeans(paths);
    assert Apart(path, paths, count);
    forall q: Path | |q| == 4
      ensures if q == path then Leaf(after, root, q).flags == Granted(mappingFlags, Leaf(before, root, q).flags.noExecute)
              else Leaf(after, root, q) == Leaf(before, root, q)
    {
      OneLeafWritten(before, after, root, path, mappingFlags, q);
    }
    forall i | 0 <= i <= count
      ensures Leaf(after, root, paths[i]).flags == Granted(mappingFlags, Leaf(ram, root, paths[i]).flags.noExecute)
    {
      assert i < count ==> paths[i] != path;
    }
    forall q: Path | |q| == 4 && Apart(q, paths, count + 1)
      ensures Leaf(after, root, q) == Leaf(ram, root, q)
    {
      assert Apart(q, paths, count) && q != path;
    }
  }

  /** From (ram, s) to (after, t), the first `count` paths have been mapped: translations, flags, tables and pages taken. */
  ghost predicate MappedRounds(ram: Ram, s: State, after: Ram, t: State, root: Frame, paths: seq<Path>, pages: seq<Frame>,
                               mappingFlags: Flags, count: nat)
    requires count <= |paths| == |pages| && forall i :: 0 <= i < |paths| ==> |paths[i]| == 4
  {
    MappedRoundsIsDefined(ram, s, after, t, root, paths, pages, mappingFlags, count);
    var truth: bool :| MappedRoundsIs(truth, ram, s, after, t, root, paths, pages, mappingFlags, count);
    truth
  }

  ghost predicate MappedRoundsIs(truth: bool, ram: Ram, s: State, after: Ram, t: State, root: Frame, paths: seq<Path>, pages: seq<Frame>,
                               mappingFlags: Flags, count: nat)
    requires count <= |paths| == |pages| && forall i :: 0 <= i < |paths| ==> |paths[i]| == 4
  {
    forall k {:trigger Shown(k)} :: Shown(k) ==> (truth <==> (&& Added(ram, s, after, t, root, paths, pages, count) && Grown(ram, s, after, t, root, paths, count)
      && FlagsAdded(ram, after, root, paths, mappingFlags, count)))
  }

  lemma MappedRoundsIsDefined(ram: Ram, s: State, after: Ram, t: State, root: Frame, paths: seq<Path>, pages: seq<Frame>,
                               mappingFlags: Flags, count: nat)
    requires count <= |paths| == |pages| && forall i :: 0 <= i < |paths| ==> |paths[i]| == 4
    ensures exists truth: bool :: MappedRoundsIs(truth, ram, s, after, t, root, paths, pages, mappingFlags, count)
  {
    assert MappedRoundsIs(&& Added(ram, s, after, t, root, paths, pages, count) && Grown(ram, s, after, t, root, paths, count)
      && FlagsAdded(ram, after, root, paths, mappingFlags, count), ram, s, after, t, root, paths, pages, mappingFlags, count);
  }

  lemma MappedRoundsMean(ram: Ram, s: State, after: Ram, t: State, root: Frame, paths: seq<Path>, pages: seq<Frame>,
                         mappingFlags: Flags, count: nat)
    requires count <= |paths| == |pages| && forall i :: 0 <= i < |paths| ==> |paths[i]| == 4
    ensures MappedRounds(ram, s, after, t, root, paths, pages, mappingFlags, count)
            <==> Added(ram, s, after, t, root, paths, pages, count) && Grown(ram, s, after, t, root, paths, count)
                 && FlagsAdded(ram, after, root, paths, mappingFlags, count)
  {
    assert Shown(0);
  }

  lemma NoRounds(ram: Ram, s: State, root: Frame, paths: seq<Path>, pages: seq<Frame>, mappingFlags: Flags)
    requires |paths| == |pages| && OwnedIn(ram, s, root) && forall i :: 0 <= i < |paths| ==> |paths[i]| == 4
    ensures MappedRounds(ram, s, ram, s, root, paths, pages, mappingFlags, 0)
  {
    MappedRoundsMean(ram, s, ram, s, root, paths, pages, mappingFlags, 0);
  }

  /** One loop: what it maps where, and the round from which on its effect on the hierarchy is looked at. */
  datatype Loop = Loop(root: Frame, flags: Flags, paths: seq<Path>, pages: seq<Frame>, from: nat)
  {
    ghost predicate Valid() { |paths| == |pages| && from <= |paths| && forall i :: 0 <= i < |paths| ==> |paths[i]| == 4 }

    ghost predicate Maps() { root != 0 && MapsTables(flags) && Distinct(paths) }

    ghost function LaterPaths(): (later: seq<Path>)
      requires Valid()
      ensures |later| == |paths| - from && forall i :: 0 <= i < |later| ==> later[i] == paths[from + i] && |later[i]| == 4
    {
      paths[from..]
    }

    ghost function LaterPages(): (later: seq<Frame>)
      requires Valid()
      ensures |later| == |pages| - from && forall i :: 0 <= i < |later| ==> later[i] == pages[from + i]
    {
      pages[from..]
    }
  }

  /** (ram, s) is the state before round `from`, or the present one (after, t) if that round has not come. On the null table
      nothing happens. */
  ghost predicate StartsAt(loop: Loop, ram0: Ram, s0: State, ram: Ram, s: State, after: Ram, t: State, count: nat)
    requires loop.Valid() && count <= |loop.paths|
  {
    && Progress(s0, t) && Progress(s, t) && (loop.root == 0 ==> after == ram0 && t == s0)
    && (count <= loop.from ==> ram == after && s == t)
    && (count == 0 || loop.from == 0 ==> ram == ram0 && s == s0)
    && (count >= 1 && loop.from == 1 && loop.Maps() && Walk(ram0, loop.root, loop.paths[0][..3]).Some? ==>
          ram == MapThrough(ram0, loop.root, loop.paths[0], loop.pages[0], loop.flags) && s == s0)
  }

  /** The first `count` paths of a list have been mapped, or pages have run out: there are not enough for the tables that
      these paths lack in the beginning. */
  ghost predicate RunEffect(ram: Ram, s: State, after: Ram, t: State, root: Frame, paths: seq<Path>, pages: seq<Frame>,
                            mappingFlags: Flags, count: nat)
    requires count <= |paths| == |pages| && forall i :: 0 <= i < |paths| ==> |paths[i]| == 4
  {
    RunEffectIsDefined(ram, s, after, t, root, paths, pages, mappingFlags, count);
    var truth: bool :| RunEffectIs(truth, ram, s, after, t, root, paths, pages, mappingFlags, count);
    truth
  }

  ghost predicate RunEffectIs(truth: bool, ram: Ram, s: State, after: Ram, t: State, root: Frame, paths: seq<Path>, pages: seq<Frame>,
                            mappingFlags: Flags, count: nat)
    requires count <= |paths| == |pages| && forall i :: 0 <= i < |paths| ==> |paths[i]| == 4
  {
    forall k {:trigger Shown(k)} :: Shown(k) ==> (truth <==> (&& (t.panicked <==> s.panicked || Demand(ram, root, paths, count) > FreePages(s))
      && (Demand(ram, root, paths, count) <= FreePages(s) ==>
            MappedRounds(ram, s, after, t, root, paths, pages, mappingFlags, count))))
  }

  lemma RunEffectIsDefined(ram: Ram, s: State, after: Ram, t: State, root: Frame, paths: seq<Path>, pages: seq<Frame>,
                            mappingFlags: Flags, count: nat)
    requires count <= |paths| == |pages| && forall i :: 0 <= i < |paths| ==> |paths[i]| == 4
    ensures exists truth: bool :: RunEffectIs(truth, ram, s, after, t, root, paths, pages, mappingFlags, count)
  {
    assert RunEffectIs(&& (t.panicked <==> s.panicked || Demand(ram, root, paths, count) > FreePages(s))
      && (Demand(ram, root, paths, count) <= FreePages(s) ==>
            MappedRounds(ram, s, after, t, root, paths, pages, mappingFlags, count)), ram, s, after, t, root, paths, pages, mappingFlags, count);
  }

  lemma RunEffectMeans(ram: Ram, s: State, after: Ram, t: State, root: Frame, paths: seq<Path>, pages: seq<Frame>,
                       mappingFlags: Flags, count: nat)
    requires count <= |paths| == |pages| && forall i :: 0 <= i < |paths| ==> |paths[i]| == 4
    ensures RunEffect(ram, s, after, t, root, paths, pages, mappingFlags, count) <==>
              && (t.panicked <==> s.panicked || Demand(ram, root, paths, count) > FreePages(s))
              && (Demand(ram, root, paths, count) <= FreePages(s) ==>
                    MappedRounds(ram, s, after, t, root, paths, pages, mappingFlags, count))
  {
    assert Shown(0);
  }

  lemma SameRun(ram: Ram, s: State, after: Ram, t: State, root: Frame, paths: seq<Path>, pages: seq<Frame>, mappingFlags: Flags,
                count: nat, root1: Frame, paths1: seq<Path>, pages1: seq<Frame>, flags1: Flags, count1: nat)
    requires count <= |paths| == |pages| && forall i :: 0 <= i < |paths| ==> |paths[i]| == 4
    requires root1 == root && paths1 == paths && pages1 == pages && flags1 == mappingFlags && count1 == count
    requires RunEffect(ram, s, after, t, root, paths, pages, mappingFlags, count)
    ensures RunEffect(ram, s, after, t, root1, paths1, pages1, flags1, count1)
  {
  }

  /** The hierarchy is owned, and the loop is one that maps tables of 4-KByte pages in it. */
  ghost predicate OnOwned(loop: Loop, ram: Ram, s: State)
  {
    OnOwnedIsDefined(loop, ram, s);
    var truth: bool :| OnOwnedIs(truth, loop, ram, s);
    truth
  }

  ghost predicate OnOwnedIs(truth: bool, loop: Loop, ram: Ram, s: State)
  {
    forall k {:trigger Shown(k)} :: Shown(k) ==> (truth <==> (loop.Maps() && OwnedIn(ram, s, loop.root)))
  }

  lemma OnOwnedIsDefined(loop: Loop, ram: Ram, s: State)
    ensures exists truth: bool :: OnOwnedIs(truth, loop, ram, s)
  {
    assert OnOwnedIs(loop.Maps() && OwnedIn(ram, s, loop.root), loop, ram, s);
  }

  lemma OnOwnedMeans(loop: Loop, ram: Ram, s: State)
    ensures OnOwned(loop, ram, s) <==> loop.Maps() && OwnedIn(ram, s, loop.root)
  {
    assert Shown(0);
  }

  /** That is what the rounds do in an owned hierarchy. */
  ghost predicate RoundsEffect(loop: Loop, ram: Ram, s: State, after: Ram, t: State, count: nat)
    requires loop.Valid() && loop.from <= count <= |loop.paths|
  {
    OnOwned(loop, ram, s) ==>
      RunEffect(ram, s, after, t, loop.root, loop.LaterPaths(), loop.LaterPages(), loop.flags, count - loop.from)
  }

  /** `count` rounds of a loop have led from (ram0, s0) to (after, t). */
  ghost predicate RoundsMade(loop: Loop, ram0: Ram, s0: State, ram: Ram, s: State, after: Ram, t: State, count: nat)
    requires loop.Valid() && count <= |loop.paths|
  {
    && StartsAt(loop, ram0, s0, ram, s, after, t, count)
    && (loop.from <= count ==> RoundsEffect(loop, ram, s, after, t, count))
  }

  /** The same under a name of its own: in the loop only its steps matter. */
  ghost predicate AfterRounds(loop: Loop, ram0: Ram, s0: State, ram: Ram, s: State, after: Ram, t: State, count: nat)
    requires loop.Valid() && count <= |loop.paths|
  {
    AfterRoundsIsDefined(loop, ram0, s0, ram, s, after, t, count);
    var truth: bool :| AfterRoundsIs(truth, loop, ram0, s0, ram, s, after, t, count);
    truth
  }

  ghost predicate AfterRoundsIs(truth: bool, loop: Loop, ram0: Ram, s0: State, ram: Ram, s: State, after: Ram, t: State, count: nat)
    requires loop.Valid() && count <= |loop.paths|
  {
    forall k {:trigger Shown(k)} :: Shown(k) ==> (truth <==> (RoundsMade(loop, ram0, s0, ram, s, after, t, count)))
  }

  lemma AfterRoundsIsDefined(loop: Loop, ram0: Ram, s0: State, ram: Ram, s: State, after: Ram, t: State, count: nat)
    requires loop.Valid() && count <= |loop.paths|
    ensures exists truth: bool :: AfterRoundsIs(truth, loop, ram0, s0, ram, s, after, t, count)
  {
    assert AfterRoundsIs(RoundsMade(loop, ram0, s0, ram, s, after, t, count), loop, ram0, s0, ram, s, after, t, count);
  }

  lemma RoundsMean(loop: Loop, ram0: Ram, s0: State, ram: Ram, s: State, after: Ram, t: State, count: nat)
    requires loop.Valid() && count <= |loop.paths|
    ensures AfterRounds(loop, ram0, s0, ram, s, after, t, count) <==> RoundsMade(loop, ram0, s0, ram, s, after, t, count)
  {
    assert Shown(0);
  }

  lemma NoEffect(loop: Loop, ram: Ram, s: State)
    requires loop.Valid()
    ensures RoundsEffect(loop, ram, s, ram, s, loop.from)
  {
    if OnOwned(loop, ram, s) {
      OnOwnedMeans(loop, ram, s);
      NoRounds(ram, s, loop.root, loop.LaterPaths(), loop.LaterPages(), loop.flags);
      RunEffectMeans(ram, s, ram, s, loop.root, loop.LaterPaths(), loop.LaterPages(), loop.flags, 0);
    }
  }

  lemma RoundsStart(loop: Loop, ram: Ram, s: State)
    requires loop.Valid()
    ensures AfterRounds(loop, ram, s, ram, s, ram, s, 0)
  {
    RoundsMean(loop, ram, s, ram, s, ram, s, 0);
    NoEffect(loop, ram, s);
  }

  ghost function NextState(loop: Loop, ram: Ram, s: State, after: Ram, t: State, i: nat): (Ram, State) {
    if i < loop.from then (after, t) else (ram, s)
  }

  lemma StartStep(loop: Loop, ram0: Ram, s0: State, ram: Ram, s: State, before: Ram, u: State, after: Ram, t: State, i: nat)
    requires loop.Valid() && i < |loop.paths| && StartsAt(loop, ram0, s0, ram, s, before, u, i)
    requires MapsOne(loop.root, loop.flags, loop.paths[i], loop.pages[i], before, u, after, t)
    ensures var (ram1, s1) := NextState(loop, ram, s, after, t, i); StartsAt(loop, ram0, s0, ram1, s1, after, t, i + 1)
  {
    MapsOneMeans(loop.root, loop.flags, loop.paths[i], loop.pages[i], before, u, after, t);
  }

  lemma RunStep(ram: Ram, s: State, before: Ram, u: State, after: Ram, t: State, root: Frame, paths: seq<Path>,
                pages: seq<Frame>, mappingFlags: Flags, count: nat, path: Path, page: Frame)
    requires count < |paths| == |pages| && forall i :: 0 <= i < |paths| ==> |paths[i]| == 4
    requires Distinct(paths) && root != 0 && MapsTables(mappingFlags) && Progress(s, u)
    requires RunEffect(ram, s, before, u, root, paths, pages, mappingFlags, count)
    requires path == paths[count] && page == pages[count] && MapsOne(root, mappingFlags, path, page, before, u, after, t)
    ensures RunEffect(ram, s, after, t, root, paths, pages, mappingFlags, count + 1)
  {
    RunEffectMeans(ram, s, before, u, root, paths, pages, mappingFlags, count);
    RunEffectMeans(ram, s, after, t, root, paths, pages, mappingFlags, count + 1);
    NextDemand(ram, root, paths, count, count + 1, path);
    if Demand(ram, root, paths, count) <= FreePages(s) {
      MappedOne(ram, s, before, u, after, t, root, mappingFlags, paths, pages, count, path, page);
    } else {
      MapsOneMeans(root, mappingFlags, path, page, before, u, after, t);
    }
  }

  lemma EffectStep(loop: Loop, ram: Ram, s: State, before: Ram, u: State, after: Ram, t: State, i: nat)
    requires loop.Valid() && loop.from <= i < |loop.paths| && Progress(s, u) && RoundsEffect(loop, ram, s, before, u, i)
    requires MapsOne(loop.root, loop.flags, loop.paths[i], loop.pages[i], before, u, after, t)
    ensures RoundsEffect(loop, ram, s, after, t, i + 1)
  {
    if OnOwned(loop, ram, s) {
      LaterRound(loop, ram, s, i);
      RunStep(ram, s, before, u, after, t, loop.root, loop.LaterPaths(), loop.LaterPages(), loop.flags, i - loop.from,
              loop.paths[i], loop.pages[i]);
      SameRun(ram, s, after, t, loop.root, loop.LaterPaths(), loop.LaterPages(), loop.flags, i - loop.from + 1,
              loop.root, loop.LaterPaths(), loop.LaterPages(), loop.flags, i + 1 - loop.from);
    }
  }

  lemma LaterRound(loop: Loop, ram: Ram, s: State, i: nat)
    requires loop.Valid() && OnOwned(loop, ram, s) && loop.from <= i < |loop.paths|
    ensures loop.root != 0 && MapsTables(loop.flags) && Distinct(loop.LaterPaths())
    ensures loop.LaterPaths()[i - loop.from] == loop.paths[i] && loop.LaterPages()[i - loop.from] == loop.pages[i]
  {
    OnOwnedMeans(loop, ram, s);
    LaterDistinct(loop);
  }

  lemma LaterDistinct(loop: Loop)
    requires loop.Valid() && Distinct(loop.paths)
    ensures Distinct(loop.LaterPaths())
  {
    DistinctMeans(loop.paths);
    DistinctMeans(loop.LaterPaths());
  }

  lemma RoundsStep(loop: Loop, ram0: Ram, s0: State, ram: Ram, s: State, before: Ram, u: State, after: Ram, t: State, i: nat)
    requires loop.Valid() && i < |loop.paths| && AfterRounds(loop, ram0, s0, ram, s, before, u, i)
    requires MapsOne(loop.root, loop.flags, loop.paths[i], loop.pages[i], before, u, after, t)
    ensures var (ram1, s1) := NextState(loop, ram, s, after, t, i); AfterRounds(loop, ram0, s0, ram1, s1, after, t, i + 1)
  {
    var (ram1, s1) := NextState(loop, ram, s, after, t, i);
    RoundsMean(loop, ram0, s0, ram, s, before, u, i);
    StartStep(loop, ram0, s0, ram, s, before, u, after, t, i);
    if loop.from <= i {
      EffectStep(loop, ram, s, before, u, after, t, i);
    } else if i + 1 == loop.from {
      NoEffect(loop, after, t);
    }
    RoundsMean(loop, ram0, s0, ram1, s1, after, t, i + 1);
  }

  /** One more path: what it lacks comes on top of what the others took. */
  lemma MappedOne(ram: Ram, s: State, before: Ram, u: State, after: Ram, t: State, root: Frame, mappingFlags: Flags,
                  paths: seq<Path>, pages: seq<Frame>, count: nat, path: Path, page: Frame)
    requires count < |paths| == |pages| && forall i :: 0 <= i < |paths| ==> |paths[i]| == 4
    requires Distinct(paths) && root != 0 && MapsTables(mappingFlags) && Progress(s, u)
    requires Demand(ram, root, paths, count) <= FreePages(s)
    requires MappedRounds(ram, s, before, u, root, paths, pages, mappingFlags, count)
    requires path == paths[count] && page == pages[count] && MapsOne(root, mappingFlags, path, page, before, u, after, t)
    ensures t.panicked <==> s.panicked || Demand(ram, root, paths, count + 1) > FreePages(s)
    ensures Demand(ram, root, paths, count + 1) <= FreePages(s) ==>
              MappedRounds(ram, s, after, t, root, paths, pages, mappingFlags, count + 1)
  {
    MappedRoundsMean(ram, s, before, u, root, paths, pages, mappingFlags, count);
    MapsOneMeans(root, mappingFlags, path, page, before, u, after, t);
    DemandNext(ram, s, before, u, root, paths, count);
    if Demand(ram, root, paths, count + 1) <= FreePages(s) {
      AllGrow(ram, s, before, u, after, t, root, mappingFlags, paths, pages, count);
    }
  }

  lemma AddedNext(ram: Ram, s: State, before: Ram, u: State, after: Ram, t: State, root: Frame, mappingFlags: Flags,
                  paths: seq<Path>, pages: seq<Frame>, count: nat)
    requires count < |paths| == |pages| && forall i :: 0 <= i < |paths| ==> |paths[i]| == 4
    requires Distinct(paths) && Progress(s, u)
    requires MappedRounds(ram, s, before, u, root, paths, pages, mappingFlags, count)
    requires Kept(before, u, after, t, root) && Remapped(before, after, root, paths[count], Some(pages[count]))
    ensures Added(ram, s, after, t, root, paths, pages, count + 1)
  {
    MappedRoundsMean(ram, s, before, u, root, paths, pages, mappingFlags, count);
    AddedGrows(ram, s, before, u, after, t, root, paths, pages, count);
  }

  lemma GrownNext(ram: Ram, s: State, before: Ram, u: State, after: Ram, t: State, root: Frame, mappingFlags: Flags,
                  paths: seq<Path>, pages: seq<Frame>, count: nat)
    requires count < |paths| == |pages| && forall i :: 0 <= i < |paths| ==> |paths[i]| == 4
    requires MappedRounds(ram, s, before, u, root, paths, pages, mappingFlags, count)
    requires Extended(before, u, after, t, root, paths[count][..3])
    ensures Grown(ram, s, after, t, root, paths, count + 1)
  {
    MappedRoundsMean(ram, s, before, u, root, paths, pages, mappingFlags, count);
    GrownOneMore(ram, s, before, u, after, t, root, paths, count);
  }

  lemma FlagsNext(ram: Ram, s: State, before: Ram, u: State, after: Ram, root: Frame, mappingFlags: Flags,
                  paths: seq<Path>, pages: seq<Frame>, count: nat)
    requires count < |paths| == |pages| && forall i :: 0 <= i < |paths| ==> |paths[i]| == 4
    requires Distinct(paths) && MappedRounds(ram, s, before, u, root, paths, pages, mappingFlags, count)
    requires Written(before, after, root, 0, paths[count], mappingFlags) && Walk(after, root, paths[count][..3]).Some?
    requires forall p: Path :: IsTablePath(p) && Walk(before, root, p).Some? ==> Walk(after, root, p).Some?
    ensures FlagsAdded(ram, after, root, paths, mappingFlags, count + 1)
  {
    MappedRoundsMean(ram, s, before, u, root, paths, pages, mappingFlags, count);
    FlagsGrow(ram, before, after, root, paths, mappingFlags, count);
  }

  lemma AllGrow(ram: Ram, s: State, before: Ram, u: State, after: Ram, t: State, root: Frame, mappingFlags: Flags,
                paths: seq<Path>, pages: seq<Frame>, count: nat)
    requires count < |paths| == |pages| && forall i :: 0 <= i < |paths| ==> |paths[i]| == 4
    requires Distinct(paths) && Progress(s, u)
    requires MappedRounds(ram, s, before, u, root, paths, pages, mappingFlags, count)
    requires Kept(before, u, after, t, root) && Remapped(before, after, root, paths[count], Some(pages[count]))
    requires Extended(before, u, after, t, root, paths[count][..3]) && Written(before, after, root, 0, paths[count], mappingFlags)
    ensures MappedRounds(ram, s, after, t, root, paths, pages, mappingFlags, count + 1)
  {
    AddedNext(ram, s, before, u, after, t, root, mappingFlags, paths, pages, count);
    GrownNext(ram, s, before, u, after, t, root, mappingFlags, paths, pages, count);
    FlagsNext(ram, s, before, u, after, root, mappingFlags, paths, pages, count);
    MappedRoundsMean(ram, s, after, t, root, paths, pages, mappingFlags, count + 1);
  }

  /** The same call as one round of a loop. */
  method MapRound(vm: VirtualMemory, pageMap: Frame, virtualAddress: nat, physicalAddress: nat, mappingFlags: Flags,
                  ghost loop: Loop, ghost ram0: Ram, ghost s0: State, ghost ram: Ram, ghost s: State, ghost i: nat)
    returns (ghost ram1: Ram, ghost s1: State)
    requires vm.Valid() && loop.Valid() && i < |loop.paths| && loop.root == pageMap && loop.flags == mappingFlags
    requires loop.paths[i] == Indices(virtualAddress) && loop.pages[i] == FrameOf(physicalAddress)
    requires AfterRounds(loop, ram0, s0, ram, s, vm.ram, vm.Pages(), i)
    modifies vm`ram, vm.alloc, vm.alloc.pageMap.buffer
    ensures vm.Valid() && AfterRounds(loop, ram0, s0, ram1, s1, vm.ram, vm.Pages(), i + 1)
  {
    ghost var before, u := vm.ram, vm.Pages();
    vm.Map(pageMap, virtualAddress, physicalAddress, mappingFlags);
    RoundsStep(loop, ram0, s0, ram, s, before, u, vm.ram, vm.Pages(), i);
    ghost var (nextRam, nextState) := NextState(loop, ram, s, vm.ram, vm.Pages(), i);
    ram1, s1 := nextRam, nextState;
  }

  ghost function LoopOf(pageMap: Frame, offset: nat, start: nat, end: nat, mappingFlags: Flags, from: nat): Loop {
    var n := RoundsOf(start, end);
    Loop(pageMap, mappingFlags, LoopPaths(start + offset, n), LoopPages(start, n), from)
  }

  lemma RoundOf(pageMap: Frame, offset: nat, start: nat, end: nat, mappingFlags: Flags, from: nat, i: nat)
    ensures var loop, t := LoopOf(pageMap, offset, start, end, mappingFlags, from), PageAt(start, i);
            && (t < end <==> i < |loop.paths|)
            && (i < |loop.paths| ==> loop.paths[i] == Indices(t + offset) && loop.pages[i] == FrameOf(t))
            && (t + PAGE_SIZE == PageAt(start, i + 1) && (t + PAGE_SIZE < end <==> i + 1 < |loop.paths|))
  {
    RoundsCount(start, end, i);
    RoundsCount(start, end, i + 1);
    assert PageAt(start, i) + offset == PageAt(start + offset, i);
  }

  /** The loops of `init_virtual` and `init_physical`: each page from `start` to `end` is mapped at `offset` above its
      physical address. From the round on in which the hierarchy is owned, each round adds its mapping and the tables
      for it, and keeps the mappings of earlier ones. (ram, s) is the state before round `from`. */
  method MapRange(vm: VirtualMemory, pageMap: Frame, offset: nat, start: nat, end: nat, mappingFlags: Flags, ghost from: nat)
    returns (ghost ram: Ram, ghost s: State)
    requires vm.Valid() && from <= RoundsOf(start, end)
    modifies vm`ram, vm.alloc, vm.alloc.pageMap.buffer
    ensures vm.Valid()
    ensures LoopOf(pageMap, offset, start, end, mappingFlags, from).Valid()
    ensures AfterRounds(LoopOf(pageMap, offset, start, end, mappingFlags, from), old(vm.ram), old(vm.Pages()), ram, s,
                        vm.ram, vm.Pages(), RoundsOf(start, end))
  {
    var t := start;
    ghost var loop := LoopOf(pageMap, offset, start, end, mappingFlags, from);
    ghost var ram0, s0, i := vm.ram, vm.Pages(), 0;
    ram, s := ram0, s0;
    RoundsStart(loop, ram, s);
    RoundOf(pageMap, offset, start, end, mappingFlags, from, 0);
    while t < end
      invariant vm.Valid() && t == PageAt(start, i) && i <= |loop.paths|
      invariant t < end <==> i < |loop.paths|
      invariant AfterRounds(loop, ram0, s0, ram, s, vm.ram, vm.Pages(), i)
    {
      RoundOf(pageMap, offset, start, end, mappingFlags, from, i);
      ram, s := MapRound(vm, pageMap, t + offset, t, mappingFlags, loop, ram0, s0, ram, s, i);
      t := t + PAGE_SIZE;
      i := i + 1;
    }
  }

  // ----- whole loops -----

  /** From (ram, s) to (after, t) all paths of a list have been mapped, or pages ran out. */
  ghost predicate LoopEffect(ram: Ram, s: State, after: Ram, t: State, root: Frame, paths: seq<Path>, pages: seq<Frame>,
                             mappingFlags: Flags)
    requires |paths| == |pages| && forall i :: 0 <= i < |paths| ==> |paths[i]| == 4
  {
    RunEffect(ram, s, after, t, root, paths, pages, mappingFlags, |paths|)
  }

  lemma RoundsProgress(loop: Loop, ram0: Ram, s0: State, ram: Ram, s: State, after: Ram, t: State)
    requires loop.Valid() && AfterRounds(loop, ram0, s0, ram, s, after, t, |loop.paths|)
    ensures Progress(s0, t) && Progress(s, t) && (loop.from == 0 ==> ram == ram0 && s == s0)
    ensures loop.root == 0 ==> after == ram0 && t == s0
  {
    RoundsMean(loop, ram0, s0, ram, s, after, t, |loop.paths|);
  }

  /** What a loop has done in the end. */
  lemma RoundsDone(loop: Loop, ram0: Ram, s0: State, ram: Ram, s: State, after: Ram, t: State)
    requires loop.Valid() && AfterRounds(loop, ram0, s0, ram, s, after, t, |loop.paths|)
    ensures OnOwned(loop, ram, s) ==>
              LoopEffect(ram, s, after, t, loop.root, loop.LaterPaths(), loop.LaterPages(), loop.flags)
  {
    RoundsMean(loop, ram0, s0, ram, s, after, t, |loop.paths|);
  }

  lemma RangeOnOwned(pageMap: Frame, offset: nat, start: nat, end: nat, mappingFlags: Flags, from: nat, ram: Ram, s: State)
    requires RoundsOf(start, end) <= 0x10_0000_0000 && pageMap != 0 && MapsTables(mappingFlags) && OwnedIn(ram, s, pageMap)
    ensures OnOwned(LoopOf(pageMap, offset, start, end, mappingFlags, from), ram, s)
  {
    LoopDistinct(start + offset, RoundsOf(start, end));
    OnOwnedMeans(LoopOf(pageMap, offset, start, end, mappingFlags, from), ram, s);
  }

  lemma RangeLater(pageMap: Frame, offset: nat, start: nat, end: nat, mappingFlags: Flags, from: nat, n: nat)
    requires n == RoundsOf(start, end) && from <= n
    ensures var loop := LoopOf(pageMap, offset, start, end, mappingFlags, from);
            && loop.Valid() && loop.root == pageMap && loop.flags == mappingFlags
            && loop.LaterPaths() == LoopPaths(start + offset, n)[from..] && loop.LaterPages() == LoopPages(start, n)[from..]
  {
  }

  /** The same for the loop over a range. */
  lemma RangeDone(pageMap: Frame, offset: nat, start: nat, end: nat, mappingFlags: Flags, from: nat, n: nat,
                  ram0: Ram, s0: State, ram: Ram, s: State, after: Ram, t: State, paths: seq<Path>, pages: seq<Frame>)
    requires n == RoundsOf(start, end) && from <= n
    requires OnOwned(LoopOf(pageMap, offset, start, end, mappingFlags, from), ram, s)
    requires AfterRounds(LoopOf(pageMap, offset, start, end, mappingFlags, from), ram0, s0, ram, s, after, t, n)
    requires paths == LoopPaths(start + offset, n)[from..] && pages == LoopPages(start, n)[from..]
    ensures LoopEffect(ram, s, after, t, pageMap, paths, pages, mappingFlags)
  {
    var loop := LoopOf(pageMap, offset, start, end, mappingFlags, from);
    RangeLater(pageMap, offset, start, end, mappingFlags, from, n);
    RoundsDone(loop, ram0, s0, ram, s, after, t);
    SameRun(ram, s, after, t, loop.root, loop.LaterPaths(), loop.LaterPages(), loop.flags, |loop.LaterPaths()|,
            pageMap, paths, pages, mappingFlags, |paths|);
  }

  /** The same when all rounds are looked at. */
  lemma WholeRangeDone(pageMap: Frame, offset: nat, start: nat, end: nat, mappingFlags: Flags, n: nat,
                       ram0: Ram, s0: State, ram: Ram, s: State, after: Ram, t: State, paths: seq<Path>, pages: seq<Frame>)
    requires n == RoundsOf(start, end) && pageMap != 0 && MapsTables(mappingFlags) && n <= 0x10_0000_0000
    requires AfterRounds(LoopOf(pageMap, offset, start, end, mappingFlags, 0), ram0, s0, ram, s, after, t, n)
    requires paths == LoopPaths(start + offset, n) && pages == LoopPages(start, n)
    ensures Progress(s0, t) && (OwnedIn(ram0, s0, pageMap) ==> LoopEffect(ram0, s0, after, t, pageMap, paths, pages, mappingFlags))
  {
    RoundsProgress(LoopOf(pageMap, offset, start, end, mappingFlags, 0), ram0, s0, ram, s, after, t);
    if OwnedIn(ram0, s0, pageMap) {
      assert paths[0..] == paths && pages[0..] == pages;
      RangeOnOwned(pageMap, offset, start, end, mappingFlags, 0, ram, s);
      RangeDone(pageMap, offset, start, end, mappingFlags, 0, n, ram0, s0, ram, s, after, t, paths, pages);
    }
  }

  lemma RoundsOwned(ram: Ram, s: State, after: Ram, t: State, root: Frame, paths: seq<Path>, pages: seq<Frame>,
                    mappingFlags: Flags, count: nat)
    requires count <= |paths| == |pages| && forall i :: 0 <= i < |paths| ==> |paths[i]| == 4
    requires MappedRounds(ram, s, after, t, root, paths, pages, mappingFlags, count)
    ensures Kept(ram, s, after, t, root) && OwnedIn(after, t, root) && TablesOn(ram, after, root, paths, count)
    ensures t == Requested(s, Demand(ram, root, paths, count))
  {
    MappedRoundsMean(ram, s, after, t, root, paths, pages, mappingFlags, count);
  }

  /** What the second of two loops lacks then is the rest of what both lack in the beginning. */
  lemma SecondDemand(ram: Ram, s: State, mid: Ram, u: State, root: Frame, a: seq<Path>, pages: seq<Frame>, flags: Flags, b: seq<Path>)
    requires |a| == |pages| && forall i :: 0 <= i < |a| + |b| ==> |(a + b)[i]| == 4
    requires (forall i :: 0 <= i < |a| ==> |a[i]| == 4) && forall i :: 0 <= i < |b| ==> |b[i]| == 4
    requires MappedRounds(ram, s, mid, u, root, a, pages, flags, |a|) && Demand(ram, root, a, |a|) <= FreePages(s)
    ensures OwnedIn(mid, u, root) && u.panicked == s.panicked
    ensures Demand(ram, root, a + b, |a + b|) <= FreePages(s) <==> Demand(mid, root, b, |b|) <= FreePages(u)
  {
    RoundsOwned(ram, s, mid, u, root, a, pages, flags, |a|);
    RequestedFree(s, Demand(ram, root, a, |a|));
    DemandAppend(ram, mid, root, a, b, a + b);
  }

  /** Two loops one after the other. */
  lemma EffectsJoin(ram: Ram, s: State, mid: Ram, u: State, after: Ram, t: State, root: Frame,
                    a: seq<Path>, aPages: seq<Frame>, aFlags: Flags, b: seq<Path>, bPages: seq<Frame>, bFlags: Flags)
    requires |a| == |aPages| && |b| == |bPages|
    requires (forall i :: 0 <= i < |a| ==> |a[i]| == 4) && forall i :: 0 <= i < |b| ==> |b[i]| == 4
    requires LoopEffect(ram, s, mid, u, root, a, aPages, aFlags) && Progress(u, t)
    requires OwnedIn(mid, u, root) ==> LoopEffect(mid, u, after, t, root, b, bPages, bFlags)
    ensures forall i :: 0 <= i < |a + b| ==> |(a + b)[i]| == 4
    ensures t.panicked <==> s.panicked || Demand(ram, root, a + b, |a + b|) > FreePages(s)
    ensures Demand(ram, root, a + b, |a + b|) <= FreePages(s) ==>
              && MappedRounds(ram, s, mid, u, root, a, aPages, aFlags, |a|)
              && MappedRounds(mid, u, after, t, root, b, bPages, bFlags, |b|)
  {
    RunEffectMeans(ram, s, mid, u, root, a, aPages, aFlags, |a|);
    DemandPrefix(ram, root, a, a + b, |a|);
    DemandMonotone(ram, root, a + b, |a|, |a + b|);
    if Demand(ram, root, a, |a|) <= FreePages(s) {
      SecondDemand(ram, s, mid, u, root, a, aPages, aFlags, b);
      RunEffectMeans(mid, u, after, t, root, b, bPages, bFlags, |b|);
    }
  }

  // ----- what a loop leaves behind, path by path -----

  /** The flags that all pages have that `init_virtual` and `init_physical` map. */
  const WRITABLE := Flags(true, true, false, false, false, false, false, false, false, false)

  /** `q` leads to `page`, which can be written and is not global. */
  ghost predicate MappedFrom(ram0: Ram, ram: Ram, root: Frame, q: Path, page: Frame)
    requires |q| == 4
  {
    Walk(ram, root, q) == Some(page) && Leaf(ram, root, q).flags == WRITABLE.(noExecute := Leaf(ram0, root, q).flags.noExecute)
  }

  ghost predicate SameLeaf(ram0: Ram, ram: Ram, root: Frame, q: Path)
    requires |q| == 4
  {
    Walk(ram, root, q) == Walk(ram0, root, q) && Leaf(ram, root, q) == Leaf(ram0, root, q)
  }

  /** A hierarchy whose tables are not written is left alone. */
  lemma SameTablesSameLeaves(before: Ram, after: Ram, s: State, root: Frame)
    requires OwnedIn(before, s, root) && forall f: Frame :: IsTable(before, root, f) ==> after[f] == before[f]
    ensures OwnedIn(after, s, root) && forall q: Path :: |q| == 4 ==> SameLeaf(before, after, root, q)
  {
    forall q: Path | |q| <= 4
      ensures Walk(after, root, q) == Walk(before, root, q)
    {
      WalkAgrees(before, after, root, q);
    }
    SameWalksOwned(before, after, s, root);
    forall q: Path | |q| == 4
      ensures SameLeaf(before, after, root, q)
    {
      assert IsTablePath(q[..3]);
      if Walk(before, root, q[..3]).Some? {
        assert IsTable(before, root, Walk(before, root, q[..3]).value);
      }
    }
  }

  /** The paths lead to the virtual pages from `first` on. */
  ghost predicate Numbered(paths: seq<Path>, first: nat) {
    forall i :: 0 <= i < |paths| ==> |paths[i]| == 4 && PageOfPath(paths[i]) == first + i
  }

  lemma PathAmong(paths: seq<Path>, first: nat, q: Path)
    requires Numbered(paths, first) && |q| == 4
    ensures var u := PageOfPath(q);
            if first <= u < first + |paths| then paths[u - first] == q else Apart(q, paths, |paths|)
  {
    var u := PageOfPath(q);
    if first <= u < first + |paths| {
      PageOfPathInjective(q, paths[u - first]);
    }
  }

  lemma RoundsLeaf(ram: Ram, s: State, after: Ram, t: State, root: Frame, paths: seq<Path>, pages: seq<Frame>,
                   mappingFlags: Flags, first: nat, q: Path)
    requires |paths| == |pages| && Numbered(paths, first) && |q| == 4
    requires mappingFlags.(global := mappingFlags.noExecute) == WRITABLE
    requires MappedRounds(ram, s, after, t, root, paths, pages, mappingFlags, |paths|)
    ensures var u := PageOfPath(q);
            if first <= u < first + |paths| then MappedFrom(ram, after, root, q, pages[u - first]) else SameLeaf(ram, after, root, q)
  {
    MappedRoundsMean(ram, s, after, t, root, paths, pages, mappingFlags, |paths|);
    PathAmong(paths, first, q);
  }

  lemma PathNumbers(start: nat, n: nat, first: nat)
    requires start % PAGE_SIZE == 0 && first + n <= 0x10_0000_0000 && start / PAGE_SIZE % 0x10_0000_0000 == first
    ensures Numbered(LoopPaths(start, n), first)
  {
    forall i | 0 <= i < n
      ensures PageOfPath(LoopPaths(start, n)[i]) == first + i
    {
      IndicesComposePage(PageAt(start, i));
      PageNumber(start, i);
      assert LoopPaths(start, n)[i] == Indices(PageAt(start, i));
      ModOffset(start / PAGE_SIZE, first, i);
    }
  }

  lemma ModOffset(x: nat, first: nat, i: nat)
    requires x % 0x10_0000_0000 == first && first + i < 0x10_0000_0000
    ensures (x + i) % 0x10_0000_0000 == first + i
  {
  }

  /** Work on one hierarchy leaves a separate one as it was. */
  lemma OtherHierarchy(ram: Ram, s: State, after: Ram, t: State, root: Frame, other: Frame)
    requires OwnedIn(ram, s, other) && DisjointTables(ram, other, root) && Kept(ram, s, after, t, root) && Progress(s, t)
    ensures forall q: Path :: |q| <= 4 ==> Walk(after, other, q) == Walk(ram, other, q)
    ensures OwnedIn(after, t, other) && DisjointTables(after, other, root)
  {
    forall f: Frame | IsTable(ram, other, f)
      ensures after[f] == ram[f]
    {
      assert !IsTable(ram, root, f);
    }
    forall q: Path | |q| <= 4
      ensures Walk(after, other, q) == Walk(ram, other, q)
    {
      WalkAgrees(ram, after, other, q);
    }
    SameWalksOwned(ram, after, s, other);
    forall f: Frame | IsTable(after, other, f)
      ensures IsTable(ram, other, f)
    {
      var p: Path :| IsTablePath(p) && Walk(after, other, p) == Some(f);
      assert Walk(ram, other, p) == Some(f);
    }
  }

  // ----- runs of Map -----

  datatype Mapping = Mapping(virtualAddress: nat, physicalAddress: nat, flags: Flags)

  /** The translation after a list of mappings. */
  function MappedTo(base: Option<Frame>, mappings: seq<Mapping>, path: Path): Option<Frame> {
    if mappings == [] then base
    else
      var last := mappings[|mappings| - 1];
      if Indices(last.virtualAddress) == path then Some(FrameOf(last.physicalAddress))
      else MappedTo(base, mappings[..|mappings| - 1], path)
  }

  /** The flags after a list of mappings. */
  function FlagsTo(base: Flags, mappings: seq<Mapping>, path: Path): Flags {
    if mappings == [] then base
    else
      var last := mappings[|mappings| - 1];
      if Indices(last.virtualAddress) == path then Granted(last.flags, base.noExecute)
      else FlagsTo(base, mappings[..|mappings| - 1], path)
  }

  function PathsOf(mappings: seq<Mapping>): (paths: seq<Path>)
    ensures |paths| == |mappings|
    ensures forall i :: 0 <= i < |mappings| ==> paths[i] == Indices(mappings[i].virtualAddress) && |paths[i]| == 4
  {
    seq(|mappings|, (i: nat) requires i < |mappings| => Indices(mappings[i].virtualAddress))
  }

  lemma {:induction false} FlagsToKeepNX(base: Flags, mappings: seq<Mapping>, path: Path)
    ensures FlagsTo(base, mappings, path).noExecute == base.noExecute
  {
    if mappings != [] {
      FlagsToKeepNX(base, mappings[..|mappings| - 1], path);
    }
  }

  /** Every page has the translation and the flags of the last mapping made for it, and a separate hierarchy is as it was
      in `ram0`. */
  ghost predicate MappedApart(ram0: Ram, ram: Ram, s: State, root: Frame, other: Frame, mappings: seq<Mapping>) {
    && OwnedIn(ram, s, root) && OwnedIn(ram, s, other) && DisjointTables(ram, other, root)
    && (forall q: Path :: |q| == 4 ==> Walk(ram, root, q) == MappedTo(Walk(ram0, root, q), mappings, q))
    && (forall q: Path :: |q| == 4 ==> Leaf(ram, root, q).flags == FlagsTo(Leaf(ram0, root, q).flags, mappings, q))
    && (forall q: Path :: |q| == 4 ==> Walk(ram, other, q) == Walk(ram0, other, q))
  }

  lemma OneMore(mappings: seq<Mapping>, i: nat)
    requires i < |mappings|
    ensures mappings[..i + 1] == mappings[..i] + [mappings[i]]
  {
  }

  lemma MappedOneMore(ram0: Ram, ram: Ram, s: State, after: Ram, t: State, root: Frame, other: Frame,
                      mappings: seq<Mapping>, m: Mapping)
    requires MappedApart(ram0, ram, s, root, other, mappings) && Progress(s, t) && Kept(ram, s, after, t, root)
    requires Remapped(ram, after, root, Indices(m.virtualAddress), Some(FrameOf(m.physicalAddress)))
    requires Written(ram, after, root, 0, Indices(m.virtualAddress), m.flags) && TablesGrow(ram, s, after, t, root)
    requires Walk(after, root, Indices(m.virtualAddress)[..3]).Some?
    ensures MappedApart(ram0, after, t, root, other, mappings + [m])
  {
    OtherHierarchy(ram, s, after, t, root, other);
    forall q: Path | |q| == 4
      ensures Walk(after, root, q) == MappedTo(Walk(ram0, root, q), mappings + [m], q)
      ensures Leaf(after, root, q).flags == FlagsTo(Leaf(ram0, root, q).flags, mappings + [m], q)
    {
      LastMapping(Walk(ram0, root, q), mappings, m, q);
      FlagsOneMore(ram0, ram, after, root, mappings, m, q);
    }
  }

  lemma LastMapping(base: Option<Frame>, mappings: seq<Mapping>, m: Mapping, q: Path)
    ensures MappedTo(base, mappings + [m], q)
            == if Indices(m.virtualAddress) == q then Some(FrameOf(m.physicalAddress)) else MappedTo(base, mappings, q)
  {
    assert (mappings + [m])[..|mappings|] == mappings;
  }

  lemma FlagsOneMore(ram0: Ram, ram: Ram, after: Ram, root: Frame, mappings: seq<Mapping>, m: Mapping, q: Path)
    requires |q| == 4 && Leaf(ram, root, q).flags == FlagsTo(Leaf(ram0, root, q).flags, mappings, q)
    requires Written(ram, after, root, 0, Indices(m.virtualAddress), m.flags) && Walk(after, root, Indices(m.virtualAddress)[..3]).Some?
    requires forall p: Path :: IsTablePath(p) && Walk(ram, root, p).Some? ==> Walk(after, root, p).Some?
    ensures Leaf(after, root, q).flags == FlagsTo(Leaf(ram0, root, q).flags, mappings + [m], q)
  {
    assert (mappings + [m])[..|mappings|] == mappings;
    OneLeafWritten(ram, after, root, Indices(m.virtualAddress), m.flags, q);
    FlagsToKeepNX(Leaf(ram0, root, q).flags, mappings, q);
  }

  /** The first `count` mappings of a list have been made: translations, flags, tables and pages taken. */
  ghost predicate ListDone(ram0: Ram, s0: State, ram: Ram, s: State, root: Frame, other: Frame, mappings: seq<Mapping>, count: nat)
    requires count <= |mappings|
  {
    forall k {:trigger Shown(k)} :: Shown(k) ==>
      MappedApart(ram0, ram, s, root, other, mappings[..count]) && Grown(ram0, s0, ram, s, root, PathsOf(mappings), count)
  }

  lemma ListDoneMeans(ram0: Ram, s0: State, ram: Ram, s: State, root: Frame, other: Frame, mappings: seq<Mapping>, count: nat)
    requires count <= |mappings|
    ensures ListDone(ram0, s0, ram, s, root, other, mappings, count)
            <==> MappedApart(ram0, ram, s, root, other, mappings[..count]) && Grown(ram0, s0, ram, s, root, PathsOf(mappings), count)
  {
    assert Shown(0);
  }

  /** The first `count` mappings of a list lead from (ram0, s0) to (ram, s). They panic if and only if there are not
      enough pages for the tables that they lack in the beginning, and otherwise map what they are to map. */
  ghost predicate ListMapped(ram0: Ram, s0: State, ram: Ram, s: State, root: Frame, other: Frame, mappings: seq<Mapping>, count: nat)
    requires count <= |mappings|
  {
    && Progress(s0, s)
    && (s.panicked <==> s0.panicked || Demand(ram0, root, PathsOf(mappings), count) > FreePages(s0))
    && (Demand(ram0, root, PathsOf(mappings), count) <= FreePages(s0) ==>
          ListDone(ram0, s0, ram, s, root, other, mappings, count))
  }

  lemma ListStart(ram: Ram, s: State, root: Frame, other: Frame, mappings: seq<Mapping>)
    requires OwnedIn(ram, s, root) && OwnedIn(ram, s, other) && DisjointTables(ram, other, root)
    ensures ListMapped(ram, s, ram, s, root, other, mappings, 0)
  {
    ListDoneMeans(ram, s, ram, s, root, other, mappings, 0);
  }

  lemma ListDemand(ram0: Ram, s0: State, ram: Ram, s: State, root: Frame, other: Frame, mappings: seq<Mapping>, i: nat)
    requires i < |mappings| && ListDone(ram0, s0, ram, s, root, other, mappings, i)
    requires Demand(ram0, root, PathsOf(mappings), i) <= FreePages(s0)
    ensures OwnedIn(ram, s, root) && s.panicked == s0.panicked
    ensures Affordable(ram, s, root, Indices(mappings[i].virtualAddress)[..3])
            <==> Demand(ram0, root, PathsOf(mappings), i + 1) <= FreePages(s0)
  {
    ListDoneMeans(ram0, s0, ram, s, root, other, mappings, i);
    DemandNext(ram0, s0, ram, s, root, PathsOf(mappings), i);
  }

  lemma ListGrows(ram0: Ram, s0: State, ram: Ram, s: State, after: Ram, t: State, root: Frame, other: Frame,
                  mappings: seq<Mapping>, i: nat)
    requires i < |mappings| && ListDone(ram0, s0, ram, s, root, other, mappings, i) && Progress(s, t)
    requires var m, path := mappings[i], Indices(mappings[i].virtualAddress);
             && Kept(ram, s, after, t, root) && Remapped(ram, after, root, path, Some(FrameOf(m.physicalAddress)))
             && Extended(ram, s, after, t, root, path[..3]) && Written(ram, after, root, 0, path, m.flags)
    ensures ListDone(ram0, s0, after, t, root, other, mappings, i + 1)
  {
    ListDoneMeans(ram0, s0, ram, s, root, other, mappings, i);
    GrownOneMore(ram0, s0, ram, s, after, t, root, PathsOf(mappings), i);
    OneMore(mappings, i);
    MappedOneMore(ram0, ram, s, after, t, root, other, mappings[..i], mappings[i]);
    ListDoneMeans(ram0, s0, after, t, root, other, mappings, i + 1);
  }

  lemma ListStep(ram0: Ram, s0: State, ram: Ram, s: State, after: Ram, t: State, root: Frame, other: Frame,
                 mappings: seq<Mapping>, i: nat)
    requires i < |mappings| && root != 0 && MapsTables(mappings[i].flags)
    requires ListMapped(ram0, s0, ram, s, root, other, mappings, i)
    requires MapsOne(root, mappings[i].flags, Indices(mappings[i].virtualAddress), FrameOf(mappings[i].physicalAddress),
                     ram, s, after, t)
    ensures ListMapped(ram0, s0, after, t, root, other, mappings, i + 1)
  {
    MapsOneMeans(root, mappings[i].flags, Indices(mappings[i].virtualAddress), FrameOf(mappings[i].physicalAddress),
                 ram, s, after, t);
    if Demand(ram0, root, PathsOf(mappings), i) <= FreePages(s0) {
      ListDemand(ram0, s0, ram, s, root, other, mappings, i);
      if Demand(ram0, root, PathsOf(mappings), i + 1) <= FreePages(s0) {
        ListGrows(ram0, s0, ram, s, after, t, root, other, mappings, i);
      }
    }
  }

  /** What that is worth for a whole list. */
  lemma WholeList(ram0: Ram, s0: State, ram: Ram, s: State, root: Frame, other: Frame, mappings: seq<Mapping>)
    requires ListMapped(ram0, s0, ram, s, root, other, mappings, |mappings|)
    ensures Demand(ram0, root, PathsOf(mappings), |mappings|) <= FreePages(s0) ==> MappedApart(ram0, ram, s, root, other, mappings)
  {
    assert mappings[..|mappings|] == mappings;
    ListDoneMeans(ram0, s0, ram, s, root, other, mappings, |mappings|);
  }

  /** Any run of `Map` on one hierarchy gives each page the translation and the flags of the last mapping made for it, and
      leaves every translation of a separate hierarchy alone, if there are enough pages; if and only if not, it panics. */
  method MapAll(vm: VirtualMemory, root: Frame, mappings: seq<Mapping>, ghost other: Frame)
    requires vm.Valid() && vm.Owned(root) && root != 0
    requires vm.Owned(other) && DisjointTables(vm.ram, other, root)
    requires forall m :: m in mappings ==> MapsTables(m.flags)
    modifies vm`ram, vm.alloc, vm.alloc.pageMap.buffer
    ensures ListMapped(old(vm.ram), old(vm.Pages()), vm.ram, vm.Pages(), root, other, mappings, |mappings|)
  {
    ghost var ram0, s0 := vm.ram, vm.Pages();
    ListStart(ram0, s0, root, other, mappings);
    for i := 0 to |mappings|
      invariant vm.Valid() && ListMapped(ram0, s0, vm.ram, vm.Pages(), root, other, mappings, i)
    {
      ghost var ram, s := vm.ram, vm.Pages();
      vm.Map(root, mappings[i].virtualAddress, mappings[i].physicalAddress, mappings[i].flags);
      ListStep(ram0, s0, ram, s, vm.ram, vm.Pages(), root, other, mappings, i);
    }
  }
}
