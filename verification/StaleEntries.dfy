/** What mappings in a clone do to the original: nothing through copies of its tables, but not so through a stale entry of
    a fresh page. */
module StaleEntries {
  import opened ClonePlans
  import opened PageFrames
  import opened PageMapClones
  import opened PageMapMirrors
  import opened PageTrees
  import opened Paging
  import opened VirtualMemories
  import opened Wrappers

  lemma PrefixOfThree(ram: Ram, f: Frame, q: Path, k: nat)
    requires |q| == 4 && k <= 3 && Walk(ram, f, q[..3]).Some?
    ensures Walk(ram, f, q[..k]).Some?
  {
    assert q[..3][..k] == q[..k];
    WalkPrefix(ram, f, q[..3], k);
  }

  /** Mapping an address in the clone for which the original has all three tables writes to copies only, whatever the
      fresh pages contained, and so leaves the original as it is. */
  lemma MappingThroughCopies(ram: Ram, s: State, after: Ram, t: State, original: Frame, clone: Frame,
                             q: Path, page: Frame, mappingFlags: Flags)
    requires OwnedIn(ram, s, original) && IsClone(ram, s, after, t, original, clone)
    requires |q| == 4 && Walk(ram, original, q[..3]).Some? && mappingFlags.present
    ensures Walk(after, clone, q[..3]).Some?
    ensures var mapped := MapThrough(after, clone, q, page, mappingFlags);
            && (forall f: Frame :: Held(s, f) ==> mapped[f] == after[f])
            && (forall r: Path :: |r| <= 4 ==> Walk(mapped, original, r) == Walk(ram, original, r))
  {
    assert IsTablePath(q[..3]);
    MapThroughEffect(after, clone, q, page, mappingFlags);
    var mapped := MapThrough(after, clone, q, page, mappingFlags);
    forall g: Frame | PassedThrough(after, clone, q, g)
      ensures !Held(s, g)
    {
      var k: nat :| k < 4 && Walk(after, clone, q[..k]) == Some(g);
      PrefixOfThree(ram, original, q, k);
      assert IsTablePath(q[..k]);
    }
    forall f: Frame | IsTable(ram, original, f)
      ensures mapped[f] == ram[f]
    {
      assert Held(s, f);
    }
    forall r: Path | |r| <= 4
      ensures Walk(mapped, original, r) == Walk(ram, original, r)
    {
      WalkAgrees(ram, mapped, original, r);
    }
  }

  // ----- an example -----

  /** The entry at `i` of table `f` leads to frame `g`. */
  function Leading(ram: Ram, f: Frame, i: Index, g: Frame): Ram {
    WriteEntry(ram, f, i, Entry(NO_FLAGS.With(Present, true), g, 0))
  }

  /** Tables 1, 2, 3 and 4 map page 0 to frame 9. Page 6, free, holds an entry that leads to table 3. */
  function Before(zero: Ram): Ram {
    Leading(Leading(Leading(Leading(Leading(zero, 1, 0, 2), 2, 0, 3), 3, 0, 4), 4, 0, 9), 6, 1, 3)
  }

  /** Pages 5, 6, 7 and 8 hold the copies. */
  function After(zero: Ram): Ram {
    Leading(Leading(Leading(Before(zero), 5, 0, 6), 6, 0, 7), 7, 0, 8)[8 := Before(zero)[4]]
  }

  const COPIES: Places := map[6 := [0], 7 := [0, 0], 8 := [0, 0, 0]]

  /** An allocator that hands out pages 5 to 8 next. */
  ghost predicate HandsOutFive(s: State) {
    s.cursor == 5 && 9 <= s.totalPages <= FRAMES && |s.bits| >= 9 && forall p :: 5 <= p < 9 ==> !s.bits[p]
  }

  /** The allocator after the pages below `p`. */
  function Upto(s: State, p: nat): State
    requires 5 <= p <= 9
    decreases p
  {
    if p == 5 then s else RequestPage(Upto(s, p - 1)).0
  }

  /** Allocator `u` is `s` with the pages from 5 to `p` handed out. */
  ghost predicate IsUpto(s: State, u: State, p: nat) {
    && u.cursor == p && u.totalPages == s.totalPages && |u.bits| == |s.bits| && u.panicked == s.panicked
    && forall k :: 0 <= k < |s.bits| ==> u.bits[k] == (s.bits[k] || 5 <= k < p)
  }

  lemma {:induction false} NextIs(s: State, p: nat)
    requires HandsOutFive(s) && 5 <= p < 9
    ensures IsUpto(s, Upto(s, p), p) && IsUpto(s, Upto(s, p + 1), p + 1)
    ensures RequestPage(Upto(s, p)) == (Upto(s, p + 1), Some(p))
    decreases p
  {
    if p > 5 {
      NextIs(s, p - 1);
    }
  }

  ghost predicate OnlyFirst(table: Table) { forall i: Index :: i > 0 ==> !table[i].flags.present }

  /** Entries that are not present add nothing to a plan. */
  lemma {:induction false} PlanOfFirst(src: Ram, o: Frame, depth: nat, prefix: Path, s: State, done: nat)
    requires depth > 0 && 1 <= done <= 512 && OnlyFirst(src[o]) && src[o][0].flags.present
    ensures PlanEntries(src, o, depth, prefix, s, done)
         == var (t, more) := PlanTable(src, src[o][0].frame, depth - 1, prefix + [0], s); (t, more)
    decreases done
  {
    if done > 1 {
      PlanOfFirst(src, o, depth, prefix, s, done - 1);
    } else {
      var (t, more) := PlanTable(src, src[o][0].frame, depth - 1, prefix + [0], s);
      assert map[] + more == more;
      assert PlanEntries(src, o, depth, prefix, s, 0) == (s, map[]);
    }
  }

  /** What the example's memory holds at the entries that matter. */
  ghost predicate Chain(ram: Ram) {
    && (forall f: Frame :: 1 <= f <= 3 ==> OnlyFirst(ram[f]))
    && (forall f: Frame :: 1 <= f <= 4 ==>
          ram[f][0].flags == NO_FLAGS.With(Present, true) && ram[f][0].frame == if f == 4 then 9 else f + 1)
  }

  lemma BeforeHolds(zero: Ram)
    requires forall f: Frame :: zero[f] == ZeroTable()
    ensures var ram := Before(zero);
            && Chain(ram) && ram[5] == ram[7] == ram[8] == ZeroTable()
            && ram[6] == ZeroTable()[1 := Entry(NO_FLAGS.With(Present, true), 3, 0)]
  {
    assert forall i: Index :: ZeroTable()[i] == ZERO_ENTRY;
  }

  /** A walk down the chain uses entry 0 only. */
  lemma {:induction false} ChainWalk(ram: Ram, f: Frame, p: Path)
    requires Chain(ram) && 1 <= f && f + |p| <= 4 && Walk(ram, f, p).Some?
    ensures Walk(ram, f, p) == Some(f + |p|) && forall k :: 0 <= k < |p| ==> p[k] == 0
    decreases |p|
  {
    if p != [] {
      assert ram[f][p[0]].flags.present;
      ChainWalk(ram, f + 1, p[1..]);
    }
  }

  lemma ChainOwned(ram: Ram, s: State)
    requires Chain(ram) && s.cursor >= 5
    ensures OwnedIn(ram, s, 1)
  {
    forall p: Path | IsTablePath(p) && Walk(ram, 1, p).Some?
      ensures Walk(ram, 1, p) == Some(1 + |p|) && forall k :: 0 <= k < |p| ==> p[k] == 0
    {
      ChainWalk(ram, 1, p);
    }
  }

  /** The plan for a table with one child. */
  lemma PlanOfParent(src: Ram, o: Frame, depth: nat, prefix: Path, below: Path, s: State, u: State, page: Frame, t: State, more: Places)
    requires depth > 0 && OnlyFirst(src[o]) && src[o][0].flags.present && below == prefix + [0]
    requires RequestPage(s) == (u, Some(page)) && PlanTable(src, src[o][0].frame, depth - 1, below, u) == (t, more)
    ensures PlanTable(src, o, depth, prefix, s) == (t, more[page := prefix])
  {
    PlanOfFirst(src, o, depth, prefix, u, 512);
  }

  lemma PlanOfLeaf(src: Ram, o: Frame, prefix: Path, s: State, t: State, page: Frame)
    requires RequestPage(s) == (t, Some(page))
    ensures PlanTable(src, o, 0, prefix, s) == (t, map[page := prefix])
  {
  }

  /** The copies go to pages 6, 7 and 8, in this order. */
  lemma PlanOfChain(src: Ram, s6: State, s7: State, s8: State, s9: State)
    requires Chain(src) && RequestPage(s6) == (s7, Some(6)) && RequestPage(s7) == (s8, Some(7)) && RequestPage(s8) == (s9, Some(8))
    ensures PlanEntries(src, 1, 3, [], s6, 512) == (s9, COPIES)
  {
    var last: Places := map[8 := [0, 0, 0]];
    var lower: Places := map[7 := [0, 0], 8 := [0, 0, 0]];
    assert last[7 := [0, 0]] == lower && lower[6 := [0]] == COPIES;
    PlanOfLeaf(src, 4, [0, 0, 0], s8, s9, 8);
    PlanOfParent(src, 3, 1, [0, 0], [0, 0, 0], s7, s8, 7, s9, last);
    PlanOfParent(src, 2, 2, [0], [0, 0], s6, s7, 6, s9, lower);
    PlanOfFirst(src, 1, 3, [], s6, 512);
    assert [] + [0] == [0];
  }

  lemma PlanOfExample(src: Ram, s: State)
    requires Chain(src) && HandsOutFive(s)
    ensures PlanEntries(src, 1, 3, [], Upto(s, 6), 512) == (Upto(s, 9), COPIES)
  {
    NextIs(s, 6);
    NextIs(s, 7);
    NextIs(s, 8);
    PlanOfChain(src, Upto(s, 6), Upto(s, 7), Upto(s, 8), Upto(s, 9));
  }

  lemma AfterMirrors(zero: Ram)
    requires forall f: Frame :: zero[f] == ZeroTable()
    ensures Mirror(Before(zero)[5 := ZeroTable()], 1, After(zero), 5, 3, COPIES[5 := []], [])
  {
    BeforeHolds(zero);
    var src, after, all := Before(zero), After(zero), COPIES[5 := []];
    assert src[5 := ZeroTable()] == src;
    assert forall i: Index :: ZeroTable()[i] == ZERO_ENTRY;
    assert after[8] == src[4];
    assert Mirror(src, 4, after, 8, 0, all, [0, 0, 0]);
    assert [0, 0] + [0] == [0, 0, 0];
    assert Mirror(src, 3, after, 7, 1, all, [0, 0]);
    assert [0] + [0] == [0, 0];
    assert Mirror(src, 2, after, 6, 2, all, [0]);
    assert [] + [0] == [0];
    assert Mirror(src, 1, after, 5, 3, all, []);
  }

  lemma ExampleWrites(zero: Ram, s: State)
    requires (forall f: Frame :: zero[f] == ZeroTable()) && HandsOutFive(s)
    ensures OnlyNewPages(Before(zero), s, After(zero), Upto(s, 9))
  {
    var ram, after, t := Before(zero), After(zero), Upto(s, 9);
    NextIs(s, 8);
    assert t.cursor == 9 && |t.bits| == |s.bits| && t.totalPages == s.totalPages && t.panicked == s.panicked;
    assert forall k :: 0 <= k < |s.bits| ==> t.bits[k] == (s.bits[k] || 5 <= k < 9);
    assert forall f: Frame :: !(5 <= f < 9) ==> after[f] == ram[f];
  }

  lemma ExampleCloned(zero: Ram, s: State)
    requires (forall f: Frame :: zero[f] == ZeroTable()) && HandsOutFive(s)
    ensures OwnedIn(Before(zero), s, 1) && PlannedPlaces(Before(zero), s, 1) == COPIES
    ensures IsClone(Before(zero), s, After(zero), Upto(s, 9), 1, 5)
  {
    var ram := Before(zero);
    BeforeHolds(zero);
    ChainOwned(ram, s);
    NextIs(s, 5);
    assert ram[5 := ZeroTable()] == ram;
    PlanOfExample(ram, s);
    AfterMirrors(zero);
    ExampleWrites(zero, s);
    CopyIsClone(ram, s, After(zero), Upto(s, 9), 1, 5, COPIES);
  }

  lemma ExampleNotClean(zero: Ram, s: State)
    requires (forall f: Frame :: zero[f] == ZeroTable()) && PlannedPlaces(Before(zero), s, 1) == COPIES
    ensures !FreshPagesClean(Before(zero), s, 1)
  {
    BeforeHolds(zero);
    var ram := Before(zero);
    var i: Index := 1;
    assert Walk(ram, 2, []) == Some(2) && COPIES[6][1..] == [];
    assert Walk(ram, 1, COPIES[6]) == Some(2);
    assert ram[6][i].flags.present && !ram[2][i].flags.present;
  }

  /** The path of the example's address: entry 1 of the second table, otherwise 0. */
  const STALE: Path := [0, 1, 0, 0]

  lemma StaleWalks(zero: Ram)
    requires forall f: Frame :: zero[f] == ZeroTable()
    ensures Walk(Before(zero), 1, STALE) == None && Walk(After(zero), 5, STALE) == Some(9)
    ensures Walk(After(zero), 5, STALE[..3]) == Some(4)
    ensures Walk(Before(zero), 1, [0, 0, 0, 0]) == Some(9)
  {
    BeforeHolds(zero);
    var ram, after := Before(zero), After(zero);
    var three: Path := [1, 0, 0];
    assert STALE[1..] == three && three[1..] == [0, 0] && [0, 0][1..] == [0] && [0][1..] == [];
    assert STALE[..3][1..] == [1, 0] && [1, 0][1..] == [0];
    assert Walk(ram, 2, three) == None;
    assert Walk(after, 4, [0]) == Some(9) && Walk(after, 3, [0, 0]) == Walk(after, 4, [0]);
    assert Walk(after, 6, three) == Walk(after, 3, [0, 0]);
    assert Walk(after, 3, [0]) == Some(4) && Walk(after, 6, [1, 0]) == Walk(after, 3, [0]);
    var q: Path := [0, 0, 0, 0];
    assert q[1..] == [0, 0, 0] && [0, 0, 0][1..] == [0, 0];
    assert Walk(ram, 4, [0]) == Some(9) && Walk(ram, 3, [0, 0]) == Walk(ram, 4, [0]);
    assert Walk(ram, 2, [0, 0, 0]) == Walk(ram, 3, [0, 0]);
  }

  /** A stale entry shows through: the clone is a clone, but not faithful. It translates an address that the original
      does not translate. */
  lemma StaleEntryShows(zero: Ram, s: State)
    requires (forall f: Frame :: zero[f] == ZeroTable()) && HandsOutFive(s)
    ensures var ram, after, t := Before(zero), After(zero), Upto(s, 9);
            && OwnedIn(ram, s, 1) && IsClone(ram, s, after, t, 1, 5) && !IsFaithful(ram, s, after, t, 1, 5)
            && Translate(ram, 1, 0x4000_0000) == None && Translate(after, 5, 0x4000_0000) == Some(9)
  {
    ExampleCloned(zero, s);
    ExampleNotClean(zero, s);
    StaleWalks(zero);
    StaleAddress();
  }

  lemma StaleAddress()
    ensures Indices(0x4000_0000) == STALE && Indices(0) == [0, 0, 0, 0]
  {
    assert IndexPath(0, 0) == [] && IndexPath(0, 1) == [0];
    assert IndexPath(1, 2) == IndexPath(0, 1) + [1] && IndexPath(0x200, 3) == IndexPath(1, 2) + [0];
    assert IndexPath(0, 2) == IndexPath(0, 1) + [0] && IndexPath(0, 3) == IndexPath(0, 2) + [0];
  }

  /** Mapping that address in the clone, to page 10, maps address 0 in the original to page 10 too. */
  lemma StaleEntryReachesOriginal(zero: Ram, mappingFlags: Flags)
    requires (forall f: Frame :: zero[f] == ZeroTable()) && mappingFlags.present
    ensures Translate(After(zero), 1, 0) == Some(9)
    ensures Walk(After(zero), 5, Indices(0x4000_0000)[..3]).Some?
    ensures Translate(MapThrough(After(zero), 5, Indices(0x4000_0000), 10, mappingFlags), 1, 0) == Some(10)
  {
    StaleAddress();
    StaleWalks(zero);
    BeforeHolds(zero);
    var after := After(zero);
    var mapped := MapThrough(after, 5, STALE, 10, mappingFlags);
    MapThroughEffect(after, 5, STALE, 10, mappingFlags);
    assert forall f: Frame :: 1 <= f <= 4 ==> after[f] == Before(zero)[f];
    ChainTop(after, 9);
    assert mapped[1][0].flags.present && mapped[2][0].flags.present && mapped[3][0].flags.present;
    ChainTop(mapped, 10);
  }

  lemma ChainTop(ram: Ram, page: Frame)
    requires forall f: Frame :: 1 <= f <= 4 ==> ram[f][0].flags.present && ram[f][0].frame == if f == 4 then page else f + 1
    ensures Walk(ram, 1, [0, 0, 0, 0]) == Some(page)
  {
    var q: Path := [0, 0, 0, 0];
    assert q[1..] == [0, 0, 0] && [0, 0, 0][1..] == [0, 0] && [0, 0][1..] == [0] && [0][1..] == [];
    assert Walk(ram, 4, [0]) == Some(page) && Walk(ram, 3, [0, 0]) == Walk(ram, 4, [0]);
    assert Walk(ram, 2, [0, 0, 0]) == Walk(ram, 3, [0, 0]);
  }
}
