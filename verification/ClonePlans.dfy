/** Which fresh page `clone_active_page_map` uses for the copy of which table. This is settled before the call: pages
    are handed out in a fixed order, and the tables are visited in the order of their paths. */
module ClonePlans {
  import opened Bitmaps
  import opened PageFrames
  import opened PageTrees
  import opened Paging
  import opened TableDemands
  import opened Wrappers

  /** Where each page of a copy stands in the hierarchy. */
  type Places = map<Frame, Path>

  /** The pages for the table in frame `o` and everything below it, `depth` levels down, and the allocator behind
      them. */
  function PlanTable(src: Ram, o: Frame, depth: nat, prefix: Path, s: State): (State, Places)
    decreases depth, 1, 0
  {
    var (u, page) := RequestPage(s);
    if page.None? || page.value >= FRAMES then (u, map[])
    else if depth == 0 then (u, map[page.value := prefix])
    else
      var (t, children) := PlanEntries(src, o, depth, prefix, u, 512);
      (t, children[page.value := prefix])
  }

  /** The pages for everything below the first `done` entries of a table. */
  function PlanEntries(src: Ram, o: Frame, depth: nat, prefix: Path, s: State, done: nat): (State, Places)
    requires depth > 0 && done <= 512
    decreases depth, 0, done
  {
    if done == 0 then (s, map[])
    else
      var i: Index := done - 1;
      var (u, places) := PlanEntries(src, o, depth, prefix, s, i);
      if !src[o][i].flags.present then (u, places)
      else
        var (t, more) := PlanTable(src, src[o][i].frame, depth - 1, prefix + [i], u);
        (t, places + more)
  }

  // ----- the pages of a plan are the pages that become held -----

  ghost predicate PagesOf(s: State, t: State, places: Places) {
    && t.totalPages == s.totalPages && s.cursor <= t.cursor
    && (forall f: Frame :: Held(t, f) <==> Held(s, f) || f in places)
    && (forall f: Frame :: f in places ==> !Held(s, f) && f < s.totalPages)
  }

  lemma PagesJoin(s: State, u: State, t: State, places: Places, more: Places)
    requires PagesOf(s, u, places) && PagesOf(u, t, more)
    ensures PagesOf(s, t, places + more)
  {
  }

  lemma OnePage(s: State)
    requires s.totalPages <= FRAMES
    ensures var (u, page) := RequestPage(s);
            && (page.None? ==> PagesOf(s, u, map[]))
            && (page.Some? ==> page.value < FRAMES && forall prefix: Path :: PagesOf(s, u, map[page.value := prefix]))
  {
    RequestPageHolds(s);
  }

  lemma {:induction false} TablePages(src: Ram, o: Frame, depth: nat, prefix: Path, s: State)
    requires s.totalPages <= FRAMES
    ensures var (t, places) := PlanTable(src, o, depth, prefix, s); PagesOf(s, t, places)
    decreases depth, 1, 0
  {
    OnePage(s);
    var (u, page) := RequestPage(s);
    if page.Some? && depth > 0 {
      EntriesPages(src, o, depth, prefix, u, 512);
      var (t, children) := PlanEntries(src, o, depth, prefix, u, 512);
      PagesJoin(s, u, t, map[page.value := prefix], children);
      assert map[page.value as Frame := prefix] + children == children[page.value := prefix];
    }
  }

  lemma {:induction false} EntriesPages(src: Ram, o: Frame, depth: nat, prefix: Path, s: State, done: nat)
    requires s.totalPages <= FRAMES && depth > 0 && done <= 512
    ensures var (t, places) := PlanEntries(src, o, depth, prefix, s, done); PagesOf(s, t, places)
    decreases depth, 0, done
  {
    if done > 0 {
      var i: Index := done - 1;
      EntriesPages(src, o, depth, prefix, s, i);
      var (u, places) := PlanEntries(src, o, depth, prefix, s, i);
      if src[o][i].flags.present {
        TablePages(src, src[o][i].frame, depth - 1, prefix + [i], u);
        var (t, more) := PlanTable(src, src[o][i].frame, depth - 1, prefix + [i], u);
        PagesJoin(s, u, t, places, more);
      }
    }
  }

  // ----- how many pages a plan takes -----

  /** The number of tables from `o` down, `depth` levels, one for each path. */
  function TablesToCopy(src: Ram, o: Frame, depth: nat): nat
    decreases depth, 1, 0
  {
    if depth == 0 then 1 else 1 + EntriesToCopy(src, o, depth, 512)
  }

  /** The same for everything below the first `done` entries. */
  function EntriesToCopy(src: Ram, o: Frame, depth: nat, done: nat): nat
    requires depth > 0 && done <= 512
    decreases depth, 0, done
  {
    if done == 0 then 0
    else
      var i: Index := done - 1;
      EntriesToCopy(src, o, depth, i) + if src[o][i].flags.present then TablesToCopy(src, src[o][i].frame, depth - 1) else 0
  }

  lemma {:induction false} EntriesMonotone(src: Ram, o: Frame, depth: nat, done: nat, further: nat)
    requires depth > 0 && done <= further <= 512
    ensures EntriesToCopy(src, o, depth, done) <= EntriesToCopy(src, o, depth, further)
    decreases further
  {
    if done < further {
      EntriesMonotone(src, o, depth, done, further - 1);
    }
  }

  /** If there are that many pages, the plan takes them all, one after the other. */
  lemma {:induction false} TableTakes(src: Ram, o: Frame, depth: nat, prefix: Path, s: State)
    requires s.totalPages <= FRAMES && TablesToCopy(src, o, depth) <= FreePages(s)
    ensures PlanTable(src, o, depth, prefix, s).0 == Requested(s, TablesToCopy(src, o, depth))
    decreases depth, 1, 0
  {
    var u := RequestPage(s).0;
    RequestPageHolds(s);
    RequestTakes(s);
    assert Requested(s, 1) == u;
    if depth > 0 {
      EntriesTake(src, o, depth, prefix, u, 512);
      RequestedJoin(s, 1, EntriesToCopy(src, o, depth, 512));
    }
  }

  lemma {:induction false} EntriesTake(src: Ram, o: Frame, depth: nat, prefix: Path, s: State, done: nat)
    requires s.totalPages <= FRAMES && depth > 0 && done <= 512 && EntriesToCopy(src, o, depth, done) <= FreePages(s)
    ensures PlanEntries(src, o, depth, prefix, s, done).0 == Requested(s, EntriesToCopy(src, o, depth, done))
    decreases depth, 0, done
  {
    if done > 0 {
      var i: Index := done - 1;
      var n := EntriesToCopy(src, o, depth, i);
      EntriesTake(src, o, depth, prefix, s, i);
      RequestedFree(s, n);
      RequestedHolds(s, n);
      if src[o][i].flags.present {
        TableTakes(src, src[o][i].frame, depth - 1, prefix + [i], Requested(s, n));
        RequestedJoin(s, n, TablesToCopy(src, src[o][i].frame, depth - 1));
      }
    }
  }

  /** The tables that are reached from `o` in `depth` steps are the same in both memories. */
  ghost predicate SameReached(src: Ram, other: Ram, o: Frame, depth: nat) {
    forall q: Path :: |q| <= depth ==> ReachesSame(src, other, o, q)
  }

  ghost predicate ReachesSame(src: Ram, other: Ram, o: Frame, q: Path) {
    match Walk(src, o, q)
    case None => true
    case Some(f) => other[f] == src[f]
  }

  lemma SameReachedBelow(src: Ram, other: Ram, o: Frame, depth: nat, i: Index)
    requires depth > 0 && SameReached(src, other, o, depth) && src[o][i].flags.present
    ensures SameReached(src, other, src[o][i].frame, depth - 1)
  {
    forall q: Path | |q| <= depth - 1
      ensures ReachesSame(src, other, src[o][i].frame, q)
    {
      BelowEntry(src, o, i, q);
      assert ReachesSame(src, other, o, [i] + q);
    }
  }

  lemma SameHere(src: Ram, other: Ram, o: Frame, depth: nat)
    requires SameReached(src, other, o, depth)
    ensures other[o] == src[o]
  {
    var none: Path := [];
    assert ReachesSame(src, other, o, none);
  }

  /** Only the tables themselves count. */
  lemma {:induction false} SameTablesToCopy(src: Ram, other: Ram, o: Frame, depth: nat)
    requires SameReached(src, other, o, depth)
    ensures TablesToCopy(other, o, depth) == TablesToCopy(src, o, depth)
    decreases depth, 1, 0
  {
    if depth > 0 {
      SameEntriesToCopy(src, other, o, depth, 512);
    }
  }

  lemma {:induction false} SameEntriesToCopy(src: Ram, other: Ram, o: Frame, depth: nat, done: nat)
    requires depth > 0 && done <= 512 && SameReached(src, other, o, depth)
    ensures EntriesToCopy(other, o, depth, done) == EntriesToCopy(src, o, depth, done)
    decreases depth, 0, done
  {
    if done > 0 {
      var i: Index := done - 1;
      SameHere(src, other, o, depth);
      SameEntriesToCopy(src, other, o, depth, i);
      if src[o][i].flags.present {
        SameReachedBelow(src, other, o, depth, i);
        SameTablesToCopy(src, other, src[o][i].frame, depth - 1);
      }
    }
  }

  lemma BelowEntry(src: Ram, o: Frame, i: Index, q: Path)
    requires src[o][i].flags.present
    ensures Walk(src, o, [i] + q) == Walk(src, src[o][i].frame, q)
  {
    assert ([i] + q)[1..] == q;
  }

  // ----- in a tree they are as many as there are tables -----

  /** No frame is reached from `o` along two paths of at most `depth` steps. */
  ghost predicate ReachedOnce(src: Ram, o: Frame, depth: nat) {
    forall p: Path, q: Path :: |p| <= depth && |q| <= depth && Walk(src, o, p).Some? ==>
      (Walk(src, o, p) == Walk(src, o, q) ==> p == q)
  }

  ghost predicate ReachedFrom(src: Ram, o: Frame, depth: nat, f: Frame) {
    exists p: Path :: |p| <= depth && Walk(src, o, p) == Some(f)
  }

  /** `f` is reached through one of the first `done` entries. */
  ghost predicate ReachedThrough(src: Ram, o: Frame, depth: nat, done: nat, f: Frame)
    requires done <= 512
  {
    exists p: Path :: 0 < |p| <= depth && p[0] < done && Walk(src, o, p) == Some(f)
  }

  ghost function FramesFrom(src: Ram, o: Frame, depth: nat): set<Frame> { set f: Frame | ReachedFrom(src, o, depth, f) }

  ghost function FramesThrough(src: Ram, o: Frame, depth: nat, done: nat): set<Frame>
    requires done <= 512
  {
    set f: Frame | ReachedThrough(src, o, depth, done, f)
  }

  lemma ReachedOnceBelow(src: Ram, o: Frame, depth: nat, i: Index)
    requires depth > 0 && ReachedOnce(src, o, depth) && src[o][i].flags.present
    ensures ReachedOnce(src, src[o][i].frame, depth - 1)
  {
    var child := src[o][i].frame;
    forall p: Path, q: Path
      | |p| <= depth - 1 && |q| <= depth - 1 && Walk(src, child, p).Some? && Walk(src, child, p) == Walk(src, child, q)
      ensures p == q
    {
      BelowEntry(src, o, i, p);
      BelowEntry(src, o, i, q);
      assert p == ([i] + p)[1..] && q == ([i] + q)[1..];
    }
  }

  lemma FramesOfTable(src: Ram, o: Frame, depth: nat)
    requires depth > 0 && ReachedOnce(src, o, depth)
    ensures FramesFrom(src, o, depth) == {o} + FramesThrough(src, o, depth, 512) && o !in FramesThrough(src, o, depth, 512)
  {
    var none: Path := [];
    assert Walk(src, o, none) == Some(o);
    forall f: Frame
      ensures ReachedFrom(src, o, depth, f) <==> f == o || ReachedThrough(src, o, depth, 512, f)
    {
      if ReachedFrom(src, o, depth, f) {
        var p: Path :| |p| <= depth && Walk(src, o, p) == Some(f);
        assert p == none || (|p| > 0 && p[0] < 512);
      }
    }
  }

  lemma FramesOfEntry(src: Ram, o: Frame, depth: nat, i: Index)
    requires depth > 0 && ReachedOnce(src, o, depth)
    ensures var before, after := FramesThrough(src, o, depth, i), FramesThrough(src, o, depth, i + 1);
            if src[o][i].flags.present
            then var more := FramesFrom(src, src[o][i].frame, depth - 1); after == before + more && before !! more
            else after == before
  {
    forall f: Frame
      ensures ReachedThrough(src, o, depth, i + 1, f) <==>
              ReachedThrough(src, o, depth, i, f) || (src[o][i].flags.present && ReachedFrom(src, src[o][i].frame, depth - 1, f))
    {
      ThroughEntry(src, o, depth, i, f);
    }
    if src[o][i].flags.present {
      forall f: Frame | ReachedThrough(src, o, depth, i, f)
        ensures !ReachedFrom(src, src[o][i].frame, depth - 1, f)
      {
        var p: Path :| 0 < |p| <= depth && p[0] < i && Walk(src, o, p) == Some(f);
        forall q: Path | |q| <= depth - 1
          ensures Walk(src, src[o][i].frame, q) != Some(f)
        {
          BelowEntry(src, o, i, q);
          assert ([i] + q)[0] == i;
        }
      }
    }
  }

  lemma ThroughEntry(src: Ram, o: Frame, depth: nat, i: Index, f: Frame)
    requires depth > 0
    ensures ReachedThrough(src, o, depth, i + 1, f) <==>
              ReachedThrough(src, o, depth, i, f) || (src[o][i].flags.present && ReachedFrom(src, src[o][i].frame, depth - 1, f))
  {
    if ReachedThrough(src, o, depth, i + 1, f) && !ReachedThrough(src, o, depth, i, f) {
      var p: Path :| 0 < |p| <= depth && p[0] < i + 1 && Walk(src, o, p) == Some(f);
      assert p[0] == i && Walk(src, src[o][i].frame, p[1..]) == Some(f);
    }
    if src[o][i].flags.present && ReachedFrom(src, src[o][i].frame, depth - 1, f) {
      var q: Path :| |q| <= depth - 1 && Walk(src, src[o][i].frame, q) == Some(f);
      BelowEntry(src, o, i, q);
      assert ([i] + q)[0] == i;
    }
  }

  lemma {:induction false} CountFrom(src: Ram, o: Frame, depth: nat)
    requires ReachedOnce(src, o, depth)
    ensures |FramesFrom(src, o, depth)| == TablesToCopy(src, o, depth)
    decreases depth, 1, 0
  {
    if depth == 0 {
      OnlyTheTable(src, o);
    } else {
      FramesOfTable(src, o, depth);
      CountThrough(src, o, depth, 512);
    }
  }

  lemma OnlyTheTable(src: Ram, o: Frame)
    ensures FramesFrom(src, o, 0) == {o}
  {
    var none: Path := [];
    assert Walk(src, o, none) == Some(o);
    forall f: Frame
      ensures ReachedFrom(src, o, 0, f) <==> f == o
    {
    }
  }

  lemma {:induction false} CountThrough(src: Ram, o: Frame, depth: nat, done: nat)
    requires depth > 0 && done <= 512 && ReachedOnce(src, o, depth)
    ensures |FramesThrough(src, o, depth, done)| == EntriesToCopy(src, o, depth, done)
    decreases depth, 0, done
  {
    if done == 0 {
      assert FramesThrough(src, o, depth, 0) == {};
    } else {
      var i: Index := done - 1;
      CountThrough(src, o, depth, i);
      var below := if src[o][i].flags.present then FramesFrom(src, src[o][i].frame, depth - 1) else {};
      if src[o][i].flags.present {
        ReachedOnceBelow(src, o, depth, i);
        CountFrom(src, src[o][i].frame, depth - 1);
      }
      CountOfEntry(src, o, depth, i, below);
    }
  }

  lemma CountOfEntry(src: Ram, o: Frame, depth: nat, i: Index, below: set<Frame>)
    requires depth > 0 && ReachedOnce(src, o, depth)
    requires below == if src[o][i].flags.present then FramesFrom(src, src[o][i].frame, depth - 1) else {}
    ensures |FramesThrough(src, o, depth, i + 1)| == |FramesThrough(src, o, depth, i)| + |below|
  {
    FramesOfEntry(src, o, depth, i);
    assert FramesThrough(src, o, depth, i + 1) == FramesThrough(src, o, depth, i) + below;
  }

  /** A clone of a tree takes as many pages as the tree has tables. */
  lemma CopiesEachTable(ram: Ram, root: Frame)
    requires Tree(ram, root)
    ensures TablesToCopy(ram, root, 3) == |set f: Frame | IsTable(ram, root, f)|
  {
    forall f: Frame
      ensures ReachedFrom(ram, root, 3, f) <==> IsTable(ram, root, f)
    {
      if ReachedFrom(ram, root, 3, f) {
        var p: Path :| |p| <= 3 && Walk(ram, root, p) == Some(f);
        assert IsTablePath(p);
      }
    }
    assert FramesFrom(ram, root, 3) == set f: Frame | IsTable(ram, root, f);
    forall p: Path, q: Path | |p| <= 3 && |q| <= 3 && Walk(ram, root, p).Some? && Walk(ram, root, p) == Walk(ram, root, q)
      ensures p == q
    {
      assert IsTablePath(p) && IsTablePath(q);
    }
    CountFrom(ram, root, 3);
  }

  // ----- each place is that of a table, and has one page -----

  /** `path` goes on from `prefix` to a table below `o`. */
  ghost predicate Placed(src: Ram, o: Frame, depth: nat, prefix: Path, path: Path) {
    prefix <= path && |path| <= |prefix| + depth && Walk(src, o, path[|prefix|..]).Some?
  }

  ghost predicate Injective(places: Places) {
    forall f: Frame, g: Frame :: f in places && g in places && places[f] == places[g] ==> f == g
  }

  ghost predicate AllPlaced(src: Ram, o: Frame, depth: nat, prefix: Path, places: Places) {
    Injective(places) && forall f: Frame :: f in places ==> Placed(src, o, depth, prefix, places[f])
  }

  /** The same for the entries below `done`. */
  ghost predicate AllPlacedBelow(src: Ram, o: Frame, depth: nat, prefix: Path, places: Places, done: nat) {
    && AllPlaced(src, o, depth, prefix, places)
    && forall f: Frame :: f in places ==> |places[f]| > |prefix| && places[f][|prefix|] < done
  }

  lemma PlacedBelow(src: Ram, o: Frame, depth: nat, prefix: Path, i: Index, path: Path)
    requires depth > 0 && src[o][i].flags.present && Placed(src, src[o][i].frame, depth - 1, prefix + [i], path)
    ensures Placed(src, o, depth, prefix, path) && |path| > |prefix| && path[|prefix|] == i
  {
    var q := path[|prefix|..];
    assert (prefix + [i])[|prefix|] == i;
    assert q[0] == i && q[1..] == path[|prefix + [i]|..];
    assert prefix == (prefix + [i])[..|prefix|];
  }

  lemma {:induction false} TablePlaces(src: Ram, o: Frame, depth: nat, prefix: Path, s: State)
    ensures var (t, places) := PlanTable(src, o, depth, prefix, s); AllPlaced(src, o, depth, prefix, places)
    decreases depth, 1, 0
  {
    assert prefix[|prefix|..] == [];
    var (u, page) := RequestPage(s);
    if page.Some? && page.value < FRAMES && depth > 0 {
      EntriesPlaces(src, o, depth, prefix, u, 512);
    }
  }

  lemma {:induction false} EntriesPlaces(src: Ram, o: Frame, depth: nat, prefix: Path, s: State, done: nat)
    requires depth > 0 && done <= 512
    ensures var (t, places) := PlanEntries(src, o, depth, prefix, s, done);
            AllPlacedBelow(src, o, depth, prefix, places, done)
    decreases depth, 0, done
  {
    if done > 0 {
      var i: Index := done - 1;
      EntriesPlaces(src, o, depth, prefix, s, i);
      var (u, places) := PlanEntries(src, o, depth, prefix, s, i);
      if src[o][i].flags.present {
        TablePlaces(src, src[o][i].frame, depth - 1, prefix + [i], u);
        var (t, more) := PlanTable(src, src[o][i].frame, depth - 1, prefix + [i], u);
        forall f: Frame | f in more
          ensures Placed(src, o, depth, prefix, more[f]) && |more[f]| > |prefix| && more[f][|prefix|] == i
        {
          PlacedBelow(src, o, depth, prefix, i, more[f]);
        }
      }
    }
  }

  // ----- the plan of a clone -----

  /** The page that the new root gets, and memory once it is zeroed. */
  function RootPage(s: State): Option<nat> { RequestPage(s).1 }

  function WithRoot(ram: Ram, s: State): Ram {
    if RootPage(s).Some? && RootPage(s).value < FRAMES then ram[RootPage(s).value := ZeroTable()] else ram
  }

  /** The pages that the copies of the tables below the root get. */
  function PlannedPlaces(ram: Ram, s: State, original: Frame): Places {
    PlanEntries(WithRoot(ram, s), original, 3, [], RequestPage(s).0, 512).1
  }

  /** None of the pages that the copies of the middle levels will get holds a present entry where the table that is
      copied to it has none. This can be checked before the call. */
  ghost predicate FreshPagesClean(ram: Ram, s: State, original: Frame) {
    var places := PlannedPlaces(ram, s, original);
    forall f: Frame, i: Index {:trigger ram[f][i]} ::
      f in places && |places[f]| <= 2 && Walk(ram, original, places[f]).Some? && ram[f][i].flags.present ==>
        ram[Walk(ram, original, places[f]).value][i].flags.present
  }

  /** It holds in particular if no page that the allocator can hand out holds a present entry. */
  lemma NoPresentEntriesClean(ram: Ram, s: State, original: Frame)
    requires s.totalPages <= FRAMES
    requires forall f: Frame, i: Index :: s.cursor <= f < s.totalPages && !Get(s.bits, f) ==> !ram[f][i].flags.present
    ensures FreshPagesClean(ram, s, original)
  {
    var u := RequestPage(s).0;
    RequestPageHolds(s);
    EntriesPages(WithRoot(ram, s), original, 3, [], u, 512);
    forall f: Frame | f in PlannedPlaces(ram, s, original)
      ensures s.cursor <= f < s.totalPages && !Get(s.bits, f)
    {
      assert !Held(u, f);
    }
  }
}
