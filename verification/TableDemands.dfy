/** How many pages the mapping functions take from the allocator, and which: one for each table that the mapped paths
    lack, in the order in which the allocator hands out single pages. All of it is settled before the first call. */
module TableDemands {
  import opened Bitmaps
  import opened PageFrames
  import opened PageTrees
  import opened Paging
  import opened Wrappers

  // ----- single pages, one after the other -----

  /** The allocator after `n` requests for one page. */
  function Requested(s: State, n: nat): State
    decreases n
  {
    if n == 0 then s else Requested(RequestPage(s).0, n - 1)
  }

  lemma {:induction false} RequestedJoin(s: State, a: nat, b: nat)
    ensures Requested(Requested(s, a), b) == Requested(s, a + b)
    decreases a
  {
    if a > 0 {
      RequestedJoin(RequestPage(s).0, a - 1, b);
    }
  }

  lemma {:induction false} RequestedHolds(s: State, n: nat)
    ensures var t := Requested(s, n);
            && t.totalPages == s.totalPages && |t.bits| == |s.bits| && s.cursor <= t.cursor
            && (forall p: nat :: Held(s, p) ==> Held(t, p))
            && (forall p: nat :: Held(t, p) ==> Held(s, p) || p < s.totalPages)
    decreases n
  {
    if n > 0 {
      RequestPageHolds(s);
      RequestedHolds(RequestPage(s).0, n - 1);
    }
  }

  /** The number of clear pages in [from, limit). */
  function ClearCount(bits: seq<bool>, from: nat, limit: nat): nat
    decreases limit - from
  {
    if from >= limit then 0 else (if Get(bits, from) then 0 else 1) + ClearCount(bits, from + 1, limit)
  }

  lemma {:induction false} ClearCountSkips(bits: seq<bool>, from: nat, first: nat, limit: nat)
    requires from <= first <= limit && forall j :: from <= j < first ==> Get(bits, j)
    ensures ClearCount(bits, from, limit) == ClearCount(bits, first, limit)
    decreases first - from
  {
    if from < first {
      ClearCountSkips(bits, from + 1, first, limit);
    }
  }

  lemma {:induction false} ClearCountAgrees(bits: seq<bool>, other: seq<bool>, from: nat, limit: nat)
    requires forall j :: from <= j < limit ==> Get(other, j) == Get(bits, j)
    ensures ClearCount(other, from, limit) == ClearCount(bits, from, limit)
    decreases limit - from
  {
    if from < limit {
      ClearCountAgrees(bits, other, from + 1, limit);
    }
  }

  /** Single pages are handed out lowest first: a clear page is among the first `n` if and only if fewer than `n` clear
      pages lie between the cursor and it. */
  lemma {:induction false} RequestedReaches(s: State, n: nat, page: nat)
    requires s.cursor <= page < s.totalPages && !Get(s.bits, page)
    ensures Held(Requested(s, n), page) <==> ClearCount(s.bits, s.cursor, page) < n
    decreases n
  {
    if n > 0 {
      var t, first := RequestPage(s).0, FirstClear(s.bits, s.cursor, s.totalPages).value;
      ClearCountSkips(s.bits, s.cursor, first, page);
      if first == page {
        RequestedHolds(t, n - 1);
      } else {
        ClearCountAgrees(s.bits, t.bits, first + 1, page);
        RequestedReaches(t, n - 1, page);
      }
    }
  }

  // ----- how many there are -----

  /** The number of pages that `RequestPage` can still hand out. */
  function FreePages(s: State): nat { ClearCount(s.bits, s.cursor, s.totalPages) }

  /** One request takes one of them, or panics if there is none. */
  lemma RequestTakes(s: State)
    ensures var (t, page) := RequestPage(s);
            && (page.Some? <==> FreePages(s) > 0)
            && t.panicked == (s.panicked || FreePages(s) == 0)
            && FreePages(t) == if FreePages(s) > 0 then FreePages(s) - 1 else 0
  {
    match FirstClear(s.bits, s.cursor, s.totalPages)
    case Some(first) =>
      ClearCountSkips(s.bits, s.cursor, first, s.totalPages);
      ClearCountAgrees(s.bits, RequestPage(s).0.bits, first + 1, s.totalPages);
    case None =>
      if s.cursor < s.totalPages {
        ClearCountSkips(s.bits, s.cursor, s.totalPages, s.totalPages);
      }
  }

  /** `n` requests panic if and only if there are fewer than `n` pages. */
  lemma {:induction false} RequestedFree(s: State, n: nat)
    ensures var t := Requested(s, n);
            && t.panicked == (s.panicked || n > FreePages(s))
            && FreePages(t) == if n <= FreePages(s) then FreePages(s) - n else 0
    decreases n
  {
    if n > 0 {
      RequestTakes(s);
      RequestedFree(RequestPage(s).0, n - 1);
    }
  }

  // ----- the tables that a list of paths lacks -----

  /** `q` is the beginning of one of the first `count` paths. */
  predicate OnPaths(q: Path, paths: seq<Path>, count: nat)
    requires count <= |paths|
  {
    exists i :: 0 <= i < count && q <= paths[i]
  }

  /** How many tables on `path` exist neither in memory nor on the first `count` paths. */
  function NewTables(ram: Ram, root: Frame, paths: seq<Path>, count: nat, path: Path): nat
    requires count <= |paths|
    decreases |path|
  {
    if path == [] then 0
    else
      NewTables(ram, root, paths, count, path[..|path| - 1])
      + if Walk(ram, root, path).None? && !OnPaths(path, paths, count) then 1 else 0
  }

  function MissingTables(ram: Ram, root: Frame, path: Path): nat { NewTables(ram, root, [], 0, path) }

  /** How many tables the first `count` mappings of a list take. */
  function Demand(ram: Ram, root: Frame, paths: seq<Path>, count: nat): nat
    requires count <= |paths| && forall i :: 0 <= i < |paths| ==> |paths[i]| == 4
  {
    if count == 0 then 0
    else Demand(ram, root, paths, count - 1) + NewTables(ram, root, paths, count - 1, paths[count - 1][..3])
  }

  lemma {:induction false} NoneMissing(ram: Ram, root: Frame, path: Path)
    requires Walk(ram, root, path).Some?
    ensures MissingTables(ram, root, path) == 0
    decreases |path|
  {
    if path != [] {
      WalkPrefix(ram, root, path, |path| - 1);
      NoneMissing(ram, root, path[..|path| - 1]);
    }
  }

  /** Below a table at most the last step of a path is missing. */
  lemma StepTables(ram: Ram, root: Frame, p: Path, table: Frame, i: Index)
    requires Walk(ram, root, p) == Some(table)
    ensures MissingTables(ram, root, p + [i]) == if ram[table][i].flags.present then 0 else 1
    ensures Walk(ram, root, p + [i]).Some? == ram[table][i].flags.present
    ensures forall q: Path :: q <= p + [i] ==> q == p + [i] || Walk(ram, root, q).Some?
  {
    var path := p + [i];
    assert path[..|path| - 1] == p;
    WalkAppend(ram, root, p, [i]);
    NoneMissing(ram, root, p);
    forall q: Path | q <= path && q != path
      ensures Walk(ram, root, q).Some?
    {
      ShorterPrefix(p, i, q);
      WalkPrefix(ram, root, p, |q|);
    }
  }

  lemma ShorterPrefix(p: Path, i: Index, q: Path)
    requires q <= p + [i] && q != p + [i]
    ensures |q| <= |p| && q == p[..|q|]
  {
  }

  /** Once `before` has the tables of `ram` and those on the first `count` paths, what is missing there is what is new. */
  lemma {:induction false} MissingIsNew(ram: Ram, before: Ram, root: Frame, paths: seq<Path>, count: nat, path: Path)
    requires count <= |paths| && IsTablePath(path)
    requires forall q: Path :: IsTablePath(q) ==> Walk(before, root, q).Some? == (Walk(ram, root, q).Some? || OnPaths(q, paths, count))
    ensures MissingTables(before, root, path) == NewTables(ram, root, paths, count, path)
    decreases |path|
  {
    if path != [] {
      MissingIsNew(ram, before, root, paths, count, path[..|path| - 1]);
    }
  }

  lemma {:induction false} DemandMonotone(ram: Ram, root: Frame, paths: seq<Path>, count: nat, further: nat)
    requires count <= further <= |paths| && forall i :: 0 <= i < |paths| ==> |paths[i]| == 4
    ensures Demand(ram, root, paths, count) <= Demand(ram, root, paths, further)
    decreases further
  {
    if count < further {
      DemandMonotone(ram, root, paths, count, further - 1);
    }
  }

  /** `mid` has the tables of `ram` and those on the first `count` paths. */
  ghost predicate TablesOn(ram: Ram, mid: Ram, root: Frame, paths: seq<Path>, count: nat)
    requires count <= |paths|
  {
    forall q: Path :: IsTablePath(q) ==> Walk(mid, root, q).Some? == (Walk(ram, root, q).Some? || OnPaths(q, paths, count))
  }

  lemma {:induction false} SameNewTables(ram: Ram, root: Frame, a: seq<Path>, count: nat, other: Ram, b: seq<Path>, otherCount: nat,
                                         path: Path)
    requires count <= |a| && otherCount <= |b| && IsTablePath(path)
    requires forall q: Path :: IsTablePath(q) ==>
               (Walk(ram, root, q).Some? || OnPaths(q, a, count)) == (Walk(other, root, q).Some? || OnPaths(q, b, otherCount))
    ensures NewTables(ram, root, a, count, path) == NewTables(other, root, b, otherCount, path)
    decreases |path|
  {
    if path != [] {
      SameNewTables(ram, root, a, count, other, b, otherCount, path[..|path| - 1]);
    }
  }

  lemma OnPathsOf(q: Path, a: seq<Path>, b: seq<Path>, both: seq<Path>, k: nat)
    requires both == a + b && k <= |b|
    ensures OnPaths(q, both, |a| + k) <==> OnPaths(q, a, |a|) || OnPaths(q, b, k)
  {
    if OnPaths(q, a, |a|) {
      var i :| 0 <= i < |a| && q <= a[i];
      assert both[i] == a[i];
    }
    if OnPaths(q, b, k) {
      var i :| 0 <= i < k && q <= b[i];
      assert both[|a| + i] == b[i];
    }
  }

  lemma OnPrefix(q: Path, a: seq<Path>, both: seq<Path>, count: nat)
    requires a <= both && count <= |a|
    ensures OnPaths(q, both, count) <==> OnPaths(q, a, count)
  {
    if OnPaths(q, a, count) {
      var i :| 0 <= i < count && q <= a[i];
      assert both[i] == a[i];
    }
  }

  lemma {:induction false} DemandPrefix(ram: Ram, root: Frame, a: seq<Path>, both: seq<Path>, count: nat)
    requires a <= both && count <= |a| && forall i :: 0 <= i < |both| ==> |both[i]| == 4
    ensures (forall i :: 0 <= i < |a| ==> |a[i]| == 4) && Demand(ram, root, both, count) == Demand(ram, root, a, count)
  {
    assert forall i :: 0 <= i < |a| ==> both[i] == a[i];
    if count > 0 {
      DemandPrefix(ram, root, a, both, count - 1);
      forall q: Path | IsTablePath(q)
        ensures OnPaths(q, both, count - 1) <==> OnPaths(q, a, count - 1)
      {
        OnPrefix(q, a, both, count - 1);
      }
      SameNewTables(ram, root, both, count - 1, ram, a, count - 1, a[count - 1][..3]);
    }
  }

  lemma NewAfter(ram: Ram, mid: Ram, root: Frame, a: seq<Path>, b: seq<Path>, both: seq<Path>, k: nat, count: nat, path: Path)
    requires both == a + b && k <= |b| && count == |a| + k && IsTablePath(path) && TablesOn(ram, mid, root, a, |a|)
    ensures NewTables(ram, root, both, count, path) == NewTables(mid, root, b, k, path)
  {
    forall q: Path | IsTablePath(q)
      ensures OnPaths(q, both, count) <==> OnPaths(q, a, |a|) || OnPaths(q, b, k)
    {
      OnPathsOf(q, a, b, both, k);
    }
    SameNewTables(ram, root, both, count, mid, b, k, path);
  }

  lemma NextDemand(ram: Ram, root: Frame, paths: seq<Path>, count: nat, next: nat, path: Path)
    requires next == count + 1 <= |paths| && paths[count] == path && forall i :: 0 <= i < |paths| ==> |paths[i]| == 4
    ensures |path| == 4
    ensures Demand(ram, root, paths, next) == Demand(ram, root, paths, count) + NewTables(ram, root, paths, count, path[..3])
  {
  }

  lemma BothLengths(a: seq<Path>, b: seq<Path>, both: seq<Path>)
    requires both == a + b && forall i :: 0 <= i < |both| ==> |both[i]| == 4
    ensures (forall i :: 0 <= i < |a| ==> |a[i]| == 4) && (forall i :: 0 <= i < |b| ==> |b[i]| == 4)
  {
    assert forall i :: 0 <= i < |a| ==> both[i] == a[i];
    assert forall i :: 0 <= i < |b| ==> both[|a| + i] == b[i];
  }

  /** What one more path of the second list adds is the same in both counts. */
  lemma AppendNext(ram: Ram, mid: Ram, root: Frame, a: seq<Path>, b: seq<Path>, both: seq<Path>, k: nat, count: nat, taken: nat)
    requires both == a + b && k < |b| && count == |a| + k && TablesOn(ram, mid, root, a, |a|)
    requires (forall i :: 0 <= i < |both| ==> |both[i]| == 4) && forall i :: 0 <= i < |b| ==> |b[i]| == 4
    requires Demand(ram, root, both, count) == taken + Demand(mid, root, b, k)
    ensures Demand(ram, root, both, count + 1) == taken + Demand(mid, root, b, k + 1)
  {
    var path := b[k];
    NewAfter(ram, mid, root, a, b, both, k, count, path[..3]);
    NextDemand(ram, root, both, count, count + 1, path);
    NextDemand(mid, root, b, k, k + 1, path);
  }

  lemma {:induction false} DemandAfter(ram: Ram, mid: Ram, root: Frame, a: seq<Path>, b: seq<Path>, both: seq<Path>,
                                       k: nat, count: nat, taken: nat)
    requires both == a + b && k <= |b| && count == |a| + k && TablesOn(ram, mid, root, a, |a|)
    requires (forall i :: 0 <= i < |both| ==> |both[i]| == 4) && forall i :: 0 <= i < |b| ==> |b[i]| == 4
    requires Demand(ram, root, both, |a|) == taken
    ensures Demand(ram, root, both, count) == taken + Demand(mid, root, b, k)
  {
    if k > 0 {
      DemandAfter(ram, mid, root, a, b, both, k - 1, count - 1, taken);
      AppendNext(ram, mid, root, a, b, both, k - 1, count - 1, taken);
    }
  }

  /** What two lists of paths lack is what the first one lacks, and what the second one lacks then. */
  lemma DemandAppend(ram: Ram, mid: Ram, root: Frame, a: seq<Path>, b: seq<Path>, both: seq<Path>)
    requires both == a + b && TablesOn(ram, mid, root, a, |a|)
    requires forall i :: 0 <= i < |both| ==> |both[i]| == 4
    ensures (forall i :: 0 <= i < |a| ==> |a[i]| == 4) && (forall i :: 0 <= i < |b| ==> |b[i]| == 4)
    ensures Demand(ram, root, both, |both|) == Demand(ram, root, a, |a|) + Demand(mid, root, b, |b|)
  {
    BothLengths(a, b, both);
    DemandPrefix(ram, root, a, both, |a|);
    DemandAfter(ram, mid, root, a, b, both, |b|, |both|, Demand(ram, root, a, |a|));
  }

  // ----- mapping adds exactly those tables -----

  /** Tables stay where they are, and every page that has become held holds a table. */
  ghost predicate TablesGrow(ram: Ram, s: State, after: Ram, t: State, root: Frame) {
    && (forall q: Path :: IsTablePath(q) && Walk(ram, root, q).Some? ==> Walk(after, root, q) == Walk(ram, root, q))
    && (forall f: Frame :: Held(t, f) && !Held(s, f) ==> IsTable(after, root, f))
  }

  /** The tables on `path` have been added, each in the next page from the allocator. */
  ghost predicate Extended(ram: Ram, s: State, after: Ram, t: State, root: Frame, path: Path) {
    && TablesGrow(ram, s, after, t, root)
    && (forall q: Path :: IsTablePath(q) ==> Walk(after, root, q).Some? == (Walk(ram, root, q).Some? || q <= path))
    && t == Requested(s, MissingTables(ram, root, path))
  }

  /** The same for the first `count` paths of a list. */
  ghost predicate Grown(ram: Ram, s: State, after: Ram, t: State, root: Frame, paths: seq<Path>, count: nat)
    requires count <= |paths| && forall i :: 0 <= i < |paths| ==> |paths[i]| == 4
  {
    && TablesGrow(ram, s, after, t, root)
    && (forall q: Path :: IsTablePath(q) ==> Walk(after, root, q).Some? == (Walk(ram, root, q).Some? || OnPaths(q, paths, count)))
    && t == Requested(s, Demand(ram, root, paths, count))
  }

  lemma TablesGrowTransitive(ram: Ram, s: State, mid: Ram, u: State, after: Ram, t: State, root: Frame)
    requires TablesGrow(ram, s, mid, u, root) && TablesGrow(mid, u, after, t, root)
    ensures TablesGrow(ram, s, after, t, root)
  {
    forall f: Frame | IsTable(mid, root, f)
      ensures IsTable(after, root, f)
    {
      var q: Path :| IsTablePath(q) && Walk(mid, root, q) == Some(f);
      assert Walk(after, root, q) == Some(f);
    }
  }

  /** What is missing on a path is what the beginning of it took, and what is missing then. */
  lemma MissingRest(ram: Ram, s: State, mid: Ram, u: State, root: Frame, p: Path, i: Index)
    requires |p| <= 2 && Extended(ram, s, mid, u, root, p)
    ensures MissingTables(ram, root, p + [i]) == MissingTables(ram, root, p) + MissingTables(mid, root, p + [i])
  {
    var path := p + [i];
    assert path[..|path| - 1] == p;
    assert Walk(mid, root, p).Some?;
    NoneMissing(mid, root, p);
  }

  /** One more level. */
  lemma ExtendedFurther(ram: Ram, s: State, mid: Ram, u: State, after: Ram, t: State, root: Frame, p: Path, i: Index)
    requires |p| <= 2 && Extended(ram, s, mid, u, root, p) && Extended(mid, u, after, t, root, p + [i])
    ensures Extended(ram, s, after, t, root, p + [i])
  {
    var path := p + [i];
    TablesGrowTransitive(ram, s, mid, u, after, t, root);
    MissingRest(ram, s, mid, u, root, p, i);
    RequestedJoin(s, MissingTables(ram, root, p), MissingTables(mid, root, path));
    forall q: Path | IsTablePath(q)
      ensures Walk(after, root, q).Some? == (Walk(ram, root, q).Some? || q <= path)
    {
      assert Walk(after, root, q).Some? == (Walk(mid, root, q).Some? || q <= path);
      assert q <= p ==> q <= path;
    }
  }

  /** What the next path lacks is what is missing then, and the pages that are left are there for it. */
  lemma DemandNext(ram: Ram, s: State, mid: Ram, u: State, root: Frame, paths: seq<Path>, count: nat)
    requires count < |paths| && forall i :: 0 <= i < |paths| ==> |paths[i]| == 4
    requires Grown(ram, s, mid, u, root, paths, count) && Demand(ram, root, paths, count) <= FreePages(s)
    ensures MissingTables(mid, root, paths[count][..3]) <= FreePages(u) <==> Demand(ram, root, paths, count + 1) <= FreePages(s)
    ensures u.panicked == s.panicked
  {
    MissingIsNew(ram, mid, root, paths, count, paths[count][..3]);
    RequestedFree(s, Demand(ram, root, paths, count));
  }

  /** One more path. */
  lemma GrownOneMore(ram: Ram, s: State, mid: Ram, u: State, after: Ram, t: State, root: Frame, paths: seq<Path>, count: nat)
    requires count < |paths| && forall i :: 0 <= i < |paths| ==> |paths[i]| == 4
    requires Grown(ram, s, mid, u, root, paths, count) && Extended(mid, u, after, t, root, paths[count][..3])
    ensures Grown(ram, s, after, t, root, paths, count + 1)
  {
    var path := paths[count][..3];
    TablesGrowTransitive(ram, s, mid, u, after, t, root);
    MissingIsNew(ram, mid, root, paths, count, path);
    RequestedJoin(s, Demand(ram, root, paths, count), MissingTables(mid, root, path));
    forall q: Path | IsTablePath(q)
      ensures OnPaths(q, paths, count + 1) == (OnPaths(q, paths, count) || q <= path)
    {
      assert q <= path <==> q <= paths[count];
    }
  }
}
