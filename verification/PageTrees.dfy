/** Page tables in memory, walked as section 4.5 of the Intel SDM, volume 3A, describes for 4-KByte
    pages, and what single writes to a table do to such walks. */
module PageTrees {
  import opened Paging
  import opened Wrappers

  type Table = t: seq<PageDirectoryEntry> | |t| == 512 ghost witness seq(512, _ => ZERO_ENTRY)

  /** Physical memory, one table of 512 entries per frame. */
  type Ram = m: seq<Table> | |m| == FRAMES ghost witness seq(FRAMES, _ => ZeroTable())

  type Path = seq<Index>

  function ZeroTable(): Table { seq(512, _ => ZERO_ENTRY) }

  /** The physical page reached from the table in frame `f` by following present entries. A path of
      fewer than four indices ends at a table, one of four indices at a mapped page. */
  function Walk(ram: Ram, f: Frame, path: Path): (r: Option<Frame>)
    decreases |path|
  {
    if path == [] then Some(f)
    else
      var e := ram[f][path[0]];
      if e.flags.present then Walk(ram, e.frame, path[1..]) else None
  }

  function WriteEntry(ram: Ram, f: Frame, i: Index, e: PageDirectoryEntry): Ram { ram[f := ram[f][i := e]] }

  ghost predicate IsTablePath(p: Path) { |p| <= 3 }

  /** `f` holds a table of the hierarchy under `root`. */
  ghost predicate IsTable(ram: Ram, root: Frame, f: Frame) {
    exists p: Path :: IsTablePath(p) && Walk(ram, root, p) == Some(f)
  }

  /** No table is reached along two paths, and no entry above the last level is a large page. */
  ghost predicate Tree(ram: Ram, root: Frame) {
    && (forall p: Path, q: Path :: IsTablePath(p) && IsTablePath(q) && Walk(ram, root, p).Some? ==>
          (Walk(ram, root, p) == Walk(ram, root, q) ==> p == q))
    && NoLargePages(ram, root)
  }

  ghost predicate NoLargePages(ram: Ram, root: Frame) {
    forall p: Path, i: Index :: 1 <= |p| <= 2 && Walk(ram, root, p).Some? ==>
      var e := ram[Walk(ram, root, p).value][i];
      e.flags.present ==> !e.flags.largerPages
  }

  /** The translation of a virtual address to the frame of its page. */
  function Translate(ram: Ram, root: Frame, virtualAddress: nat): Option<Frame> {
    Walk(ram, root, Indices(virtualAddress))
  }

  /** Entry `i` of the table that `p` leads to, present or not, if there is one. */
  function EntryAt(ram: Ram, root: Frame, p: Path, i: Index): Option<PageDirectoryEntry> {
    match Walk(ram, root, p)
    case None => None
    case Some(f) => Some(ram[f][i])
  }

  /** The same; a table that does not exist yet is empty. */
  function EntryOrZero(ram: Ram, root: Frame, p: Path, i: Index): PageDirectoryEntry {
    match Walk(ram, root, p)
    case None => ZERO_ENTRY
    case Some(f) => ram[f][i]
  }

  /** `path` leads through entry `i` of the table at `p`. */
  predicate Through(path: Path, p: Path, i: Index) { |p| < |path| && p <= path && path[|p|] == i }

  /** Two hierarchies that share no table. */
  ghost predicate DisjointTables(ram: Ram, a: Frame, b: Frame) {
    forall f: Frame :: IsTable(ram, a, f) ==> !IsTable(ram, b, f)
  }

  /** The frame that the addresses of the entries along a path lead to, present or not. */
  function Follow(ram: Ram, f: Frame, path: Path): Frame
    decreases |path|
  {
    if path == [] then f else Follow(ram, ram[f][path[0]].frame, path[1..])
  }

  /** No entry leads elsewhere or has become present or absent: the memories differ in other flags only. */
  ghost predicate SameLinks(ram: Ram, after: Ram) {
    forall f: Frame, i: Index {:trigger after[f][i]} ::
      after[f][i].frame == ram[f][i].frame && after[f][i].flags.present == ram[f][i].flags.present
  }

  lemma {:induction false} SameLinksWalk(ram: Ram, after: Ram, f: Frame, path: Path)
    requires SameLinks(ram, after)
    ensures Walk(after, f, path) == Walk(ram, f, path)
    decreases |path|
  {
    if path != [] {
      assert after[f][path[0]].frame == ram[f][path[0]].frame;
      SameLinksWalk(ram, after, ram[f][path[0]].frame, path[1..]);
    }
  }

  lemma {:induction false} WalkFollows(ram: Ram, f: Frame, path: Path)
    requires Walk(ram, f, path).Some?
    ensures Follow(ram, f, path) == Walk(ram, f, path).value
    decreases |path|
  {
    if path != [] {
      WalkFollows(ram, ram[f][path[0]].frame, path[1..]);
    }
  }

  /** A table that a walk along `path` writes to: one that it passes through, its end not included. */
  ghost predicate PassedThrough(ram: Ram, f: Frame, path: Path, g: Frame) {
    exists k: nat :: k < |path| && Walk(ram, f, path[..k]) == Some(g)
  }

  // ----- walks -----

  lemma {:induction false} WalkAppend(ram: Ram, f: Frame, p: Path, q: Path)
    ensures Walk(ram, f, p + q) == match Walk(ram, f, p) case None => None case Some(g) => Walk(ram, g, q)
    decreases |p|
  {
    if p == [] {
      assert p + q == q;
    } else {
      assert (p + q)[1..] == p[1..] + q;
      var e := ram[f][p[0]];
      if e.flags.present {
        WalkAppend(ram, e.frame, p[1..], q);
      }
    }
  }

  lemma WalkPrefix(ram: Ram, f: Frame, path: Path, k: nat)
    requires k <= |path| && Walk(ram, f, path).Some?
    ensures Walk(ram, f, path[..k]).Some?
  {
    assert path == path[..k] + path[k..];
    WalkAppend(ram, f, path[..k], path[k..]);
  }

  /** A walk depends only on the tables it passes through. */
  lemma {:induction false} WalkAgrees(ram: Ram, other: Ram, root: Frame, q: Path)
    requires |q| <= 4
    requires forall f: Frame :: IsTable(ram, root, f) ==> other[f] == ram[f]
    ensures Walk(other, root, q) == Walk(ram, root, q)
    decreases |q|
  {
    if q != [] {
      var last := |q| - 1;
      var p := q[..last];
      assert q == p + [q[last]];
      WalkAgrees(ram, other, root, p);
      WalkAppend(ram, root, p, [q[last]]);
      WalkAppend(other, root, p, [q[last]]);
      if Walk(ram, root, p).Some? {
        assert IsTablePath(p);
        assert IsTable(ram, root, Walk(ram, root, p).value);
      }
    }
  }

  /** A write to one entry of a table leaves every walk alone that does not use that entry. */
  lemma {:induction false} WriteEntryFrame(ram: Ram, root: Frame, p: Path, f: Frame, i: Index, e: PageDirectoryEntry, q: Path)
    requires Tree(ram, root) && IsTablePath(p) && Walk(ram, root, p) == Some(f)
    requires |q| <= 4 && !(p + [i] <= q)
    ensures Walk(WriteEntry(ram, f, i, e), root, q) == Walk(ram, root, q)
    decreases |q|
  {
    if q != [] {
      var last := |q| - 1;
      var q0, j := q[..last], q[last];
      assert q == q0 + [j];
      var after := WriteEntry(ram, f, i, e);
      WriteEntryFrame(ram, root, p, f, i, e, q0);
      WalkAppend(ram, root, q0, [j]);
      WalkAppend(after, root, q0, [j]);
      if Walk(ram, root, q0) == Some(f) {
        assert IsTablePath(q0) && q0 == p;
        assert j != i;
      }
    }
  }

  /** The written entry decides where the path through it leads. */
  lemma WriteEntryStep(ram: Ram, root: Frame, p: Path, f: Frame, i: Index, e: PageDirectoryEntry)
    requires Tree(ram, root) && IsTablePath(p) && Walk(ram, root, p) == Some(f)
    ensures Walk(WriteEntry(ram, f, i, e), root, p + [i]) == if e.flags.present then Some(e.frame) else None
  {
    WriteEntryFrame(ram, root, p, f, i, e, p);
    WalkAppend(WriteEntry(ram, f, i, e), root, p, [i]);
  }

  /** So does an entry, if its table is where it was and it is not the written one. */
  lemma EntryAtKept(ram: Ram, after: Ram, root: Frame, p: Path, f: Frame, i: Index, q: Path, j: Index)
    requires Tree(ram, root) && IsTablePath(p) && Walk(ram, root, p) == Some(f)
    requires IsTablePath(q) && (q != p || j != i) && Walk(after, root, q) == Walk(ram, root, q)
    requires forall g: Frame, k: Index :: IsTable(ram, root, g) && (g != f || k != i) ==> after[g][k] == ram[g][k]
    ensures EntryAt(after, root, q, j) == EntryAt(ram, root, q, j)
  {
    if Walk(ram, root, q).Some? {
      assert IsTable(ram, root, Walk(ram, root, q).value);
    }
  }

  // ----- the three kinds of write that the mapping functions make -----

  /** Rewriting the flags of a present entry, present as before, changes no walk. */
  lemma RewriteFlags(ram: Ram, root: Frame, p: Path, f: Frame, i: Index, e: PageDirectoryEntry)
    requires Tree(ram, root) && |p| <= 2 && Walk(ram, root, p) == Some(f)
    requires ram[f][i].flags.present && e.flags.present && e.frame == ram[f][i].frame && !e.flags.largerPages
    ensures var after := WriteEntry(ram, f, i, e);
            && (forall q: Path :: |q| <= 4 ==> Walk(after, root, q) == Walk(ram, root, q))
            && Tree(after, root)
  {
    var after := WriteEntry(ram, f, i, e);
    WriteEntryStep(ram, root, p, f, i, e);
    WalkAppend(ram, root, p, [i]);
    forall q: Path | |q| <= 4
      ensures Walk(after, root, q) == Walk(ram, root, q)
    {
      RewriteFlagsWalk(ram, root, p, f, i, e, q);
    }
    assert forall q: Path :: IsTablePath(q) ==> Walk(after, root, q) == Walk(ram, root, q);
  }

  lemma {:induction false} RewriteFlagsWalk(ram: Ram, root: Frame, p: Path, f: Frame, i: Index, e: PageDirectoryEntry, q: Path)
    requires Walk(ram, root, p) == Some(f)
    requires ram[f][i].flags.present && e.flags.present && e.frame == ram[f][i].frame
    ensures Walk(WriteEntry(ram, f, i, e), root, q) == Walk(ram, root, q)
    decreases |q|
  {
    var after := WriteEntry(ram, f, i, e);
    if q != [] {
      var last := |q| - 1;
      assert q == q[..last] + [q[last]];
      RewriteFlagsWalk(ram, root, p, f, i, e, q[..last]);
      WalkAppend(ram, root, q[..last], [q[last]]);
      WalkAppend(after, root, q[..last], [q[last]]);
    }
  }

  /** Linking a zeroed table into an empty slot adds the path to that table and no other. */
  lemma LinkTable(ram: Ram, root: Frame, p: Path, f: Frame, i: Index, e: PageDirectoryEntry, g: Frame)
    requires Tree(ram, root) && |p| <= 2 && Walk(ram, root, p) == Some(f)
    requires !ram[f][i].flags.present && e.flags.present && e.frame == g && !e.flags.largerPages
    requires !IsTable(ram, root, g)
    ensures var after := WriteEntry(ram[g := ZeroTable()], f, i, e);
            && Walk(after, root, p + [i]) == Some(g)
            && (forall q: Path :: |q| <= 4 && q != p + [i] ==> Walk(after, root, q) == Walk(ram, root, q))
            && Tree(after, root)
  {
    var after := WriteEntry(ram[g := ZeroTable()], f, i, e);
    assert IsTable(ram, root, f);
    ZeroedTree(ram, root, g);
    WriteEntryStep(ram[g := ZeroTable()], root, p, f, i, e);
    forall q: Path | |q| <= 4 && q != p + [i]
      ensures Walk(after, root, q) == Walk(ram, root, q)
    {
      LinkTableWalk(ram, root, p, f, i, e, g, q);
    }
    LinkTableTree(ram, after, root, p, f, i, g);
  }

  /** Zeroing a frame outside the hierarchy changes nothing in it. */
  lemma ZeroedTree(ram: Ram, root: Frame, g: Frame)
    requires Tree(ram, root) && !IsTable(ram, root, g)
    ensures Tree(ram[g := ZeroTable()], root)
    ensures forall q: Path :: |q| <= 4 ==> Walk(ram[g := ZeroTable()], root, q) == Walk(ram, root, q)
  {
    var zeroed := ram[g := ZeroTable()];
    forall q: Path | |q| <= 4
      ensures Walk(zeroed, root, q) == Walk(ram, root, q)
    {
      WalkAgrees(ram, zeroed, root, q);
    }
    forall q: Path | 1 <= |q| <= 2 && Walk(ram, root, q).Some?
      ensures Walk(ram, root, q).value != g
    {
      assert IsTable(ram, root, Walk(ram, root, q).value);
    }
  }

  lemma LinkTableWalk(ram: Ram, root: Frame, p: Path, f: Frame, i: Index, e: PageDirectoryEntry, g: Frame, q: Path)
    requires Tree(ram, root) && |p| <= 2 && Walk(ram, root, p) == Some(f)
    requires !ram[f][i].flags.present && e.flags.present && e.frame == g
    requires g != f && !IsTable(ram, root, g)
    requires |q| <= 4 && q != p + [i]
    ensures Walk(WriteEntry(ram[g := ZeroTable()], f, i, e), root, q) == Walk(ram, root, q)
  {
    var zeroed := ram[g := ZeroTable()];
    var after := WriteEntry(zeroed, f, i, e);
    ZeroedTree(ram, root, g);
    if p + [i] <= q {
      var r := q[|p| + 1..];
      assert q == p + [i] + r;
      WalkAppend(ram, root, p, [i]);
      WalkAppend(ram, root, p + [i], r);
      WriteEntryStep(zeroed, root, p, f, i, e);
      WalkAppend(after, root, p + [i], r);
      assert after[g] == ZeroTable();
    } else {
      WriteEntryFrame(zeroed, root, p, f, i, e, q);
    }
  }

  lemma LinkTableTree(ram: Ram, after: Ram, root: Frame, p: Path, f: Frame, i: Index, g: Frame)
    requires Tree(ram, root) && |p| <= 2 && Walk(ram, root, p) == Some(f)
    requires !IsTable(ram, root, g)
    requires Walk(after, root, p + [i]) == Some(g)
    requires forall q: Path :: |q| <= 4 && q != p + [i] ==> Walk(after, root, q) == Walk(ram, root, q)
    requires after[g] == ZeroTable() && after[f][i].flags.largerPages == false
    requires forall h: Frame, k: Index :: h != g && (h != f || k != i) ==> after[h][k] == ram[h][k]
    ensures Tree(after, root)
  {
    forall q: Path | IsTablePath(q) && q != p + [i] && Walk(after, root, q).Some?
      ensures Walk(after, root, q).value != g
    {
      assert IsTable(ram, root, Walk(ram, root, q).value);
    }
  }

  /** Writing an entry of a last-level table changes the translation of one page. */
  lemma WriteLeaf(ram: Ram, root: Frame, p: Path, f: Frame, i: Index, e: PageDirectoryEntry)
    requires Tree(ram, root) && |p| == 3 && Walk(ram, root, p) == Some(f)
    ensures var after := WriteEntry(ram, f, i, e);
            && Walk(after, root, p + [i]) == (if e.flags.present then Some(e.frame) else None)
            && (forall q: Path :: |q| <= 4 && q != p + [i] ==> Walk(after, root, q) == Walk(ram, root, q))
            && Tree(after, root)
  {
    var after := WriteEntry(ram, f, i, e);
    WriteEntryStep(ram, root, p, f, i, e);
    forall q: Path | |q| <= 4 && q != p + [i]
      ensures Walk(after, root, q) == Walk(ram, root, q)
    {
      assert !(p + [i] <= q);
      WriteEntryFrame(ram, root, p, f, i, e, q);
    }
    assert forall q: Path :: IsTablePath(q) ==> Walk(after, root, q) == Walk(ram, root, q);
    forall q: Path | 1 <= |q| <= 2 && Walk(ram, root, q).Some?
      ensures Walk(ram, root, q).value != f
    {
      assert IsTablePath(q) && q != p;
    }
  }
}
