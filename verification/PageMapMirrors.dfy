/** Copies of page tables and of everything below them. */
module PageMapMirrors {
  import opened ClonePlans
  import opened PageTrees
  import opened Paging

  /** In `ram`, frame `n` holds a copy of the table that frame `o` held in `src`, and its entries
      lead to copies in turn, `depth` levels down. `src[n]` is what the page of the copy contained
      before. */
  ghost predicate Mirror(src: Ram, o: Frame, ram: Ram, n: Frame, depth: nat, places: Places, prefix: Path)
    decreases depth, 1
  {
    && n in places && places[n] == prefix
    && if depth == 0 then ram[n] == src[o] else MirrorEntries(src, o, ram, n, depth, places, prefix, 512)
  }

  /** The first `done` entries of `n` are copied, the others untouched. */
  ghost predicate MirrorEntries(src: Ram, o: Frame, ram: Ram, n: Frame, depth: nat, places: Places, prefix: Path, done: nat)
    requires depth > 0 && done <= 512
    decreases depth, 0
  {
    forall i: Index {:trigger ram[n][i]} ::
      if i < done && src[o][i].flags.present then
        && ram[n][i] == src[o][i].(frame := ram[n][i].frame)
        && Mirror(src, src[o][i].frame, ram, ram[n][i].frame, depth - 1, places, prefix + [i])
      else
        ram[n][i] == src[n][i]
  }

  ghost predicate Extends(places: Places, more: Places) {
    forall f: Frame :: f in places ==> f in more && more[f] == places[f]
  }

  /** A copy stays a copy while its pages are not written. */
  lemma {:induction false} MirrorStable(src: Ram, o: Frame, ram: Ram, n: Frame, depth: nat, places: Places, prefix: Path,
                                        after: Ram, more: Places)
    requires Mirror(src, o, ram, n, depth, places, prefix)
    requires Extends(places, more) && forall f: Frame :: f in places ==> after[f] == ram[f]
    ensures Mirror(src, o, after, n, depth, more, prefix)
    decreases depth
  {
    if depth > 0 {
      forall i: Index | src[o][i].flags.present
        ensures Mirror(src, src[o][i].frame, after, ram[n][i].frame, depth - 1, more, prefix + [i])
      {
        MirrorStable(src, src[o][i].frame, ram, ram[n][i].frame, depth - 1, places, prefix + [i], after, more);
      }
    }
  }

  /** Copying one more entry, present in the original, with its copy in `child`. */
  lemma MirrorEntryDone(src: Ram, o: Frame, ram: Ram, mid: Ram, after: Ram, n: Frame, depth: nat, places: Places,
                        childPlaces: Places, prefix: Path, i: Index, child: Frame)
    requires depth > 0 && MirrorEntries(src, o, ram, n, depth, places, prefix, i)
    requires src[o][i].flags.present && Mirror(src, src[o][i].frame, mid, child, depth - 1, childPlaces, prefix + [i])
    requires n !in places && n !in childPlaces && places.Keys !! childPlaces.Keys
    requires mid[n] == ram[n] && forall f: Frame :: f in places ==> mid[f] == ram[f]
    requires after == WriteEntry(mid, n, i, src[o][i].(frame := child))
    ensures MirrorEntries(src, o, after, n, depth, places + childPlaces, prefix, i + 1)
  {
    var more := places + childPlaces;
    MirrorStable(src, src[o][i].frame, mid, child, depth - 1, childPlaces, prefix + [i], after, more);
    forall j: Index | j < i && src[o][j].flags.present
      ensures Mirror(src, src[o][j].frame, after, after[n][j].frame, depth - 1, more, prefix + [j])
    {
      MirrorStable(src, src[o][j].frame, ram, ram[n][j].frame, depth - 1, places, prefix + [j], after, more);
    }
  }

  lemma MirrorPlaced(src: Ram, o: Frame, ram: Ram, n: Frame, depth: nat, places: Places, prefix: Path)
    requires depth > 0 && MirrorEntries(src, o, ram, n, depth, places, prefix, 512) && n !in places
    ensures Mirror(src, o, ram, n, depth, places[n := prefix], prefix)
  {
    forall i: Index | src[o][i].flags.present
      ensures Mirror(src, src[o][i].frame, ram, ram[n][i].frame, depth - 1, places[n := prefix], prefix + [i])
    {
      MirrorStable(src, src[o][i].frame, ram, ram[n][i].frame, depth - 1, places, prefix + [i], ram, places[n := prefix]);
    }
  }

  lemma MirrorEntrySkipped(src: Ram, o: Frame, ram: Ram, n: Frame, depth: nat, places: Places, prefix: Path, i: Index)
    requires depth > 0 && MirrorEntries(src, o, ram, n, depth, places, prefix, i) && !src[o][i].flags.present
    ensures MirrorEntries(src, o, ram, n, depth, places, prefix, i + 1)
  {
  }

  // ----- what a copy translates -----

  /** The copy of a table is reached along the same path, and stands in the place of that path. */
  lemma {:induction false} MirrorWalk(src: Ram, o: Frame, ram: Ram, n: Frame, depth: nat, places: Places, prefix: Path, q: Path)
    requires Mirror(src, o, ram, n, depth, places, prefix) && |q| <= depth && Walk(src, o, q).Some?
    ensures Walk(ram, n, q).Some? && Walk(ram, n, q).value in places && places[Walk(ram, n, q).value] == prefix + q
    ensures Mirror(src, Walk(src, o, q).value, ram, Walk(ram, n, q).value, depth - |q|, places, prefix + q)
    decreases |q|
  {
    if q == [] {
      assert prefix + q == prefix;
    } else {
      var i := q[0];
      MirrorWalk(src, src[o][i].frame, ram, ram[n][i].frame, depth - 1, places, prefix + [i], q[1..]);
      assert prefix + [i] + q[1..] == prefix + q;
    }
  }

  /** Beyond the last level the copy leads to the very pages that the original leads to. */
  lemma MirrorTranslates(src: Ram, o: Frame, ram: Ram, n: Frame, depth: nat, places: Places, prefix: Path, q: Path)
    requires Mirror(src, o, ram, n, depth, places, prefix) && |q| == depth + 1 && Walk(src, o, q[..depth]).Some?
    ensures Walk(ram, n, q) == Walk(src, o, q)
  {
    MirrorWalk(src, o, ram, n, depth, places, prefix, q[..depth]);
    assert q == q[..depth] + [q[depth]];
    WalkAppend(src, o, q[..depth], [q[depth]]);
    WalkAppend(ram, n, q[..depth], [q[depth]]);
  }

  /** In the copied tables above the last level, no page contained a present entry where the
      original has none. */
  ghost predicate NoStaleEntries(src: Ram, o: Frame, ram: Ram, n: Frame, depth: nat) {
    forall q: Path, i: Index :: |q| < depth && Walk(src, o, q).Some? && Walk(ram, n, q).Some? ==>
      (src[Walk(ram, n, q).value][i].flags.present ==> src[Walk(src, o, q).value][i].flags.present)
  }

  /** Copy and original have tables on exactly the same paths. */
  ghost predicate SameTables(src: Ram, o: Frame, ram: Ram, n: Frame, depth: nat) {
    forall q: Path :: |q| <= depth ==> (Walk(src, o, q).Some? <==> Walk(ram, n, q).Some?)
  }

  /** The copy has the shape of the original if and only if no stale entry shows through. */
  lemma MirrorSameTables(src: Ram, o: Frame, ram: Ram, n: Frame, depth: nat, places: Places, prefix: Path)
    requires Mirror(src, o, ram, n, depth, places, prefix)
    ensures SameTables(src, o, ram, n, depth) <==> NoStaleEntries(src, o, ram, n, depth)
  {
    if NoStaleEntries(src, o, ram, n, depth) {
      forall q: Path | |q| <= depth
        ensures Walk(src, o, q).Some? <==> Walk(ram, n, q).Some?
      {
        NoStaleWalk(src, o, ram, n, depth, places, prefix, q);
      }
    }
    if SameTables(src, o, ram, n, depth) {
      forall q: Path, i: Index | |q| < depth && Walk(src, o, q).Some? && Walk(ram, n, q).Some?
        ensures src[Walk(ram, n, q).value][i].flags.present ==> src[Walk(src, o, q).value][i].flags.present
      {
        MirrorWalk(src, o, ram, n, depth, places, prefix, q);
        WalkAppend(src, o, q, [i]);
        WalkAppend(ram, n, q, [i]);
        assert Walk(src, o, q + [i]).Some? <==> Walk(ram, n, q + [i]).Some?;
        assert Walk(ram, Walk(ram, n, q).value, [i]).Some? <==> ram[Walk(ram, n, q).value][i].flags.present;
      }
    }
  }

  lemma {:induction false} NoStaleWalk(src: Ram, o: Frame, ram: Ram, n: Frame, depth: nat, places: Places, prefix: Path, q: Path)
    requires Mirror(src, o, ram, n, depth, places, prefix) && NoStaleEntries(src, o, ram, n, depth) && |q| <= depth
    ensures Walk(src, o, q).Some? <==> Walk(ram, n, q).Some?
    decreases |q|
  {
    if q != [] {
      var last := |q| - 1;
      var p, i := q[..last], q[last];
      assert q == p + [i];
      NoStaleWalk(src, o, ram, n, depth, places, prefix, p);
      WalkAppend(src, o, p, [i]);
      WalkAppend(ram, n, p, [i]);
      if Walk(src, o, p).Some? {
        MirrorWalk(src, o, ram, n, depth, places, prefix, p);
      }
    }
  }
}
