/** Dropping remotely deleted files: what a run of `remove_remote_file` calls does to the table, in any order. */
module RemoteDeletion {
  import opened Options
  import opened Iteration
  import opened InodeModel
  import opened InodeLemmas
  import opened InodeSpecs
  import opened InodeLoose

  /** The inode that the parent and name of `i` lead to: `i` itself, unless `i` has been unlinked. */
  ghost function Named(t: Table, i: Ino): Option<Ino>
    requires i in t.inodes
  {
    var e := t.inodes[i];
    if e.parent in t.inodes && e.name in t.inodes[e.parent].childIndex
    then Some(t.inodes[e.parent].childIndex[e.name]) else None
  }

  /** The part of `dead` that nobody has open: these inodes are removed. */
  ghost function Closed(t: Table, dead: set<Ino>): set<Ino> {
    set i | i in dead && i in t.inodes && !t.inodes[i].IsOpen()
  }

  /** The inodes that are unlinked, because the parent and name of an open inode of `dead` lead to them. */
  ghost function Hits(t: Table, dead: set<Ino>): set<Ino> {
    set i | i in dead && i in t.inodes && t.inodes[i].IsOpen() && Named(t, i).Some? :: Named(t, i).value
  }

  /** The paths that are dropped together with removed inodes, whoever they lead to. */
  ghost function OldPaths(t: Table, gone: set<Ino>): set<string> {
    set i | i in gone && i in t.inodes :: t.inodes[i].fullPath
  }

  /** One call of `remove_remote_file` on a clean inode. */
  ghost function AfterDeletion(t: Table, i: Ino): Table
    requires i in t.inodes
  {
    if !t.inodes[i].IsOpen() then RemoveSpec(t, i)
    else
      match Named(t, i)
      case None => t
      case Some(c) => if c in t.inodes then UnlinkSpec(t, c) else t
  }

  ghost function DropEntry(e: Entry, out: set<Ino>, unlinked: bool): Entry {
    e.(children := FilterOut(e.children, out), childIndex := DropIndex(e.childIndex, out),
       nlink := if unlinked then SaturatingSub(e.nlink, 1) else e.nlink)
  }

  /** The inodes `gone` removed and the inodes `hits` unlinked. */
  ghost function Drop(t: Table, gone: set<Ino>, hits: set<Ino>): Table {
    Table(
      map i | i in t.inodes && i !in gone :: DropEntry(t.inodes[i], gone + hits, i in hits),
      map p | p in t.paths && t.paths[p] !in gone + hits && p !in OldPaths(t, gone) :: t.paths[p],
      t.nextInode)
  }

  /** All of `dead` dropped. */
  ghost function AfterDeletions(t: Table, dead: set<Ino>): Table {
    Drop(t, Closed(t, dead), Hits(t, dead))
  }

  ghost predicate Files(t: Table, s: set<Ino>) {
    forall i :: i in s ==> i in t.inodes && !t.inodes[i].kind.Directory?
  }

  // ----- What stays of an entry -----------------------------------------------------

  lemma DropFrame(t: Table, g: set<Ino>, h: set<Ino>, i: Ino)
    requires i in t.inodes && i !in g
    ensures i in Drop(t, g, h).inodes
    ensures Drop(t, g, h).inodes[i] == DropEntry(t.inodes[i], g + h, i in h)
  {
  }

  lemma DropMissing(t: Table, g: set<Ino>, h: set<Ino>, i: Ino)
    requires i !in t.inodes || i in g
    ensures i !in Drop(t, g, h).inodes
  {
  }

  lemma DropPaths(t: Table, g: set<Ino>, h: set<Ino>)
    ensures var d := Drop(t, g, h);
            && (forall p :: p in d.paths <==> p in t.paths && t.paths[p] !in g + h && p !in OldPaths(t, g))
            && (forall p :: p in d.paths ==> d.paths[p] == t.paths[p])
  {
  }

  /** Part-way through the run, an inode still to come has everything but its listing and its link. */
  lemma StillThere(t: Table, done: set<Ino>, x: Ino)
    requires x in t.inodes && x !in Closed(t, done)
    ensures x in AfterDeletions(t, done).inodes
    ensures var e, e' := t.inodes[x], AfterDeletions(t, done).inodes[x];
            && e'.inode == e.inode && e'.parent == e.parent && e'.name == e.name && e'.fullPath == e.fullPath
            && e'.kind == e.kind && e'.childrenLoaded == e.childrenLoaded && e'.meta == e.meta
            && e'.eviction == e.eviction
            && e'.nlink == (if x in Hits(t, done) then SaturatingSub(e.nlink, 1) else e.nlink)
            && e'.childIndex == DropIndex(e.childIndex, Closed(t, done) + Hits(t, done))
  {
    hide Hits, Closed;
    DropFrame(t, Closed(t, done), Hits(t, done), x);
    hide Drop, FilterOut, DropIndex;
  }

  // ----- Dropping twice -----------------------------------------------------------------

  lemma {:induction false} FilterTwice(children: seq<DirChild>, a: set<Ino>, b: set<Ino>)
    ensures FilterOut(FilterOut(children, a), b) == FilterOut(children, a + b)
  {
    if children != [] {
      FilterTwice(children[1..], a, b);
      if children[0].ino !in a {
        assert ([children[0]] + FilterOut(children[1..], a))[1..] == FilterOut(children[1..], a);
      }
    }
  }

  lemma DropIndexTwice(index: map<string, Ino>, a: set<Ino>, b: set<Ino>)
    ensures DropIndex(DropIndex(index, a), b) == DropIndex(index, a + b)
  {
  }

  lemma EntryTwice(e: Entry, a: set<Ino>, b: set<Ino>, u: bool, v: bool)
    requires !(u && v)
    ensures DropEntry(DropEntry(e, a, u), b, v) == DropEntry(e, a + b, u || v)
  {
    FilterTwice(e.children, a, b);
    DropIndexTwice(e.childIndex, a, b);
  }

  lemma OldPathsTwice(t: Table, g: set<Ino>, h: set<Ino>, g2: set<Ino>)
    ensures OldPaths(t, g) + OldPaths(Drop(t, g, h), g2) == OldPaths(t, g + g2)
  {
    var d := Drop(t, g, h);
    forall i | i in t.inodes && i !in g ensures i in d.inodes && d.inodes[i].fullPath == t.inodes[i].fullPath {
      DropFrame(t, g, h, i);
    }
    forall i | i in d.inodes ensures i in t.inodes && i !in g {}
    hide Drop;
    forall p ensures p in OldPaths(t, g) + OldPaths(d, g2) <==> p in OldPaths(t, g + g2) {
      if i :| i in g2 && i in t.inodes && i !in g && t.inodes[i].fullPath == p { assert i in d.inodes; }
    }
  }

  lemma DropTwice(t: Table, g: set<Ino>, h: set<Ino>, g2: set<Ino>, h2: set<Ino>)
    requires h !! h2
    ensures Drop(Drop(t, g, h), g2, h2) == Drop(t, g + g2, h + h2)
  {
    var a, b := Drop(Drop(t, g, h), g2, h2), Drop(t, g + g2, h + h2);
    assert (g + h) + (g2 + h2) == (g + g2) + (h + h2);
    forall i | i in t.inodes && i !in g + g2 ensures i in a.inodes && i in b.inodes && a.inodes[i] == b.inodes[i] {
      DropFrame(t, g, h, i);
      DropFrame(Drop(t, g, h), g2, h2, i);
      DropFrame(t, g + g2, h + h2, i);
      EntryTwice(t.inodes[i], g + h, g2 + h2, i in h, i in h2);
    }
    OldPathsTwice(t, g, h, g2);
    DropPaths(t, g, h);
    DropPaths(Drop(t, g, h), g2, h2);
    DropPaths(t, g + g2, h + h2);
    SameMap(a.inodes, b.inodes);
    hide DropEntry, OldPaths;
    SameMap(a.paths, b.paths);
  }

  /** Unlinking something that is gone anyway makes no difference. */
  lemma DropSame(t: Table, g: set<Ino>, h: set<Ino>, h2: set<Ino>)
    requires g + h == g + h2
    ensures Drop(t, g, h) == Drop(t, g, h2)
  {
    var a, b := Drop(t, g, h), Drop(t, g, h2);
    forall i | i in t.inodes && i !in g ensures a.inodes[i] == b.inodes[i] {
      assert i in h <==> i in h2 by { assert i in g + h <==> i in g + h2; }
    }
    SameMap(a.inodes, b.inodes);
    SameMap(a.paths, b.paths);
  }

  lemma DropNothing(t: Table)
    ensures Drop(t, {}, {}) == t
  {
    var none: set<Ino> := {};
    var d := Drop(t, none, none);
    assert none + none == none;
    forall i | i in t.inodes ensures d.inodes[i] == t.inodes[i] {
      FilterOutNone(t.inodes[i].children, none);
      SameMap(DropIndex(t.inodes[i].childIndex, none), t.inodes[i].childIndex);
    }
    SameMap(d.inodes, t.inodes);
    SameMap(d.paths, t.paths);
  }

  // ----- Every run stays loose --------------------------------------------------------------

  lemma HitIsLive(t: Table, dead: set<Ino>, c: Ino)
    requires Loose(t) && c in Hits(t, dead)
    ensures Live(t, c) && c != ROOT_INODE
  {
    var i :| i in dead && i in t.inodes && t.inodes[i].IsOpen() && Named(t, i) == Some(c);
    assert DownOk(t, t.inodes[i].parent);
  }

  lemma LiveStays(t: Table, dead: set<Ino>, i: Ino)
    requires Loose(t) && i in t.inodes && i !in Closed(t, dead)
    ensures Live(AfterDeletions(t, dead), i) ==> Live(t, i)
    ensures i !in Hits(t, dead) ==> (Live(AfterDeletions(t, dead), i) <==> Live(t, i))
    ensures !t.inodes[i].kind.Directory? ==> (Live(AfterDeletions(t, dead), i) <==> Live(t, i) && i !in Hits(t, dead))
  {
    StillThere(t, dead, i);
    assert EdgeOk(t, i);
  }

  lemma DeletionsKeepEdge(t: Table, dead: set<Ino>, i: Ino)
    requires Loose(t) && Files(t, dead) && i in t.inodes && i !in Closed(t, dead)
    ensures i in AfterDeletions(t, dead).inodes && EdgeOk(AfterDeletions(t, dead), i)
  {
    var g, h := Closed(t, dead), Hits(t, dead);
    assert EdgeOk(t, i);
    hide Loose, Hits, Drop, ChildListOk, FilterOut, DropIndex;
    StillThere(t, dead, i);
    DropFrame(t, g, h, i);
    FilterKeepsChildList(t.inodes[i], g + h);
    SameChildren(DropEntry(t.inodes[i], g + h, i in h),
                 t.inodes[i].(children := FilterOut(t.inodes[i].children, g + h),
                              childIndex := DropIndex(t.inodes[i].childIndex, g + h)));
    FilterNothing(g + h);
    var p := t.inodes[i].parent;
    if p in t.inodes && p !in g { StillThere(t, dead, p); }
  }

  lemma SameChildren(e: Entry, e': Entry)
    requires ChildListOk(e') && e.children == e'.children && e.childIndex == e'.childIndex
    ensures ChildListOk(e)
  {
  }

  lemma FilterNothing(out: set<Ino>)
    ensures FilterOut([], out) == []
  {
  }

  lemma DeletionsKeepEntry(t: Table, dead: set<Ino>, i: Ino)
    requires Loose(t) && Files(t, dead) && i in AfterDeletions(t, dead).inodes
    ensures i in t.inodes && EdgeOk(AfterDeletions(t, dead), i) && DownOk(AfterDeletions(t, dead), i)
  {
    var g, h, t' := Closed(t, dead), Hits(t, dead), AfterDeletions(t, dead);
    if i in t.inodes && i !in g {
      DeletionsKeepEdge(t, dead, i);
      hide EdgeOk;
      StillThere(t, dead, i);
      assert DownOk(t, i);
      forall n | n in t'.inodes[i].childIndex
        ensures var c := t'.inodes[i].childIndex[n];
                && n in t.inodes[i].childIndex && c == t.inodes[i].childIndex[n] && c in t'.inodes
                && t'.inodes[c].nlink == t.inodes[c].nlink
                && t'.inodes[c].parent == t.inodes[c].parent && t'.inodes[c].name == t.inodes[c].name
      {
        StillThere(t, dead, t'.inodes[i].childIndex[n]);
      }
      hide Closed, Hits, Drop, Loose;
    } else {
      DropMissing(t, g, h, i);
    }
  }

  lemma DeletionsKeepMapped(t: Table, dead: set<Ino>)
    requires Loose(t)
    ensures MappedOk(AfterDeletions(t, dead))
  {
    var t' := AfterDeletions(t, dead);
    DropPaths(t, Closed(t, dead), Hits(t, dead));
    forall i | i in t.inodes && i !in Closed(t, dead)
      ensures i in t'.inodes && t'.inodes[i].fullPath == t.inodes[i].fullPath
      ensures Live(t', i) ==> Live(t, i)
      ensures i !in Hits(t, dead) ==> (Live(t', i) <==> Live(t, i))
    {
      StillThere(t, dead, i);
      LiveStays(t, dead, i);
    }
    forall i | i in t'.inodes ensures i in t.inodes && i !in Closed(t, dead) {
      if i !in t.inodes || i in Closed(t, dead) { DropMissing(t, Closed(t, dead), Hits(t, dead), i); }
    }
    hide Closed, Hits, Drop, OldPaths, AfterDeletions;
  }

  lemma DeletionsKeepLoose(t: Table, dead: set<Ino>)
    requires Loose(t) && Files(t, dead)
    ensures Loose(AfterDeletions(t, dead))
  {
    hide AfterDeletions, DownOk, EdgeOk, MappedOk;
    var t' := AfterDeletions(t, dead);
    DeletionsKeepMapped(t, dead);
    RootStays(t, dead);
    forall i | i in t'.inodes ensures EdgeOk(t', i) && DownOk(t', i) {
      DeletionsKeepEntry(t, dead, i);
    }
  }

  lemma RootStays(t: Table, dead: set<Ino>)
    requires Loose(t) && Files(t, dead)
    ensures RootOk(AfterDeletions(t, dead)) && Live(AfterDeletions(t, dead), ROOT_INODE)
  {
    StillThere(t, dead, ROOT_INODE);
    LiveStays(t, dead, ROOT_INODE);
    if ROOT_INODE in Hits(t, dead) { HitIsLive(t, dead, ROOT_INODE); }
  }

  // ----- One more deletion -------------------------------------------------------------

  /** An unlinked inode, an inode that leads nowhere, and a removed file, as one kind of step. */
  lemma UnlinkIsDrop(t: Table, c: Ino)
    requires Loose(t) && c in t.inodes
    ensures UnlinkSpec(t, c) == Drop(t, {}, {c})
  {
    hide Loose, Drop, UnlinkSpec;
    var a, b := UnlinkSpec(t, c), Drop(t, {}, {c});
    UnlinkedMaps(t, c);
    forall i | i in t.inodes ensures a.inodes[i] == b.inodes[i] {
      UnlinkedIsDropped(t, c, i);
    }
    SameMap(a.inodes, b.inodes);
    SameMap(a.paths, b.paths);
  }

  lemma UnlinkedIsDropped(t: Table, c: Ino, i: Ino)
    requires c in t.inodes && i in t.inodes
    ensures i in UnlinkSpec(t, c).inodes && i in Drop(t, {}, {c}).inodes
    ensures UnlinkSpec(t, c).inodes[i] == Drop(t, {}, {c}).inodes[i]
  {
    var none: set<Ino> := {};
    SameSet(SubDirs(t.inodes, i) * none, none);
    DropFrame(t, none, {c}, i);
    hide Drop, FilterOut, DropIndex;
  }

  lemma UnlinkedMaps(t: Table, c: Ino)
    requires c in t.inodes
    ensures var a, b := UnlinkSpec(t, c), Drop(t, {}, {c});
            && a.inodes.Keys == t.inodes.Keys && b.inodes.Keys == t.inodes.Keys && a.nextInode == b.nextInode
            && a.paths.Keys == b.paths.Keys && (forall p :: p in b.paths ==> a.paths[p] == b.paths[p])
  {
    assert OldPaths(t, {}) == {};
    hide DropEntry, DetachEntry, OldPaths;
  }

  lemma RemoveIsDrop(t: Table, x: Ino)
    requires Loose(t) && x in t.inodes && !t.inodes[x].kind.Directory?
    ensures RemoveSpec(t, x) == Drop(t, {x}, {})
  {
    LooseFileAlone(t, x);
    hide Loose, Subtree, Drop, Detach;
    var a, b := RemoveSpec(t, x), Drop(t, {x}, {});
    forall i | i in t.inodes && i != x ensures i in a.inodes && i in b.inodes && a.inodes[i] == b.inodes[i] {
      RemovedIsDropped(t, x, i);
    }
    RemovedMaps(t, x);
    SameMap(a.inodes, b.inodes);
    SameMap(a.paths, b.paths);
  }

  lemma RemovedIsDropped(t: Table, x: Ino, i: Ino)
    requires x in t.inodes && !t.inodes[x].kind.Directory? && i in t.inodes && i != x
    ensures i in Detach(t, {x}, {}).inodes && i in Drop(t, {x}, {}).inodes
    ensures Detach(t, {x}, {}).inodes[i] == Drop(t, {x}, {}).inodes[i]
  {
    SameSet(SubDirs(t.inodes, i) * {x}, {});
    DropFrame(t, {x}, {}, i);
    hide Drop, FilterOut, DropIndex;
  }

  lemma RemovedMaps(t: Table, x: Ino)
    requires x in t.inodes
    ensures var a, b := Detach(t, {x}, {}), Drop(t, {x}, {});
            && a.inodes.Keys == t.inodes.Keys - {x} && b.inodes.Keys == t.inodes.Keys - {x}
            && a.nextInode == b.nextInode
            && (a.paths - {t.inodes[x].fullPath}).Keys == b.paths.Keys
            && (forall p :: p in b.paths ==> p in a.paths && a.paths[p] == b.paths[p])
  {
    assert OldPaths(t, {x}) == {t.inodes[x].fullPath};
    hide DropEntry, DetachEntry, OldPaths;
  }

  lemma NamedNow(t: Table, done: set<Ino>, x: Ino)
    requires Loose(t) && Files(t, done) && x in t.inodes && x !in Closed(t, done)
    ensures x in AfterDeletions(t, done).inodes
    ensures Named(AfterDeletions(t, done), x)
         == if Named(t, x).Some? && Named(t, x).value !in Closed(t, done) + Hits(t, done) then Named(t, x) else None
  {
    StillThere(t, done, x);
    var p := t.inodes[x].parent;
    if p in t.inodes && p !in Closed(t, done) {
      StillThere(t, done, p);
    } else {
      DropMissing(t, Closed(t, done), Hits(t, done), p);
      if p in t.inodes { FileListsNothing(t, p); }
    }
    hide Loose, Hits, Drop, Closed;
  }

  lemma FileListsNothing(t: Table, p: Ino)
    requires Loose(t) && p in t.inodes && !t.inodes[p].kind.Directory?
    ensures t.inodes[p].childIndex == map[]
  {
    assert EdgeOk(t, p);
    assert forall n :: n !in t.inodes[p].childIndex;
  }

  lemma HitsMore(t: Table, done: set<Ino>, x: Ino)
    requires x in t.inodes
    ensures Closed(t, done + {x}) == Closed(t, done) + (if t.inodes[x].IsOpen() then {} else {x})
    ensures Hits(t, done + {x})
         == Hits(t, done) + (if t.inodes[x].IsOpen() && Named(t, x).Some? then {Named(t, x).value} else {})
  {
  }

  /** Whatever the state of the table and the order of the deletions: one more deletion makes the result that
      of one more inode. */
  lemma DeletionStep(t: Table, done: set<Ino>, x: Ino)
    requires Loose(t) && Files(t, done + {x}) && x !in done
    ensures x in AfterDeletions(t, done).inodes
    ensures AfterDeletion(AfterDeletions(t, done), x) == AfterDeletions(t, done + {x})
  {
    hide Loose, Closed, Hits, Drop;
    assert x in done + {x};
    assert Files(t, done);
    NotClosed(t, done, x);
    StillThere(t, done, x);
    DeletionsKeepLoose(t, done);
    HitsMore(t, done, x);
    var now, g, h := AfterDeletions(t, done), Closed(t, done), Hits(t, done);
    if !t.inodes[x].IsOpen() {
      RemoveIsDrop(now, x);
      DropTwice(t, g, h, {x}, {});
    } else {
      NamedNow(t, done, x);
      OpenStep(t, done, x);
    }
  }

  lemma NotClosed(t: Table, done: set<Ino>, x: Ino)
    requires x !in done
    ensures x !in Closed(t, done)
  {
  }

  lemma OpenStep(t: Table, done: set<Ino>, x: Ino)
    requires Loose(t) && Files(t, done) && x in t.inodes && t.inodes[x].IsOpen() && Loose(AfterDeletions(t, done))
    requires x in AfterDeletions(t, done).inodes && AfterDeletions(t, done).inodes[x].IsOpen()
    requires Named(AfterDeletions(t, done), x)
          == if Named(t, x).Some? && Named(t, x).value !in Closed(t, done) + Hits(t, done) then Named(t, x) else None
    ensures AfterDeletion(AfterDeletions(t, done), x) == AfterDeletions(t, done + {x})
  {
    HitsMore(t, done, x);
    hide Loose, Closed, Hits, Drop;
    var now, g, h := AfterDeletions(t, done), Closed(t, done), Hits(t, done);
    assert g + {} == g && h + {} == h;
    match Named(t, x)
    case None =>
    case Some(c) =>
      if c in g + h {
        assert g + h == g + (h + {c});
        DropSame(t, g, h, h + {c});
      } else {
        NamedHasParent(now, x, c);
        UnlinkIsDrop(now, c);
        DropTwice(t, g, h, {}, {c});
      }
  }

  lemma NamedHasParent(t: Table, x: Ino, c: Ino)
    requires Loose(t) && x in t.inodes && Named(t, x) == Some(c)
    ensures c in t.inodes && c != ROOT_INODE && t.inodes[c].parent != c
  {
    assert DownOk(t, t.inodes[x].parent);
    LooseParentIsOther(t, c);
  }

  lemma NoDeletions(t: Table)
    ensures AfterDeletions(t, {}) == t && Hits(t, {}) == {} && Closed(t, {}) == {}
  {
    assert Hits(t, {}) == {} && Closed(t, {}) == {};
    hide Drop;
    DropNothing(t);
  }

  // ----- When the tree survives ------------------------------------------------------------

  lemma OwnName(t: Table, i: Ino)
    requires Wf(t) && Live(t, i) && i != ROOT_INODE
    ensures Named(t, i) == Some(i)
  {
    assert UpOk(t, i);
  }

  /** Every name that is unlinked leads to a file, and every path that goes with a removed inode led to an
      inode that is dropped as well. */
  ghost predicate Harmless(t: Table, dead: set<Ino>) {
    && Files(t, Hits(t, dead))
    && (forall p :: p in OldPaths(t, Closed(t, dead)) && p in t.paths ==> t.paths[p] in Closed(t, dead) + Hits(t, dead))
  }

  lemma HarmlessEntry(t: Table, dead: set<Ino>, i: Ino)
    requires Wf(t) && Files(t, dead) && Harmless(t, dead) && i in t.inodes && i !in Closed(t, dead)
    ensures DropEntry(t.inodes[i], Closed(t, dead) + Hits(t, dead), i in Hits(t, dead))
         == DetachEntry(t, Closed(t, dead), Hits(t, dead), i)
  {
    SameSet(SubDirs(t.inodes, i) * Closed(t, dead), {});
    if i in Hits(t, dead) {
      assert LinkOk(t, i);
    }
    hide Wf, Hits, Closed, FilterOut, DropIndex;
  }

  /** Then dropping is pruning. */
  lemma HarmlessIsDetach(t: Table, dead: set<Ino>)
    requires Wf(t) && Files(t, dead) && Harmless(t, dead)
    ensures AfterDeletions(t, dead) == Detach(t, Closed(t, dead), Hits(t, dead))
  {
    var g, h := Closed(t, dead), Hits(t, dead);
    var a, b := AfterDeletions(t, dead), Detach(t, g, h);
    forall i | i in t.inodes && i !in g ensures i in a.inodes && i in b.inodes && a.inodes[i] == b.inodes[i] {
      HarmlessEntry(t, dead, i);
      DropFrame(t, g, h, i);
    }
    HarmlessMaps(t, g, h);
    hide Wf, Closed, Hits, Drop, Detach, OldPaths, Files;
    SameMap(a.inodes, b.inodes);
    SameMap(a.paths, b.paths);
  }

  lemma HarmlessMaps(t: Table, g: set<Ino>, h: set<Ino>)
    requires forall p :: p in OldPaths(t, g) && p in t.paths ==> t.paths[p] in g + h
    ensures var a, b := Drop(t, g, h), Detach(t, g, h);
            && a.inodes.Keys == t.inodes.Keys - g && b.inodes.Keys == t.inodes.Keys - g && a.nextInode == b.nextInode
            && a.paths.Keys == b.paths.Keys && (forall p :: p in b.paths ==> a.paths[p] == b.paths[p])
  {
    hide DropEntry, DetachEntry, OldPaths;
  }

  lemma HarmlessKeepsWf(t: Table, dead: set<Ino>)
    requires Wf(t) && Files(t, dead) && Harmless(t, dead)
    ensures Wf(AfterDeletions(t, dead))
  {
    HarmlessIsDetach(t, dead);
    assert Files(t, Closed(t, dead) + Hits(t, dead));
    hide AfterDeletions;
    FilesAreDetachable(t, Closed(t, dead), Hits(t, dead));
    DetachKeepsWf(t, Closed(t, dead), Hits(t, dead));
  }

  /** A directory that is unlinked keeps its subdirectories and is one link short. */
  lemma UnlinkedDirBreaks(t: Table, dead: set<Ino>, c: Ino)
    requires Wf(t) && Files(t, dead) && c in Hits(t, dead) && c in t.inodes && t.inodes[c].kind.Directory?
    ensures !Wf(AfterDeletions(t, dead))
  {
    var t' := AfterDeletions(t, dead);
    assert LinkOk(t, c);
    SameSubDirs(t, dead, c);
    StillThere(t, dead, c);
    hide Hits, Closed, Drop;
    assert !LinkOk(t', c);
  }

  lemma SameSubDirs(t: Table, dead: set<Ino>, d: Ino)
    requires Files(t, dead)
    ensures SubDirs(AfterDeletions(t, dead).inodes, d) == SubDirs(t.inodes, d)
  {
    var t' := AfterDeletions(t, dead);
    forall i ensures i in SubDirs(t'.inodes, d) <==> i in SubDirs(t.inodes, d) {
      if i in t.inodes && i !in Closed(t, dead) {
        StillThere(t, dead, i);
      } else {
        DropMissing(t, Closed(t, dead), Hits(t, dead), i);
      }
    }
  }

  /** An inode that stays loses its path to a removed inode that had the same. */
  lemma LostPathBreaks(t: Table, dead: set<Ino>, p: string)
    requires Wf(t) && p in OldPaths(t, Closed(t, dead)) && p in t.paths
    requires t.paths[p] !in Closed(t, dead) + Hits(t, dead)
    ensures !Wf(AfterDeletions(t, dead))
  {
    var i := t.paths[p];
    assert PathsOk(t);
    assert Live(t, i) && t.inodes[i].fullPath == p;
    DropPaths(t, Closed(t, dead), Hits(t, dead));
    StillThere(t, dead, i);
    var t' := AfterDeletions(t, dead);
    hide Hits, Closed, Drop, OldPaths;
    assert Live(t', i);
  }

  /** The tree survives the deletions, in whatever order they come, exactly when they are harmless. */
  lemma DeletionsKeepWfIff(t: Table, dead: set<Ino>)
    requires Wf(t) && Files(t, dead)
    ensures Wf(AfterDeletions(t, dead)) <==> Harmless(t, dead)
  {
    hide Wf, Hits, Closed, AfterDeletions;
    WfIsLoose(t);
    if Harmless(t, dead) {
      HarmlessKeepsWf(t, dead);
    } else if c :| c in Hits(t, dead) && !(c in t.inodes && !t.inodes[c].kind.Directory?) {
      HitIsLive(t, dead, c);
      UnlinkedDirBreaks(t, dead, c);
    } else {
      assert Files(t, Hits(t, dead));
      var p :| p in OldPaths(t, Closed(t, dead)) && p in t.paths && t.paths[p] !in Closed(t, dead) + Hits(t, dead);
      LostPathBreaks(t, dead, p);
    }
  }

  /** For one file: what its name leads to when it is open, and who owns its path when it is not. */
  lemma DeletionKeepsWfIff(t: Table, i: Ino)
    requires Wf(t) && i in t.inodes && !t.inodes[i].kind.Directory?
    ensures Wf(AfterDeletion(t, i))
       <==> if !t.inodes[i].IsOpen() then Live(t, i) || t.inodes[i].fullPath !in t.paths
            else Named(t, i).None? || (Named(t, i).value in t.inodes
                                       && !t.inodes[Named(t, i).value].kind.Directory?)
  {
    hide Wf, RemoveSpec, UnlinkSpec;
    if !t.inodes[i].IsOpen() {
      FileIsNotRoot(t, i);
      RemoveKeepsWfIff(t, i);
    } else if Named(t, i).Some? {
      WfIsLoose(t);
      NamedIsLive(t, i);
      UnlinkKeepsWfIff(t, Named(t, i).value);
    }
  }

  lemma FileIsNotRoot(t: Table, i: Ino)
    requires Wf(t) && i in t.inodes && !t.inodes[i].kind.Directory?
    ensures i != ROOT_INODE
  {
    assert RootOk(t);
  }

  lemma NamedIsLive(t: Table, i: Ino)
    requires Loose(t) && i in t.inodes && Named(t, i).Some?
    ensures Live(t, Named(t, i).value)
  {
    assert DownOk(t, t.inodes[i].parent);
  }

  // ----- What the deletions leave ----------------------------------------------------------

  /** An unlinked file among `dead` leads, by its name when it is open and by its path when it is not, to
      nothing that is to stay. */
  ghost predicate NoStrayName(t: Table, dead: set<Ino>) {
    && Hits(t, dead) <= dead
    && (forall p :: p in OldPaths(t, Closed(t, dead)) && p in t.paths ==> t.paths[p] in dead)
  }

  lemma NoStrayIsHarmless(t: Table, dead: set<Ino>)
    requires Wf(t) && Files(t, dead) && NoStrayName(t, dead)
    ensures Harmless(t, dead)
  {
    forall p | p in OldPaths(t, Closed(t, dead)) && p in t.paths
      ensures t.paths[p] in Closed(t, dead) + Hits(t, dead)
    {
      assert PathsOk(t) && RootOk(t) && Live(t, t.paths[p]);
      OwnName(t, t.paths[p]);
    }
  }

  /** An inode outside `dead` keeps its place unless a name or a path of `dead` leads to it. */
  lemma PlaceKeptIff(t: Table, dead: set<Ino>, i: Ino)
    requires Wf(t) && Files(t, dead) && i !in dead && Live(t, i)
    ensures Placed(AfterDeletions(t, dead), i)
       <==> i !in Hits(t, dead) && t.inodes[i].fullPath !in OldPaths(t, Closed(t, dead))
  {
    WfIsLoose(t);
    LiveIsPlaced(t, i);
    NotClosed(t, dead, i);
    StillThere(t, dead, i);
    LiveStays(t, dead, i);
    DropPaths(t, Closed(t, dead), Hits(t, dead));
    if i != ROOT_INODE {
      NamedNow(t, dead, i);
      OwnName(t, i);
    } else if i in Hits(t, dead) {
      HitIsLive(t, dead, i);
    }
    hide Wf, Loose, Hits, Closed, OldPaths, Drop;
  }

  /** No stray name is exactly what keeps everything else where it belongs. */
  lemma OthersKeepTheirPlace(t: Table, dead: set<Ino>)
    requires Wf(t) && Files(t, dead)
    ensures NoStrayName(t, dead)
       <==> forall i :: Live(t, i) && i !in dead ==> Placed(AfterDeletions(t, dead), i)
  {
    hide Wf, Hits, Closed, OldPaths, AfterDeletions, Placed;
    WfIsLoose(t);
    forall i | Live(t, i) && i !in dead
      ensures Placed(AfterDeletions(t, dead), i)
         <==> i !in Hits(t, dead) && t.inodes[i].fullPath !in OldPaths(t, Closed(t, dead))
    {
      PlaceKeptIff(t, dead, i);
      PathOfLive(t, i);
    }
    forall c | c in Hits(t, dead) ensures Live(t, c) {
      HitIsLive(t, dead, c);
    }
    forall p | p in t.paths ensures Live(t, t.paths[p]) && t.inodes[t.paths[p]].fullPath == p {
      PathOwner(t, p);
    }
    forall i | Live(t, i) ensures t.inodes[i].fullPath in t.paths && t.paths[t.inodes[i].fullPath] == i {
      PathOfLive(t, i);
    }
  }

  lemma PathOwner(t: Table, p: string)
    requires Wf(t) && p in t.paths
    ensures Live(t, t.paths[p]) && t.inodes[t.paths[p]].fullPath == p
  {
    assert PathsOk(t);
  }

  lemma PathOfLive(t: Table, i: Ino)
    requires Wf(t) && Live(t, i)
    ensures t.inodes[i].fullPath in t.paths && t.paths[t.inodes[i].fullPath] == i
  {
    assert PathsOk(t);
  }

  /** Every dead file loses its link and its path; without stray names nothing else loses its path. */
  lemma DeadLoseTheirPath(t: Table, dead: set<Ino>)
    requires Wf(t) && Files(t, dead)
    ensures forall i :: i in dead ==> !Live(AfterDeletions(t, dead), i)
    ensures forall p :: p in AfterDeletions(t, dead).paths ==>
      p in t.paths && AfterDeletions(t, dead).paths[p] == t.paths[p] && t.paths[p] !in dead
    ensures NoStrayName(t, dead) ==>
      forall p :: p in AfterDeletions(t, dead).paths <==> p in t.paths && t.paths[p] !in dead
  {
    var t' := AfterDeletions(t, dead);
    WfIsLoose(t);
    DropPaths(t, Closed(t, dead), Hits(t, dead));
    forall i | i in dead
      ensures !Live(t', i) && (Live(t, i) ==> i in Closed(t, dead) + Hits(t, dead))
    {
      if i in Closed(t, dead) {
        DropMissing(t, Closed(t, dead), Hits(t, dead), i);
      } else {
        FileIsNotRoot(t, i);
        if Live(t, i) { OwnName(t, i); }
        LiveStays(t, dead, i);
      }
    }
    forall p | p in t.paths ensures Live(t, t.paths[p]) { PathOwner(t, p); }
    forall i | i in Closed(t, dead) ensures i in dead {}
    hide Wf, Loose, Hits, Closed, Drop, OldPaths;
  }

  // ----- Stray names at work ------------------------------------------------------------------

  const CLEAN: FileMeta := FileMeta(0, 0, None, false, None, 0, [])

  /** Inode 2 is a file that has been unlinked, and a new file or directory has taken its name. */
  ghost function StrayExample(handles: nat, taker: InodeKind): Table {
    var isDir := taker.Directory?;
    Table(map[Ino(1) := Entry(Ino(1), Ino(1), "", "", Directory, if isDir then 3 else 2, true,
                              [DirChild(Ino(3), "f")], map["f" := Ino(3)], CLEAN, EvictionState(0, 0, 0)),
              Ino(2) := Entry(Ino(2), Ino(1), "f", "f", File, 0, false, [], map[], CLEAN, EvictionState(1, 0, handles)),
              Ino(3) := Entry(Ino(3), Ino(1), "f", "f", taker, if isDir then 2 else 1, false, [], map[],
                              CLEAN.SetDirty(), EvictionState(1, 0, 1))],
          map["" := Ino(1), "f" := Ino(3)], 4)
  }

  lemma StrayExampleLinks(handles: nat, taker: InodeKind, i: Ino)
    ensures var t := StrayExample(handles, taker); i in t.inodes ==> LinkOk(t, i)
  {
    var t := StrayExample(handles, taker);
    assert SubDirs(t.inodes, Ino(1)) == if taker.Directory? then {Ino(3)} else {};
    assert SubDirs(t.inodes, Ino(3)) == {};
    assert t.inodes[Ino(1)].children[0] == DirChild(Ino(3), "f");
  }

  lemma StrayExampleIsTree(handles: nat, taker: InodeKind, i: Ino)
    ensures var t := StrayExample(handles, taker);
            RootOk(t) && PathsOk(t) && (i in t.inodes ==> LinkOk(t, i) && DownOk(t, i) && UpOk(t, i))
  {
    hide LinkOk;
    StrayExampleLinks(handles, taker, i);
  }

  lemma StrayExampleWf(handles: nat, taker: InodeKind)
    ensures Wf(StrayExample(handles, taker))
  {
    var t := StrayExample(handles, taker);
    forall i ensures RootOk(t) && PathsOk(t)
      ensures i in t.inodes ==> LinkOk(t, i) && DownOk(t, i) && UpOk(t, i)
    {
      StrayExampleIsTree(handles, taker, i);
    }
    hide StrayExample, RootOk, PathsOk, LinkOk, DownOk, UpOk;
  }

  lemma StrayExampleFacts(handles: nat, taker: InodeKind)
    ensures var t := StrayExample(handles, taker);
            && !Live(t, Ino(2)) && Live(t, Ino(3)) && t.inodes[Ino(3)].IsDirty() && t.inodes[Ino(3)].kind == taker
            && Ino(2) in t.inodes && (t.inodes[Ino(2)].IsOpen() <==> handles > 0) && t.inodes[Ino(2)].kind.File?
            && !t.inodes[Ino(2)].IsDirty()
            && Named(t, Ino(2)) == Some(Ino(3)) && t.inodes[Ino(2)].fullPath == "f"
            && "f" in t.paths && t.paths["f"] == Ino(3) && t.inodes[Ino(3)].fullPath == "f"
  {
    assert StrayExample(handles, taker).inodes[Ino(1)].childIndex["f"] == Ino(3);
  }

  lemma StrayExampleDropped(handles: nat, taker: InodeKind)
    ensures var t := StrayExample(handles, taker);
            && Ino(2) in t.inodes && AfterDeletion(t, Ino(2)) == AfterDeletions(t, {Ino(2)})
            && (handles > 0 ==> Ino(3) in Hits(t, {Ino(2)}))
            && (handles == 0 ==> "f" in OldPaths(t, Closed(t, {Ino(2)})))
  {
    var t := StrayExample(handles, taker);
    StrayExampleWf(handles, taker);
    StrayExampleFacts(handles, taker);
    WfIsLoose(t);
    NoDeletions(t);
    assert {} + {Ino(2)} == {Ino(2)};
    hide StrayExample, Wf, Drop, AfterDeletion;
    DeletionStep(t, {}, Ino(2));
  }

  /** Whatever has taken the name loses its place, local writes or not, and whether or not anybody still has
      the unlinked file open. */
  lemma StrayNameTakesThePlace(handles: nat, taker: InodeKind)
    ensures var t := StrayExample(handles, taker);
            && Wf(t) && !Live(t, Ino(2)) && !NoStrayName(t, {Ino(2)})
            && Placed(t, Ino(3)) && t.inodes[Ino(3)].IsDirty() && t.inodes[Ino(3)].kind == taker
            && !Placed(AfterDeletion(t, Ino(2)), Ino(3)) && "f" !in AfterDeletion(t, Ino(2)).paths
  {
    var t := StrayExample(handles, taker);
    StrayExampleWf(handles, taker);
    StrayExampleFacts(handles, taker);
    StrayExampleDropped(handles, taker);
    DropPaths(t, Closed(t, {Ino(2)}), Hits(t, {Ino(2)}));
    hide StrayExample, Wf, Hits, Closed, OldPaths, Drop, AfterDeletion;
    LiveIsPlaced(t, Ino(3));
    PlaceKeptIff(t, {Ino(2)}, Ino(3));
  }

  /** With nobody holding the unlinked file, or with a directory in its place, the tree breaks too. */
  lemma StrayNameBreaksTheTree(handles: nat, taker: InodeKind)
    ensures Wf(AfterDeletion(StrayExample(handles, taker), Ino(2))) <==> handles > 0 && !taker.Directory?
  {
    var t := StrayExample(handles, taker);
    StrayExampleWf(handles, taker);
    StrayExampleFacts(handles, taker);
    hide StrayExample, Wf, AfterDeletion;
    DeletionKeepsWfIff(t, Ino(2));
  }
}
