/** What each table operation does to the table, and when it leaves a tree behind. */
module InodeSpecs {
  import opened Options
  import opened Iteration
  import opened InodeModel
  import opened InodeLemmas
  import opened InodeWorklist

  // ----- remove -------------------------------------------------------------

  /** The subtree goes, and with it the path of its top, whoever that path is mapped to. */
  ghost function RemoveSpec(t: Table, ino: Ino): Table {
    if ino !in t.inodes then t
    else
      var d := Detach(t, Subtree(t, ino), {});
      d.(paths := d.paths - {t.inodes[ino].fullPath})
  }

  lemma SubtreeIsDetachable(t: Table, r: Ino)
    requires Wf(t) && r in t.inodes && r != ROOT_INODE
    ensures Detachable(t, Subtree(t, r), {})
  {
    forall i | Live(t, i) && i != ROOT_INODE && t.inodes[i].parent in Subtree(t, r) ensures i in Subtree(t, r) {
      ParentIsShorter(t, i);
    }
  }

  lemma PathUnownedGoes(t: Table, r: Ino)
    requires Wf(t) && Live(t, r)
    ensures RemoveSpec(t, r) == Detach(t, Subtree(t, r), {})
  {
    var d := Detach(t, Subtree(t, r), {});
    assert InSubtree(t, r, r);
    assert t.inodes[r].fullPath !in d.paths;
  }

  lemma RemoveKeepsWf(t: Table, ino: Ino)
    requires Wf(t) && ino in t.inodes && ino != ROOT_INODE
    requires Live(t, ino) || t.inodes[ino].fullPath !in t.paths
    ensures RemoveSpec(t, ino) == Detach(t, Subtree(t, ino), {})
    ensures Wf(RemoveSpec(t, ino))
  {
    SubtreeIsDetachable(t, ino);
    DetachKeepsWf(t, Subtree(t, ino), {});
    if Live(t, ino) {
      PathUnownedGoes(t, ino);
    } else {
      var d := Detach(t, Subtree(t, ino), {});
      SameMap(d.paths - {t.inodes[ino].fullPath}, d.paths);
    }
  }

  lemma RemoveRootBreaks(t: Table)
    requires ROOT_INODE in t.inodes
    ensures !RootOk(RemoveSpec(t, ROOT_INODE))
  {
    assert InSubtree(t, ROOT_INODE, ROOT_INODE);
  }

  /** Removing keeps the tree unless it takes the root, or the path that an unlinked inode shares
      with a file created later under the same path. */
  lemma RemoveKeepsWfIff(t: Table, ino: Ino)
    requires Wf(t)
    ensures Wf(RemoveSpec(t, ino))
       <==> ino !in t.inodes
            || (ino != ROOT_INODE && (Live(t, ino) || t.inodes[ino].fullPath !in t.paths))
  {
    if ino !in t.inodes {
    } else if ino == ROOT_INODE {
      RemoveRootBreaks(t);
    } else if Live(t, ino) || t.inodes[ino].fullPath !in t.paths {
      RemoveKeepsWf(t, ino);
    } else {
      RemoveLosesPath(t, ino);
    }
  }

  lemma RemoveLosesPath(t: Table, ino: Ino)
    requires Wf(t) && ino in t.inodes && ino != ROOT_INODE && !Live(t, ino) && t.inodes[ino].fullPath in t.paths
    ensures !Wf(RemoveSpec(t, ino))
  {
    var other := t.paths[t.inodes[ino].fullPath];
    assert Live(t, other) && other != ino;
    OrphanSubtree(t, ino);
    DetachKeepsLive(t, Subtree(t, ino), {}, other);
    assert Live(RemoveSpec(t, ino), other);
  }

  /** Nothing hangs below an unlinked inode. */
  lemma OrphanSubtree(t: Table, ino: Ino)
    requires Wf(t) && ino in t.inodes && !Live(t, ino)
    ensures Subtree(t, ino) == {ino}
  {
    forall i | InSubtree(t, ino, i) ensures i == ino {
      UnderOrphan(t, ino, i);
    }
  }

  lemma {:induction false} UnderOrphan(t: Table, ino: Ino, i: Ino)
    requires Wf(t) && ino in t.inodes && !Live(t, ino) && InSubtree(t, ino, i)
    ensures i == ino
    decreases |t.inodes[i].fullPath|
  {
    if i != ino {
      ParentIsShorter(t, i);
      UnderOrphan(t, ino, t.inodes[i].parent);
    }
  }

  /** The bookkeeping on the parent when one of its children is detached. */
  function DetachChild(e: Entry, child: Ino, childIsDir: bool): Entry {
    var f := e.RemoveChildByIno(child);
    if childIsDir then f.(nlink := SaturatingSub(f.nlink, 1)) else f
  }

  lemma DetachEntryIs(t: Table, gone: set<Ino>, i: Ino, lost: set<Ino>, only: set<Ino>)
    requires i in t.inodes
    requires forall c :: c in t.inodes[i].children ==> (c.ino in gone <==> c.ino in only)
    requires forall n :: n in t.inodes[i].childIndex ==>
      (t.inodes[i].childIndex[n] in gone <==> t.inodes[i].childIndex[n] in only)
    requires SubDirs(t.inodes, i) * gone == lost && |lost| <= t.inodes[i].nlink
    ensures var e := t.inodes[i];
            DetachEntry(t, gone, {}, i) == e.(children := FilterOut(e.children, only),
                                              childIndex := DropIndex(e.childIndex, only),
                                              nlink := e.nlink - |lost|)
  {
    assert gone + {} == gone;
    FilterSame(t.inodes[i].children, gone, only);
    assert DropIndex(t.inodes[i].childIndex, gone) == DropIndex(t.inodes[i].childIndex, only);
  }

  lemma DetachParentEntry(t: Table, ino: Ino, i: Ino)
    requires Wf(t) && ino in t.inodes && i in t.inodes && !InSubtree(t, ino, i) && i == t.inodes[ino].parent
    ensures DetachEntry(t, Subtree(t, ino), {}, i) == DetachChild(t.inodes[i], ino, t.inodes[ino].kind.Directory?)
  {
    assert LinkOk(t, i) && LinkOk(t, ino);
    ChildOutside(t, ino, i);
    var lost: set<Ino> := if t.inodes[ino].kind.Directory? then {ino} else {};
    SubDirOutside(t, ino, i);
    DetachEntryIs(t, Subtree(t, ino), i, lost, {ino});
    RemoveChildIsFilter(t.inodes[i], ino);
  }

  lemma SubDirOutside(t: Table, ino: Ino, i: Ino)
    requires Wf(t) && ino in t.inodes && i in t.inodes && !InSubtree(t, ino, i)
    ensures SubDirs(t.inodes, i) * Subtree(t, ino)
         == if t.inodes[ino].kind.Directory? && i == t.inodes[ino].parent then {ino} else {}
    ensures t.inodes[ino].kind.Directory? && i == t.inodes[ino].parent ==> t.inodes[i].nlink > 0
  {
    ChildOutside(t, ino, i);
    assert LinkOk(t, ino) && UpOk(t, ino) && RootOk(t) && LinkOk(t, i);
    assert InSubtree(t, ino, ino);
  }

  /** Outside the removed subtree only the parent of its top changes. */
  lemma DetachOutside(t: Table, ino: Ino, i: Ino)
    requires Wf(t) && ino in t.inodes && i in t.inodes && !InSubtree(t, ino, i)
    ensures DetachEntry(t, Subtree(t, ino), {}, i)
         == if i == t.inodes[ino].parent then DetachChild(t.inodes[i], ino, t.inodes[ino].kind.Directory?)
            else t.inodes[i]
  {
    if i == t.inodes[ino].parent {
      DetachParentEntry(t, ino, i);
    } else {
      ChildOutside(t, ino, i);
      SubDirOutside(t, ino, i);
      DetachEntryIs(t, Subtree(t, ino), i, {}, {});
      FilterOutNone(t.inodes[i].children, {});
      assert DropIndex(t.inodes[i].childIndex, {}) == t.inodes[i].childIndex;
    }
  }

  lemma ChildOutside(t: Table, ino: Ino, d: Ino)
    requires Wf(t) && ino in t.inodes && d in t.inodes && !InSubtree(t, ino, d)
    ensures forall c :: c in t.inodes[d].children ==> (InSubtree(t, ino, c.ino) <==> c.ino == ino)
    ensures forall n :: n in t.inodes[d].childIndex ==>
      (InSubtree(t, ino, t.inodes[d].childIndex[n]) <==> t.inodes[d].childIndex[n] == ino)
    ensures forall c :: c in SubDirs(t.inodes, d) ==> (InSubtree(t, ino, c) <==> c == ino)
    ensures (exists c :: c in t.inodes[d].children && c.ino == ino) ==> t.inodes[ino].parent == d
    ensures (exists n :: n in t.inodes[d].childIndex && t.inodes[d].childIndex[n] == ino) ==> t.inodes[ino].parent == d
  {
    assert DownOk(t, d);
    ChildIff(t, d, ino);
    forall c | c in t.inodes[d].children ensures InSubtree(t, ino, c.ino) <==> c.ino == ino {
      ChildIff(t, d, c.ino);
    }
    forall c | c in SubDirs(t.inodes, d) ensures InSubtree(t, ino, c) <==> c == ino {
      assert LinkOk(t, c);
    }
  }

  lemma {:induction false} FilterSame(children: seq<DirChild>, a: set<Ino>, b: set<Ino>)
    requires forall c :: c in children ==> (c.ino in a <==> c.ino in b)
    ensures FilterOut(children, a) == FilterOut(children, b)
  {
    if children != [] {
      assert children[0] in children;
      FilterSame(children[1..], a, b);
    }
  }

  // ----- unlink_one --------------------------------------------------------------

  /** `c` is no longer listed and loses one link. */
  ghost function UnlinkSpec(t: Table, c: Ino): Table
    requires c in t.inodes
  {
    var d := Detach(t, {}, {c});
    d.(inodes := d.inodes[c := d.inodes[c].(nlink := SaturatingSub(t.inodes[c].nlink, 1))])
  }

  lemma UnlinkOnlyLink(t: Table, c: Ino)
    requires c in t.inodes && t.inodes[c].nlink == 1
    ensures UnlinkSpec(t, c) == Detach(t, {}, {c})
  {
    var d := Detach(t, {}, {c});
    assert d.inodes[c].(nlink := 0) == d.inodes[c];
    assert d.inodes[c := d.inodes[c]] == d.inodes;
  }

  lemma UnlinkFile(t: Table, c: Ino)
    requires Wf(t) && Live(t, c) && !t.inodes[c].kind.Directory?
    ensures UnlinkSpec(t, c) == Detach(t, {}, {c})
    ensures Wf(UnlinkSpec(t, c)) && !Live(UnlinkSpec(t, c), c)
  {
    assert LinkOk(t, c);
    UnlinkOnlyLink(t, c);
    FilesAreDetachable(t, {}, {c});
    DetachKeepsWf(t, {}, {c});
    DetachKeepsLive(t, {}, {c}, c);
  }

  lemma UnlinkDirBreaks(t: Table, c: Ino)
    requires c in t.inodes && LinkOk(t, c) && t.inodes[c].kind.Directory?
    ensures !LinkOk(UnlinkSpec(t, c), c)
  {
    DetachSubDirs(t, {}, {c}, c);
    SubDirsIgnoreLinks(Detach(t, {}, {c}).inodes, c, UnlinkSpec(t, c).inodes[c].nlink, c);
    assert SubDirs(t.inodes, c) - {} == SubDirs(t.inodes, c);
  }

  lemma SubDirsIgnoreLinks(inodes: map<Ino, Entry>, c: Ino, n: nat, d: Ino)
    requires c in inodes
    ensures SubDirs(inodes[c := inodes[c].(nlink := n)], d) == SubDirs(inodes, d)
  {
  }

  /** Unlinking is for files and symbolic links only: a directory would be left with a wrong link count. */
  lemma UnlinkKeepsWfIff(t: Table, c: Ino)
    requires Wf(t) && Live(t, c)
    ensures Wf(UnlinkSpec(t, c)) <==> !t.inodes[c].kind.Directory?
  {
    if t.inodes[c].kind.Directory? {
      assert LinkOk(t, c);
      UnlinkDirBreaks(t, c);
    } else {
      UnlinkFile(t, c);
    }
  }

  // ----- eviction -------------------------------------------------------------------

  /** The evicted files are gone and the listings of `dirs` must be fetched again. */
  ghost function EvictSpec(t: Table, evicted: set<Ino>, dirs: set<Ino>): Table {
    Unload(Detach(t, evicted, {}), dirs)
  }

  lemma FilesAreDetachable(t: Table, files: set<Ino>, orphaned: set<Ino>)
    requires Wf(t)
    requires forall i :: i in files + orphaned ==> i in t.inodes && !t.inodes[i].kind.Directory?
    ensures Detachable(t, files, orphaned)
  {
    assert RootOk(t);
    forall i | Live(t, i) && i != ROOT_INODE ensures t.inodes[i].parent !in files {
      assert UpOk(t, i);
    }
  }

  lemma UnloadKeepsWf(t: Table, dirs: set<Ino>)
    requires Wf(t)
    ensures Wf(Unload(t, dirs))
  {
    SameTreeKeepsWf(t, Unload(t, dirs));
  }

  lemma EvictKeepsWf(t: Table, evicted: set<Ino>, dirs: set<Ino>)
    requires Wf(t)
    requires forall i :: i in evicted ==> i in t.inodes && !t.inodes[i].kind.Directory?
    ensures Wf(EvictSpec(t, evicted, dirs))
  {
    FilesAreDetachable(t, evicted, {});
    DetachKeepsWf(t, evicted, {});
    UnloadKeepsWf(Detach(t, evicted, {}), dirs);
  }

  // ----- remove_orphan -----------------------------------------------------------------

  lemma OrphanKeepsWf(t: Table, ino: Ino)
    requires Wf(t) && ino in t.inodes && t.inodes[ino].nlink == 0
    ensures Wf(Detach(t, {ino}, {}))
  {
    assert LinkOk(t, ino);
    FilesAreDetachable(t, {ino}, {});
    DetachKeepsWf(t, {ino}, {});
  }
}
