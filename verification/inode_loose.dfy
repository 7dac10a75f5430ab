/** What dropping files never breaks, not even when an unlinked file shares its name with something else. */
module InodeLoose {
  import opened Options
  import opened Iteration
  import opened InodeModel
  import opened InodeLemmas
  import opened InodeSpecs

  /** An entry with a proper child list, and with a path that extends the path of its parent directory. */
  ghost predicate EdgeOk(t: Table, i: Ino)
    requires i in t.inodes
  {
    var e := t.inodes[i];
    && e.inode == i && ChildListOk(e)
    && (!e.kind.Directory? ==> e.children == [] && e.nlink <= 1)
    && (i != ROOT_INODE && e.nlink > 0 ==>
          && e.parent in t.inodes && t.inodes[e.parent].kind.Directory?
          && ValidName(e.name) && e.fullPath == ChildPath(t.inodes[e.parent].fullPath, e.name))
  }

  ghost predicate MappedOk(t: Table) {
    && (forall p :: p in t.paths ==> Live(t, t.paths[p]) && t.inodes[t.paths[p]].fullPath == p)
    && (forall i :: Live(t, i) && t.inodes[i].fullPath in t.paths ==> t.paths[t.inodes[i].fullPath] == i)
  }

  /** A tree in which some live inodes may have lost their listing, their path or a link. */
  ghost predicate Loose(t: Table) {
    && RootOk(t) && Live(t, ROOT_INODE) && MappedOk(t)
    && (forall i {:trigger EdgeOk(t, i)} :: i in t.inodes ==> EdgeOk(t, i))
    && (forall i {:trigger DownOk(t, i)} :: i in t.inodes ==> DownOk(t, i))
  }

  lemma WfIsLoose(t: Table)
    requires Wf(t)
    ensures Loose(t)
  {
    assert LinkOk(t, ROOT_INODE);
    forall i | i in t.inodes ensures EdgeOk(t, i) && DownOk(t, i) {
      assert LinkOk(t, i) && UpOk(t, i);
    }
  }

  /** Where a live inode belongs: under its name in its directory, and behind its path. */
  ghost predicate Placed(t: Table, i: Ino) {
    && Live(t, i)
    && t.inodes[i].fullPath in t.paths && t.paths[t.inodes[i].fullPath] == i
    && (i != ROOT_INODE ==>
          && t.inodes[i].parent in t.inodes && t.inodes[i].name in t.inodes[t.inodes[i].parent].childIndex
          && t.inodes[t.inodes[i].parent].childIndex[t.inodes[i].name] == i)
  }

  lemma LiveIsPlaced(t: Table, i: Ino)
    requires Wf(t) && Live(t, i)
    ensures Placed(t, i)
  {
    assert UpOk(t, i);
  }

  /** A directory lists only inodes that name it as their parent. */
  lemma ListedHasParent(t: Table, d: Ino, i: Ino)
    requires Loose(t) && d in t.inodes && i in t.inodes && t.inodes[i].parent != d
    ensures forall c :: c in t.inodes[d].children ==> c.ino != i
    ensures forall n :: n in t.inodes[d].childIndex ==> t.inodes[d].childIndex[n] != i
  {
    assert EdgeOk(t, d) && DownOk(t, d);
    ListedIffIndexed(t.inodes[d], i);
  }

  lemma LooseParentIsOther(t: Table, i: Ino)
    requires Loose(t) && Live(t, i) && i != ROOT_INODE
    ensures t.inodes[i].parent in t.inodes && t.inodes[i].parent != i
    ensures |t.inodes[t.inodes[i].parent].fullPath| < |t.inodes[i].fullPath|
  {
    assert EdgeOk(t, i);
  }

  /** Nothing hangs below a file. */
  lemma LooseFileAlone(t: Table, x: Ino)
    requires Loose(t) && x in t.inodes && !t.inodes[x].kind.Directory?
    ensures Subtree(t, x) == {x}
  {
    forall i | InSubtree(t, x, i) ensures i == x {
      LooseUnderFile(t, x, i);
    }
    assert InSubtree(t, x, x);
  }

  lemma {:induction false} LooseUnderFile(t: Table, x: Ino, i: Ino)
    requires Loose(t) && x in t.inodes && !t.inodes[x].kind.Directory? && InSubtree(t, x, i)
    ensures i == x
    decreases |t.inodes[i].fullPath|
  {
    if i != x {
      assert EdgeOk(t, i);
      LooseParentIsOther(t, i);
      LooseUnderFile(t, x, t.inodes[i].parent);
    }
  }

  /** Without directories among the removed, no other entry loses a link. */
  lemma OthersKeepTheirLinks(t: Table, gone: set<Ino>, orphaned: set<Ino>, x: Ino, i: Ino)
    requires x in t.inodes && i in t.inodes && i != x && gone + orphaned == {x}
    requires gone == {} || !t.inodes[x].kind.Directory?
    ensures DetachEntry(t, gone, orphaned, i)
         == t.inodes[i].(children := FilterOut(t.inodes[i].children, {x}),
                         childIndex := DropIndex(t.inodes[i].childIndex, {x}))
  {
    hide FilterOut, DropIndex;
    SameSet(SubDirs(t.inodes, i) * gone, {});
    assert i !in orphaned by { assert i !in gone + orphaned; }
  }

  /** Only its parent lists an inode. */
  lemma LeafEntry(t: Table, gone: set<Ino>, orphaned: set<Ino>, x: Ino, i: Ino)
    requires Loose(t) && x in t.inodes && i in t.inodes && i != x && gone + orphaned == {x}
    requires gone == {} || !t.inodes[x].kind.Directory?
    ensures DetachEntry(t, gone, orphaned, i)
         == if i == t.inodes[x].parent then t.inodes[i].RemoveChildByIno(x) else t.inodes[i]
  {
    assert EdgeOk(t, i);
    hide Loose, DetachEntry, FilterOut;
    OthersKeepTheirLinks(t, gone, orphaned, x, i);
    RemoveChildIsFilter(t.inodes[i], x);
    if i != t.inodes[x].parent {
      ListedHasParent(t, i, x);
      FilterOutNone(t.inodes[i].children, {x});
      SameMap(DropIndex(t.inodes[i].childIndex, {x}), t.inodes[i].childIndex);
    }
  }
}
