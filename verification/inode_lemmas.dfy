/** Why pruning, unloading and attaching keep the three indexes one tree. */
module InodeLemmas {
  import opened Options
  import opened InodeModel

  // ----- Child lists --------------------------------------------------------

  ghost predicate DistinctInos(children: seq<DirChild>) {
    forall j, k :: 0 <= j < k < |children| ==> children[j].ino != children[k].ino
  }

  lemma {:induction false} FilterOutFacts(children: seq<DirChild>, gone: set<Ino>)
    ensures forall c :: c in FilterOut(children, gone) <==> c in children && c.ino !in gone
    ensures DistinctInos(children) ==> DistinctInos(FilterOut(children, gone))
  {
    if children != [] {
      var rest := children[1..];
      FilterOutFacts(rest, gone);
      assert forall c :: c in children <==> c == children[0] || c in rest;
      if DistinctInos(children) {
        assert forall k :: 0 <= k < |rest| ==> rest[k] == children[k + 1];
        assert forall c :: c in rest ==> c.ino != children[0].ino;
      }
    }
  }

  lemma {:induction false} FilterOutNone(children: seq<DirChild>, gone: set<Ino>)
    requires forall c :: c in children ==> c.ino !in gone
    ensures FilterOut(children, gone) == children
  {
    if children != [] {
      assert children[0] in children;
      FilterOutNone(children[1..], gone);
    }
  }

  lemma {:induction false} FilterOutOne(children: seq<DirChild>, pos: nat)
    requires pos < |children| && DistinctInos(children)
    ensures FilterOut(children, {children[pos].ino}) == children[..pos] + children[pos + 1..]
  {
    if pos == 0 {
      forall c | c in children[1..] ensures c.ino != children[0].ino {
        var k :| 0 <= k < |children[1..]| && children[1..][k] == c;
        assert children[k + 1] == c;
      }
      FilterOutNone(children[1..], {children[0].ino});
    } else {
      FilterOutOne(children[1..], pos - 1);
      assert children[0].ino != children[pos].ino;
      assert children[..pos] + children[pos + 1..] == [children[0]] + (children[1..][..pos - 1] + children[1..][pos..]);
    }
  }

  lemma FilterKeepsChildList(e: Entry, gone: set<Ino>)
    requires ChildListOk(e)
    ensures ChildListOk(e.(children := FilterOut(e.children, gone), childIndex := DropIndex(e.childIndex, gone)))
  {
    FilterOutFacts(e.children, gone);
    var f := FilterOut(e.children, gone);
    forall k | 0 <= k < |f|
      ensures f[k].name in DropIndex(e.childIndex, gone) && e.childIndex[f[k].name] == f[k].ino
    {
      assert f[k] in e.children;
    }
  }

  lemma UnlistedIsUnindexed(e: Entry, ino: Ino)
    requires ChildListOk(e) && forall k :: 0 <= k < |e.children| ==> e.children[k].ino != ino
    ensures DropIndex(e.childIndex, {ino}) == e.childIndex
  {
    forall n | n in e.childIndex ensures e.childIndex[n] != ino {
      assert DirChild(e.childIndex[n], n) in e.children;
    }
  }

  lemma DropListed(e: Entry, pos: nat)
    requires ChildListOk(e) && pos < |e.children|
    ensures DropIndex(e.childIndex, {e.children[pos].ino}) == e.childIndex - {e.children[pos].name}
  {
    IndexNameUnique(e, pos);
  }

  lemma RemoveChildIsFilter(e: Entry, ino: Ino)
    requires ChildListOk(e)
    ensures e.RemoveChildByIno(ino)
         == e.(children := FilterOut(e.children, {ino}), childIndex := DropIndex(e.childIndex, {ino}))
  {
    hide FilterOut, DropIndex;
    match Position(e.children, ino)
    case None =>
      FilterOutNone(e.children, {ino});
      UnlistedIsUnindexed(e, ino);
    case Some(pos) =>
      FilterOutOne(e.children, pos);
      DropListed(e, pos);
  }

  /** Only one name indexes the child at `pos`. */
  lemma IndexNameUnique(e: Entry, pos: nat)
    requires ChildListOk(e) && pos < |e.children|
    ensures forall n :: n in e.childIndex && e.childIndex[n] == e.children[pos].ino ==> n == e.children[pos].name
  {
    forall n | n in e.childIndex && e.childIndex[n] == e.children[pos].ino ensures n == e.children[pos].name {
      assert DirChild(e.childIndex[n], n) in e.children;
      var k :| 0 <= k < |e.children| && e.children[k] == DirChild(e.childIndex[n], n);
      assert k == pos;
    }
  }

  lemma RemoveChildByNameIsFilter(e: Entry, name: string)
    requires ChildListOk(e) && name in e.childIndex
    ensures e.RemoveChildByName(name) == e.RemoveChildByIno(e.childIndex[name])
  {
    assert DirChild(e.childIndex[name], name) in e.children;
    var pos := Position(e.children, e.childIndex[name]).value;
    IndexNameUnique(e, pos);
  }

  lemma AddKeepsChildList(e: Entry, ino: Ino, name: string)
    requires ChildListOk(e) && name !in e.childIndex
    requires forall c :: c in e.children ==> c.ino != ino
    ensures ChildListOk(e.AddChild(ino, name))
  {
    var e' := e.AddChild(ino, name);
    forall n | n in e'.childIndex ensures DirChild(e'.childIndex[n], n) in e'.children {
      if n == name {
        assert e'.children[|e.children|] == DirChild(ino, name);
      } else {
        assert DirChild(e.childIndex[n], n) in e.children;
      }
    }
    forall k | 0 <= k < |e.children| ensures e.children[k].name != name {
      assert e.children[k].name in e.childIndex;
    }
  }

  /** A child list and its index mention the same inodes. */
  lemma ListedIffIndexed(e: Entry, ino: Ino)
    requires ChildListOk(e)
    ensures (exists c :: c in e.children && c.ino == ino) <==> (exists n :: n in e.childIndex && e.childIndex[n] == ino)
  {
    if c :| c in e.children && c.ino == ino {
      var k :| 0 <= k < |e.children| && e.children[k] == c;
      assert c.name in e.childIndex && e.childIndex[c.name] == ino;
    }
    if n :| n in e.childIndex && e.childIndex[n] == ino {
      assert DirChild(e.childIndex[n], n) in e.children;
    }
  }

  // ----- Basic consequences of well-formedness --------------------------------

  /** Parents have strictly shorter paths, so parent links have no cycle. */
  lemma ParentIsShorter(t: Table, i: Ino)
    requires Wf(t) && Live(t, i) && i != ROOT_INODE
    ensures Live(t, t.inodes[i].parent)
    ensures t.inodes[i].parent != i
    ensures |t.inodes[t.inodes[i].parent].fullPath| < |t.inodes[i].fullPath|
  {
    assert UpOk(t, i) && LinkOk(t, t.inodes[i].parent);
  }

  /** A child entry names a live inode whose parent is this directory, and conversely. */
  lemma ChildIff(t: Table, d: Ino, i: Ino)
    requires Wf(t) && d in t.inodes
    ensures (exists c :: c in t.inodes[d].children && c.ino == i)
       <==> (Live(t, i) && i != ROOT_INODE && t.inodes[i].parent == d)
  {
    assert LinkOk(t, d) && DownOk(t, d);
    ListedIffIndexed(t.inodes[d], i);
    if Live(t, i) && i != ROOT_INODE && t.inodes[i].parent == d {
      assert UpOk(t, i);
    }
  }

  // ----- Detach ----------------------------------------------------------------

  /** `gone` may be removed and `orphaned` unlinked without breaking the tree. */
  ghost predicate Detachable(t: Table, gone: set<Ino>, orphaned: set<Ino>) {
    && ROOT_INODE !in gone + orphaned
    && (forall i :: Live(t, i) && i != ROOT_INODE && t.inodes[i].parent in gone ==> i in gone)
    && (forall i :: i in orphaned ==> i in t.inodes && !t.inodes[i].kind.Directory?)
  }

  lemma DetachSubDirs(t: Table, gone: set<Ino>, orphaned: set<Ino>, d: Ino)
    ensures SubDirs(Detach(t, gone, orphaned).inodes, d) == SubDirs(t.inodes, d) - gone
    ensures |SubDirs(t.inodes, d) - gone| == |SubDirs(t.inodes, d)| - |SubDirs(t.inodes, d) * gone|
  {
    var s := SubDirs(t.inodes, d);
    assert s == (s - gone) + (s * gone);
  }

  /** Only directories have subdirectories. */
  lemma SubDirsOfNonDir(t: Table, i: Ino)
    requires Wf(t) && i in t.inodes && !t.inodes[i].kind.Directory?
    ensures SubDirs(t.inodes, i) == {}
  {
    forall j | j in t.inodes && j != ROOT_INODE && t.inodes[j].kind.Directory?
      ensures t.inodes[j].parent != i
    {
      assert UpOk(t, j) && LinkOk(t, j);
    }
  }

  lemma DetachKeepsLinks(t: Table, gone: set<Ino>, orphaned: set<Ino>, i: Ino)
    requires Wf(t) && Detachable(t, gone, orphaned) && i in t.inodes && i !in gone
    ensures LinkOk(Detach(t, gone, orphaned), i)
  {
    assert LinkOk(t, i);
    var e := t.inodes[i];
    DetachSubDirs(t, gone, orphaned, i);
    FilterKeepsChildList(e, gone + orphaned);
    FilterOutFacts(e.children, gone + orphaned);
    if !e.kind.Directory? {
      assert FilterOut(e.children, gone + orphaned) == [];
    }
  }

  lemma DetachKeepsDown(t: Table, gone: set<Ino>, orphaned: set<Ino>, i: Ino)
    requires Wf(t) && Detachable(t, gone, orphaned) && i in t.inodes && i !in gone
    ensures DownOk(Detach(t, gone, orphaned), i)
  {
    assert DownOk(t, i);
    var t' := Detach(t, gone, orphaned);
    forall n | n in t'.inodes[i].childIndex
      ensures t'.inodes[i].childIndex[n] in t'.inodes && t'.inodes[t'.inodes[i].childIndex[n]].nlink > 0
    {
      var c := t'.inodes[i].childIndex[n];
      DetachKeepsLive(t, gone, orphaned, c);
    }
  }

  lemma DetachedEntryLive(t: Table, gone: set<Ino>, orphaned: set<Ino>, i: Ino)
    requires i in t.inodes && LinkOk(t, i)
    requires !t.inodes[i].kind.Directory? ==> SubDirs(t.inodes, i) == {}
    ensures DetachEntry(t, gone, orphaned, i).nlink > 0 <==> t.inodes[i].nlink > 0 && i !in orphaned
  {
    var s := SubDirs(t.inodes, i);
    assert s == (s - gone) + (s * gone);
  }

  lemma DetachKeepsLive(t: Table, gone: set<Ino>, orphaned: set<Ino>, i: Ino)
    requires Wf(t) && i in t.inodes && i !in gone
    ensures Live(Detach(t, gone, orphaned), i) <==> Live(t, i) && i !in orphaned
  {
    assert LinkOk(t, i);
    if !t.inodes[i].kind.Directory? {
      SubDirsOfNonDir(t, i);
    }
    DetachedEntryLive(t, gone, orphaned, i);
  }

  lemma DetachKeepsUp(t: Table, gone: set<Ino>, orphaned: set<Ino>, i: Ino)
    requires Wf(t) && Detachable(t, gone, orphaned) && i in t.inodes && i !in gone
    ensures UpOk(Detach(t, gone, orphaned), i)
  {
    DetachKeepsLive(t, gone, orphaned, i);
    assert UpOk(t, i);
  }

  lemma DetachKeepsPaths(t: Table, gone: set<Ino>, orphaned: set<Ino>)
    requires Wf(t)
    ensures PathsOk(Detach(t, gone, orphaned))
  {
    var t' := Detach(t, gone, orphaned);
    forall i | i in t'.inodes ensures Live(t', i) <==> Live(t, i) && i !in orphaned {
      DetachKeepsLive(t, gone, orphaned, i);
    }
    DetachPathsFrom(t, gone, orphaned);
  }

  lemma DetachPathsFrom(t: Table, gone: set<Ino>, orphaned: set<Ino>)
    requires PathsOk(t)
    requires forall i :: i in t.inodes && i !in gone ==>
      (Live(Detach(t, gone, orphaned), i) <==> Live(t, i) && i !in orphaned)
    ensures PathsOk(Detach(t, gone, orphaned))
  {
    var t' := Detach(t, gone, orphaned);
    forall p | p in t'.paths ensures Live(t', t'.paths[p]) && t'.inodes[t'.paths[p]].fullPath == p {
      assert Live(t, t.paths[p]);
    }
  }

  lemma DetachKeepsWf(t: Table, gone: set<Ino>, orphaned: set<Ino>)
    requires Wf(t) && Detachable(t, gone, orphaned)
    ensures Wf(Detach(t, gone, orphaned))
  {
    var t' := Detach(t, gone, orphaned);
    DetachKeepsPaths(t, gone, orphaned);
    forall i | i in t'.inodes ensures LinkOk(t', i) && DownOk(t', i) && UpOk(t', i) {
      DetachKeepsLinks(t, gone, orphaned, i);
      DetachKeepsDown(t, gone, orphaned, i);
      DetachKeepsUp(t, gone, orphaned, i);
    }
  }

  /** Fields that the indexes do not depend on may change freely. */
  ghost predicate SameShape(e: Entry, e': Entry) {
    && e'.inode == e.inode && e'.parent == e.parent && e'.name == e.name && e'.fullPath == e.fullPath
    && e'.kind == e.kind && e'.nlink == e.nlink && e'.children == e.children && e'.childIndex == e.childIndex
  }

  ghost predicate SameTree(t: Table, t': Table) {
    && t'.inodes.Keys == t.inodes.Keys && t'.paths == t.paths && t'.nextInode == t.nextInode
    && (forall i :: i in t.inodes ==> SameShape(t.inodes[i], t'.inodes[i]))
  }

  lemma SameTreeLinks(t: Table, t': Table, i: Ino)
    requires SameTree(t, t') && i in t.inodes && LinkOk(t, i)
    ensures LinkOk(t', i)
  {
    assert SubDirs(t'.inodes, i) == SubDirs(t.inodes, i);
    assert ChildListOk(t.inodes[i]);
  }

  lemma SameTreeEdges(t: Table, t': Table, i: Ino)
    requires SameTree(t, t') && i in t.inodes && DownOk(t, i) && UpOk(t, i)
    ensures DownOk(t', i) && UpOk(t', i)
  {
  }

  lemma SameTreePaths(t: Table, t': Table)
    requires SameTree(t, t') && PathsOk(t)
    ensures PathsOk(t')
  {
    assert forall i :: Live(t, i) <==> Live(t', i);
  }

  lemma SameTreeKeepsWf(t: Table, t': Table)
    requires Wf(t) && SameTree(t, t')
    ensures Wf(t')
  {
    SameTreePaths(t, t');
    forall i | i in t.inodes ensures LinkOk(t', i) && DownOk(t', i) && UpOk(t', i) {
      SameTreeLinks(t, t', i);
      SameTreeEdges(t, t', i);
    }
  }

  // ----- Insert ------------------------------------------------------------------

  ghost predicate InsertOk(t: Table, parent: Ino, name: string, path: string) {
    && parent in t.inodes
    && t.inodes[parent].kind.Directory?
    && ValidName(name)
    && path == ChildPath(t.inodes[parent].fullPath, name)
  }

  /** The table with the new entry `e`, listed under its parent when that exists. */
  ghost function Inserted(t: Table, e: Entry): Table {
    var added := t.inodes[e.inode := e];
    Table(
      if e.parent !in added then added
      else
        var p := added[e.parent].AddChild(e.inode, e.name);
        added[e.parent := if e.kind.Directory? then p.(nlink := p.nlink + 1) else p],
      t.paths[e.fullPath := e.inode],
      e.inode.number + 1)
  }

  ghost predicate FreshEntry(t: Table, e: Entry) {
    && e.inode == Ino(t.nextInode)
    && e.nlink == (if e.kind.Directory? then 2 else 1)
    && e.children == [] && e.childIndex == map[]
    && e.fullPath !in t.paths
  }

  lemma NameIsFree(t: Table, parent: Ino, name: string, path: string)
    requires Wf(t) && InsertOk(t, parent, name, path) && path !in t.paths
    ensures name !in t.inodes[parent].childIndex
  {
    assert DownOk(t, parent);
    forall n | n in t.inodes[parent].childIndex ensures ChildPath(t.inodes[parent].fullPath, n) in t.paths {
      assert UpOk(t, t.inodes[parent].childIndex[n]);
    }
  }

  lemma ListedIsOld(t: Table, d: Ino)
    requires Wf(t) && d in t.inodes
    ensures forall c :: c in t.inodes[d].children ==> c.ino in t.inodes && c.ino.number < t.nextInode
  {
    forall c | c in t.inodes[d].children ensures c.ino in t.inodes && c.ino.number < t.nextInode {
      ChildIff(t, d, c.ino);
      assert LinkOk(t, c.ino);
    }
  }

  lemma NextInodeIsNew(t: Table)
    requires Wf(t)
    ensures Ino(t.nextInode) !in t.inodes && Ino(t.nextInode) != ROOT_INODE
    ensures SubDirs(t.inodes, Ino(t.nextInode)) == {}
  {
    assert LinkOk(t, ROOT_INODE);
    forall i | i in t.inodes ensures i != Ino(t.nextInode) {
      assert LinkOk(t, i);
    }
    forall j | j in t.inodes && j != ROOT_INODE && t.inodes[j].kind.Directory?
      ensures t.inodes[j].parent != Ino(t.nextInode) {
      assert LinkOk(t, j) && UpOk(t, j) && LinkOk(t, t.inodes[j].parent);
    }
  }

  lemma InsertedSubDirs(t: Table, e: Entry, d: Ino)
    requires e.inode !in t.inodes && e.inode != ROOT_INODE && e.parent in t.inodes
    ensures SubDirs(Inserted(t, e).inodes, d)
         == SubDirs(t.inodes, d) + (if e.kind.Directory? && d == e.parent then {e.inode} else {})
    ensures e.inode !in SubDirs(t.inodes, d)
  {
  }

  lemma InsertedLinks(t: Table, e: Entry, i: Ino)
    requires FreshEntry(t, e) && e.inode !in t.inodes && e.inode != ROOT_INODE
    requires e.parent in t.inodes && t.inodes[e.parent].kind.Directory?
    requires e.name !in t.inodes[e.parent].childIndex
    requires forall c :: c in t.inodes[e.parent].children ==> c.ino.number < t.nextInode
    requires i in t.inodes && LinkOk(t, i)
    ensures LinkOk(Inserted(t, e), i)
  {
    InsertedSubDirs(t, e, i);
    if i == e.parent {
      AddKeepsChildList(t.inodes[e.parent], e.inode, e.name);
    }
  }

  lemma InsertedDown(t: Table, e: Entry, i: Ino)
    requires FreshEntry(t, e) && e.inode !in t.inodes && e.inode != ROOT_INODE && e.parent in t.inodes
    requires i in t.inodes && DownOk(t, i)
    ensures DownOk(Inserted(t, e), i)
  {
  }

  lemma InsertedUp(t: Table, e: Entry, i: Ino)
    requires FreshEntry(t, e) && e.inode !in t.inodes && e.inode != ROOT_INODE
    requires e.parent in t.inodes && e.name !in t.inodes[e.parent].childIndex && t.inodes[e.parent].nlink > 0
    requires i in t.inodes && UpOk(t, i)
    ensures UpOk(Inserted(t, e), i)
  {
  }

  lemma InsertedPaths(t: Table, e: Entry)
    requires FreshEntry(t, e) && e.inode !in t.inodes && e.parent in t.inodes && PathsOk(t)
    requires t.inodes[e.parent].nlink > 0
    ensures PathsOk(Inserted(t, e))
  {
    var t' := Inserted(t, e);
    assert forall i :: Live(t', i) <==> Live(t, i) || i == e.inode;
  }

  lemma InsertedNewEntry(t: Table, e: Entry)
    requires FreshEntry(t, e) && e.inode !in t.inodes && e.inode != ROOT_INODE
    requires InsertOk(t, e.parent, e.name, e.fullPath)
    requires SubDirs(t.inodes, e.inode) == {}
    ensures var t' := Inserted(t, e); LinkOk(t', e.inode) && DownOk(t', e.inode) && UpOk(t', e.inode)
  {
    InsertedSubDirs(t, e, e.inode);
  }

  lemma InsertedEntry(t: Table, e: Entry, i: Ino)
    requires Wf(t) && FreshEntry(t, e) && InsertOk(t, e.parent, e.name, e.fullPath)
    requires i in t.inodes || i == e.inode
    ensures var t' := Inserted(t, e); LinkOk(t', i) && DownOk(t', i) && UpOk(t', i)
  {
    NextInodeIsNew(t);
    if i == e.inode {
      InsertedNewEntry(t, e);
    } else {
      NameIsFree(t, e.parent, e.name, e.fullPath);
      ListedIsOld(t, e.parent);
      assert LinkOk(t, e.parent) && LinkOk(t, i) && DownOk(t, i) && UpOk(t, i);
      InsertedLinks(t, e, i);
      InsertedDown(t, e, i);
      InsertedUp(t, e, i);
    }
  }

  lemma InsertedRootAndPaths(t: Table, e: Entry)
    requires Wf(t) && FreshEntry(t, e) && InsertOk(t, e.parent, e.name, e.fullPath)
    ensures RootOk(Inserted(t, e)) && PathsOk(Inserted(t, e))
    ensures Inserted(t, e).inodes.Keys == t.inodes.Keys + {e.inode}
  {
    NextInodeIsNew(t);
    assert LinkOk(t, e.parent);
    InsertedPaths(t, e);
  }

  lemma InsertKeepsWf(t: Table, e: Entry)
    requires Wf(t) && FreshEntry(t, e) && InsertOk(t, e.parent, e.name, e.fullPath)
    ensures Wf(Inserted(t, e))
  {
    var t' := Inserted(t, e);
    InsertedRootAndPaths(t, e);
    forall i | i in t'.inodes ensures LinkOk(t', i) && DownOk(t', i) && UpOk(t', i) {
      InsertedEntry(t, e, i);
    }
  }

  lemma InsertedWfMeansOk(t: Table, e: Entry)
    requires Wf(t) && FreshEntry(t, e) && Wf(Inserted(t, e))
    ensures InsertOk(t, e.parent, e.name, e.fullPath)
  {
    NextInodeIsNew(t);
    assert UpOk(Inserted(t, e), e.inode);
    ParentIsShorter(Inserted(t, e), e.inode);
  }

  /** Inserting under a path that is not taken keeps the tree exactly when the caller passes an
      existing directory, a single path component, and the path that the two determine. */
  lemma InsertKeepsWfIff(t: Table, e: Entry)
    requires Wf(t) && FreshEntry(t, e)
    ensures Wf(Inserted(t, e)) <==> InsertOk(t, e.parent, e.name, e.fullPath)
  {
    if InsertOk(t, e.parent, e.name, e.fullPath) { InsertKeepsWf(t, e); }
    if Wf(Inserted(t, e)) { InsertedWfMeansOk(t, e); }
  }

  // ----- Subtrees and path prefixes -----------------------------------------------

  lemma UnderStepsDown(dir: string, parentPath: string, name: string)
    requires ValidName(name) && (dir == parentPath || StrictlyUnder(dir, parentPath))
    ensures StrictlyUnder(dir, ChildPath(parentPath, name))
  {
  }

  lemma {:induction false} SubtreeMeansUnder(t: Table, r: Ino, i: Ino)
    requires Wf(t) && Live(t, r) && InSubtree(t, r, i)
    ensures Live(t, i)
    ensures i == r || StrictlyUnder(t.inodes[r].fullPath, t.inodes[i].fullPath)
    decreases |t.inodes[i].fullPath|
  {
    if i != r {
      ParentIsShorter(t, i);
      var p := t.inodes[i].parent;
      SubtreeMeansUnder(t, r, p);
      assert UpOk(t, i);
      UnderStepsDown(t.inodes[r].fullPath, t.inodes[p].fullPath, t.inodes[i].name);
    }
  }

  /** Every path above a live inode's path belongs to a live inode, one of its ancestors. */
  lemma {:induction false} UnderMeansSubtree(t: Table, dir: string, i: Ino)
    requires Wf(t) && Live(t, i) && StrictlyUnder(dir, t.inodes[i].fullPath)
    ensures dir in t.paths && InSubtree(t, t.paths[dir], i)
    decreases |t.inodes[i].fullPath|
  {
    assert RootOk(t) && UpOk(t, i);
    ParentIsShorter(t, i);
    var p := t.inodes[i].parent;
    var pp := t.inodes[p].fullPath;
    var path := t.inodes[i].fullPath;
    if dir == pp {
      assert t.paths[dir] == p;
      assert InSubtree(t, p, p);
    } else {
      UnderStepsUp(dir, pp, t.inodes[i].name);
      UnderMeansSubtree(t, dir, p);
    }
  }

  lemma SlashIsInParent(parentPath: string, name: string, k: nat)
    requires '/' !in name && k < |ChildPath(parentPath, name)| && ChildPath(parentPath, name)[k] == '/'
    ensures parentPath != "" && k <= |parentPath|
  {
    assert forall j :: 0 <= j < |name| ==> name[j] in name;
  }

  lemma UnderStepsUp(dir: string, parentPath: string, name: string)
    requires ValidName(name) && dir != parentPath && StrictlyUnder(dir, ChildPath(parentPath, name))
    ensures StrictlyUnder(dir, parentPath)
  {
    var path := ChildPath(parentPath, name);
    if dir != "" {
      assert path[|dir|] == '/';
      SlashIsInParent(parentPath, name, |dir|);
      assert dir == path[..|dir|] == parentPath[..|dir|];
      assert |dir| < |parentPath|;
      assert dir + "/" == path[..|dir| + 1] == parentPath[..|dir| + 1];
    }
  }

  /** The subtree found by following links is exactly what the path prefix says it is. */
  lemma SubtreeIsPathPrefix(t: Table, r: Ino, i: Ino)
    requires Wf(t) && Live(t, r) && i in t.inodes
    ensures InSubtree(t, r, i)
       <==> Live(t, i) && (i == r || StrictlyUnder(t.inodes[r].fullPath, t.inodes[i].fullPath))
  {
    if InSubtree(t, r, i) {
      SubtreeMeansUnder(t, r, i);
    } else if Live(t, i) && StrictlyUnder(t.inodes[r].fullPath, t.inodes[i].fullPath) {
      UnderMeansSubtree(t, t.inodes[r].fullPath, i);
    }
  }
}
