/** Renaming: moving one edge of the tree and rebasing the paths below it. */
module InodeRename {
  import opened Options
  import opened Iteration
  import opened InodeModel
  import opened InodeLemmas
  import opened InodeWorklist
  import opened InodeSpecs

  ghost predicate AtOrUnder(dir: string, path: string) {
    path == dir || StrictlyUnder(dir, path)
  }

  /** What the VFS checks before it renames: a live source other than the root, a free name in an
      existing directory, and a destination that is not inside the source. */
  ghost predicate RenameOk(t: Table, ino: Ino, newParent: Ino, newName: string) {
    && Live(t, ino) && ino != ROOT_INODE
    && newParent in t.inodes && t.inodes[newParent].kind.Directory?
    && !InSubtree(t, ino, newParent)
    && ValidName(newName) && newName !in t.inodes[newParent].childIndex
  }

  ghost function NewPath(t: Table, newParent: Ino, newName: string): string
    requires newParent in t.inodes
  {
    ChildPath(t.inodes[newParent].fullPath, newName)
  }

  /** The path of `i` with the leading path of `ino` replaced. */
  ghost function Rebased(t: Table, ino: Ino, newPath: string, i: Ino): string
    requires ino in t.inodes && i in t.inodes
  {
    if |t.inodes[ino].fullPath| <= |t.inodes[i].fullPath|
    then newPath + t.inodes[i].fullPath[|t.inodes[ino].fullPath|..] else newPath
  }

  /** One entry after the edge has moved, before any path is rebased. */
  ghost function MovedEntry(t: Table, ino: Ino, newParent: Ino, newName: string, i: Ino): Entry
    requires ino in t.inodes && i in t.inodes
  {
    var e := t.inodes[i];
    var oldParent := t.inodes[ino].parent;
    var crossing := t.inodes[ino].kind.Directory? && oldParent != newParent;
    if i == ino then e.(parent := newParent, name := newName)
    else if i == oldParent then
      var d := e.(children := FilterOut(e.children, {ino}), childIndex := DropIndex(e.childIndex, {ino}));
      if i == newParent then d.AddChild(ino, newName)
      else if crossing then d.(nlink := SaturatingSub(d.nlink, 1)) else d
    else if i == newParent then
      var d := e.AddChild(ino, newName);
      if crossing then d.(nlink := d.nlink + 1) else d
    else e
  }

  /** The table `t'` is `t` with `ino` moved and exactly the paths of its subtree rebased. */
  ghost predicate IsRenamed(t: Table, ino: Ino, newParent: Ino, newName: string, t': Table)
    requires ino in t.inodes && newParent in t.inodes
  {
    var newPath := NewPath(t, newParent, newName);
    && t'.nextInode == t.nextInode
    && t'.inodes.Keys == t.inodes.Keys
    && (forall i :: i in t.inodes ==>
          t'.inodes[i] == if InSubtree(t, ino, i)
                          then MovedEntry(t, ino, newParent, newName, i).(fullPath := Rebased(t, ino, newPath, i))
                          else MovedEntry(t, ino, newParent, newName, i))
    && PathsMoved(t, ino, newPath, Subtree(t, ino), t'.paths)
  }

  /** The inodes `moved` answer to their rebased path only; every other mapping is as before. */
  ghost predicate PathsMoved(t: Table, ino: Ino, newPath: string, moved: set<Ino>, paths: map<string, Ino>)
    requires ino in t.inodes
  {
    && (forall p :: p in t.paths && t.paths[p] !in moved ==> p in paths && paths[p] == t.paths[p])
    && (forall i :: i in moved && i in t.inodes ==>
          Rebased(t, ino, newPath, i) in paths && paths[Rebased(t, ino, newPath, i)] == i)
    && (forall p :: p in paths ==>
          || (p in t.paths && t.paths[p] !in moved)
          || (paths[p] in moved && paths[p] in t.inodes && p == Rebased(t, ino, newPath, paths[p])))
  }

  // ----- Paths -----------------------------------------------------------------

  lemma LastSlash(a: string, n: string, b: string, m: string)
    requires ValidName(n) && ValidName(m) && ChildPath(a, n) == ChildPath(b, m)
    requires (a == "" || ChildPath(a, n)[|a|] == '/') && |a| <= |b|
    ensures a == b && n == m
  {
    var path := ChildPath(a, n);
    if b == "" {
    } else {
      assert path[|b|] == '/';
      SlashIsInParent(a, n, |b|);
      assert a == path[..|a|] == path[..|b|] == b;
      assert n == path[|a| + 1..] == path[|b| + 1..] == m;
    }
  }

  lemma ChildPathInjective(a: string, n: string, b: string, m: string)
    requires ValidName(n) && ValidName(m) && ChildPath(a, n) == ChildPath(b, m)
    ensures a == b && n == m
  {
    if |a| <= |b| { LastSlash(a, n, b, m); } else { LastSlash(b, m, a, n); }
  }

  /** No live inode sits at the destination or below it. */
  lemma DestinationIsFree(t: Table, newParent: Ino, newName: string, i: Ino)
    requires Wf(t) && newParent in t.inodes && t.inodes[newParent].kind.Directory? && Live(t, i)
    requires ValidName(newName) && newName !in t.inodes[newParent].childIndex
    ensures !AtOrUnder(NewPath(t, newParent, newName), t.inodes[i].fullPath)
  {
    var p := NewPath(t, newParent, newName);
    TargetIsUnmapped(t, newParent, newName);
    if StrictlyUnder(p, t.inodes[i].fullPath) {
      UnderMeansSubtree(t, p, i);
    }
  }

  lemma TargetIsUnmapped(t: Table, newParent: Ino, newName: string)
    requires Wf(t) && newParent in t.inodes && t.inodes[newParent].kind.Directory?
    requires ValidName(newName) && newName !in t.inodes[newParent].childIndex
    ensures NewPath(t, newParent, newName) !in t.paths
  {
    assert RootOk(t) && LinkOk(t, newParent);
    forall j | Live(t, j) && j != ROOT_INODE ensures t.inodes[j].fullPath != NewPath(t, newParent, newName) {
      PathIsTaken(t, newParent, newName, j);
    }
  }

  lemma PathIsTaken(t: Table, d: Ino, name: string, j: Ino)
    requires Wf(t) && Live(t, d) && ValidName(name) && Live(t, j) && j != ROOT_INODE
    ensures t.inodes[j].fullPath == NewPath(t, d, name) ==>
      name in t.inodes[d].childIndex && t.inodes[d].childIndex[name] == j
  {
    assert UpOk(t, j);
    ParentIsShorter(t, j);
    var p := t.inodes[j].parent;
    if t.inodes[j].fullPath == NewPath(t, d, name) {
      ChildPathInjective(t.inodes[p].fullPath, t.inodes[j].name, t.inodes[d].fullPath, name);
      assert t.paths[t.inodes[p].fullPath] == p && t.paths[t.inodes[d].fullPath] == d;
    }
  }

  lemma RebasedIsUnder(t: Table, ino: Ino, newPath: string, i: Ino)
    requires Wf(t) && Live(t, ino) && ino != ROOT_INODE && InSubtree(t, ino, i) && newPath != ""
    ensures AtOrUnder(newPath, Rebased(t, ino, newPath, i))
    ensures |newPath| <= |Rebased(t, ino, newPath, i)| && |t.inodes[ino].fullPath| <= |t.inodes[i].fullPath|
    ensures i == ino ==> Rebased(t, ino, newPath, i) == newPath
    ensures Rebased(t, ino, newPath, i)[|newPath|..] == t.inodes[i].fullPath[|t.inodes[ino].fullPath|..]
    ensures t.inodes[i].fullPath == t.inodes[ino].fullPath + t.inodes[i].fullPath[|t.inodes[ino].fullPath|..]
    ensures t.inodes[ino].fullPath != ""
  {
    SubtreeMeansUnder(t, ino, i);
    assert UpOk(t, ino);
  }

  lemma RebasedInjective(t: Table, ino: Ino, newPath: string, i: Ino, j: Ino)
    requires Wf(t) && Live(t, ino) && ino != ROOT_INODE && newPath != ""
    requires InSubtree(t, ino, i) && InSubtree(t, ino, j) && Rebased(t, ino, newPath, i) == Rebased(t, ino, newPath, j)
    ensures i == j
  {
    RebasedIsUnder(t, ino, newPath, i);
    RebasedIsUnder(t, ino, newPath, j);
    SubtreeMeansUnder(t, ino, i);
    SubtreeMeansUnder(t, ino, j);
    assert t.inodes[i].fullPath == t.inodes[j].fullPath;
    assert t.paths[t.inodes[i].fullPath] == i && t.paths[t.inodes[j].fullPath] == j;
  }

  /** Rebasing goes down the tree one name at a time. */
  lemma RebasedChild(t: Table, ino: Ino, newPath: string, i: Ino)
    requires Wf(t) && Live(t, ino) && ino != ROOT_INODE && newPath != ""
    requires InSubtree(t, ino, i) && i != ino
    ensures InSubtree(t, ino, t.inodes[i].parent)
    ensures Rebased(t, ino, newPath, i) == ChildPath(Rebased(t, ino, newPath, t.inodes[i].parent), t.inodes[i].name)
  {
    var p := t.inodes[i].parent;
    assert UpOk(t, i);
    hide Wf, Rebased, InSubtree;
    BelowIsParentBelow(t, ino, i);
    RebasedIsUnder(t, ino, newPath, i);
    RebasedIsUnder(t, ino, newPath, p);
    var parentNow := Rebased(t, ino, newPath, p);
    ChildPathSplits(t.inodes[ino].fullPath, newPath, t.inodes[p].fullPath, parentNow, t.inodes[i].name);
    AtOrUnderIs(newPath, Rebased(t, ino, newPath, i));
    AtOrUnderIs(newPath, Rebased(t, ino, newPath, p));
  }

  lemma BelowIsParentBelow(t: Table, ino: Ino, i: Ino)
    requires Wf(t) && i in t.inodes && InSubtree(t, ino, i) && i != ino
    ensures InSubtree(t, ino, t.inodes[i].parent)
  {
    ParentIsShorter(t, i);
  }

  lemma AtOrUnderIs(top: string, path: string)
    requires top != "" && AtOrUnder(top, path) && |top| <= |path|
    ensures path == top + path[|top|..]
  {
  }

  /** Exchanging a common front of a path exchanges it in the path of a child. */
  lemma ChildPathSplits(top: string, newTop: string, parent: string, newParent: string, name: string)
    requires top != "" && newTop != "" && |top| <= |parent| && |newTop| <= |newParent|
    requires parent == top + parent[|top|..] && newParent == newTop + newParent[|newTop|..]
    requires newParent[|newTop|..] == parent[|top|..]
    ensures ChildPath(newParent, name) == newTop + ChildPath(parent, name)[|top|..]
  {
    assert ChildPath(parent, name)[|top|..] == parent[|top|..] + "/" + name;
  }

  // ----- Well-formedness ---------------------------------------------------------------

  ghost function MovedIndex(t: Table, ino: Ino, newParent: Ino, newName: string, i: Ino): map<string, Ino>
    requires ino in t.inodes && i in t.inodes
  {
    var index := t.inodes[i].childIndex;
    var d := if i == t.inodes[ino].parent then DropIndex(index, {ino}) else index;
    if i == newParent then d[newName := ino] else d
  }

  /** What the tree properties need to know about a renamed entry. */
  ghost predicate EntryMoved(t: Table, ino: Ino, newParent: Ino, newName: string, i: Ino, e': Entry)
    requires ino in t.inodes && newParent in t.inodes && i in t.inodes
  {
    var e := t.inodes[i];
    && e'.inode == e.inode && e'.kind == e.kind && (e'.nlink > 0 <==> e.nlink > 0)
    && e'.parent == (if i == ino then newParent else e.parent)
    && e'.name == (if i == ino then newName else e.name)
    && e'.fullPath == (if InSubtree(t, ino, i) then Rebased(t, ino, NewPath(t, newParent, newName), i) else e.fullPath)
    && e'.childIndex == MovedIndex(t, ino, newParent, newName, i)
  }

  ghost predicate EdgeMoved(t: Table, ino: Ino, newParent: Ino, newName: string, t': Table)
    requires ino in t.inodes && newParent in t.inodes
  {
    && t'.inodes.Keys == t.inodes.Keys
    && forall i {:trigger t'.inodes[i]} :: i in t.inodes ==> EntryMoved(t, ino, newParent, newName, i, t'.inodes[i])
  }

  lemma MovedEntryShape(t: Table, ino: Ino, newParent: Ino, newName: string, i: Ino)
    requires ino in t.inodes && i in t.inodes && t.inodes[ino].parent != ino && newParent != ino
    requires i == t.inodes[ino].parent || i == newParent ==> t.inodes[i].nlink >= 2
    requires i == ino ==> DropIndex(t.inodes[i].childIndex, {ino}) == t.inodes[i].childIndex
    ensures var e, m := t.inodes[i], MovedEntry(t, ino, newParent, newName, i);
            && m.inode == e.inode && m.kind == e.kind && (m.nlink > 0 <==> e.nlink > 0)
            && m.parent == (if i == ino then newParent else e.parent)
            && m.name == (if i == ino then newName else e.name)
            && m.fullPath == e.fullPath
            && m.childIndex == MovedIndex(t, ino, newParent, newName, i)
  {
  }

  lemma RenamedEntryMoved(t: Table, ino: Ino, newParent: Ino, newName: string, i: Ino)
    requires Wf(t) && RenameOk(t, ino, newParent, newName) && i in t.inodes
    ensures EntryMoved(t, ino, newParent, newName, i,
              if InSubtree(t, ino, i)
              then MovedEntry(t, ino, newParent, newName, i)
                  .(fullPath := Rebased(t, ino, NewPath(t, newParent, newName), i))
              else MovedEntry(t, ino, newParent, newName, i))
  {
    hide Wf, MovedEntry, Rebased, InSubtree, MovedIndex, DropIndex;
    RenamedFacts(t, ino, newParent, newName, i);
    MovedEntryShape(t, ino, newParent, newName, i);
  }

  lemma RenamedFacts(t: Table, ino: Ino, newParent: Ino, newName: string, i: Ino)
    requires Wf(t) && RenameOk(t, ino, newParent, newName) && i in t.inodes
    ensures ino in t.inodes && newParent in t.inodes && t.inodes[ino].parent != ino && newParent != ino
    ensures InSubtree(t, ino, ino)
    ensures i == t.inodes[ino].parent || i == newParent ==> t.inodes[i].nlink >= 2
    ensures i == ino ==> DropIndex(t.inodes[i].childIndex, {ino}) == t.inodes[i].childIndex
  {
    assert UpOk(t, ino) && LinkOk(t, i) && LinkOk(t, newParent) && LinkOk(t, t.inodes[ino].parent) && DownOk(t, ino);
    ParentIsShorter(t, ino);
    assert InSubtree(t, ino, ino);
  }

  lemma RenamedEdge(t: Table, ino: Ino, newParent: Ino, newName: string, t': Table)
    requires Wf(t) && RenameOk(t, ino, newParent, newName) && IsRenamed(t, ino, newParent, newName, t')
    ensures EdgeMoved(t, ino, newParent, newName, t')
  {
    forall i | i in t.inodes ensures EntryMoved(t, ino, newParent, newName, i, t'.inodes[i]) {
      RenamedEntryMoved(t, ino, newParent, newName, i);
    }
  }

  ghost function SubDirsAfter(t: Table, ino: Ino, newParent: Ino, d: Ino): set<Ino>
    requires ino in t.inodes
  {
    if !t.inodes[ino].kind.Directory? then SubDirs(t.inodes, d)
    else SubDirs(t.inodes, d) - {ino} + (if d == newParent then {ino} else {})
  }

  lemma MovedSubDirs(t: Table, ino: Ino, newParent: Ino, newName: string, t': Table, d: Ino)
    requires ino in t.inodes && newParent in t.inodes && ino != ROOT_INODE && EdgeMoved(t, ino, newParent, newName, t')
    ensures SubDirs(t'.inodes, d) == SubDirsAfter(t, ino, newParent, d)
  {
  }

  lemma MovedLinks(t: Table, ino: Ino, newParent: Ino, newName: string, t': Table, i: Ino)
    requires Wf(t) && RenameOk(t, ino, newParent, newName) && IsRenamed(t, ino, newParent, newName, t')
    requires i in t.inodes
    ensures LinkOk(t', i)
  {
    hide Wf, MovedEntry, EdgeMoved, SubDirs, SubDirsAfter, ChildListOk, PathsMoved, Rebased;
    RenamedEdge(t, ino, newParent, newName, t');
    MovedSubDirs(t, ino, newParent, newName, t', i);
    MovedChildList(t, ino, newParent, newName, i);
    MovedLinkCount(t, ino, newParent, newName, i);
    MovedShape(t, ino, newParent, newName, t', i);
    SameChildList(t'.inodes[i], MovedEntry(t, ino, newParent, newName, i));
  }

  lemma SameChildList(e: Entry, m: Entry)
    requires ChildListOk(m) && e.children == m.children && e.childIndex == m.childIndex
    ensures ChildListOk(e)
  {
  }

  lemma MovedShape(t: Table, ino: Ino, newParent: Ino, newName: string, t': Table, i: Ino)
    requires ino in t.inodes && newParent in t.inodes && i in t.inodes && IsRenamed(t, ino, newParent, newName, t')
    ensures var e, m := t'.inodes[i], MovedEntry(t, ino, newParent, newName, i);
            && e.inode == m.inode && e.kind == m.kind && e.nlink == m.nlink && e.children == m.children
            && e.childIndex == m.childIndex
  {
    hide MovedEntry, PathsMoved, InSubtree, Rebased;
  }

  /** The moved edge carries one link from the old parent to the new one. */
  lemma MovedLinkCount(t: Table, ino: Ino, newParent: Ino, newName: string, i: Ino)
    requires Wf(t) && RenameOk(t, ino, newParent, newName) && i in t.inodes
    ensures var m := MovedEntry(t, ino, newParent, newName, i);
            && m.inode == i && i.number < t.nextInode
            && (m.kind.Directory? ==> m.nlink == 2 + |SubDirsAfter(t, ino, newParent, i)|)
            && (!m.kind.Directory? ==> m.nlink <= 1 && m.children == [])
  {
    LinkFacts(t, ino, newParent, i);
    hide Wf, LinkOk, FilterOut, DropIndex, SubDirs, InSubtree, UpOk;
    MovedCount(SubDirs(t.inodes, i), ino);
  }

  lemma LinkFacts(t: Table, ino: Ino, newParent: Ino, i: Ino)
    requires Wf(t) && Live(t, ino) && ino != ROOT_INODE && !InSubtree(t, ino, newParent) && i in t.inodes
    ensures var e, p := t.inodes[i], t.inodes[ino].parent;
            && e.inode == i && i.number < t.nextInode && p in t.inodes && t.inodes[p].kind.Directory?
                && newParent != ino
            && (e.kind.Directory? ==> e.nlink == 2 + |SubDirs(t.inodes, i)|)
            && (!e.kind.Directory? ==> e.nlink <= 1 && e.children == [])
            && (ino in SubDirs(t.inodes, i) <==> t.inodes[ino].kind.Directory? && i == p)
    ensures t.inodes[ino].parent != ino
  {
    ParentIsShorter(t, ino);
    assert LinkOk(t, i) && UpOk(t, ino) && InSubtree(t, ino, ino);
  }

  lemma MovedCount(s: set<Ino>, x: Ino)
    ensures |s - {x}| == if x in s then |s| - 1 else |s|
    ensures |s - {x} + {x}| == if x in s then |s| else |s| + 1
  {
    if x !in s {
      assert s - {x} == s;
    } else {
      assert s - {x} + {x} == s;
    }
  }

  lemma MovedChildList(t: Table, ino: Ino, newParent: Ino, newName: string, i: Ino)
    requires Wf(t) && RenameOk(t, ino, newParent, newName) && i in t.inodes
    ensures ChildListOk(MovedEntry(t, ino, newParent, newName, i))
  {
    var e := t.inodes[i];
    assert LinkOk(t, i);
    var d := if i == t.inodes[ino].parent
             then e.(children := FilterOut(e.children, {ino}), childIndex := DropIndex(e.childIndex, {ino})) else e;
    FilterKeepsChildList(e, {ino});
    FilterOutFacts(e.children, {ino});
    if i == newParent {
      forall c | c in d.children ensures c.ino != ino {
        ChildIff(t, i, c.ino);
      }
      AddKeepsChildList(d, ino, newName);
    }
  }

  lemma MovedDown(t: Table, ino: Ino, newParent: Ino, newName: string, t': Table, i: Ino)
    requires Live(t, ino) && ino != ROOT_INODE && newParent in t.inodes && EdgeMoved(t, ino, newParent, newName, t')
    requires i in t.inodes && DownOk(t, i)
    ensures DownOk(t', i)
  {
    var index := t'.inodes[i].childIndex;
    forall n | n in index
      ensures index[n] in t'.inodes && index[n] != ROOT_INODE
      ensures t'.inodes[index[n]].parent == i && t'.inodes[index[n]].name == n && t'.inodes[index[n]].nlink > 0
    {
      assert EntryMoved(t, ino, newParent, newName, index[n], t'.inodes[index[n]]);
    }
  }

  lemma MovedUp(t: Table, ino: Ino, newParent: Ino, newName: string, t': Table, i: Ino)
    requires Wf(t) && RenameOk(t, ino, newParent, newName) && EdgeMoved(t, ino, newParent, newName, t')
    requires i in t.inodes
    ensures UpOk(t', i)
  {
    assert EntryMoved(t, ino, newParent, newName, i, t'.inodes[i]);
    if Live(t, i) && i != ROOT_INODE {
      assert UpOk(t, i);
      ParentIsShorter(t, i);
      var newPath := NewPath(t, newParent, newName);
      var p := t'.inodes[i].parent;
      assert EntryMoved(t, ino, newParent, newName, p, t'.inodes[p]);
      if i == ino {
        RebasedIsUnder(t, ino, newPath, ino);
      } else {
        if InSubtree(t, ino, i) { RebasedChild(t, ino, newPath, i); }
        KeptName(t, ino, newParent, newName, i);
      }
    }
  }

  /** The other names of a directory keep their inode. */
  lemma KeptName(t: Table, ino: Ino, newParent: Ino, newName: string, i: Ino)
    requires Live(t, i) && i != ino && i != ROOT_INODE && UpOk(t, i) && ino in t.inodes && newParent in t.inodes
    requires newName !in t.inodes[newParent].childIndex
    ensures var index := MovedIndex(t, ino, newParent, newName, t.inodes[i].parent);
            t.inodes[i].name in index && index[t.inodes[i].name] == i
  {
  }

  lemma MovedPaths(t: Table, ino: Ino, newParent: Ino, newName: string, t': Table)
    requires Wf(t) && RenameOk(t, ino, newParent, newName) && EdgeMoved(t, ino, newParent, newName, t')
    requires PathsMoved(t, ino, NewPath(t, newParent, newName), Subtree(t, ino), t'.paths)
    ensures PathsOk(t')
  {
    forall i | i in t.inodes ensures Live(t', i) <==> Live(t, i) {
      assert EntryMoved(t, ino, newParent, newName, i, t'.inodes[i]);
    }
    forall i | InSubtree(t, ino, i) ensures Live(t, i) {
      SubtreeMeansUnder(t, ino, i);
    }
    forall p | p in t'.paths ensures Live(t', t'.paths[p]) && t'.inodes[t'.paths[p]].fullPath == p {
      assert EntryMoved(t, ino, newParent, newName, t'.paths[p], t'.inodes[t'.paths[p]]);
    }
    forall i | Live(t', i) ensures t'.inodes[i].fullPath in t'.paths && t'.paths[t'.inodes[i].fullPath] == i {
      assert EntryMoved(t, ino, newParent, newName, i, t'.inodes[i]);
      assert Live(t, i);
    }
  }

  lemma RootStays(t: Table, ino: Ino, newParent: Ino, newName: string, t': Table)
    requires Wf(t) && RenameOk(t, ino, newParent, newName) && EdgeMoved(t, ino, newParent, newName, t')
    ensures RootOk(t')
  {
    assert !InSubtree(t, ino, ROOT_INODE) && RootOk(t);
    assert EntryMoved(t, ino, newParent, newName, ROOT_INODE, t'.inodes[ROOT_INODE]);
  }

  /** Renaming within the caller's checks keeps the tree. */
  lemma RenameKeepsWf(t: Table, ino: Ino, newParent: Ino, newName: string, t': Table)
    requires Wf(t) && RenameOk(t, ino, newParent, newName) && IsRenamed(t, ino, newParent, newName, t')
    ensures Wf(t')
  {
    RenamedEdge(t, ino, newParent, newName, t');
    MovedPaths(t, ino, newParent, newName, t');
    RootStays(t, ino, newParent, newName, t');
    forall i | i in t'.inodes ensures LinkOk(t', i) && DownOk(t', i) && UpOk(t', i) {
      assert DownOk(t, i);
      MovedLinks(t, ino, newParent, newName, t', i);
      MovedDown(t, ino, newParent, newName, t', i);
      MovedUp(t, ino, newParent, newName, t', i);
    }
  }

  /** A directory moved below itself could never be part of a tree again, whatever its paths. */
  lemma MoveBelowItselfBreaks(t: Table, ino: Ino, newParent: Ino, t': Table)
    requires Wf(t) && Live(t, ino) && ino != ROOT_INODE && InSubtree(t, ino, newParent)
    requires forall i :: i in t.inodes && i != ROOT_INODE && Live(t, i) ==>
      Live(t', i) && t'.inodes[i].parent == if i == ino then newParent else t.inodes[i].parent
    ensures !Wf(t')
  {
    if Wf(t') {
      ChainShrinks(t, ino, newParent, t');
      SubtreeMeansUnder(t, ino, newParent);
      ParentIsShorter(t', ino);
    }
  }

  lemma {:induction false} ChainShrinks(t: Table, ino: Ino, i: Ino, t': Table)
    requires Wf(t) && Wf(t') && Live(t, ino) && InSubtree(t, ino, i)
    requires forall j :: j in t.inodes && j != ROOT_INODE && Live(t, j) && j != ino ==>
      Live(t', j) && t'.inodes[j].parent == t.inodes[j].parent
    requires Live(t', ino)
    ensures Live(t', i) && |t'.inodes[ino].fullPath| <= |t'.inodes[i].fullPath|
    decreases |t.inodes[i].fullPath|
  {
    if i != ino {
      ParentIsShorter(t, i);
      ChainShrinks(t, ino, t.inodes[i].parent, t');
      ParentIsShorter(t', i);
    }
  }

  // ----- move_child --------------------------------------------------------------------

  /** The statements of `move_child` on one entry, in their order. */
  ghost function Stepped(t: Table, ino: Ino, newParent: Ino, newName: string, i: Ino): Entry
    requires ino in t.inodes && i in t.inodes
  {
    var e := t.inodes[ino];
    var d := if i == e.parent then t.inodes[i].RemoveChildByName(e.name) else t.inodes[i];
    var a := if i == newParent then d.AddChild(ino, newName) else d;
    var crossing := e.kind.Directory? && e.parent != newParent;
    var n := if !crossing then a
             else if i == e.parent then a.(nlink := SaturatingSub(a.nlink, 1))
             else if i == newParent then a.(nlink := a.nlink + 1) else a;
    if i == ino then n.(parent := newParent, name := newName) else n
  }

  lemma MoveSteps(t: Table, ino: Ino, newParent: Ino, newName: string, i: Ino)
    requires Wf(t) && RenameOk(t, ino, newParent, newName) && i in t.inodes
    ensures var e := t.inodes[ino];
            e.parent in t.inodes && e.parent != ino && newParent != ino
    ensures MovedEntry(t, ino, newParent, newName, i) == Stepped(t, ino, newParent, newName, i)
  {
    hide Wf, FilterOut, DropIndex, Position, ChildListOk, InSubtree;
    EdgeFacts(t, ino, newParent);
    RemoveChildByNameIsFilter(t.inodes[t.inodes[ino].parent], t.inodes[ino].name);
    RemoveChildIsFilter(t.inodes[t.inodes[ino].parent], ino);
  }

  lemma EdgeFacts(t: Table, ino: Ino, newParent: Ino)
    requires Wf(t) && Live(t, ino) && ino != ROOT_INODE && !InSubtree(t, ino, newParent)
    ensures var p := t.inodes[ino].parent;
            && p in t.inodes && p != ino && newParent != ino && ChildListOk(t.inodes[p])
            && t.inodes[ino].name in t.inodes[p].childIndex && t.inodes[p].childIndex[t.inodes[ino].name] == ino
  {
    ParentIsShorter(t, ino);
    assert UpOk(t, ino) && LinkOk(t, t.inodes[ino].parent);
    assert InSubtree(t, ino, ino);
  }

  lemma MoveAll(t: Table, ino: Ino, newParent: Ino, newName: string)
    requires Wf(t) && RenameOk(t, ino, newParent, newName)
    ensures var e := t.inodes[ino];
            e.parent in t.inodes && e.parent != ino && newParent != ino
    ensures forall i :: i in t.inodes ==>
      MovedEntry(t, ino, newParent, newName, i) == Stepped(t, ino, newParent, newName, i)
  {
    MoveSteps(t, ino, newParent, newName, ino);
    forall i | i in t.inodes
      ensures MovedEntry(t, ino, newParent, newName, i) == Stepped(t, ino, newParent, newName, i)
    {
      MoveSteps(t, ino, newParent, newName, i);
    }
  }

  // ----- update_subtree_paths --------------------------------------------------------------

  ghost predicate EntriesRebased(t: Table, moved: map<Ino, Entry>, ino: Ino, newPath: string, done: set<Ino>,
                                 inodes: map<Ino, Entry>)
    requires ino in t.inodes && moved.Keys == t.inodes.Keys
  {
    && inodes.Keys == moved.Keys
    && (forall i :: i in inodes ==>
          inodes[i] == if i in done then moved[i].(fullPath := Rebased(t, ino, newPath, i)) else moved[i])
  }

  /** Part-way through the recursion: `done` have their new path, in their entry and in the path map. */
  ghost predicate Rebasing(t: Table, moved: map<Ino, Entry>, ino: Ino, newPath: string, done: set<Ino>,
                           inodes: map<Ino, Entry>, paths: map<string, Ino>)
    requires ino in t.inodes
  {
    && moved.Keys == t.inodes.Keys
    && EntriesRebased(t, moved, ino, newPath, done, inodes)
    && PathsMoved(t, ino, newPath, done, paths)
  }

  /** The setting of the recursion: `t` is the table before the move, `moved` its entries after it. */
  ghost predicate RebaseOk(t: Table, moved: map<Ino, Entry>, ino: Ino, newPath: string) {
    && Wf(t) && Live(t, ino) && ino != ROOT_INODE && newPath != ""
    && moved.Keys == t.inodes.Keys
    && (forall i :: InSubtree(t, ino, i) ==>
        moved[i].children == t.inodes[i].children && moved[i].fullPath == t.inodes[i].fullPath)
    && (forall i :: Live(t, i) ==> !AtOrUnder(newPath, t.inodes[i].fullPath))
  }

  /** Moving the edge leaves the moved subtree's own lists and paths as they were. */
  lemma MovedBelow(t: Table, ino: Ino, newParent: Ino, newName: string, i: Ino)
    requires Wf(t) && RenameOk(t, ino, newParent, newName) && InSubtree(t, ino, i)
    ensures MovedEntry(t, ino, newParent, newName, i).children == t.inodes[i].children
    ensures MovedEntry(t, ino, newParent, newName, i).fullPath == t.inodes[i].fullPath
  {
    ParentIsShorter(t, ino);
    if InSubtree(t, ino, t.inodes[ino].parent) { PathsGrow(t, ino, t.inodes[ino].parent); }
  }

  lemma RebaseBegins(t: Table, ino: Ino, newParent: Ino, newName: string, inodes: map<Ino, Entry>)
    requires Wf(t) && RenameOk(t, ino, newParent, newName)
    requires inodes.Keys == t.inodes.Keys
    requires forall i :: i in inodes ==> inodes[i] == MovedEntry(t, ino, newParent, newName, i)
    ensures RebaseOk(t, inodes, ino, NewPath(t, newParent, newName))
    ensures Rebasing(t, inodes, ino, NewPath(t, newParent, newName), {}, inodes, t.paths)
    ensures InSubtree(t, ino, ino)
        && Rebased(t, ino, NewPath(t, newParent, newName), ino) == NewPath(t, newParent, newName)
    ensures inodes[newParent].fullPath == t.inodes[newParent].fullPath
  {
    var newPath := NewPath(t, newParent, newName);
    forall i | InSubtree(t, ino, i)
      ensures inodes[i].children == t.inodes[i].children && inodes[i].fullPath == t.inodes[i].fullPath
    {
      MovedBelow(t, ino, newParent, newName, i);
    }
    forall i | Live(t, i) ensures !AtOrUnder(newPath, t.inodes[i].fullPath) {
      DestinationIsFree(t, newParent, newName, i);
    }
  }

  lemma RebaseEnds(t: Table, ino: Ino, newParent: Ino, newName: string, moved: map<Ino, Entry>, t': Table)
    requires ino in t.inodes && newParent in t.inodes && t'.nextInode == t.nextInode && moved.Keys == t.inodes.Keys
    requires forall i :: i in moved ==> moved[i] == MovedEntry(t, ino, newParent, newName, i)
    requires Rebasing(t, moved, ino, NewPath(t, newParent, newName), {} + Subtree(t, ino), t'.inodes, t'.paths)
    ensures IsRenamed(t, ino, newParent, newName, t')
  {
    hide MovedEntry, Rebased, InSubtree, PathsMoved;
    assert {} + Subtree(t, ino) == Subtree(t, ino);
  }

  /** Rebased paths are new to the map, and differ from one another. */
  lemma RebasedIsNew(t: Table, moved: map<Ino, Entry>, ino: Ino, newPath: string, i: Ino)
    requires RebaseOk(t, moved, ino, newPath) && InSubtree(t, ino, i)
    ensures Rebased(t, ino, newPath, i) !in t.paths
  {
    RebasedIsUnder(t, ino, newPath, i);
    forall p | p in t.paths ensures p != Rebased(t, ino, newPath, i) {
      assert Live(t, t.paths[p]);
    }
  }

  lemma RebaseFacts(t: Table, moved: map<Ino, Entry>, ino: Ino, newPath: string, done: set<Ino>, x: Ino)
    requires RebaseOk(t, moved, ino, newPath) && InSubtree(t, ino, x) && x !in done
    requires forall i :: i in done ==> InSubtree(t, ino, i)
    ensures Rebased(t, ino, newPath, x) !in t.paths
    ensures forall p :: p in t.paths ==> (t.paths[p] == x <==> p == t.inodes[x].fullPath)
    ensures forall i :: i in done ==>
      Rebased(t, ino, newPath, i) !in t.paths && Rebased(t, ino, newPath, i) != Rebased(t, ino, newPath, x)
    ensures t.inodes[x].fullPath in t.paths
  {
    RebasedIsNew(t, moved, ino, newPath, x);
    SubtreeMeansUnder(t, ino, x);
    assert PathsOk(t);
    forall i | i in done
      ensures Rebased(t, ino, newPath, i) !in t.paths && Rebased(t, ino, newPath, i) != Rebased(t, ino, newPath, x)
    {
      RebasedIsNew(t, moved, ino, newPath, i);
      if Rebased(t, ino, newPath, i) == Rebased(t, ino, newPath, x) { RebasedInjective(t, ino, newPath, i, x); }
    }
  }

  lemma RebaseOnePath(t: Table, ino: Ino, newPath: string, done: set<Ino>, paths: map<string, Ino>, x: Ino)
    requires ino in t.inodes && x in t.inodes && PathsMoved(t, ino, newPath, done, paths) && x !in done
    requires Rebased(t, ino, newPath, x) !in t.paths && t.inodes[x].fullPath in t.paths
    requires forall p :: p in t.paths ==> (t.paths[p] == x <==> p == t.inodes[x].fullPath)
    requires forall i :: i in done ==> i in t.inodes
    requires forall i :: i in done ==>
      Rebased(t, ino, newPath, i) !in t.paths && Rebased(t, ino, newPath, i) != Rebased(t, ino, newPath, x)
    ensures PathsMoved(t, ino, newPath, done + {x}, (paths - {t.inodes[x].fullPath})[Rebased(t, ino, newPath, x) := x])
  {
  }

  lemma RebaseOneEntry(t: Table, moved: map<Ino, Entry>, ino: Ino, newPath: string, done: set<Ino>,
                       inodes: map<Ino, Entry>, x: Ino)
    requires ino in t.inodes && moved.Keys == t.inodes.Keys && x in t.inodes && x !in done
    requires EntriesRebased(t, moved, ino, newPath, done, inodes)
    ensures x in inodes && inodes[x] == moved[x]
    ensures EntriesRebased(t, moved, ino, newPath, done + {x},
                           inodes[x := inodes[x].(fullPath := Rebased(t, ino, newPath, x))])
  {
  }

  lemma RebaseOne(t: Table, moved: map<Ino, Entry>, ino: Ino, newPath: string, done: set<Ino>,
                  inodes: map<Ino, Entry>, paths: map<string, Ino>, x: Ino)
    requires RebaseOk(t, moved, ino, newPath) && Rebasing(t, moved, ino, newPath, done, inodes, paths)
    requires InSubtree(t, ino, x) && x !in done && forall i :: i in done ==> InSubtree(t, ino, i)
    ensures x in inodes && inodes[x] == moved[x] && inodes[x].fullPath == t.inodes[x].fullPath
    ensures inodes[x].children == t.inodes[x].children
    ensures var path := Rebased(t, ino, newPath, x);
            Rebasing(t, moved, ino, newPath, done + {x}, inodes[x := inodes[x].(fullPath := path)],
                     (paths - {t.inodes[x].fullPath})[path := x])
  {
    RebaseOneEntry(t, moved, ino, newPath, done, inodes, x);
    RebaseFacts(t, moved, ino, newPath, done, x);
    RebaseOnePath(t, ino, newPath, done, paths, x);
  }

  /** The subtree of `x` is `x` and the disjoint subtrees of its children. */
  lemma SubtreeOfChild(t: Table, x: Ino, c: Ino)
    requires Wf(t) && Live(t, x) && ChildOf(t, x, c)
    ensures Subtree(t, c) <= Subtree(t, x) && x !in Subtree(t, c)
  {
    ParentIsShorter(t, c);
    forall i | InSubtree(t, c, i) ensures InSubtree(t, x, i) {
      SubtreeTransitive(t, x, c, i);
    }
    if InSubtree(t, c, x) { PathsGrow(t, c, x); }
  }

  lemma {:induction false} SubtreeTransitive(t: Table, r: Ino, m: Ino, i: Ino)
    requires InSubtree(t, m, i)
    requires m in t.inodes ==> InSubtree(t, r, m)
    ensures InSubtree(t, r, i)
    decreases if i in t.inodes then |t.inodes[i].fullPath| else 0
  {
    if i != m {
      SubtreeTransitive(t, r, m, t.inodes[i].parent);
    }
  }

  lemma {:induction false} BelowSomeChild(t: Table, x: Ino, i: Ino) returns (c: Ino)
    requires Wf(t) && Live(t, x) && InSubtree(t, x, i) && i != x
    ensures ChildOf(t, x, c) && InSubtree(t, c, i)
    decreases |t.inodes[i].fullPath|
  {
    ParentIsShorter(t, i);
    if t.inodes[i].parent == x {
      c := i;
    } else {
      c := BelowSomeChild(t, x, t.inodes[i].parent);
    }
  }

  lemma {:induction false} SiblingsApart(t: Table, x: Ino, c: Ino, d: Ino, i: Ino)
    requires Wf(t) && Live(t, x) && ChildOf(t, x, c) && ChildOf(t, x, d) && c != d && InSubtree(t, c, i)
    ensures !InSubtree(t, d, i)
    decreases |t.inodes[i].fullPath|
  {
    ParentIsShorter(t, i);
    if i == c {
      if InSubtree(t, d, x) { PathsGrow(t, d, x); ParentIsShorter(t, d); }
    } else {
      SiblingsApart(t, x, c, d, t.inodes[i].parent);
      if i == d {
        if InSubtree(t, c, x) { PathsGrow(t, c, x); ParentIsShorter(t, c); }
      }
    }
  }

  /** `x` and the subtrees of its first `k` children. */
  ghost function Below(t: Table, x: Ino, children: seq<DirChild>, k: nat): set<Ino>
    requires k <= |children|
  {
    if k == 0 then {x} else Below(t, x, children, k - 1) + Subtree(t, children[k - 1].ino)
  }

  lemma {:induction false} BelowMembers(t: Table, x: Ino, children: seq<DirChild>, k: nat, i: Ino)
    requires k <= |children|
    ensures i in Below(t, x, children, k) <==> i == x || exists j :: 0 <= j < k && i in Subtree(t, children[j].ino)
  {
    if k > 0 { BelowMembers(t, x, children, k - 1, i); }
  }

  lemma ListedChild(t: Table, x: Ino, k: nat)
    requires Wf(t) && x in t.inodes && k < |t.inodes[x].children|
    ensures ChildOf(t, x, t.inodes[x].children[k].ino)
    ensures t.inodes[t.inodes[x].children[k].ino].name == t.inodes[x].children[k].name
  {
    var c := t.inodes[x].children[k];
    assert c in t.inodes[x].children;
    ChildIff(t, x, c.ino);
    assert LinkOk(t, x) && DownOk(t, x);
  }

  /** The next child's subtree is inside the subtree of `x`, and untouched so far. */
  lemma NextSubtree(t: Table, top: Ino, x: Ino, k: nat, done: set<Ino>)
    requires Wf(t) && Live(t, top) && InSubtree(t, top, x) && k < |t.inodes[x].children|
    requires done <= Subtree(t, top) && done !! Subtree(t, x)
    ensures var c := t.inodes[x].children[k].ino;
            && c != top && InSubtree(t, top, c) && Subtree(t, c) < Subtree(t, x) && t.inodes[c].parent == x
            && done + Below(t, x, t.inodes[x].children, k) <= Subtree(t, top)
            && (done + Below(t, x, t.inodes[x].children, k)) !! Subtree(t, c)
            && t.inodes[c].name == t.inodes[x].children[k].name
  {
    var children := t.inodes[x].children;
    var c := children[k].ino;
    SubtreeMeansUnder(t, top, x);
    ListedChild(t, x, k);
    ParentIsShorter(t, c);
    SubtreeOfChild(t, x, c);
    assert x in Subtree(t, x) && x in Subtree(t, top);
    forall i | i in Below(t, x, children, k) ensures i in Subtree(t, top) && i !in Subtree(t, c) {
      BelowMembers(t, x, children, k, i);
      SubtreeTransitive(t, top, x, x);
      if i != x {
        var j :| 0 <= j < k && i in Subtree(t, children[j].ino);
        ListedChild(t, x, j);
        assert LinkOk(t, x);
        SubtreeOfChild(t, x, children[j].ino);
        SubtreeTransitive(t, top, x, i);
        SiblingsApart(t, x, children[j].ino, c, i);
      }
    }
  }

  lemma NextChild(t: Table, top: Ino, newPath: string, x: Ino, k: nat, done: set<Ino>)
    requires Wf(t) && Live(t, top) && top != ROOT_INODE && newPath != ""
    requires InSubtree(t, top, x) && k < |t.inodes[x].children|
    requires done <= Subtree(t, top) && done !! Subtree(t, x)
    ensures var c := t.inodes[x].children[k];
            && InSubtree(t, top, c.ino) && Subtree(t, c.ino) < Subtree(t, x)
            && done + Below(t, x, t.inodes[x].children, k) <= Subtree(t, top)
            && (done + Below(t, x, t.inodes[x].children, k)) !! Subtree(t, c.ino)
            && done + Below(t, x, t.inodes[x].children, k) + Subtree(t, c.ino)
                 == done + Below(t, x, t.inodes[x].children, k + 1)
            && Rebased(t, top, newPath, c.ino) == ChildPath(Rebased(t, top, newPath, x), c.name)
  {
    NextSubtree(t, top, x, k, done);
    var c := t.inodes[x].children[k];
    RebasedChild(t, top, newPath, c.ino);
  }

  lemma AllChildren(t: Table, x: Ino)
    requires Wf(t) && Live(t, x)
    ensures Below(t, x, t.inodes[x].children, |t.inodes[x].children|) == Subtree(t, x)
  {
    var children := t.inodes[x].children;
    var all := Below(t, x, children, |children|);
    forall i ensures i in all <==> i in Subtree(t, x) {
      BelowMembers(t, x, children, |children|, i);
      if i in all && i != x {
        var j :| 0 <= j < |children| && i in Subtree(t, children[j].ino);
        ListedChild(t, x, j);
        SubtreeOfChild(t, x, children[j].ino);
      }
      if i in Subtree(t, x) && i != x {
        var c := BelowSomeChild(t, x, i);
        ChildIff(t, x, c);
        var e :| e in children && e.ino == c;
        var j :| 0 <= j < |children| && children[j] == e;
      }
    }
    SameSet(all, Subtree(t, x));
  }
}
