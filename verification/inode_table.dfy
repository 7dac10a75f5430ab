/** The inode table: the operations of the program, each proved against what it does to the table. */
module InodeTables {
  import opened Options
  import opened Iteration
  import opened InodeModel
  import opened InodeLemmas
  import opened InodeWorklist
  import opened InodeSpecs
  import opened InodeLoose
  import opened InodeRefinement
  import opened InodeRename
  import opened RemotePaths

  class InodeTable {
    var inodes: map<Ino, Entry>
    var pathToInode: map<string, Ino>
    var nextInode: nat
    var touchCounter: nat

    ghost function State(): Table
      reads this
    {
      Table(inodes, pathToInode, nextInode)
    }

    ghost predicate Valid()
      reads this
    {
      Wf(State())
    }

    constructor ()
      ensures Valid()
      ensures inodes.Keys == {ROOT_INODE} && pathToInode == map["" := ROOT_INODE]
      ensures nextInode == 2 && touchCounter == 0
      ensures !inodes[ROOT_INODE].childrenLoaded && inodes[ROOT_INODE].children == []
      ensures inodes[ROOT_INODE].meta == FileMeta(0, 0, None, false, None, 0, [])
    {
      var root := Entry(ROOT_INODE, ROOT_INODE, "", "", Directory, 2, false, [], map[],
                        FileMeta(0, 0, None, false, None, 0, []), EvictionState(0, 0, 0));
      inodes := map[ROOT_INODE := root];
      pathToInode := map["" := ROOT_INODE];
      nextInode := 2;
      touchCounter := 0;
      new;
      assert SubDirs(inodes, ROOT_INODE) == {};
      assert LinkOk(State(), ROOT_INODE) && DownOk(State(), ROOT_INODE) && UpOk(State(), ROOT_INODE);
    }

    // ----- insert ---------------------------------------------------------------

    /** An existing path keeps its inode; otherwise a fresh inode is listed under `parent`. */
    method Insert(parent: Ino, name: string, fullPath: string, kind: InodeKind, size: nat, mtime: int,
                  xetHash: Option<string>)
      returns (ino: Ino)
      requires Valid()
      modifies this
      ensures fullPath in old(pathToInode) ==> ino == old(pathToInode)[fullPath] && State() == old(State())
      ensures fullPath !in old(pathToInode) ==>
        && ino == Ino(old(nextInode))
        && State() == Inserted(old(State()),
            NewEntry(ino, parent, name, fullPath, kind, size, mtime, xetHash, old(touchCounter)))
      ensures fullPath !in old(pathToInode) && parent != ino ==>
        && ino in inodes && inodes[ino].parent == parent && inodes[ino].name == name
        && inodes[ino].fullPath == fullPath && inodes[ino].kind == kind
        && inodes[ino].nlink == (if kind.Directory? then 2 else 1)
        && inodes[ino].children == [] && inodes[ino].childIndex == map[] && !inodes[ino].childrenLoaded
        && inodes[ino].meta.size == size && inodes[ino].meta.mtime == mtime && inodes[ino].meta.xetHash == xetHash
        && inodes[ino].meta.dirtyGeneration == 0 && inodes[ino].meta.pendingDeletes == []
        && !inodes[ino].meta.stagingIsCurrent
        && inodes[ino].eviction.openHandles == 0 && inodes[ino].eviction.nlookup == 0
        && inodes[ino].eviction.lastTouched == old(touchCounter)
      ensures touchCounter == old(touchCounter) + (if fullPath in old(pathToInode) then 0 else 1)
      ensures Valid() <==> fullPath in old(pathToInode) || InsertOk(old(State()), parent, name, fullPath)
    {
      if fullPath in pathToInode {
        ino := pathToInode[fullPath];
        return;
      }
      ghost var t := State();
      ino := Ino(nextInode);
      nextInode := nextInode + 1;
      var touchSeq := touchCounter;
      touchCounter := touchCounter + 1;
      var entry := NewEntry(ino, parent, name, fullPath, kind, size, mtime, xetHash, touchSeq);
      inodes := inodes[ino := entry];
      pathToInode := pathToInode[fullPath := ino];
      if parent in inodes {
        inodes := inodes[parent := inodes[parent].AddChild(ino, name)];
        if kind == Directory {
          inodes := inodes[parent := inodes[parent].(nlink := inodes[parent].nlink + 1)];
        }
      }
      InsertedIs(t, entry, State());
      InsertKeepsWfIff(t, entry);
    }

    // ----- remove ---------------------------------------------------------------

    method DetachFromParent(parentIno: Ino, childIno: Ino, childKind: InodeKind)
      modifies this`inodes
      ensures inodes == if parentIno !in old(inodes) then old(inodes)
                        else old(inodes)[parentIno := DetachChild(old(inodes)[parentIno], childIno,
                            childKind.Directory?)]
    {
      if parentIno in inodes {
        inodes := inodes[parentIno := inodes[parentIno].RemoveChildByIno(childIno)];
        if childKind == Directory {
          inodes := inodes[parentIno := inodes[parentIno].(nlink := SaturatingSub(inodes[parentIno].nlink, 1))];
        }
      }
    }

    /** Removes exactly the subtree below `ino`, from both maps.  Where nothing can hang below it, the rest
        of the table need not be a tree. */
    method Remove(ino: Ino) returns (removed: Option<Entry>)
      requires Valid() || (Loose(State()) && (ino in inodes ==> !inodes[ino].kind.Directory?))
      modifies this`inodes, this`pathToInode
      ensures State() == RemoveSpec(old(State()), ino)
      ensures removed == if ino in old(inodes) then Some(old(inodes)[ino]) else None
    {
      if ino !in inodes { return None; }
      ghost var t := State();
      var entry := inodes[ino];
      inodes := inodes - {ino};
      pathToInode := pathToInode - {entry.fullPath};
      DetachFromParent(entry.parent, ino, entry.kind);
      if Wf(t) {
        RemoveBegins(t, ino, inodes, pathToInode);
        ChildrenStart(t, ino);
      } else {
        assert EdgeOk(t, ino);
        LeafRemoved(t, ino, inodes, pathToInode);
      }
      RemoveBelow(Inos(entry.children), t, ino, ParentAfter(t, ino));
      if Wf(t) { RemoveEnds(t, ino, inodes, pathToInode); }
      removed := Some(entry);
    }

    /** The sweep of `Remove`, from the children of the removed inode down. */
    method RemoveBelow(start: seq<Ino>, ghost t: Table, ghost ino: Ino, ghost pe: Entry)
      requires ino in t.inodes && nextInode == t.nextInode && (Wf(t) || start == [])
      requires Wf(t) ==> WorkOk(t, ino, {ino}, start) && RemoveDone(t, ino, pe, {ino}, inodes, pathToInode)
      modifies this`inodes, this`pathToInode
      ensures nextInode == t.nextInode
      ensures Wf(t) ==> RemoveDone(t, ino, pe, Subtree(t, ino), inodes, pathToInode)
      ensures start == [] ==> inodes == old(inodes) && pathToInode == old(pathToInode)
    {
      hide Wf, WorkOk, RemoveDone, Subtree;
      var stack := start;
      ghost var seen := {ino};
      while stack != []
        invariant start == [] ==> stack == [] && inodes == old(inodes) && pathToInode == old(pathToInode)
        invariant Wf(t) ==> WorkOk(t, ino, seen, stack) && ino in seen
        invariant Wf(t) ==> RemoveDone(t, ino, pe, seen, inodes, pathToInode)
        decreases inodes.Keys, |stack|
      {
        var childIno := stack[|stack| - 1];
        RemoveStep(t, ino, pe, seen, stack, inodes, pathToInode);
        stack := stack[..|stack| - 1];
        if childIno in inodes {
          var child := inodes[childIno];
          inodes := inodes - {childIno};
          pathToInode := pathToInode - {child.fullPath};
          stack := stack + Inos(child.children);
          seen := seen + {childIno};
        }
      }
      if Wf(t) { WorkDone(t, ino, seen, stack); }
    }

    // ----- unlink_one --------------------------------------------------------------

    /** Drops one directory entry by name; a file whose last link goes stays in the table as an orphan. */
    method UnlinkOne(parent: Ino, name: string) returns (r: Option<(bool, Entry)>)
      requires Loose(State())
      modifies this`inodes, this`pathToInode
      ensures parent !in old(inodes) || name !in old(inodes)[parent].childIndex ==> r == None && State() == old(State())
      ensures parent in old(inodes) && name in old(inodes)[parent].childIndex ==>
        var c := old(inodes)[parent].childIndex[name];
        && c in old(inodes) && c != ROOT_INODE && Live(old(State()), c) && State() == UnlinkSpec(old(State()), c)
        && r == Some((inodes[c].nlink == 0, inodes[c]))
    {
      if parent !in inodes || name !in inodes[parent].childIndex { return None; }
      ghost var t := State();
      var child := inodes[parent].childIndex[name];
      var fullPath := ChildPath(inodes[parent].fullPath, name);
      assert DownOk(t, parent) && EdgeOk(t, child);
      LooseParentIsOther(t, child);
      inodes := inodes[parent := inodes[parent].RemoveChildByName(name)];
      pathToInode := pathToInode - {fullPath};
      var entry := inodes[child];
      entry := entry.(nlink := SaturatingSub(entry.nlink, 1));
      inodes := inodes[child := entry];
      UnlinkIs(t, parent, name, State());
      r := Some((entry.nlink == 0, entry));
    }

    // ----- eviction -----------------------------------------------------------------

    /** A file goes when it is linked and clean, has no pending deletes, and the kernel knows nothing of it.
        Everything else stays as it is. */
    method EvictIfSafe(ino: Ino) returns (evicted: bool)
      requires Valid()
      modifies this`inodes, this`pathToInode
      ensures ino !in old(inodes) ==> !evicted
      ensures ino in old(inodes) ==>
        var e := old(inodes)[ino];
        evicted <==> e.kind.File? && e.nlink > 0 && e.meta.dirtyGeneration == 0 && e.meta.pendingDeletes == []
                     && e.eviction.nlookup == 0
      ensures evicted ==> ino !in inodes && old(inodes)[ino].fullPath !in pathToInode
      ensures forall i :: i in old(inodes) && (i != ino || !evicted) ==>
        i in inodes && inodes[i].meta == old(inodes)[i].meta && inodes[i].eviction == old(inodes)[i].eviction
      ensures forall p :: p in old(pathToInode) && (old(pathToInode)[p] != ino || !evicted) ==>
        p in pathToInode && pathToInode[p] == old(pathToInode)[p]
      ensures State() == if evicted then EvictSpec(old(State()), {ino}, {old(inodes)[ino].parent}) else old(State())
      ensures Valid()
    {
      evicted := ino in inodes && Evictable(inodes[ino]);
      if evicted {
        ghost var t := State();
        var entry := inodes[ino];
        inodes := inodes - {ino};
        pathToInode := pathToInode - {entry.fullPath};
        assert UpOk(t, ino);
        ParentIsShorter(t, ino);
        if entry.parent in inodes {
          var parent := inodes[entry.parent].RemoveChildByIno(ino);
          inodes := inodes[entry.parent := parent.(childrenLoaded := false)];
        }
        EvictOneIs(t, ino, inodes[entry.parent], State());
        EvictKeepsWf(t, {ino}, {t.inodes[ino].parent});
        EvictFrame(t, {ino}, {t.inodes[ino].parent});
        DropOwnPath(t, ino);
      }
    }

    /** Of the requested inodes exactly the linked, clean files go that have no pending deletes, that the kernel
        knows nothing of and that nobody has open; each is reported once, and everything else stays. */
    method EvictBatchIfSafe(inos: seq<Ino>) returns (evicted: seq<Ino>)
      requires Valid()
      modifies this`inodes, this`pathToInode
      ensures forall i :: i in old(inodes) ==>
        var e := old(inodes)[i];
        i !in inodes <==> i in inos && e.kind.File? && e.nlink > 0 && e.meta.dirtyGeneration == 0
                          && e.meta.pendingDeletes == [] && e.eviction.nlookup == 0 && e.eviction.openHandles == 0
      ensures forall i :: i in evicted <==> i in old(inodes) && i !in inodes
      ensures forall i :: i in inodes ==>
        i in old(inodes) && inodes[i].meta == old(inodes)[i].meta && inodes[i].eviction == old(inodes)[i].eviction
      ensures forall p :: p in pathToInode <==> p in old(pathToInode) && old(pathToInode)[p] in inodes
      ensures forall p :: p in pathToInode ==> pathToInode[p] == old(pathToInode)[p]
      ensures var targets := BatchTargets(old(State()), inos);
              && State() == EvictSpec(old(State()), targets, ParentsOf(old(State()), targets))
              && Distinct(evicted) && SetOf(evicted) == targets
      ensures Valid()
    {
      hide Wf, BatchTargets, Unindexed, Swept, EvictSpec, Grouped, FilesWithParents, ParentsOf;
      ghost var t := State();
      ghost var targets := BatchTargets(t, inos);
      TargetsAre(t, inos);
      var byParent := GroupByParent(inos);
      TargetsHaveParents(t, inos);
      evicted := EvictGroups(byParent, t, targets);
      ghost var indexed := inodes;
      SweepParents(byParent, t, targets);
      BatchFinish(t, inos, byParent, indexed, inodes, pathToInode);
      EvictFrame(t, targets, ParentsOf(t, targets));
      PathsLeadToInodes(t);
    }

    method GroupByParent(inos: seq<Ino>) returns (byParent: map<Ino, set<Ino>>)
      ensures Grouped(State(), BatchTargets(State(), inos), byParent)
    {
      byParent := map[];
      for k := 0 to |inos|
        invariant Grouped(State(), BatchTargets(State(), inos[..k]), byParent)
      {
        assert inos[..k + 1] == inos[..k] + [inos[k]];
        GroupMore(State(), inos[..k], inos[k], byParent);
        var ino := inos[k];
        if ino in inodes && BatchEvictable(inodes[ino]) {
          var parent := inodes[ino].parent;
          byParent := byParent[parent := (if parent in byParent then byParent[parent] else {}) + {ino}];
        }
      }
      assert inos[..|inos|] == inos;
    }

    /** First sweep: the files leave both maps and the name index of their parent. */
    method EvictGroups(byParent: map<Ino, set<Ino>>, ghost t: Table, ghost targets: set<Ino>)
      returns (evicted: seq<Ino>)
      requires Wf(t) && State() == t && Grouped(t, targets, byParent) && FilesWithParents(t, targets)
      modifies this`inodes, this`pathToInode
      ensures Unindexed(t, targets, inodes, pathToInode)
      ensures Distinct(evicted) && SetOf(evicted) == targets
    {
      evicted := [];
      var parents := Elements(byParent.Keys);
      GroupsStart(t, targets, byParent, parents);
      for k := 0 to |parents|
        invariant Unindexed(t, SetOf(evicted), inodes, pathToInode)
        invariant Distinct(evicted) && GroupsGone(t, targets, SetOf(parents[..k]), SetOf(evicted))
      {
        NextGroup(t, targets, byParent, parents, k, SetOf(evicted));
        var group := Elements(byParent[parents[k]]);
        DistinctAppend(evicted, group);
        GoneAfterAll(SetOf(evicted), group);
        EvictGroup(parents[k], group, t, SetOf(evicted));
        evicted := evicted + group;
      }
      WholePrefix(parents);
      AllGroupsGone(t, targets, byParent, parents, SetOf(evicted));
    }

    method EvictGroup(parent: Ino, group: seq<Ino>, ghost t: Table, ghost gone: set<Ino>)
      requires Wf(t) && GroupOk(t, group, gone, parent)
      requires Unindexed(t, gone, inodes, pathToInode)
      modifies this`inodes, this`pathToInode
      ensures Unindexed(t, GoneAfter(gone, group, |group|), inodes, pathToInode)
    {
      for k := 0 to |group|
        invariant Unindexed(t, GoneAfter(gone, group, k), inodes, pathToInode)
      {
        EvictIndexed(group[k], parent, t, gone, group, k);
      }
    }

    method EvictIndexed(ino: Ino, parent: Ino, ghost t: Table, ghost gone: set<Ino>, ghost group: seq<Ino>,
          ghost k: nat)
      requires Wf(t) && GroupOk(t, group, gone, parent) && k < |group| && ino == group[k]
      requires Unindexed(t, GoneAfter(gone, group, k), inodes, pathToInode)
      modifies this`inodes, this`pathToInode
      ensures Unindexed(t, GoneAfter(gone, group, k + 1), inodes, pathToInode)
    {
      OneOfGroup(t, group, gone, k, parent, inodes);
      UnindexOne(t, GoneAfter(gone, group, k), inodes, pathToInode, ino);
      if ino in inodes {
        var entry := inodes[ino];
        inodes := inodes - {ino};
        pathToInode := pathToInode - {entry.fullPath};
        if parent in inodes {
          inodes := inodes[parent := inodes[parent].(childIndex := inodes[parent].childIndex - {entry.name})];
        }
      }
    }

    /** Second sweep: one filtering pass over the child list of each parent. */
    method SweepParents(byParent: map<Ino, set<Ino>>, ghost t: Table, ghost targets: set<Ino>)
      requires Wf(t) && Grouped(t, targets, byParent) && FilesWithParents(t, targets)
      requires Unindexed(t, targets, inodes, pathToInode)
      modifies this`inodes
      ensures Swept(t, targets, byParent.Keys, inodes)
    {
      var parents := Elements(byParent.Keys);
      WholePrefix(parents);
      for k := 0 to |parents|
        invariant Swept(t, targets, SetOf(parents[..k]), inodes)
      {
        var parent := parents[k];
        PrefixGrows(parents, k);
        assert parent in SetOf(parents);
        GroupParentIsDir(t, targets, byParent, parent);
        GroupIsLocal(t, targets, byParent, parent);
        if parent in inodes {
          var e := inodes[parent];
          inodes := inodes[parent := e.(children := FilterOut(e.children, byParent[parent]), childrenLoaded := false)];
        }
      }
    }

    /** Removes an orphan, and its path unless the path now belongs to a recreated file. */
    method RemoveOrphan(ino: Ino) returns (removed: bool)
      requires Valid()
      modifies this`inodes, this`pathToInode
      ensures removed <==> ino in old(inodes) && old(inodes)[ino].nlink == 0
      ensures State() == if removed then Detach(old(State()), {ino}, {}) else old(State())
      ensures Valid()
    {
      removed := ino in inodes && inodes[ino].nlink == 0;
      if removed {
        ghost var t := State();
        var path := inodes[ino].fullPath;
        inodes := inodes - {ino};
        pathToInode := if path in pathToInode && pathToInode[path] == ino then pathToInode - {path} else pathToInode;
        OrphanIs(t, ino, State());
        OrphanKeepsWf(t, ino);
      }
    }

    // ----- rename ---------------------------------------------------------------------

    method MoveChild(ino: Ino, oldParent: Ino, oldName: string, newParent: Ino, newName: string)
      requires ino in inodes && newParent in inodes && oldParent in inodes && oldParent != ino && newParent != ino
      requires inodes[ino].parent == oldParent && inodes[ino].name == oldName
      modifies this`inodes
      ensures inodes.Keys == old(inodes.Keys)
      ensures forall i :: i in inodes ==> inodes[i] == Stepped(old(State()), ino, newParent, newName, i)
    {
      var isDir := ino in inodes && inodes[ino].kind == Directory;
      if oldParent in inodes {
        inodes := inodes[oldParent := inodes[oldParent].RemoveChildByName(oldName)];
      }
      if newParent in inodes {
        inodes := inodes[newParent := inodes[newParent].AddChild(ino, newName)];
      }
      if isDir && oldParent != newParent {
        if oldParent in inodes {
          inodes := inodes[oldParent := inodes[oldParent].(nlink := SaturatingSub(inodes[oldParent].nlink, 1))];
        }
        if newParent in inodes {
          inodes := inodes[newParent := inodes[newParent].(nlink := inodes[newParent].nlink + 1)];
        }
      }
      if ino in inodes {
        inodes := inodes[ino := inodes[ino].(parent := newParent, name := newName)];
      }
    }

    /** Gives `inode` its new path, and every inode below it the path that follows from it. */
    method UpdateSubtreePaths(inode: Ino, newFullPath: string,
                              ghost t: Table, ghost moved: map<Ino, Entry>, ghost top: Ino, ghost newPath: string,
                              ghost done: set<Ino>)
      requires RebaseOk(t, moved, top, newPath) && Rebasing(t, moved, top, newPath, done, inodes, pathToInode)
      requires InSubtree(t, top, inode) && newFullPath == Rebased(t, top, newPath, inode)
      requires done <= Subtree(t, top) && done !! Subtree(t, inode)
      modifies this`inodes, this`pathToInode
      ensures Rebasing(t, moved, top, newPath, done + Subtree(t, inode), inodes, pathToInode)
      decreases Subtree(t, inode)
    {
      assert inode in Subtree(t, inode);
      RebaseOne(t, moved, top, newPath, done, inodes, pathToInode, inode);
      if inode in inodes {
        pathToInode := pathToInode - {inodes[inode].fullPath};
        inodes := inodes[inode := inodes[inode].(fullPath := newFullPath)];
        pathToInode := pathToInode[newFullPath := inode];
        UpdateChildPaths(inodes[inode].children, newFullPath, t, moved, top, newPath, done, inode);
        AllChildren(t, inode);
      }
    }

    method UpdateChildPaths(children: seq<DirChild>, newFullPath: string,
                            ghost t: Table, ghost moved: map<Ino, Entry>, ghost top: Ino, ghost newPath: string,
                            ghost done: set<Ino>, ghost inode: Ino)
      requires RebaseOk(t, moved, top, newPath) && InSubtree(t, top, inode) && children == t.inodes[inode].children
      requires newFullPath == Rebased(t, top, newPath, inode)
      requires done <= Subtree(t, top) && done !! Subtree(t, inode)
      requires Rebasing(t, moved, top, newPath, done + {inode}, inodes, pathToInode)
      modifies this`inodes, this`pathToInode
      ensures Rebasing(t, moved, top, newPath, done + Below(t, inode, children, |children|), inodes, pathToInode)
      decreases Subtree(t, inode), 0
    {
      hide Rebasing, Rebased;
      for k := 0 to |children|
        invariant Rebasing(t, moved, top, newPath, done + Below(t, inode, children, k), inodes, pathToInode)
      {
        NextChild(t, top, newPath, inode, k, done);
        UpdateSubtreePaths(children[k].ino, ChildPath(newFullPath, children[k].name), t, moved, top, newPath,
                           done + Below(t, inode, children, k));
      }
    }

    /** The two steps of a rename restore the tree and rebase exactly the moved subtree. */
    method Rename(ino: Ino, newParent: Ino, newName: string)
      requires Valid() && RenameOk(State(), ino, newParent, newName)
      modifies this`inodes, this`pathToInode
      ensures IsRenamed(old(State()), ino, newParent, newName, State())
      ensures Valid()
    {
      hide Wf, MovedEntry, Stepped, Rebasing, IsRenamed, RebaseOk;
      ghost var t := State();
      MoveAll(t, ino, newParent, newName);
      MoveChild(ino, inodes[ino].parent, inodes[ino].name, newParent, newName);
      var newFullPath := ChildPath(inodes[newParent].fullPath, newName);
      ghost var moved := inodes;
      RebaseBegins(t, ino, newParent, newName, moved);
      UpdateSubtreePaths(ino, newFullPath, t, moved, ino, newFullPath, {});
      RebaseEnds(t, ino, newParent, newName, moved, State());
      RenameKeepsWf(t, ino, newParent, newName, State());
    }

    // ----- remote changes ---------------------------------------------------------------

    method UpdateRemoteFile(ino: Ino, newHash: Option<string>, newEtag: Option<string>, newSize: nat, newMtime: int)
      returns (updated: bool)
      modifies this`inodes
      ensures updated <==> ino in old(inodes) && !old(inodes)[ino].IsDirty()
      ensures inodes.Keys == old(inodes.Keys)
      ensures forall i :: i in inodes && i != ino ==> inodes[i] == old(inodes)[i]
      ensures ino in inodes ==>
        inodes[ino] == old(inodes)[ino].(meta := old(inodes)[ino].meta.Refresh(newHash, newEtag, newSize, newMtime))
    {
      if ino !in inodes || inodes[ino].IsDirty() { return false; }
      var entry := inodes[ino];
      inodes := inodes[ino := entry.(meta := entry.meta.(xetHash := newHash, etag := newEtag, size := newSize,
                                                         mtime := newMtime, stagingIsCurrent := false))];
      updated := true;
    }

    method MergeRemoteFile(ino: Ino, hash: Option<string>, size: Option<nat>, mtime: Option<int>)
      returns (updated: bool)
      modifies this`inodes
      ensures updated <==> ino in old(inodes) && !old(inodes)[ino].IsDirty()
      ensures inodes.Keys == old(inodes.Keys)
      ensures forall i :: i in inodes && i != ino ==> inodes[i] == old(inodes)[i]
      ensures ino in inodes ==>
        inodes[ino] == old(inodes)[ino].(meta := old(inodes)[ino].meta.Merge(hash, size, mtime))
    {
      if ino !in inodes || inodes[ino].IsDirty() { return false; }
      var meta := inodes[ino].meta;
      if hash.Some? { meta := meta.(xetHash := hash); }
      if size.Some? { meta := meta.(size := size.value); }
      if mtime.Some? { meta := meta.(mtime := mtime.value); }
      inodes := inodes[ino := inodes[ino].(meta := meta.(stagingIsCurrent := false))];
      updated := true;
    }

    method InvalidateChildren(ino: Ino)
      modifies this`inodes
      ensures inodes.Keys == old(inodes.Keys)
      ensures forall i :: i in inodes ==>
        inodes[i] == if i == ino then old(inodes)[i].(childrenLoaded := false) else old(inodes)[i]
    {
      if ino in inodes { inodes := inodes[ino := inodes[ino].(childrenLoaded := false)]; }
    }

    /** Walks up the path until a directory of the table answers. */
    method NearestDirAncestor(path: string) returns (dir: Ino, dirPath: string)
      ensures (dir, dirPath) == NearestDir(State(), path)
    {
      var ancestor := path;
      while true
        invariant NearestDir(State(), ancestor) == NearestDir(State(), path)
        decreases |ancestor|
      {
        ParentPrefixFacts(ancestor);
        ancestor := ParentPrefix(ancestor);
        if ancestor in pathToInode && pathToInode[ancestor] in inodes
            && inodes[pathToInode[ancestor]].kind == Directory {
          return inodes[pathToInode[ancestor]].inode, ancestor;
        }
        if ancestor == "" { return ROOT_INODE, ""; }
      }
    }

    // ----- queries -----------------------------------------------------------------

    /** True exactly when some inode of the subtree is dirty or open. */
    method HasDirtyOrOpenDescendants(ino: Ino) returns (r: bool)
      requires Valid()
      ensures r <==> exists i :: i in Subtree(State(), ino) && (inodes[i].IsDirty() || inodes[i].IsOpen())
    {
      ghost var t := State();
      if ino !in inodes {
        NothingBelowMissing(t, ino);
        return false;
      }
      var stack := [ino];
      ghost var seen: set<Ino> := {};
      WorkStart(t, ino);
      while stack != []
        invariant WorkOk(t, ino, seen, stack)
        invariant forall i :: i in seen ==> !inodes[i].IsDirty() && !inodes[i].IsOpen()
        decreases inodes.Keys - seen, |stack|
      {
        var current := stack[|stack| - 1];
        WorkStep(t, ino, seen, stack);
        assert current in stack && InSubtree(t, ino, current);
        stack := stack[..|stack| - 1];
        if inodes[current].IsDirty() || inodes[current].IsOpen() { return true; }
        stack := stack + Inos(inodes[current].children);
        seen := seen + {current};
      }
      WorkDone(t, ino, seen, stack);
      r := false;
    }

    /** True exactly when some inode strictly below `ino` is clean. */
    method HasCleanDescendants(ino: Ino) returns (r: bool)
      requires Valid()
      ensures r <==> exists i :: i in Subtree(State(), ino) && i != ino && !inodes[i].IsDirty()
    {
      ghost var t := State();
      if ino !in inodes {
        NothingBelowMissing(t, ino);
        return false;
      }
      var stack := Inos(inodes[ino].children);
      ghost var seen: set<Ino> := {ino};
      ChildrenStart(t, ino);
      while stack != []
        invariant WorkOk(t, ino, seen, stack) && ino in seen
        invariant forall i :: i in seen && i != ino ==> inodes[i].IsDirty()
        decreases inodes.Keys - seen, |stack|
      {
        var current := stack[|stack| - 1];
        WorkStep(t, ino, seen, stack);
        assert current in stack && InSubtree(t, ino, current);
        stack := stack[..|stack| - 1];
        if !inodes[current].IsDirty() { return true; }
        stack := stack + Inos(inodes[current].children);
        seen := seen + {current};
      }
      WorkDone(t, ino, seen, stack);
      r := false;
    }
  }
}
