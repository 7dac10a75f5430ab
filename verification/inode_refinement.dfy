/** Why each table operation, statement by statement, does what its specification says. */
module InodeRefinement {
  import opened Options
  import opened Iteration
  import opened InodeModel
  import opened InodeLemmas
  import opened InodeWorklist
  import opened InodeSpecs
  import opened InodeLoose

  /** The entry that `insert` builds. */
  function NewEntry(ino: Ino, parent: Ino, name: string, fullPath: string, kind: InodeKind, size: nat, mtime: int,
                    xetHash: Option<string>, touchSeq: nat): Entry {
    Entry(ino, parent, name, fullPath, kind, if kind == Directory then 2 else 1, false, [], map[],
          FileMeta(size, mtime, xetHash, false, None, 0, []), EvictionState(0, touchSeq, 0))
  }

  // ----- insert and remove -----------------------------------------------------------

  lemma InsertedIs(t: Table, e: Entry, t': Table)
    requires var added := t.inodes[e.inode := e];
             t'.inodes == if e.parent !in added then added
                          else
                            var listed := added[e.parent := added[e.parent].AddChild(e.inode, e.name)];
                            if e.kind.Directory?
                            then listed[e.parent := listed[e.parent].(nlink := listed[e.parent].nlink + 1)] else listed
    requires t'.paths == t.paths[e.fullPath := e.inode] && t'.nextInode == e.inode.number + 1
    ensures t' == Inserted(t, e)
  {
    assert t'.inodes == Inserted(t, e).inodes;
  }

  /** Part-way through a removal: `seen` is out of both maps and the parent's entry is now `pe`. */
  ghost predicate RemoveDone(t: Table, ino: Ino, pe: Entry, seen: set<Ino>, inodes: map<Ino, Entry>,
        paths: map<string, Ino>)
    requires ino in t.inodes
  {
    && inodes.Keys == t.inodes.Keys - seen
    && (forall i :: i in inodes ==> inodes[i] == if i == t.inodes[ino].parent then pe else t.inodes[i])
    && (forall p :: p in paths <==> p in t.paths && t.paths[p] !in seen && p != t.inodes[ino].fullPath)
    && (forall p :: p in paths ==> paths[p] == t.paths[p])
  }

  /** What the parent's entry becomes. */
  ghost function ParentAfter(t: Table, ino: Ino): Entry
    requires ino in t.inodes
  {
    var e := t.inodes[ino];
    DetachChild(if e.parent in t.inodes then t.inodes[e.parent] else e, ino, e.kind.Directory?)
  }

  lemma RemoveBegins(t: Table, ino: Ino, inodes: map<Ino, Entry>, paths: map<string, Ino>)
    requires Wf(t) && ino in t.inodes
    requires var e := t.inodes[ino];
             var rest := t.inodes - {ino};
             inodes == if e.parent !in rest then rest
                       else rest[e.parent := DetachChild(rest[e.parent], ino, e.kind.Directory?)]
    requires paths == t.paths - {t.inodes[ino].fullPath}
    ensures RemoveDone(t, ino, ParentAfter(t, ino), {ino}, inodes, paths)
  {
  }

  lemma RemoveNext(t: Table, ino: Ino, pe: Entry, seen: set<Ino>, inodes: map<Ino, Entry>, paths: map<string, Ino>,
        x: Ino)
    requires Wf(t) && ino in t.inodes && RemoveDone(t, ino, pe, seen, inodes, paths)
    requires ino in seen && x in t.inodes && x !in seen && InSubtree(t, ino, x)
    ensures x in inodes && inodes[x] == t.inodes[x]
    ensures RemoveDone(t, ino, pe, seen + {x}, inodes - {x}, paths - {t.inodes[x].fullPath})
  {
    ParentOutside(t, ino);
    ParentIsShorter(t, x);
    assert Live(t, x);
  }

  lemma RemoveStep(t: Table, ino: Ino, pe: Entry, seen: set<Ino>, stack: seq<Ino>, inodes: map<Ino, Entry>,
                   paths: map<string, Ino>)
    requires Wf(t) && ino in t.inodes && WorkOk(t, ino, seen, stack) && stack != [] && ino in seen
    requires RemoveDone(t, ino, pe, seen, inodes, paths)
    ensures var x := stack[|stack| - 1];
            && x in inodes
            && WorkOk(t, ino, seen + {x}, stack[..|stack| - 1] + Inos(inodes[x].children))
            && RemoveDone(t, ino, pe, seen + {x}, inodes - {x}, paths - {inodes[x].fullPath})
  {
    var x := stack[|stack| - 1];
    WorkStep(t, ino, seen, stack);
    assert x in stack;
    RemoveNext(t, ino, pe, seen, inodes, paths, x);
  }

  lemma ChildrenStart(t: Table, ino: Ino)
    requires Wf(t) && ino in t.inodes
    ensures WorkOk(t, ino, {ino}, Inos(t.inodes[ino].children))
  {
    WorkStart(t, ino);
    WorkStep(t, ino, {}, [ino]);
    assert [ino][..0] + Inos(t.inodes[ino].children) == Inos(t.inodes[ino].children) && {} + {ino} == {ino};
  }

  lemma ParentOutside(t: Table, ino: Ino)
    requires Wf(t) && ino in t.inodes
    ensures t.inodes[ino].parent != ino ==> !InSubtree(t, ino, t.inodes[ino].parent)
  {
    if t.inodes[ino].parent != ino {
      assert RootOk(t);
      if Live(t, ino) {
        ParentIsShorter(t, ino);
        if InSubtree(t, ino, t.inodes[ino].parent) { PathsGrow(t, ino, t.inodes[ino].parent); }
      } else {
        OrphanSubtree(t, ino);
        assert t.inodes[ino].parent !in Subtree(t, ino);
      }
    }
  }

  /** Dropping the path of a live inode drops exactly what is mapped to it. */
  lemma DropOwnPath(t: Table, c: Ino)
    requires MappedOk(t) && Live(t, c)
    ensures forall p :: p in t.paths ==> (p == t.inodes[c].fullPath <==> t.paths[p] == c)
  {
  }

  lemma RemovedEntry(t: Table, ino: Ino, i: Ino)
    requires Wf(t) && ino in t.inodes && i in t.inodes && i !in Subtree(t, ino)
    ensures Detach(t, Subtree(t, ino), {}).inodes[i]
         == if i == t.inodes[ino].parent then ParentAfter(t, ino) else t.inodes[i]
  {
    DetachOutside(t, ino, i);
  }

  lemma RemoveAssemble(t: Table, ino: Ino, pe: Entry, gone: set<Ino>, d: Table, inodes: map<Ino, Entry>,
        paths: map<string, Ino>)
    requires ino in t.inodes && RemoveDone(t, ino, pe, gone, inodes, paths)
    requires d.inodes.Keys == t.inodes.Keys - gone
    requires forall i :: i in t.inodes && i !in gone ==>
      d.inodes[i] == if i == t.inodes[ino].parent then pe else t.inodes[i]
    requires forall p :: p in d.paths <==> p in t.paths && t.paths[p] !in gone
    requires forall p :: p in d.paths ==> d.paths[p] == t.paths[p]
    ensures inodes == d.inodes && paths == d.paths - {t.inodes[ino].fullPath}
  {
  }

  lemma DetachMaps(t: Table, gone: set<Ino>, orphaned: set<Ino>)
    ensures Detach(t, gone, orphaned).inodes.Keys == t.inodes.Keys - gone
    ensures var d := Detach(t, gone, orphaned);
            && (forall p :: p in d.paths <==> p in t.paths && t.paths[p] !in gone && t.paths[p] !in orphaned)
            && (forall p :: p in d.paths ==> d.paths[p] == t.paths[p])
  {
  }

  lemma RemoveEnds(t: Table, ino: Ino, inodes: map<Ino, Entry>, paths: map<string, Ino>)
    requires Wf(t) && ino in t.inodes && RemoveDone(t, ino, ParentAfter(t, ino), Subtree(t, ino), inodes, paths)
    ensures Table(inodes, paths, t.nextInode) == RemoveSpec(t, ino)
  {
    var gone := Subtree(t, ino);
    var pe := ParentAfter(t, ino);
    DetachMaps(t, gone, {});
    forall i | i in t.inodes && i !in gone
      ensures Detach(t, gone, {}).inodes[i] == if i == t.inodes[ino].parent then pe else t.inodes[i]
    {
      RemovedEntry(t, ino, i);
    }
    RemoveAssemble(t, ino, pe, gone, Detach(t, gone, {}), inodes, paths);
  }

  lemma NothingBelowMissing(t: Table, ino: Ino)
    requires Wf(t) && ino !in t.inodes
    ensures Subtree(t, ino) == {}
  {
    forall i | i in t.inodes ensures !InSubtree(t, ino, i) {
      NotBelowMissing(t, ino, i);
    }
  }

  lemma {:induction false} NotBelowMissing(t: Table, ino: Ino, i: Ino)
    requires ino !in t.inodes
    ensures !InSubtree(t, ino, i)
    decreases if i in t.inodes then |t.inodes[i].fullPath| else 0
  {
    if i in t.inodes && t.inodes[i].parent in t.inodes
        && |t.inodes[t.inodes[i].parent].fullPath| < |t.inodes[i].fullPath| {
      NotBelowMissing(t, ino, t.inodes[i].parent);
    }
  }

  /** Only the parent of `c` lists it. */
  lemma DetachOneOutside(t: Table, gone: set<Ino>, orphaned: set<Ino>, c: Ino, i: Ino)
    requires Wf(t) && c in t.inodes && (gone == {} || !t.inodes[c].kind.Directory?) && gone + orphaned == {c}
    requires i in t.inodes && i != c
    ensures DetachEntry(t, gone, orphaned, i)
         == if Live(t, c) && i == t.inodes[c].parent then t.inodes[i].RemoveChildByIno(c) else t.inodes[i]
  {
    hide DetachEntry, Wf;
    WfIsLoose(t);
    LeafEntry(t, gone, orphaned, c, i);
    if !Live(t, c) { OrphanIsUnlisted(t, i, c); }
  }

  lemma OrphanIsUnlisted(t: Table, d: Ino, c: Ino)
    requires Wf(t) && d in t.inodes && c in t.inodes && !Live(t, c)
    ensures t.inodes[d].RemoveChildByIno(c) == t.inodes[d]
  {
    ChildIff(t, d, c);
    hide Wf;
    var children := t.inodes[d].children;
    assert forall k :: 0 <= k < |children| ==> children[k] in children;
  }

  lemma UnlinkedEntry(t: Table, parent: Ino, name: string, c: Ino, i: Ino)
    requires Loose(t) && parent in t.inodes && name in t.inodes[parent].childIndex
        && c == t.inodes[parent].childIndex[name]
    requires i in t.inodes && c in t.inodes && Live(t, c) && t.inodes[c].parent == parent && c != parent
    ensures UnlinkSpec(t, c).inodes[i]
         == if i == c then t.inodes[c].(nlink := SaturatingSub(t.inodes[c].nlink, 1))
            else if i == parent then t.inodes[parent].RemoveChildByName(name)
            else t.inodes[i]
  {
    if i == c {
      OwnEntry(t, c);
    } else {
      assert EdgeOk(t, parent);
      LeafEntry(t, {}, {c}, c, i);
      RemoveChildByNameIsFilter(t.inodes[parent], name);
    }
  }

  lemma UnlinkIs(t: Table, parent: Ino, name: string, t': Table)
    requires Loose(t) && parent in t.inodes && name in t.inodes[parent].childIndex
    requires t'.inodes.Keys == t.inodes.Keys && t'.nextInode == t.nextInode
    requires var c := t.inodes[parent].childIndex[name];
             && c in t.inodes && c != parent && Live(t, c) && t.inodes[c].parent == parent
             && t.inodes[c].fullPath == ChildPath(t.inodes[parent].fullPath, name)
             && t'.inodes[parent] == t.inodes[parent].RemoveChildByName(name)
             && t'.inodes[c] == t.inodes[c].(nlink := SaturatingSub(t.inodes[c].nlink, 1))
             && (forall i :: i in t.inodes && i != c && i != parent ==> t'.inodes[i] == t.inodes[i])
    requires t'.paths == t.paths - {ChildPath(t.inodes[parent].fullPath, name)}
    ensures t' == UnlinkSpec(t, t.inodes[parent].childIndex[name])
  {
    var c := t.inodes[parent].childIndex[name];
    DropOwnPath(t, c);
    forall i | i in t.inodes ensures t'.inodes[i] == UnlinkSpec(t, c).inodes[i] {
      UnlinkedEntry(t, parent, name, c, i);
    }
    SameTables(t, c, UnlinkSpec(t, c), t');
  }

  /** Two tables that agree entry by entry and drop the same path are equal. */
  lemma SameTables(t: Table, c: Ino, u: Table, t': Table)
    requires c in t.inodes && u.nextInode == t'.nextInode
    requires u.inodes.Keys == t'.inodes.Keys && forall i :: i in u.inodes ==> t'.inodes[i] == u.inodes[i]
    requires forall p :: p in u.paths <==> p in t.paths && t.paths[p] != c
    requires forall p :: p in u.paths ==> u.paths[p] == t.paths[p]
    requires t'.paths == t.paths - {t.inodes[c].fullPath}
    requires forall p :: p in t.paths ==> (p == t.inodes[c].fullPath <==> t.paths[p] == c)
    ensures t' == u
  {
    SameMap(t'.inodes, u.inodes);
    SameMap(t'.paths, u.paths);
  }

  /** An inode does not list itself. */
  lemma OwnEntry(t: Table, c: Ino)
    requires Loose(t) && c in t.inodes && t.inodes[c].parent != c
    ensures DetachEntry(t, {}, {c}, c) == t.inodes[c].(nlink := 0)
  {
    ListedHasParent(t, c, c);
    FilterOutNone(t.inodes[c].children, {c});
    assert {} + {c} == {c};
    SameMap(DropIndex(t.inodes[c].childIndex, {c}), t.inodes[c].childIndex);
  }

  /** Removing something that is no directory takes nothing else along, whatever state the table is in. */
  lemma LeafRemoved(t: Table, x: Ino, inodes: map<Ino, Entry>, paths: map<string, Ino>)
    requires Loose(t) && x in t.inodes && !t.inodes[x].kind.Directory?
    requires var e := t.inodes[x];
             var rest := t.inodes - {x};
             inodes == if e.parent !in rest then rest
                       else rest[e.parent := DetachChild(rest[e.parent], x, e.kind.Directory?)]
    requires paths == t.paths - {t.inodes[x].fullPath}
    ensures Table(inodes, paths, t.nextInode) == RemoveSpec(t, x)
  {
    hide Loose, RemoveSpec, Detach, DetachEntry;
    LeafSpec(t, x);
    LeafMaps(t, x);
    var d := Detach(t, {x}, {});
    forall i | i in t.inodes && i != x
      ensures d.inodes[i] == if i == t.inodes[x].parent then t.inodes[i].RemoveChildByIno(x) else t.inodes[i]
    {
      LeafDetached(t, x, i);
    }
    SameMap(inodes, d.inodes);
    SameMap(paths, d.paths - {t.inodes[x].fullPath});
  }

  lemma LeafSpec(t: Table, x: Ino)
    requires Loose(t) && x in t.inodes && !t.inodes[x].kind.Directory?
    ensures var d := Detach(t, {x}, {}); RemoveSpec(t, x) == d.(paths := d.paths - {t.inodes[x].fullPath})
  {
    LooseFileAlone(t, x);
    hide Loose, Detach, Subtree;
  }

  lemma LeafDetached(t: Table, x: Ino, i: Ino)
    requires Loose(t) && x in t.inodes && !t.inodes[x].kind.Directory? && i in t.inodes && i != x
    ensures Detach(t, {x}, {}).inodes[i]
         == if i == t.inodes[x].parent then t.inodes[i].RemoveChildByIno(x) else t.inodes[i]
  {
    hide Loose, DetachEntry;
    LeafEntry(t, {x}, {}, x, i);
  }

  /** A path that leads to `x` is the path of `x`. */
  lemma LeafMaps(t: Table, x: Ino)
    requires Loose(t) && x in t.inodes
    ensures var d := Detach(t, {x}, {});
            && d.inodes.Keys == t.inodes.Keys - {x} && d.nextInode == t.nextInode
            && (forall p :: p in d.paths <==> p in t.paths && t.paths[p] != x)
            && (forall p :: p in d.paths ==> d.paths[p] == t.paths[p])
            && (forall p :: p in t.paths && t.paths[p] == x ==> p == t.inodes[x].fullPath)
  {
  }

  lemma EvictedEntry(t: Table, ino: Ino, i: Ino)
    requires Wf(t) && Live(t, ino) && !t.inodes[ino].kind.Directory? && i in t.inodes && i != ino
    ensures EvictSpec(t, {ino}, {t.inodes[ino].parent}).inodes[i]
         == if i == t.inodes[ino].parent then t.inodes[i].RemoveChildByIno(ino).(childrenLoaded := false)
            else t.inodes[i]
  {
    DetachOneOutside(t, {ino}, {}, ino, i);
  }

  lemma EvictMaps(t: Table, evicted: set<Ino>, dirs: set<Ino>)
    ensures EvictSpec(t, evicted, dirs).inodes.Keys == t.inodes.Keys - evicted
    ensures var u := EvictSpec(t, evicted, dirs);
            && (forall p :: p in u.paths <==> p in t.paths && t.paths[p] !in evicted)
            && (forall p :: p in u.paths ==> u.paths[p] == t.paths[p])
  {
  }

  /** Eviction touches neither metadata nor handles of what stays. */
  lemma EvictFrame(t: Table, evicted: set<Ino>, dirs: set<Ino>)
    ensures var u := EvictSpec(t, evicted, dirs);
            && (forall i :: i in u.inodes <==> i in t.inodes && i !in evicted)
            && (forall i :: i in u.inodes ==>
                  u.inodes[i].meta == t.inodes[i].meta && u.inodes[i].eviction == t.inodes[i].eviction)
            && (forall p :: p in u.paths <==> p in t.paths && t.paths[p] !in evicted)
            && (forall p :: p in u.paths ==> u.paths[p] == t.paths[p])
  {
    EvictMaps(t, evicted, dirs);
    var u := EvictSpec(t, evicted, dirs);
    forall i | i in u.inodes
      ensures u.inodes[i].meta == t.inodes[i].meta && u.inodes[i].eviction == t.inodes[i].eviction
    {
      var e := DetachEntry(t, evicted, {}, i);
      assert e.meta == t.inodes[i].meta && e.eviction == t.inodes[i].eviction;
      hide DetachEntry;
      assert Detach(t, evicted, {}).inodes[i] == e;
    }
    hide EvictSpec;
  }

  lemma PathsLeadToInodes(t: Table)
    requires Wf(t)
    ensures forall p :: p in t.paths ==> t.paths[p] in t.inodes
  {
    assert PathsOk(t);
    forall p | p in t.paths ensures t.paths[p] in t.inodes { assert Live(t, t.paths[p]); }
  }

  lemma EvictOneIs(t: Table, ino: Ino, pe: Entry, t': Table)
    requires Wf(t) && Live(t, ino) && !t.inodes[ino].kind.Directory? && t.inodes[ino].parent in t.inodes
    requires pe == t.inodes[t.inodes[ino].parent].RemoveChildByIno(ino).(childrenLoaded := false)
    requires t'.inodes.Keys == t.inodes.Keys - {ino} && t'.nextInode == t.nextInode
    requires forall i :: i in t'.inodes ==> t'.inodes[i] == if i == t.inodes[ino].parent then pe else t.inodes[i]
    requires t'.paths == t.paths - {t.inodes[ino].fullPath}
    ensures t' == EvictSpec(t, {ino}, {t.inodes[ino].parent})
  {
    var u := EvictSpec(t, {ino}, {t.inodes[ino].parent});
    EvictMaps(t, {ino}, {t.inodes[ino].parent});
    forall i | i in u.inodes ensures t'.inodes[i] == u.inodes[i] {
      EvictedEntry(t, ino, i);
    }
    WfIsLoose(t);
    DropOwnPath(t, ino);
    SameTables(t, ino, u, t');
  }

  lemma OrphanIs(t: Table, ino: Ino, t': Table)
    requires Wf(t) && ino in t.inodes && t.inodes[ino].nlink == 0
    requires t'.inodes == t.inodes - {ino} && t'.nextInode == t.nextInode
    requires var path := t.inodes[ino].fullPath;
             t'.paths == if path in t.paths && t.paths[path] == ino then t.paths - {path} else t.paths
    ensures t' == Detach(t, {ino}, {})
  {
    assert LinkOk(t, ino);
    assert forall p :: p in t.paths ==> Live(t, t.paths[p]) && t.paths[p] != ino;
    hide Wf, DetachEntry;
    var d := Detach(t, {ino}, {});
    forall i | i in t'.inodes ensures i in d.inodes && t'.inodes[i] == d.inodes[i] {
      DetachOneOutside(t, {ino}, {}, ino, i);
    }
    OrphanPaths(t, ino, t', d);
    hide Detach;
    SameMap(t'.inodes, d.inodes);
  }

  lemma OrphanPaths(t: Table, ino: Ino, t': Table, d: Table)
    requires ino in t.inodes && forall p :: p in t.paths ==> t.paths[p] != ino
    requires var path := t.inodes[ino].fullPath;
             t'.paths == if path in t.paths && t.paths[path] == ino then t.paths - {path} else t.paths
    requires d == Detach(t, {ino}, {})
    ensures t'.paths == d.paths
  {
    SameMap(t'.paths, d.paths);
  }

  // ----- evict_batch_if_safe --------------------------------------------------------------

  predicate Evictable(e: Entry) {
    e.kind == File && e.eviction.nlookup == 0 && !e.IsDirty() && e.meta.pendingDeletes == [] && e.nlink > 0
  }

  /** The batch form re-checks the open handles as well. */
  predicate BatchEvictable(e: Entry) {
    Evictable(e) && !e.IsOpen()
  }

  ghost function BatchTargets(t: Table, inos: seq<Ino>): set<Ino> {
    set i | i in inos && i in t.inodes && BatchEvictable(t.inodes[i])
  }

  ghost function ParentsOf(t: Table, s: set<Ino>): set<Ino> {
    set i | i in s && i in t.inodes :: t.inodes[i].parent
  }

  /** `byParent` groups exactly the inodes of `targets`. */
  ghost predicate Grouped(t: Table, targets: set<Ino>, byParent: map<Ino, set<Ino>>) {
    && (forall p, i :: p in byParent && i in byParent[p] ==> i in targets && i in t.inodes && t.inodes[i].parent == p)
    && (forall i :: i in targets ==>
        i in t.inodes && t.inodes[i].parent in byParent && i in byParent[t.inodes[i].parent])
    && (forall p :: p in byParent ==> byParent[p] != {})
  }

  /** First sweep: `gone` is out of both maps and out of every name index. */
  ghost predicate Unindexed(t: Table, gone: set<Ino>, inodes: map<Ino, Entry>, paths: map<string, Ino>) {
    && inodes.Keys == t.inodes.Keys - gone
    && (forall i :: i in inodes ==> inodes[i] == t.inodes[i].(childIndex := DropIndex(t.inodes[i].childIndex, gone)))
    && (forall p :: p in paths <==> p in t.paths && t.paths[p] !in gone)
    && (forall p :: p in paths ==> paths[p] == t.paths[p])
  }

  lemma IndexOnlyInParent(t: Table, d: Ino, c: Ino)
    requires Wf(t) && d in t.inodes && Live(t, c) && c != ROOT_INODE
    ensures forall n :: n in t.inodes[d].childIndex ==>
      (t.inodes[d].childIndex[n] == c <==> d == t.inodes[c].parent && n == t.inodes[c].name)
  {
    assert DownOk(t, d) && UpOk(t, c);
  }

  lemma UnindexStep(t: Table, gone: set<Ino>, inodes: map<Ino, Entry>, paths: map<string, Ino>, c: Ino, d: Ino)
    requires Wf(t) && Unindexed(t, gone, inodes, paths) && Live(t, c) && c != ROOT_INODE && d in inodes && d != c
    ensures (if d == t.inodes[c].parent then inodes[d].(childIndex := inodes[d].childIndex - {t.inodes[c].name})
             else inodes[d])
         == t.inodes[d].(childIndex := DropIndex(t.inodes[d].childIndex, gone + {c}))
  {
    IndexOnlyInParent(t, d, c);
    var index := t.inodes[d].childIndex;
    assert DropIndex(index, gone + {c})
        == if d == t.inodes[c].parent then DropIndex(index, gone) - {t.inodes[c].name} else DropIndex(index, gone);
  }

  lemma UnindexOne(t: Table, gone: set<Ino>, inodes: map<Ino, Entry>, paths: map<string, Ino>, c: Ino)
    requires Wf(t) && Unindexed(t, gone, inodes, paths) && Live(t, c) && c != ROOT_INODE && c in inodes
    requires t.inodes[c].parent != c && t.inodes[c].parent in inodes
    ensures var p := t.inodes[c].parent;
            var inodes' := (inodes - {c})[p := inodes[p].(childIndex := inodes[p].childIndex - {inodes[c].name})];
            Unindexed(t, gone + {c}, inodes', paths - {inodes[c].fullPath})
  {
    var p := t.inodes[c].parent;
    var inodes' := (inodes - {c})[p := inodes[p].(childIndex := inodes[p].childIndex - {inodes[c].name})];
    forall d | d in inodes'
      ensures inodes'[d] == t.inodes[d].(childIndex := DropIndex(t.inodes[d].childIndex, gone + {c}))
    {
      UnindexStep(t, gone, inodes, paths, c, d);
    }
    DropOwnPath(t, c);
  }

  /** Second sweep: the child lists of `done` have been filtered. */
  ghost predicate Swept(t: Table, targets: set<Ino>, done: set<Ino>, inodes: map<Ino, Entry>) {
    && inodes.Keys == t.inodes.Keys - targets
    && (forall i :: i in inodes ==>
          inodes[i] == SweptEntry(t.inodes[i], targets, i in done))
  }

  ghost function SweptEntry(e: Entry, targets: set<Ino>, done: bool): Entry {
    var f := e.(childIndex := DropIndex(e.childIndex, targets));
    if done then f.(children := FilterOut(e.children, targets), childrenLoaded := false) else f
  }

  lemma GroupIsLocal(t: Table, targets: set<Ino>, byParent: map<Ino, set<Ino>>, p: Ino)
    requires Wf(t) && Grouped(t, targets, byParent) && p in t.inodes
    requires forall i :: i in targets ==> Live(t, i)
    ensures p in byParent ==> FilterOut(t.inodes[p].children, byParent[p]) == FilterOut(t.inodes[p].children, targets)
    ensures p !in byParent ==> FilterOut(t.inodes[p].children, targets) == t.inodes[p].children
  {
    forall c | c in t.inodes[p].children ensures c.ino in t.inodes && t.inodes[c.ino].parent == p {
      ChildIff(t, p, c.ino);
    }
    if p in byParent {
      FilterSame(t.inodes[p].children, byParent[p], targets);
    } else {
      FilterOutNone(t.inodes[p].children, targets);
    }
  }

  lemma BatchEntry(t: Table, targets: set<Ino>, byParent: map<Ino, set<Ino>>, i: Ino)
    requires Wf(t) && Grouped(t, targets, byParent) && i in t.inodes && i !in targets
    requires forall c :: c in targets ==> Live(t, c) && !t.inodes[c].kind.Directory?
    ensures EvictSpec(t, targets, byParent.Keys).inodes[i] == SweptEntry(t.inodes[i], targets, i in byParent)
  {
    GroupIsLocal(t, targets, byParent, i);
    assert SubDirs(t.inodes, i) * targets == {};
    assert targets + {} == targets;
  }

  lemma BatchEntries(t: Table, targets: set<Ino>, byParent: map<Ino, set<Ino>>, inodes: map<Ino, Entry>)
    requires Wf(t) && Grouped(t, targets, byParent) && Swept(t, targets, byParent.Keys, inodes)
    requires forall c :: c in targets ==> Live(t, c) && !t.inodes[c].kind.Directory?
    ensures forall i :: i in inodes ==> EvictSpec(t, targets, byParent.Keys).inodes[i] == inodes[i]
  {
    forall i | i in inodes ensures EvictSpec(t, targets, byParent.Keys).inodes[i] == inodes[i] {
      BatchEntry(t, targets, byParent, i);
    }
  }

  lemma TablesAgree(u: Table, t': Table)
    requires u.nextInode == t'.nextInode && u.inodes.Keys == t'.inodes.Keys
    requires forall i :: i in t'.inodes ==> u.inodes[i] == t'.inodes[i]
    requires forall p :: p in u.paths <==> p in t'.paths
    requires forall p :: p in u.paths ==> u.paths[p] == t'.paths[p]
    ensures u == t'
  {
    SameMap(u.inodes, t'.inodes);
    SameMap(u.paths, t'.paths);
  }

  lemma BatchIs(t: Table, targets: set<Ino>, byParent: map<Ino, set<Ino>>, t': Table)
    requires Wf(t) && Grouped(t, targets, byParent)
    requires forall c :: c in targets ==> Live(t, c) && !t.inodes[c].kind.Directory?
    requires Swept(t, targets, byParent.Keys, t'.inodes) && t'.nextInode == t.nextInode
    requires forall p :: p in t'.paths <==> p in t.paths && t.paths[p] !in targets
    requires forall p :: p in t'.paths ==> t'.paths[p] == t.paths[p]
    ensures t' == EvictSpec(t, targets, byParent.Keys)
  {
    EvictMaps(t, targets, byParent.Keys);
    BatchEntries(t, targets, byParent, t'.inodes);
    TablesAgree(EvictSpec(t, targets, byParent.Keys), t');
  }

  lemma BatchTargetsAreFiles(t: Table, inos: seq<Ino>)
    requires Wf(t)
    ensures forall i :: i in BatchTargets(t, inos) ==>
      && Live(t, i) && !t.inodes[i].kind.Directory? && i != ROOT_INODE
      && t.inodes[i].parent in t.inodes && t.inodes[t.inodes[i].parent].kind.Directory?
  {
    assert RootOk(t);
    forall i | i in BatchTargets(t, inos)
      ensures t.inodes[i].parent in t.inodes && t.inodes[t.inodes[i].parent].kind.Directory? {
      assert UpOk(t, i);
    }
  }

  lemma TargetsHaveParents(t: Table, inos: seq<Ino>)
    requires Wf(t)
    ensures FilesWithParents(t, BatchTargets(t, inos))
  {
    BatchTargetsAreFiles(t, inos);
  }

  lemma TargetsAre(t: Table, inos: seq<Ino>)
    ensures forall i :: i in BatchTargets(t, inos) <==>
      i in t.inodes && i in inos && t.inodes[i].kind.File? && t.inodes[i].nlink > 0
      && t.inodes[i].meta.dirtyGeneration == 0 && t.inodes[i].meta.pendingDeletes == []
      && t.inodes[i].eviction.nlookup == 0 && t.inodes[i].eviction.openHandles == 0
  {
  }

  lemma GroupMore(t: Table, inos: seq<Ino>, ino: Ino, byParent: map<Ino, set<Ino>>)
    requires Grouped(t, BatchTargets(t, inos), byParent)
    ensures ino in t.inodes && BatchEvictable(t.inodes[ino]) ==>
      var p := t.inodes[ino].parent;
      Grouped(t, BatchTargets(t, inos + [ino]),
              byParent[p := (if p in byParent then byParent[p] else {}) + {ino}])
    ensures !(ino in t.inodes && BatchEvictable(t.inodes[ino])) ==> Grouped(t, BatchTargets(t, inos + [ino]), byParent)
  {
    assert forall i :: i in inos + [ino] <==> i in inos || i == ino;
    if ino in t.inodes && BatchEvictable(t.inodes[ino]) {
      assert BatchTargets(t, inos + [ino]) == BatchTargets(t, inos) + {ino};
    } else {
      assert BatchTargets(t, inos + [ino]) == BatchTargets(t, inos);
    }
  }

  lemma GroupedParents(t: Table, targets: set<Ino>, byParent: map<Ino, set<Ino>>)
    requires Grouped(t, targets, byParent)
    ensures byParent.Keys == ParentsOf(t, targets)
  {
    forall p | p in byParent ensures p in ParentsOf(t, targets) {
      var i := Inhabitant(byParent[p]);
      assert i in targets;
    }
  }

  ghost predicate FilesWithParents(t: Table, targets: set<Ino>) {
    forall i :: i in targets ==>
      && Live(t, i) && !t.inodes[i].kind.Directory? && i != ROOT_INODE
      && t.inodes[i].parent in t.inodes && t.inodes[t.inodes[i].parent].kind.Directory?
  }

  lemma GroupParentIsDir(t: Table, targets: set<Ino>, byParent: map<Ino, set<Ino>>, p: Ino)
    requires Grouped(t, targets, byParent) && FilesWithParents(t, targets) && p in byParent
    ensures p in t.inodes && p !in targets
  {
    var i := Inhabitant(byParent[p]);
    assert i in targets;
  }

  /** The groups of the parents in `done` are gone. */
  ghost predicate GroupsGone(t: Table, targets: set<Ino>, done: set<Ino>, gone: set<Ino>) {
    gone <= targets && forall i :: i in targets && i in t.inodes ==> (i in gone <==> t.inodes[i].parent in done)
  }

  lemma GroupsStart(t: Table, targets: set<Ino>, byParent: map<Ino, set<Ino>>, parents: seq<Ino>)
    ensures Unindexed(t, SetOf([]), t.inodes, t.paths)
    ensures GroupsGone(t, targets, SetOf(parents[..0]), SetOf([]))
  {
    forall i | i in t.inodes ensures DropIndex(t.inodes[i].childIndex, SetOf([])) == t.inodes[i].childIndex {
    }
  }

  lemma NextGroup(t: Table, targets: set<Ino>, byParent: map<Ino, set<Ino>>, parents: seq<Ino>, k: nat, gone: set<Ino>)
    requires Grouped(t, targets, byParent) && FilesWithParents(t, targets)
    requires k < |parents| && Distinct(parents) && SetOf(parents) == byParent.Keys
    requires GroupsGone(t, targets, SetOf(parents[..k]), gone)
    ensures parents[k] in byParent
    ensures var p := parents[k];
            && (forall group :: Distinct(group) && SetOf(group) == byParent[p] ==> GroupOk(t, group, gone, p))
            && byParent[p] !! gone
            && GroupsGone(t, targets, SetOf(parents[..k + 1]), gone + byParent[p])
  {
    assert parents[k] in SetOf(parents);
    PrefixGrows(parents, k);
    var p := parents[k];
    GroupParentIsDir(t, targets, byParent, p);
    forall group | Distinct(group) && SetOf(group) == byParent[p] ensures GroupOk(t, group, gone, p) {
      assert forall i :: i in group <==> i in SetOf(group);
      Disjoint(SetOf(group), gone);
    }
    Disjoint(byParent[p], gone);
  }

  lemma AllGroupsGone(t: Table, targets: set<Ino>, byParent: map<Ino, set<Ino>>, parents: seq<Ino>, gone: set<Ino>)
    requires Grouped(t, targets, byParent) && SetOf(parents) == byParent.Keys
    requires GroupsGone(t, targets, SetOf(parents), gone)
    ensures gone == targets
  {
    SameSet(gone, targets);
  }

  lemma BatchFinish(t: Table, inos: seq<Ino>, byParent: map<Ino, set<Ino>>, indexed: map<Ino, Entry>,
                    inodes: map<Ino, Entry>, paths: map<string, Ino>)
    requires Wf(t) && Grouped(t, BatchTargets(t, inos), byParent)
    requires Unindexed(t, BatchTargets(t, inos), indexed, paths)
    requires Swept(t, BatchTargets(t, inos), byParent.Keys, inodes)
    ensures var targets := BatchTargets(t, inos);
            && Table(inodes, paths, t.nextInode) == EvictSpec(t, targets, ParentsOf(t, targets))
            && Wf(Table(inodes, paths, t.nextInode))
  {
    var targets := BatchTargets(t, inos);
    BatchTargetsAreFiles(t, inos);
    GroupedParents(t, targets, byParent);
    EvictKeepsWf(t, targets, byParent.Keys);
    BatchIs(t, targets, byParent, Table(inodes, paths, t.nextInode));
  }

  ghost function GoneAfter(gone: set<Ino>, group: seq<Ino>, k: nat): set<Ino>
    requires k <= |group|
  {
    if k == 0 then gone else GoneAfter(gone, group, k - 1) + {group[k - 1]}
  }

  lemma {:induction false} GoneAfterPrefix(gone: set<Ino>, group: seq<Ino>, k: nat)
    requires k <= |group|
    ensures GoneAfter(gone, group, k) == gone + SetOf(group[..k])
  {
    if k > 0 {
      GoneAfterPrefix(gone, group, k - 1);
      PrefixGrows(group, k - 1);
    }
  }

  lemma GoneAfterAll(gone: set<Ino>, group: seq<Ino>)
    ensures GoneAfter(gone, group, |group|) == gone + SetOf(group)
  {
    GoneAfterPrefix(gone, group, |group|);
    WholePrefix(group);
  }

  ghost predicate ListedFile(t: Table, parent: Ino, i: Ino) {
    Live(t, i) && i != ROOT_INODE && t.inodes[i].parent == parent
  }

  /** `group` lists, once each, files of `parent` that are still there. */
  ghost predicate GroupOk(t: Table, group: seq<Ino>, gone: set<Ino>, parent: Ino) {
    && Distinct(group)
    && SetOf(group) !! gone
    && parent !in gone + SetOf(group)
    && parent in t.inodes
    && (forall i :: i in group ==> ListedFile(t, parent, i))
  }

  lemma OneOfGroup(t: Table, group: seq<Ino>, gone: set<Ino>, k: nat, parent: Ino, inodes: map<Ino, Entry>)
    requires k < |group| && GroupOk(t, group, gone, parent)
    requires inodes.Keys == t.inodes.Keys - GoneAfter(gone, group, k)
    ensures ListedFile(t, parent, group[k]) && parent != group[k] && group[k] in inodes && parent in inodes
  {
    GoneAfterPrefix(gone, group, k);
    assert group[k] in SetOf(group);
    PrefixGrows(group, k);
    assert forall i :: i in group[..k] ==> i in group;
  }
}
