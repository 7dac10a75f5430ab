/** Whole runs of the inode table: the tree survives every sequence of operations whose guards hold. */
module InodeRuns {
  import opened Options
  import opened InodeModel
  import opened InodeLemmas
  import opened InodeSpecs
  import opened InodeRename

  datatype TableOp =
    | Inserting(entry: Entry)
    | Removing(ino: Ino)
    | Unlinking(ino: Ino)
    | Evicting(inos: set<Ino>, dirs: set<Ino>)
    | RemovingOrphan(ino: Ino)
    | Unloading(dirs: set<Ino>)
    | Renaming(ino: Ino, newParent: Ino, newName: string)

  /** What one operation does. */
  ghost predicate Moves(t: Table, op: TableOp, t': Table) {
    match op
    case Inserting(e) => t' == Inserted(t, e)
    case Removing(ino) => t' == RemoveSpec(t, ino)
    case Unlinking(ino) => ino in t.inodes && t' == UnlinkSpec(t, ino)
    case Evicting(inos, dirs) => t' == EvictSpec(t, inos, dirs)
    case RemovingOrphan(ino) => t' == Detach(t, {ino}, {})
    case Unloading(dirs) => t' == Unload(t, dirs)
    case Renaming(ino, newParent, newName) =>
      ino in t.inodes && newParent in t.inodes && IsRenamed(t, ino, newParent, newName, t')
  }

  /** When its caller may use it. */
  ghost predicate Allowed(t: Table, op: TableOp) {
    match op
    case Inserting(e) => FreshEntry(t, e) && InsertOk(t, e.parent, e.name, e.fullPath)
    case Removing(ino) => ino in t.inodes ==> ino != ROOT_INODE && (Live(t, ino) || t.inodes[ino].fullPath !in t.paths)
    case Unlinking(ino) => Live(t, ino) && !t.inodes[ino].kind.Directory?
    case Evicting(inos, dirs) => forall i :: i in inos ==> i in t.inodes && !t.inodes[i].kind.Directory?
    case RemovingOrphan(ino) => ino in t.inodes && t.inodes[ino].nlink == 0
    case Unloading(dirs) => true
    case Renaming(ino, newParent, newName) => RenameOk(t, ino, newParent, newName)
  }

  lemma StepKeepsWf(t: Table, op: TableOp, t': Table)
    requires Wf(t) && Allowed(t, op) && Moves(t, op, t')
    ensures Wf(t')
  {
    hide Wf, RemoveSpec, UnlinkSpec, EvictSpec, Detach, Unload, IsRenamed, RenameOk, Inserted, InsertOk;
    match op
    case Inserting(e) => InsertKeepsWfIff(t, e);
    case Removing(ino) => RemoveKeepsWfIff(t, ino);
    case Unlinking(ino) => UnlinkKeepsWfIff(t, ino);
    case Evicting(inos, dirs) => EvictKeepsWf(t, inos, dirs);
    case RemovingOrphan(ino) => OrphanKeepsWf(t, ino);
    case Unloading(dirs) => UnloadKeepsWf(t, dirs);
    case Renaming(ino, newParent, newName) => RenameKeepsWf(t, ino, newParent, newName, t');
  }

  /** Every table of a run is one tree, and its three indexes agree. */
  lemma {:induction false} RunKeepsWf(tables: seq<Table>, ops: seq<TableOp>, k: nat)
    requires |tables| == |ops| + 1 && Wf(tables[0]) && k < |tables|
    requires forall i :: 0 <= i < |ops| ==> Allowed(tables[i], ops[i]) && Moves(tables[i], ops[i], tables[i + 1])
    ensures Wf(tables[k])
  {
    hide Wf, Allowed, Moves;
    if k > 0 {
      RunKeepsWf(tables, ops, k - 1);
      StepKeepsWf(tables[k - 1], ops[k - 1], tables[k]);
    }
  }

  /** What the two evicting operations promise of the inodes they take. */
  ghost predicate SparesWrites(t: Table, op: TableOp) {
    op.Evicting? ==> forall i :: i in op.inos && i in t.inodes ==> t.inodes[i].meta.dirtyGeneration == 0
  }

  /** The operation asks for this very inode, or for a directory above it, to go. */
  ghost predicate Takes(t: Table, op: TableOp, i: Ino) {
    (op.Removing? && InSubtree(t, op.ino, i)) || (op.RemovingOrphan? && op.ino == i)
  }

  lemma StepKeepsWrites(t: Table, op: TableOp, t': Table, i: Ino)
    requires Wf(t) && Allowed(t, op) && Moves(t, op, t') && SparesWrites(t, op)
    requires i in t.inodes && t.inodes[i].meta.dirtyGeneration > 0 && !Takes(t, op, i)
    ensures i in t'.inodes && t'.inodes[i].meta == t.inodes[i].meta
  {
    hide Wf, InsertOk, RenameOk, Detach, InSubtree, Inserted, EvictSpec, RemoveSpec, UnlinkSpec, Unload, IsRenamed;
    match op
    case Inserting(e) =>
      FreshIsNew(t, e);
      InsertedMeta(t, e, i);
    case Removing(ino) => RemovedMeta(t, ino, i);
    case Unlinking(ino) => UnlinkedMeta(t, ino, i);
    case Evicting(inos, dirs) => EvictedMeta(t, inos, dirs, i);
    case RemovingOrphan(ino) => DetachedMeta(t, {ino}, {}, i);
    case Unloading(dirs) => UnloadedMeta(t, dirs, i);
    case Renaming(ino, newParent, newName) => RenamedMeta(t, ino, newParent, newName, t', i);
  }

  lemma DetachedMeta(t: Table, gone: set<Ino>, orphaned: set<Ino>, i: Ino)
    requires i in t.inodes && i !in gone
    ensures i in Detach(t, gone, orphaned).inodes && Detach(t, gone, orphaned).inodes[i].meta == t.inodes[i].meta
  {
  }

  lemma UnloadedMeta(t: Table, dirs: set<Ino>, i: Ino)
    requires i in t.inodes
    ensures i in Unload(t, dirs).inodes && Unload(t, dirs).inodes[i].meta == t.inodes[i].meta
  {
  }

  lemma InsertedMeta(t: Table, e: Entry, i: Ino)
    requires i in t.inodes && e.inode != i
    ensures i in Inserted(t, e).inodes && Inserted(t, e).inodes[i].meta == t.inodes[i].meta
  {
  }

  lemma RemovedMeta(t: Table, ino: Ino, i: Ino)
    requires i in t.inodes && !InSubtree(t, ino, i)
    ensures i in RemoveSpec(t, ino).inodes && RemoveSpec(t, ino).inodes[i].meta == t.inodes[i].meta
  {
    hide Detach, InSubtree;
    DetachedMeta(t, Subtree(t, ino), {}, i);
  }

  lemma UnlinkedMeta(t: Table, c: Ino, i: Ino)
    requires i in t.inodes && c in t.inodes
    ensures i in UnlinkSpec(t, c).inodes && UnlinkSpec(t, c).inodes[i].meta == t.inodes[i].meta
  {
    DetachedMeta(t, {}, {c}, i);
    DetachedMeta(t, {}, {c}, c);
    hide Detach;
  }

  lemma EvictedMeta(t: Table, gone: set<Ino>, dirs: set<Ino>, i: Ino)
    requires i in t.inodes && i !in gone
    ensures i in EvictSpec(t, gone, dirs).inodes && EvictSpec(t, gone, dirs).inodes[i].meta == t.inodes[i].meta
  {
    hide Detach, Unload;
    DetachedMeta(t, gone, {}, i);
    UnloadedMeta(Detach(t, gone, {}), dirs, i);
  }

  lemma RenamedMeta(t: Table, ino: Ino, newParent: Ino, newName: string, t': Table, i: Ino)
    requires ino in t.inodes && newParent in t.inodes && i in t.inodes && IsRenamed(t, ino, newParent, newName, t')
    ensures i in t'.inodes && t'.inodes[i].meta == t.inodes[i].meta
  {
    hide InSubtree, PathsMoved, FilterOut, DropIndex;
  }

  lemma FreshIsNew(t: Table, e: Entry)
    requires Wf(t) && FreshEntry(t, e)
    ensures e.inode !in t.inodes
  {
    NextInodeIsNew(t);
  }

  /** No operation of a run loses local writes: a dirty inode keeps its entry and its metadata until somebody
      removes it or a directory above it. */
  lemma {:induction false} RunKeepsWrites(tables: seq<Table>, ops: seq<TableOp>, i: Ino, k: nat)
    requires |tables| == |ops| + 1 && Wf(tables[0]) && k < |tables|
    requires forall j :: 0 <= j < |ops| ==> Allowed(tables[j], ops[j]) && Moves(tables[j], ops[j], tables[j + 1])
    requires forall j :: 0 <= j < |ops| ==> SparesWrites(tables[j], ops[j]) && !Takes(tables[j], ops[j], i)
    requires i in tables[0].inodes && tables[0].inodes[i].meta.dirtyGeneration > 0
    ensures i in tables[k].inodes && tables[k].inodes[i].meta == tables[0].inodes[i].meta
  {
    hide Wf, Allowed, Moves, SparesWrites, Takes;
    if k > 0 {
      RunKeepsWrites(tables, ops, i, k - 1);
      RunKeepsWf(tables, ops, k - 1);
      StepKeepsWrites(tables[k - 1], ops[k - 1], tables[k], i);
    }
  }
}
