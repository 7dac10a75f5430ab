/** The change feed: applying a batch of changes step by step follows the remote. */
module PollFollow {
  import opened Options
  import opened Iteration
  import opened InodeModel
  import opened InodeLemmas
  import opened InodeSpecs
  import opened InodeLoose
  import opened RemotePaths
  import opened RemoteDeletion
  import opened PollDiff

  /** `Modify` is the feed's `update`. */
  datatype FollowOp = Add | Modify | Delete

  datatype FollowChange = FollowChange(op: FollowOp, path: string, xetHash: Option<string>, size: Option<nat>,
                                       mtime: Option<int>, uploadedAt: Option<int>)

  /** What the feed has told about one remote file. */
  datatype RemoteFile = RemoteFile(hash: Option<string>, size: nat)

  type Remote = map<string, RemoteFile>

  /** The remote after one change; a field the change does not carry keeps its value. */
  function ApplyChange(r: Remote, c: FollowChange): Remote {
    if c.op.Delete? then r - {c.path}
    else
      var before := if c.path in r then r[c.path] else RemoteFile(None, 0);
      r[c.path := RemoteFile(if c.xetHash.Some? then c.xetHash else before.hash, c.size.UnwrapOr(before.size))]
  }

  function ApplyChanges(r: Remote, changes: seq<FollowChange>): Remote {
    if changes == [] then r
    else ApplyChange(ApplyChanges(r, changes[..|changes| - 1]), changes[|changes| - 1])
  }

  /** Every file without local writes has the remote hash and size. */
  ghost predicate Agrees(t: Table, r: Remote) {
    forall p {:trigger p in t.paths} ::
        p in t.paths && t.paths[p] in t.inodes && t.inodes[t.paths[p]].kind.File? && !t.inodes[t.paths[p]].IsDirty() ==>
      && p in r
      && t.inodes[t.paths[p]].meta.xetHash == r[p].hash
      && t.inodes[t.paths[p]].meta.size == r[p].size
  }

  predicate Materialized(t: Table, path: string) {
    path in t.paths && t.paths[path] in t.inodes && t.inodes[t.paths[path]].kind.File?
  }

  ghost function MergedEntry(e: Entry, c: FollowChange): Entry {
    e.(meta := e.meta.Merge(c.xetHash, c.size, if c.mtime.Some? then c.mtime else c.uploadedAt))
  }

  ghost function FollowStep(t: Table, c: FollowChange): Table {
    if !Materialized(t, c.path) then t
    else
      var i := t.paths[c.path];
      if t.inodes[i].IsDirty() then t
      else if c.op.Delete? then AfterDeletion(t, i)
      else t.(inodes := t.inodes[i := MergedEntry(t.inodes[i], c)])
  }

  ghost function FollowTable(t: Table, changes: seq<FollowChange>): Table {
    if changes == [] then t
    else FollowStep(FollowTable(t, changes[..|changes| - 1]), changes[|changes| - 1])
  }

  ghost function StaleDirOf(t: Table, path: string): set<Ino> {
    if !Materialized(t, path) && IsLoaded(t, NearestDir(t, path).0) then {NearestDir(t, path).0} else {}
  }

  /** The loaded directories in which a path appeared or vanished. */
  ghost function FollowDirs(t: Table, changes: seq<FollowChange>): set<Ino> {
    if changes == [] then {}
    else
      var front := changes[..|changes| - 1];
      FollowDirs(t, front) + StaleDirOf(FollowTable(t, front), changes[|changes| - 1].path)
  }

  ghost function Followed(t: Table, changes: seq<FollowChange>): Table {
    Unload(FollowTable(t, changes), FollowDirs(t, changes))
  }

  // ----- One change ------------------------------------------------------------------------

  lemma DeleteOneIs(t: Table, i: Ino)
    requires Wf(t) && Live(t, i) && t.inodes[i].kind.File?
    ensures AfterDeletion(t, i) == AfterDeletions(t, {i})
    ensures Wf(AfterDeletion(t, i))
  {
    hide Wf, AfterDeletion, AfterDeletions;
    WfIsLoose(t);
    FileIsNotRoot(t, i);
    OwnName(t, i);
    NoDeletions(t);
    assert {} + {i} == {i};
    DeletionStep(t, {}, i);
    DeletionKeepsWfIff(t, i);
  }

  /** Dropping one file takes its path and nothing else. */
  ghost predicate Dropped(t: Table, i: Ino, t': Table) {
    && (forall p :: p in t'.paths <==> p in t.paths && t.paths[p] != i)
    && (forall p :: p in t'.paths ==> t'.paths[p] == t.paths[p])
    && (forall j :: j in t.inodes && j != i ==> j in t'.inodes)
    && (forall j :: j in t'.inodes ==> j in t.inodes && SameButLinks(t.inodes[j], t'.inodes[j]))
  }

  lemma DeleteOne(t: Table, i: Ino)
    requires Wf(t) && Live(t, i) && t.inodes[i].kind.File?
    ensures Wf(AfterDeletion(t, i)) && Dropped(t, i, AfterDeletion(t, i))
  {
    hide Wf, AfterDeletion, Drop, Dropped;
    DeleteOneIs(t, i);
    FileIsNotRoot(t, i);
    OwnName(t, i);
    OneIsDropped(t, i);
    PathOfLive(t, i);
    DropDropped(t, Closed(t, {i}), Hits(t, {i}), i);
    hide Closed, Hits, OldPaths;
  }

  lemma OneIsDropped(t: Table, i: Ino)
    requires Live(t, i) && Named(t, i) == Some(i)
    ensures Closed(t, {i}) + Hits(t, {i}) == {i} && OldPaths(t, Closed(t, {i})) <= {t.inodes[i].fullPath}
  {
  }

  lemma DropDropped(t: Table, gone: set<Ino>, hits: set<Ino>, i: Ino)
    requires gone + hits == {i} && i in t.inodes && OldPaths(t, gone) <= {t.inodes[i].fullPath}
    requires t.inodes[i].fullPath in t.paths && t.paths[t.inodes[i].fullPath] == i
    ensures Dropped(t, i, Drop(t, gone, hits))
  {
    var t' := Drop(t, gone, hits);
    forall j ensures j in t'.inodes ==> j in t.inodes && SameButLinks(t.inodes[j], t'.inodes[j])
      ensures j in t.inodes && j != i ==> j in t'.inodes
    {
      if j in t.inodes && j !in gone {
        DropFrame(t, gone, hits, j);
      } else {
        DropMissing(t, gone, hits, j);
      }
    }
    DropPaths(t, gone, hits);
    hide Drop, OldPaths;
  }

  ghost predicate SameButLinks(e: Entry, e': Entry) {
    && e'.inode == e.inode && e'.fullPath == e.fullPath && e'.kind == e.kind && e'.meta == e.meta
    && e'.eviction == e.eviction && e'.childrenLoaded == e.childrenLoaded
  }

  /** What one change may do: the changed path vanishes or gets new metadata; everything else stays. */
  ghost predicate StepOk(t: Table, c: FollowChange, t': Table) {
    && Wf(t')
    && t'.inodes.Keys <= t.inodes.Keys
    && (forall i :: i in t.inodes && (i !in t'.inodes || t'.inodes[i].meta != t.inodes[i].meta) ==>
          c.path in t.paths && t.paths[c.path] == i && t.inodes[i].kind.File? && !t.inodes[i].IsDirty())
    && (forall i :: i in t'.inodes ==> SameButLinks(t.inodes[i].(meta := t'.inodes[i].meta), t'.inodes[i]))
    && (forall p :: p in t'.paths ==> p in t.paths && t'.paths[p] == t.paths[p])
    && (forall p :: p in t.paths && p !in t'.paths ==>
          p == c.path && c.op.Delete? && t.paths[p] in t.inodes && t.inodes[t.paths[p]].kind.File?
              && !t.inodes[t.paths[p]].IsDirty())
  }

  lemma DeleteStepOk(t: Table, c: FollowChange, i: Ino, t': Table)
    requires c.op.Delete? && c.path in t.paths && t.paths[c.path] == i && i in t.inodes
    requires t.inodes[i].kind.File? && !t.inodes[i].IsDirty()
    requires Wf(t') && Dropped(t, i, t') && forall q :: q in t.paths && t.paths[q] == i ==> q == c.path
    ensures StepOk(t, c, t') && c.path !in t'.paths
  {
    hide Wf;
  }

  lemma MergeStepOk(t: Table, c: FollowChange, i: Ino, t': Table)
    requires !c.op.Delete? && c.path in t.paths && t.paths[c.path] == i && i in t.inodes
    requires t.inodes[i].kind.File? && !t.inodes[i].IsDirty()
    requires Wf(t) && t' == t.(inodes := t.inodes[i := MergedEntry(t.inodes[i], c)])
    ensures StepOk(t, c, t')
  {
    hide Wf;
    SameTreeKeepsWf(t, t');
  }

  lemma StepIsOk(t: Table, c: FollowChange)
    requires Wf(t)
    ensures StepOk(t, c, FollowStep(t, c))
    ensures c.op.Delete? && Materialized(t, c.path) && !t.inodes[t.paths[c.path]].IsDirty() ==>
      c.path !in FollowStep(t, c).paths
  {
    hide Wf, AfterDeletion, StepOk;
    if Materialized(t, c.path) && !t.inodes[t.paths[c.path]].IsDirty() {
      var i := t.paths[c.path];
      PathIsItsOwn(t, c.path);
      if c.op.Delete? {
        DeleteOne(t, i);
        DeleteStepOk(t, c, i, AfterDeletion(t, i));
      } else {
        MergeStepOk(t, c, i, FollowStep(t, c));
      }
    } else {
      NoStep(t, c);
    }
  }

  lemma NoStep(t: Table, c: FollowChange)
    requires Wf(t)
    ensures StepOk(t, c, t)
  {
    hide Wf;
  }

  lemma PathIsItsOwn(t: Table, p: string)
    requires Wf(t) && p in t.paths
    ensures Live(t, t.paths[p])
    ensures forall q :: q in t.paths && t.paths[q] == t.paths[p] ==> q == p
  {
    assert PathsOk(t);
  }

  /** A step leaves what lies at other paths as it was. */
  lemma OtherPathStays(t: Table, c: FollowChange, t': Table, p: string)
    requires StepOk(t, c, t') && Wf(t) && p != c.path && Materialized(t', p)
    ensures Materialized(t, p) && t'.paths[p] == t.paths[p] && t'.inodes[t'.paths[p]].meta == t.inodes[t.paths[p]].meta
  {
    PathsKnown(t);
    PathIsItsOwn(t, p);
    hide Wf;
  }

  lemma OtherPathStep(t: Table, r: Remote, c: FollowChange, t': Table, p: string)
    requires StepOk(t, c, t') && Agrees(t, r) && p != c.path && Wf(t)
    requires Materialized(t', p) && !t'.inodes[t'.paths[p]].IsDirty()
    ensures var r' := ApplyChange(r, c);
            p in r' && t'.inodes[t'.paths[p]].meta.xetHash == r'[p].hash
                && t'.inodes[t'.paths[p]].meta.size == r'[p].size
  {
    hide Wf, StepOk;
    OtherPathStays(t, c, t', p);
  }

  lemma StepAgrees(t: Table, r: Remote, c: FollowChange)
    requires Wf(t) && Agrees(t, r)
    ensures Agrees(FollowStep(t, c), ApplyChange(r, c))
  {
    var t', r' := FollowStep(t, c), ApplyChange(r, c);
    StepIsOk(t, c);
    hide Wf, FollowStep, StepOk, ApplyChange;
    forall p | Materialized(t', p) && !t'.inodes[t'.paths[p]].IsDirty()
      ensures p in r' && t'.inodes[t'.paths[p]].meta.xetHash == r'[p].hash
          && t'.inodes[t'.paths[p]].meta.size == r'[p].size
    {
      if p == c.path {
        SamePathStep(t, r, c);
      } else {
        OtherPathStep(t, r, c, t', p);
      }
    }
  }

  lemma PathsKnown(t: Table)
    requires Wf(t)
    ensures forall p :: p in t.paths ==> t.paths[p] in t.inodes
  {
    assert PathsOk(t);
    forall p | p in t.paths ensures t.paths[p] in t.inodes { assert Live(t, t.paths[p]); }
  }

  lemma SamePathStep(t: Table, r: Remote, c: FollowChange)
    requires Wf(t) && Agrees(t, r)
    ensures var t', r' := FollowStep(t, c), ApplyChange(r, c);
            Materialized(t', c.path) && !t'.inodes[t'.paths[c.path]].IsDirty() ==>
              && c.path in r'
              && t'.inodes[t'.paths[c.path]].meta.xetHash == r'[c.path].hash
              && t'.inodes[t'.paths[c.path]].meta.size == r'[c.path].size
  {
    StepIsOk(t, c);
    PathsKnown(t);
    hide Wf, AfterDeletion;
  }

  // ----- A batch --------------------------------------------------------------------------

  lemma {:induction false} FollowKeepsWf(t: Table, changes: seq<FollowChange>)
    requires Wf(t)
    ensures Wf(FollowTable(t, changes))
  {
    hide Wf;
    if changes != [] {
      FollowKeepsWf(t, changes[..|changes| - 1]);
      StepIsOk(FollowTable(t, changes[..|changes| - 1]), changes[|changes| - 1]);
    }
  }

  lemma {:induction false} FollowTableAgrees(t: Table, r: Remote, changes: seq<FollowChange>)
    requires Wf(t) && Agrees(t, r)
    ensures Agrees(FollowTable(t, changes), ApplyChanges(r, changes))
  {
    hide Wf, Agrees;
    if changes != [] {
      var front := changes[..|changes| - 1];
      FollowKeepsWf(t, front);
      FollowTableAgrees(t, r, front);
      StepAgrees(FollowTable(t, front), ApplyChanges(r, front), changes[|changes| - 1]);
    }
  }

  /** The change feed simulates the remote: agreement before a batch is agreement after it, with the remote
      moved on by the batch. */
  lemma FollowSimulates(t: Table, r: Remote, changes: seq<FollowChange>)
    requires Wf(t) && Agrees(t, r)
    ensures Wf(Followed(t, changes))
    ensures Agrees(Followed(t, changes), ApplyChanges(r, changes))
  {
    FollowKeepsWf(t, changes);
    UnloadKeepsWf(FollowTable(t, changes), FollowDirs(t, changes));
    FollowTableAgrees(t, r, changes);
    hide Wf, FollowTable, FollowDirs, ApplyChanges;
  }

  /** A path that a batch names is on the remote as the last change for it says. */
  lemma {:induction false} LastChangeOnRemote(r: Remote, changes: seq<FollowChange>, k: nat)
    requires k < |changes| && forall j :: k < j < |changes| ==> changes[j].path != changes[k].path
    ensures var r', c := ApplyChanges(r, changes), changes[k];
            if c.op.Delete? then c.path !in r'
            else && c.path in r' && (c.xetHash.Some? ==> r'[c.path].hash == c.xetHash)
                 && (c.size.Some? ==> r'[c.path].size == c.size.value)
  {
    if k < |changes| - 1 {
      LastChangeOnRemote(r, changes[..|changes| - 1], k);
    }
  }

  /** And so it is in the table, if it is a clean file there: a deleted file is gone, and any other has the hash and
      the size that the last change for it carries. */
  lemma LastChangeWins(t: Table, changes: seq<FollowChange>, k: nat)
    requires Wf(t)
    requires k < |changes| && forall j :: k < j < |changes| ==> changes[j].path != changes[k].path
    ensures var t', c := Followed(t, changes), changes[k];
            c.path in t'.paths && t'.paths[c.path] in t'.inodes && t'.inodes[t'.paths[c.path]].kind.File?
            && t'.inodes[t'.paths[c.path]].meta.dirtyGeneration == 0 ==>
              var m := t'.inodes[t'.paths[c.path]].meta;
              !c.op.Delete? && (c.xetHash.Some? ==> m.xetHash == c.xetHash)
              && (c.size.Some? ==> m.size == c.size.value)
  {
    var r: Remote := map p | p in t.paths && Materialized(t, p) ::
      RemoteFile(t.inodes[t.paths[p]].meta.xetHash, t.inodes[t.paths[p]].meta.size);
    hide Wf, Followed, ApplyChanges;
    FollowSimulates(t, r, changes);
    LastChangeOnRemote(r, changes, k);
  }

  /** Files with local writes keep their metadata and their place. */
  lemma {:induction false} FollowKeepsDirty(t: Table, changes: seq<FollowChange>, i: Ino)
    requires Wf(t) && i in t.inodes && t.inodes[i].IsDirty()
    ensures var t' := Followed(t, changes);
            && i in t'.inodes && t'.inodes[i].meta == t.inodes[i].meta
            && t'.inodes[i].fullPath == t.inodes[i].fullPath && (Live(t', i) <==> Live(t, i))
  {
    hide Wf, FollowStep;
    if changes != [] {
      var front := changes[..|changes| - 1];
      FollowKeepsWf(t, front);
      FollowKeepsDirty(t, front, i);
      StepIsOk(FollowTable(t, front), changes[|changes| - 1]);
      StepKeepsLive(FollowTable(t, front), changes[|changes| - 1],
          FollowStep(FollowTable(t, front), changes[|changes| - 1]), i);
    }
  }

  lemma StepKeepsLive(t: Table, c: FollowChange, t': Table, i: Ino)
    requires Wf(t) && StepOk(t, c, t') && i in t.inodes && i in t'.inodes && t.inodes[i].IsDirty()
    ensures Live(t', i) <==> Live(t, i)
  {
    var p := t.inodes[i].fullPath;
    assert PathsOk(t) && PathsOk(t');
    if Live(t, i) {
      assert p in t.paths && t.paths[p] == i;
      assert p in t'.paths;
    }
    if Live(t', i) {
      assert p in t'.paths && t'.paths[p] == i;
    }
  }

  // ----- Directories -------------------------------------------------------------------------

  ghost predicate SameDirs(t: Table, t': Table) {
    forall a :: (IsDir(t, a) <==> IsDir(t', a))
                && (IsDir(t, a) && IsDir(t', a) ==>
                      && t.inodes[t.paths[a]].inode == t'.inodes[t'.paths[a]].inode
                      && t'.paths[a] == t.paths[a])
  }

  lemma StepKeepsDirs(t: Table, c: FollowChange, t': Table)
    requires StepOk(t, c, t')
    ensures SameDirs(t, t')
  {
    hide Wf;
    forall a ensures IsDir(t, a) <==> IsDir(t', a) {
      if IsDir(t, a) { assert a in t'.paths; }
    }
  }

  lemma {:induction false} FollowKeepsDirs(t: Table, changes: seq<FollowChange>)
    requires Wf(t)
    ensures SameDirs(t, FollowTable(t, changes))
  {
    hide Wf, FollowStep;
    if changes != [] {
      var front := changes[..|changes| - 1];
      FollowKeepsWf(t, front);
      FollowKeepsDirs(t, front);
      StepIsOk(FollowTable(t, front), changes[|changes| - 1]);
      StepKeepsDirs(FollowTable(t, front), changes[|changes| - 1],
          FollowStep(FollowTable(t, front), changes[|changes| - 1]));
    }
  }

  lemma {:induction false} DirCollected(t: Table, changes: seq<FollowChange>, k: nat)
    requires k < |changes|
    ensures StaleDirOf(FollowTable(t, changes[..k]), changes[k].path) <= FollowDirs(t, changes)
  {
    hide StaleDirOf;
    var front := changes[..|changes| - 1];
    if k < |front| {
      DirCollected(t, front, k);
      assert front[..k] == changes[..k];
    }
  }

  /** A path that was not held as a file when its change came leaves its nearest directory to be listed again. */
  lemma FollowUnloads(t: Table, changes: seq<FollowChange>, k: nat)
    requires Wf(t) && k < |changes| && !Materialized(FollowTable(t, changes[..k]), changes[k].path)
    ensures var t' := Followed(t, changes); !IsLoaded(t', NearestDir(t', changes[k].path).0)
  {
    var path := changes[k].path;
    var now, end := FollowTable(t, changes[..k]), FollowTable(t, changes);
    var t' := Followed(t, changes);
    FollowKeepsDirs(t, changes[..k]);
    FollowKeepsDirs(t, changes);
    SameDirsTrans(t, now, end);
    NearestDirSame(now, end, path);
    NearestDirSame(end, t', path);
    DirCollected(t, changes, k);
    FollowKeepsLoaded(t, changes, k, NearestDir(t', path).0);
    hide Wf, FollowTable, FollowDirs, NearestDir;
  }

  lemma SameDirsTrans(t: Table, a: Table, b: Table)
    requires SameDirs(t, a) && SameDirs(t, b)
    ensures SameDirs(a, b)
  {
  }

  /** The rest of a batch loads no directory. */
  lemma {:induction false} FollowKeepsLoaded(t: Table, changes: seq<FollowChange>, k: nat, d: Ino)
    requires Wf(t) && k <= |changes|
    ensures IsLoaded(FollowTable(t, changes), d) ==> IsLoaded(FollowTable(t, changes[..k]), d)
  {
    hide Wf, FollowStep;
    if k == |changes| {
      assert changes[..k] == changes;
    } else {
      var front := changes[..|changes| - 1];
      FollowKeepsLoaded(t, front, k, d);
      assert front[..k] == changes[..k];
      FollowKeepsWf(t, front);
      StepIsOk(FollowTable(t, front), changes[|changes| - 1]);
    }
  }

  // ----- The feed and the listing ----------------------------------------------------------------

  /** After a batch, a full listing of the remote finds nothing to update and nothing to delete. */
  lemma FollowedIsInSync(t: Table, r: Remote, changes: seq<FollowChange>, remote: map<string, TreeEntry>,
        polled: set<string>,
                         i: Ino)
    requires Wf(t) && Agrees(t, r) && remote.Keys == ApplyChanges(r, changes).Keys
    requires forall p :: p in remote ==>
      && remote[p].xetHash.Some? && remote[p].xetHash == ApplyChanges(r, changes)[p].hash
      && remote[p].size == Some(ApplyChanges(r, changes)[p].size)
    requires Live(Followed(t, changes), i)
    ensures !NeedsUpdate(Followed(t, changes).inodes[i], remote)
    ensures !IsDead(Followed(t, changes).inodes[i], remote, polled)
  {
    FollowSimulates(t, r, changes);
    var t' := Followed(t, changes);
    hide Followed, ApplyChanges;
    assert PathsOk(t');
    assert t'.inodes[i].fullPath in t'.paths && t'.paths[t'.inodes[i].fullPath] == i;
  }

  // ----- The negative cache ------------------------------------------------------------------------

  /** A path and the ancestors that its slashes delimit. */
  function SelfAndUp(path: string): set<string>
    decreases |path|
  {
    ParentPrefixFacts(path);
    {path} + (if '/' in path then SelfAndUp(ParentPrefix(path)) else {})
  }

  lemma NoSlashNoPrefix(path: string, a: string)
    ensures a + "/" <= path ==> '/' in path
  {
    if a + "/" <= path { assert path[|a|] in path; }
  }

  lemma {:induction false} SelfAndUpIs(path: string, a: string)
    ensures a in SelfAndUp(path) <==> a == path || a + "/" <= path
    decreases |path|
  {
    ParentPrefixFacts(path);
    var parent := ParentPrefix(path);
    if '/' in path {
      SelfAndUpIs(parent, a);
      if a != parent && a + "/" <= path {
        SlashIsNotLater(path, |a|);
        assert path[..|parent|] == parent;
        assert |a| < |parent|;
      }
    } else {
      NoSlashNoPrefix(path, a);
    }
  }
}
