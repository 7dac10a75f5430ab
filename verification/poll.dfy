/** Applying remote changes to the inode table: the listing diff and the change feed. */
module RemoteSyncs {
  import opened Options
  import opened Iteration
  import opened InodeModel
  import opened InodeLemmas
  import opened InodeSpecs
  import opened InodeLoose
  import opened InodeRename
  import opened InodeTables
  import opened RemotePaths
  import opened RemoteDeletion
  import opened PollDiff
  import opened PollFollow

  /** An open file may be in the middle of a read that holds its pages, so only its attributes are dropped. */
  datatype InvalKind = AttrOnly | Pages

  datatype Invalidation = Invalidation(ino: Ino, kind: InvalKind)

  ghost function FileInvalidation(t: Table, ino: Ino): Invalidation {
    Invalidation(ino, if ino in t.inodes && t.inodes[ino].IsOpen() then AttrOnly else Pages)
  }

  ghost function UpdateQueue(t: Table, updates: seq<Update>): seq<Invalidation> {
    if updates == [] then []
    else UpdateQueue(t, updates[..|updates| - 1]) + [FileInvalidation(t, updates[|updates| - 1].ino)]
  }

  ghost function DeletionQueue(t: Table, inos: seq<Ino>): seq<Invalidation> {
    if inos == [] then []
    else
      var i := inos[|inos| - 1];
      var front := DeletionQueue(t, inos[..|inos| - 1]);
      if i in t.inodes && !t.inodes[i].IsDirty()
      then front + [Invalidation(t.inodes[i].parent, Pages), FileInvalidation(t, i)] else front
  }

  /** The kernel is told to drop what it holds of an inode: its pages when nobody has it open, and otherwise its
      attributes. */
  ghost predicate Told(queue: seq<Invalidation>, inodes: map<Ino, Entry>, ino: Ino) {
    Invalidation(ino, if ino in inodes && inodes[ino].eviction.openHandles > 0 then AttrOnly else Pages) in queue
  }

  lemma {:induction false} UpdatesAreTold(t: Table, updates: seq<Update>, more: seq<Invalidation>)
    ensures forall u :: u in updates ==> Told(UpdateQueue(t, updates) + more, t.inodes, u.ino)
  {
    if updates != [] {
      var front := updates[..|updates| - 1];
      UpdatesAreTold(t, front, []);
      assert updates == front + [updates[|updates| - 1]];
      assert UpdateQueue(t, front) + [] == UpdateQueue(t, front);
    }
  }

  /** A dropped file is told of, and so is the directory that listed it. */
  ghost predicate DropTold(queue: seq<Invalidation>, inodes: map<Ino, Entry>, i: Ino) {
    (i in inodes && inodes[i].meta.dirtyGeneration == 0) ==>
      Told(queue, inodes, i) && Invalidation(inodes[i].parent, Pages) in queue
  }

  lemma {:induction false} DeletionsAreTold(t: Table, queued: seq<Invalidation>, inos: seq<Ino>)
    ensures forall i :: i in inos ==> DropTold(queued + DeletionQueue(t, inos), t.inodes, i)
    decreases |inos|
  {
    if inos != [] {
      var front, last := inos[..|inos| - 1], inos[|inos| - 1];
      DeletionsAreTold(t, [], front);
      assert inos == front + [last];
      assert [] + DeletionQueue(t, front) == DeletionQueue(t, front);
      forall i | i in inos ensures DropTold(queued + DeletionQueue(t, inos), t.inodes, i) {
        if i != last { assert i in front; }
      }
    }
  }

  /** A file whose pages are dropped is not open, unless it is only the parent of a dropped file. */
  lemma {:induction false} OpenFilesKeepTheirPages(t: Table, updates: seq<Update>, inos: seq<Ino>, v: Invalidation)
    requires v in UpdateQueue(t, updates) + DeletionQueue(t, inos) && v.kind.Pages?
    requires v.ino in t.inodes && t.inodes[v.ino].IsOpen()
    ensures exists i :: i in inos && i in t.inodes && t.inodes[i].parent == v.ino
    decreases |updates| + |inos|
  {
    if updates != [] && v in UpdateQueue(t, updates) {
      assert v in UpdateQueue(t, updates[..|updates| - 1]);
      OpenFilesKeepTheirPages(t, updates[..|updates| - 1], inos, v);
    } else {
      var front := inos[..|inos| - 1];
      if v in DeletionQueue(t, front) { OpenFilesKeepTheirPages(t, updates, front, v); }
    }
  }

  /** The deletions that the re-check under the lock lets through. */
  ghost function CleanOf(t: Table, inos: set<Ino>): set<Ino> {
    set i | i in inos && i in t.inodes && !t.inodes[i].IsDirty()
  }

  /** The negative cache without anything at or below the changed directories. */
  ghost function Retained(nc: map<string, int>, dirs: set<string>): map<string, int> {
    map k | k in nc && (forall d :: d in dirs ==> !AtOrUnder(d, k)) :: nc[k]
  }

  lemma RetainedIff(nc: map<string, int>, dirs: set<string>, k: string)
    ensures k in Retained(nc, dirs)
       <==> k in nc && forall d :: d in dirs ==> (d != "" && k != d && !(d + "/" <= k))
    ensures k in Retained(nc, dirs) ==> Retained(nc, dirs)[k] == nc[k]
  {
  }

  ghost function DirPaths(t: Table, dirs: set<Ino>): set<string> {
    set d | d in dirs && d in t.inodes :: t.inodes[d].fullPath
  }

  /** The part of the diff that the first inodes of a snapshot contribute. */
  ghost predicate DiffUpTo(t: Table, remote: map<string, TreeEntry>, now: int, seen: set<Ino>, updates: seq<Update>) {
    && (forall j, k :: 0 <= j < k < |updates| ==> updates[j].ino != updates[k].ino)
    && (forall u :: u in updates ==>
          && u.ino in seen && u.ino in t.inodes && NeedsUpdate(t.inodes[u.ino], remote)
          && u == UpdateOf(u.ino, remote[t.inodes[u.ino].fullPath], now))
    && (forall i :: i in t.inodes && i in seen && NeedsUpdate(t.inodes[i], remote) ==>
          UpdateOf(i, remote[t.inodes[i].fullPath], now) in updates)
  }

  lemma DiffMore(t: Table, remote: map<string, TreeEntry>, now: int, seen: set<Ino>, updates: seq<Update>, i: Ino)
    requires DiffUpTo(t, remote, now, seen, updates) && i in t.inodes && i !in seen
    ensures NeedsUpdate(t.inodes[i], remote) ==>
      DiffUpTo(t, remote, now, seen + {i}, updates + [UpdateOf(i, remote[t.inodes[i].fullPath], now)])
    ensures !NeedsUpdate(t.inodes[i], remote) ==> DiffUpTo(t, remote, now, seen + {i}, updates)
  {
    if NeedsUpdate(t.inodes[i], remote) {
      var u := UpdateOf(i, remote[t.inodes[i].fullPath], now);
      var more := updates + [u];
      assert more[|updates|] == u;
      forall w | w in more ensures w in updates || w == u {}
      forall k | 0 <= k < |updates| ensures more[k].ino != i { assert updates[k] in updates; }
      forall w | w in updates ensures w in more {
        var k :| 0 <= k < |updates| && updates[k] == w;
        assert more[k] == w;
      }
    }
  }

  /** What the deletions so far leave of the next one. */
  lemma NextDeletion(t: Table, inos: seq<Ino>, k: nat)
    requires Loose(t) && Distinct(inos) && k < |inos| && Files(t, CleanOf(t, SetOf(inos)))
    ensures var done, now := CleanOf(t, SetOf(inos[..k])), AfterDeletions(t, CleanOf(t, SetOf(inos[..k])));
            && Loose(now)
            && (inos[k] in now.inodes <==> inos[k] in t.inodes)
            && (inos[k] in now.inodes && inos[k] in t.inodes ==>
                  && now.inodes[inos[k]].parent == t.inodes[inos[k]].parent
                  && now.inodes[inos[k]].name == t.inodes[inos[k]].name
                  && now.inodes[inos[k]].kind == t.inodes[inos[k]].kind
                  && now.inodes[inos[k]].meta == t.inodes[inos[k]].meta
                  && now.inodes[inos[k]].eviction == t.inodes[inos[k]].eviction)
            && AfterDeletions(t, CleanOf(t, SetOf(inos[..k + 1])))
                 == if inos[k] in now.inodes && !now.inodes[inos[k]].IsDirty() then AfterDeletion(now, inos[k]) else now
  {
    var x, done := inos[k], CleanOf(t, SetOf(inos[..k]));
    PrefixGrows(inos, k);
    assert forall i :: i in SetOf(inos[..k + 1]) ==> i in SetOf(inos);
    CleanMore(t, SetOf(inos[..k]), x);
    assert Files(t, CleanOf(t, SetOf(inos[..k + 1]))) && Files(t, done) && x !in done;
    hide AfterDeletions, AfterDeletion, Loose, CleanOf;
    DeletionsKeepLoose(t, done);
    if x in t.inodes {
      NotClosed(t, done, x);
      StillThere(t, done, x);
      if !t.inodes[x].IsDirty() { DeletionStep(t, done, x); }
    } else {
      MissingStays(t, done, x);
    }
  }

  lemma CleanMore(t: Table, s: set<Ino>, x: Ino)
    ensures CleanOf(t, s + {x}) == if x in t.inodes && !t.inodes[x].IsDirty() then CleanOf(t, s) + {x}
      else CleanOf(t, s)
  {
  }

  lemma MissingStays(t: Table, dead: set<Ino>, x: Ino)
    requires x !in t.inodes
    ensures x !in AfterDeletions(t, dead).inodes
  {
    hide Hits, Closed;
    DropMissing(t, Closed(t, dead), Hits(t, dead), x);
  }

  /** A diff applied to a table that may have moved on since the snapshot. */
  ghost function Applied(t: Table, updates: seq<Update>, deletions: set<Ino>): Table {
    AfterDeletions(Refreshed(t, updates), CleanOf(Refreshed(t, updates), deletions))
  }

  ghost function LatePolled(t: Table, updates: seq<Update>, deletions: set<Ino>, paths: set<string>): Table {
    Unload(Applied(t, updates, deletions), StaleDirs(Applied(t, updates, deletions), paths))
  }

  class RemoteSync {
    const table: InodeTable
    var negativeCache: map<string, int>

    constructor (t: InodeTable)
      ensures table == t && negativeCache == map[]
    {
      table := t;
      negativeCache := map[];
    }

    method QueueFileInvalidation(ino: Ino, queue: seq<Invalidation>) returns (r: seq<Invalidation>)
      ensures r == queue + [FileInvalidation(table.State(), ino)]
      ensures Told(r, table.inodes, ino)
    {
      var kind := if ino in table.inodes && table.inodes[ino].IsOpen() then AttrOnly else Pages;
      r := queue + [Invalidation(ino, kind)];
    }

    /** Drops a remotely deleted file.  An open file only loses its name; a file with local writes stays. */
    method RemoveRemoteFile(ino: Ino, queue: seq<Invalidation>) returns (removed: bool, r: seq<Invalidation>)
      requires Loose(table.State()) && (ino in table.inodes ==> !table.inodes[ino].kind.Directory?)
      modifies table`inodes, table`pathToInode
      ensures removed <==> ino in old(table.inodes) && !old(table.inodes)[ino].IsDirty()
      ensures table.State() == if removed then AfterDeletion(old(table.State()), ino) else old(table.State())
      ensures r == if removed then queue + [Invalidation(old(table.inodes)[ino].parent, Pages),
                                            FileInvalidation(old(table.State()), ino)] else queue
      ensures removed ==> DropTold(r, old(table.inodes), ino)
    {
      if ino !in table.inodes || table.inodes[ino].IsDirty() { return false, queue; }
      var parent, name := table.inodes[ino].parent, table.inodes[ino].name;
      var q := QueueFileInvalidation(ino, queue + [Invalidation(parent, Pages)]);
      if table.inodes[ino].IsOpen() {
        var unlinked := table.UnlinkOne(parent, name);
      } else {
        var entry := table.Remove(ino);
      }
      removed, r := true, q;
    }

    // ----- the listing diff -------------------------------------------------------------

    method ListedFiles(entries: seq<TreeEntry>) returns (remote: map<string, TreeEntry>)
      ensures remote == RemoteMap(entries)
    {
      remote := map[];
      for k := 0 to |entries|
        invariant remote == RemoteMap(entries[..k])
      {
        assert entries[..k + 1][..k] == entries[..k];
        if entries[k].entryType == "file" { remote := remote[entries[k].path := entries[k]]; }
      }
      assert entries[..|entries|] == entries;
    }

    /** Phase 1: what a snapshot of the table has to change. */
    method ComputeDiff(remote: map<string, TreeEntry>, polled: set<string>, now: int)
      returns (updates: seq<Update>, deletions: seq<Ino>)
      ensures DiffUpdates(table.State(), remote, now, updates)
      ensures Distinct(deletions) && SetOf(deletions) == Dead(table.State(), remote, polled)
      ensures forall i :: i in deletions <==>
        i in table.inodes && table.inodes[i].kind.File? && table.inodes[i].meta.dirtyGeneration == 0
        && table.inodes[i].fullPath !in remote && ParentPrefix(table.inodes[i].fullPath) in polled
    {
      DeadIs(table.State(), remote, polled);
      ghost var t := table.State();
      updates, deletions := [], [];
      var snapshot := Elements(table.inodes.Keys);
      WholePrefix(snapshot);
      for k := 0 to |snapshot|
        invariant DiffUpTo(t, remote, now, SetOf(snapshot[..k]), updates)
        invariant Distinct(deletions)
        invariant forall i :: i in deletions <==> i in SetOf(snapshot[..k]) && i in Dead(t, remote, polled)
      {
        PrefixGrows(snapshot, k);
        assert snapshot[k] in SetOf(snapshot);
        var ino := snapshot[k];
        var e := table.inodes[ino];
        DiffMore(t, remote, now, SetOf(snapshot[..k]), updates, ino);
        if e.kind == File && !e.IsDirty() {
          if e.fullPath in remote {
            var r := remote[e.fullPath];
            var changed := if e.meta.xetHash.Some? || r.xetHash.Some? then r.xetHash != e.meta.xetHash
                           else r.oid != e.meta.etag;
            if changed || r.size.UnwrapOr(0) != e.meta.size {
              updates := updates + [Update(ino, r.xetHash, r.oid, r.size.UnwrapOr(0), r.mtime.UnwrapOr(now))];
            }
          } else if ParentPrefix(e.fullPath) in polled {
            deletions := deletions + [ino];
          }
        }
      }
    }

    method ApplyUpdates(updates: seq<Update>) returns (queue: seq<Invalidation>)
      modifies table`inodes
      ensures table.State() == Refreshed(old(table.State()), updates)
      ensures queue == UpdateQueue(old(table.State()), updates)
      ensures forall u :: u in updates ==> Told(queue, old(table.inodes), u.ino)
    {
      hide Told;
      ghost var t := table.State();
      UpdatesAreTold(t, updates, []);
      assert UpdateQueue(t, updates) + [] == UpdateQueue(t, updates);
      queue := [];
      SameMap(t.inodes, Refreshed(t, updates[..0]).inodes);
      for k := 0 to |updates|
        invariant table.State() == Refreshed(t, updates[..k])
        invariant queue == UpdateQueue(t, updates[..k])
      {
        assert updates[..k + 1][..k] == updates[..k];
        var u := updates[k];
        var updated := table.UpdateRemoteFile(u.ino, u.hash, u.etag, u.size, u.mtime);
        SameMap(table.inodes, Refreshed(t, updates[..k + 1]).inodes);
        queue := QueueFileInvalidation(u.ino, queue);
      }
      assert updates[..|updates|] == updates;
    }

    /** The deletions in any order, on any table that was a tree before them. */
    method ApplyDeletions(deletions: seq<Ino>, queued: seq<Invalidation>) returns (queue: seq<Invalidation>)
      requires Loose(table.State()) && Distinct(deletions) && Files(table.State(), SetOf(deletions) * table.inodes.Keys)
      modifies table`inodes, table`pathToInode
      ensures table.State() == AfterDeletions(old(table.State()), CleanOf(old(table.State()), SetOf(deletions)))
      ensures queue == queued + DeletionQueue(old(table.State()), deletions)
      ensures forall i :: i in deletions ==> DropTold(queue, old(table.inodes), i)
    {
      hide AfterDeletions, Loose, CleanOf, DropTold;
      DeletionsAreTold(table.State(), queued, deletions);
      queue := DropEach(deletions, queued);
    }

    method DropEach(deletions: seq<Ino>, queued: seq<Invalidation>) returns (queue: seq<Invalidation>)
      requires Loose(table.State()) && Distinct(deletions) && Files(table.State(), SetOf(deletions) * table.inodes.Keys)
      modifies table`inodes, table`pathToInode
      ensures table.State() == AfterDeletions(old(table.State()), CleanOf(old(table.State()), SetOf(deletions)))
      ensures queue == queued + DeletionQueue(old(table.State()), deletions)
    {
      hide AfterDeletions, AfterDeletion, Loose, CleanOf, DropTold;
      ghost var t := table.State();
      queue := queued;
      WholePrefix(deletions);
      NothingDone(t);
      CleanAreFiles(t, deletions);
      for k := 0 to |deletions|
        invariant table.State() == AfterDeletions(t, CleanOf(t, SetOf(deletions[..k])))
        invariant queue == queued + DeletionQueue(t, deletions[..k])
      {
        NextDeletion(t, deletions, k);
        assert deletions[..k + 1][..k] == deletions[..k];
        assert deletions[k] in SetOf(deletions);
        var removed;
        removed, queue := RemoveRemoteFile(deletions[k], queue);
      }
    }

    /** Phase 3: the loaded directories in which something new is listed. */
    method FindStaleDirs(paths: set<string>) returns (dirs: set<Ino>, dirPaths: seq<string>)
      requires Loose(table.State())
      ensures dirs == StaleDirs(table.State(), paths)
      ensures SetOf(dirPaths) == DirPaths(table.State(), dirs)
    {
      hide Loose, NearestDir;
      ghost var t := table.State();
      dirs, dirPaths := {}, [];
      var order := Elements(paths);
      WholePrefix(order);
      for k := 0 to |order|
        invariant dirs == StaleDirs(t, SetOf(order[..k]))
        invariant SetOf(dirPaths) == DirPaths(t, dirs)
      {
        PrefixGrows(order, k);
        assert order[k] in SetOf(order);
        StaleMore(t, SetOf(order[..k]), order[k]);
        if order[k] !in table.pathToInode {
          var dir, dirPath := table.NearestDirAncestor(order[k]);
          NearestDirHasPath(t, order[k]);
          if dir in table.inodes && table.inodes[dir].childrenLoaded && dir !in dirs {
            DirPathsMore(t, dirs, dir, dirPaths);
            dirs := dirs + {dir};
            dirPaths := dirPaths + [dirPath];
          } else if dir in table.inodes && table.inodes[dir].childrenLoaded {
            assert dirs + {dir} == dirs;
          }
        }
      }
    }

    method UnloadDirs(dirs: set<Ino>)
      modifies table`inodes
      ensures table.State() == Unload(old(table.State()), dirs)
    {
      ghost var t := table.State();
      var order := Elements(dirs);
      WholePrefix(order);
      SameMap(t.inodes, Unload(t, {}).inodes);
      for k := 0 to |order|
        invariant table.State() == Unload(t, SetOf(order[..k]))
      {
        PrefixGrows(order, k);
        table.InvalidateChildren(order[k]);
        SameMap(table.inodes, Unload(t, SetOf(order[..k + 1])).inodes);
      }
    }

    method ClearNegative(dirPaths: seq<string>)
      modifies this`negativeCache
      ensures negativeCache == Retained(old(negativeCache), SetOf(dirPaths))
      ensures forall p :: p in negativeCache
                     <==> p in old(negativeCache)
                          && forall d :: d in dirPaths ==> (d != "" && p != d && !(d + "/" <= p))
    {
      WholePrefix(dirPaths);
      ghost var nc := negativeCache;
      for k := 0 to |dirPaths|
        invariant negativeCache == Retained(nc, SetOf(dirPaths[..k]))
      {
        PrefixGrows(dirPaths, k);
        var dir := dirPaths[k];
        negativeCache := map p | p in negativeCache && dir != "" && !(dir + "/" <= p) && p != dir :: negativeCache[p];
        SameMap(negativeCache, Retained(nc, SetOf(dirPaths[..k + 1])));
      }
      forall p
        ensures p in negativeCache
           <==> p in nc && forall d :: d in dirPaths ==> (d != "" && p != d && !(d + "/" <= p))
      {
        RetainedIff(nc, SetOf(dirPaths), p);
        assert forall d :: d in dirPaths <==> d in SetOf(dirPaths);
      }
    }

    /** Phases 2 and 3, under the write lock: whatever happened to the table since the snapshot. */
    method ApplyDiff(updates: seq<Update>, deletions: seq<Ino>, paths: set<string>)
      returns (queue: seq<Invalidation>, dirs: set<Ino>)
      requires table.Valid() && Distinct(deletions) && Files(table.State(), SetOf(deletions) * table.inodes.Keys)
      modifies this`negativeCache, table`inodes, table`pathToInode
      ensures table.State() == LatePolled(old(table.State()), updates, SetOf(deletions), paths)
      ensures dirs == StaleDirs(Applied(old(table.State()), updates, SetOf(deletions)), paths)
      ensures negativeCache == Retained(old(negativeCache), DirPaths(table.State(), dirs))
      ensures queue == UpdateQueue(old(table.State()), updates) + DeletionQueue(old(table.State()), deletions)
      ensures forall u :: u in updates ==> Told(queue, old(table.inodes), u.ino)
      ensures forall i :: i in deletions ==> DropTold(queue, old(table.inodes), i)
    {
      UpdatesAreTold(table.State(), updates, DeletionQueue(table.State(), deletions));
      DeletionsAreTold(table.State(), UpdateQueue(table.State(), updates), deletions);
      hide Told, DropTold, Wf, AfterDeletions, DirPaths, Retained, StaleDirs, Unload, UpdateQueue, DeletionQueue,
           CleanOf, Refreshed;
      ghost var t := table.State();
      RefreshedFacts(t, updates);
      SameDeletionQueue(t, Refreshed(t, updates), deletions);
      AppliedIsLoose(t, updates, SetOf(deletions));
      queue := ApplyUpdates(updates);
      queue := ApplyDeletions(deletions, queue);
      var dirPaths;
      dirs, dirPaths := FindStaleDirs(paths);
      SameDirPaths(table.State(), dirs);
      UnloadDirs(dirs);
      ClearNegative(dirPaths);
    }

    /** One poll round on an otherwise idle table. */
    method ApplyPollDiff(entries: seq<TreeEntry>, polled: set<string>, now: int)
      returns (queue: seq<Invalidation>, dirs: set<Ino>)
      requires table.Valid()
      modifies this`negativeCache, table`inodes, table`pathToInode
      ensures table.State() == Polled(old(table.State()), entries, polled, now)
      ensures dirs == StaleDirs(Reconciled(old(table.State()), entries, polled, now), RemotePathSet(entries))
      ensures negativeCache == Retained(old(negativeCache), DirPaths(table.State(), dirs))
      ensures exists updates, deletions ::
        && DiffUpdates(old(table.State()), RemoteMap(entries), now, updates)
        && SetOf(deletions) == Dead(old(table.State()), RemoteMap(entries), polled)
        && queue == UpdateQueue(old(table.State()), updates) + DeletionQueue(old(table.State()), deletions)
      ensures forall i ::
        (i in table.inodes && i in old(table.inodes) && table.inodes[i].meta != old(table.inodes)[i].meta) ==>
        Told(queue, old(table.inodes), i)
      ensures forall i ::
        (i in old(table.inodes) && old(table.inodes)[i].kind.File?
         && old(table.inodes)[i].fullPath !in RemoteMap(entries)
         && ParentPrefix(old(table.inodes)[i].fullPath) in polled) ==>
        DropTold(queue, old(table.inodes), i)
    {
      hide Told, DropTold, ParentPrefix, Wf, Pulled, Applied, LatePolled, Polled, Reconciled, DirPaths, Retained,
           StaleDirs, Dead, UpdateQueue, DeletionQueue, DiffUpdates;
      ghost var t := table.State();
      var remote := ListedFiles(entries);
      var updates, deletions := ComputeDiff(remote, polled, now);
      DeadAreFiles(t, remote, polled);
      PolledIsLate(t, entries, polled, now, updates);
      queue, dirs := ApplyDiff(updates, deletions, set e | e in entries :: e.path);
      ChangedAreUpdated(t, entries, polled, now, updates, table.State());
      DirtyNeedNoTelling(queue, t);
    }

    // ----- the change feed ----------------------------------------------------------------

    method FollowOne(c: FollowChange, queue: seq<Invalidation>) returns (r: seq<Invalidation>)
      requires table.Valid() && Materialized(table.State(), c.path)
      modifies table`inodes, table`pathToInode
      ensures table.State() == FollowStep(old(table.State()), c) && table.Valid()
      ensures r == queue + FollowQueue(old(table.State()), c)
      ensures old(table.inodes)[old(table.pathToInode)[c.path]].meta.dirtyGeneration == 0 ==>
        && Told(r, old(table.inodes), old(table.pathToInode)[c.path])
        && (c.op == Delete ==>
              Invalidation(old(table.inodes)[old(table.pathToInode)[c.path]].parent, Pages) in r)
      ensures old(table.inodes)[old(table.pathToInode)[c.path]].meta.dirtyGeneration == 0 && c.op != Delete ==>
        var i, was := old(table.pathToInode)[c.path], old(table.inodes)[old(table.pathToInode)[c.path]].meta;
        && i in table.inodes
        && var m := table.inodes[i].meta;
           && m.xetHash == (if c.xetHash.Some? then c.xetHash else was.xetHash)
           && m.size == (if c.size.Some? then c.size.value else was.size)
           && m.mtime == (if c.mtime.Some? then c.mtime.value
                          else if c.uploadedAt.Some? then c.uploadedAt.value else was.mtime)
           && !m.stagingIsCurrent
    {
      hide Wf, Loose, AfterDeletion;
      ghost var t := table.State();
      StepWf(t, c);
      WfIsLoose(t);
      var ino := table.pathToInode[c.path];
      r := queue;
      if !table.inodes[ino].IsDirty() {
        if c.op == Delete {
          var removed;
          removed, r := RemoveRemoteFile(ino, queue);
        } else {
          var mtime := if c.mtime.Some? then c.mtime else c.uploadedAt;
          var merged := table.MergeRemoteFile(ino, c.xetHash, c.size, mtime);
          SameMap(table.inodes, FollowStep(t, c).inodes);
          r := QueueFileInvalidation(ino, queue);
        }
      }
    }

    /** One batch of the feed: the table follows the remote, stale listings are dropped, and no added or
        updated path stays known as missing. */
    method ApplyFollowChanges(changes: seq<FollowChange>) returns (queue: seq<Invalidation>)
      requires table.Valid()
      modifies this`negativeCache, table`inodes, table`pathToInode
      ensures table.State() == Followed(old(table.State()), changes) && table.Valid()
      ensures negativeCache == Forgotten(old(negativeCache), Touched(changes))
      ensures forall p :: p in negativeCache <==> p in old(negativeCache) && p !in Touched(changes)
      ensures queue == FollowQueues(old(table.State()), changes)
      ensures forall k :: 0 <= k < |changes| ==>
        ChangeTold(queue, FollowTable(old(table.State()), changes[..k]), changes[k])
    {
      ChangesAreTold(table.State(), changes);
      hide ChangeTold, Wf, FollowQueue, FollowStep, Touched, FollowTable, FollowDirs, Unload, NearestDir, StaleDirOf;
      ghost var t := table.State();
      queue := [];
      var dirs := {};
      FollowNothing(t);
      for k := 0 to |changes|
        invariant table.State() == FollowTable(t, changes[..k]) && table.Valid()
        invariant negativeCache == old(negativeCache)
        invariant dirs == FollowDirs(t, changes[..k])
        invariant queue == FollowQueues(t, changes[..k])
      {
        FollowMore(t, changes, k);
        StaleDirOne(table.State(), changes[k].path);
        var path := changes[k].path;
        if path in table.pathToInode && table.pathToInode[path] in table.inodes
           && table.inodes[table.pathToInode[path]].kind == File {
          queue := FollowOne(changes[k], queue);
        } else {
          NoStepTaken(table.State(), changes[k]);
          var dir, dirPath := table.NearestDirAncestor(path);
          if dir in table.inodes && table.inodes[dir].childrenLoaded { dirs := dirs + {dir}; }
        }
      }
      assert changes[..|changes|] == changes;
      UnloadKeepsWf(table.State(), dirs);
      UnloadDirs(dirs);
      ForgetMissing(changes);
    }

    method ForgetMissing(changes: seq<FollowChange>)
      modifies this`negativeCache
      ensures negativeCache == Forgotten(old(negativeCache), Touched(changes))
    {
      ghost var nc := negativeCache;
      SameMap(nc, Forgotten(nc, {}));
      for k := 0 to |changes|
        invariant negativeCache == Forgotten(nc, Touched(changes[..k]))
      {
        assert changes[..k + 1][..k] == changes[..k];
        if changes[k].op != Delete { ForgetUp(changes[k].path, nc, Touched(changes[..k])); }
      }
      assert changes[..|changes|] == changes;
    }

    method ForgetUp(start: string, ghost nc: map<string, int>, ghost gone: set<string>)
      requires negativeCache == Forgotten(nc, gone)
      modifies this`negativeCache
      ensures negativeCache == Forgotten(nc, gone + SelfAndUp(start))
    {
      var path := start;
      ghost var done: set<string> := {};
      SameMap(negativeCache, Forgotten(nc, gone + done));
      while true
        invariant negativeCache == Forgotten(nc, gone + done)
        invariant SelfAndUp(start) == done + SelfAndUp(path)
        decreases |path|
      {
        ParentPrefixFacts(path);
        negativeCache := negativeCache - {path};
        SameMap(negativeCache, Forgotten(nc, gone + (done + {path})));
        done := done + {path};
        if '/' !in path { return; }
        path := ParentPrefix(path);
      }
    }
  }

  lemma StepWf(t: Table, c: FollowChange)
    requires Wf(t)
    ensures Wf(FollowStep(t, c))
  {
    StepIsOk(t, c);
    hide Wf, FollowStep;
  }

  ghost function FollowQueue(t: Table, c: FollowChange): seq<Invalidation> {
    if !Materialized(t, c.path) || t.inodes[t.paths[c.path]].IsDirty() then []
    else
      var i := t.paths[c.path];
      (if c.op.Delete? then [Invalidation(t.inodes[i].parent, Pages)] else []) + [FileInvalidation(t, i)]
  }

  ghost function FollowQueues(t: Table, changes: seq<FollowChange>): seq<Invalidation> {
    if changes == [] then []
    else
      var front := changes[..|changes| - 1];
      FollowQueues(t, front) + FollowQueue(FollowTable(t, front), changes[|changes| - 1])
  }

  /** A change of a clean file that is held reaches the kernel: the file itself, and its directory when the file
      is dropped. */
  ghost predicate ChangeTold(queue: seq<Invalidation>, t: Table, c: FollowChange) {
    (c.path in t.paths && t.paths[c.path] in t.inodes && t.inodes[t.paths[c.path]].kind.File?
     && t.inodes[t.paths[c.path]].meta.dirtyGeneration == 0) ==>
      && Told(queue, t.inodes, t.paths[c.path])
      && (c.op.Delete? ==> Invalidation(t.inodes[t.paths[c.path]].parent, Pages) in queue)
  }

  lemma ChangesAreTold(t: Table, changes: seq<FollowChange>)
    ensures forall k :: 0 <= k < |changes| ==>
      ChangeTold(FollowQueues(t, changes), FollowTable(t, changes[..k]), changes[k])
  {
    hide *;
    forall k | 0 <= k < |changes|
      ensures ChangeTold(FollowQueues(t, changes), FollowTable(t, changes[..k]), changes[k])
    {
      ChangeIsTold(t, changes, k);
    }
  }

  lemma {:induction false} ChangeIsTold(t: Table, changes: seq<FollowChange>, k: nat)
    requires k < |changes|
    ensures ChangeTold(FollowQueues(t, changes), FollowTable(t, changes[..k]), changes[k])
  {
    hide FollowTable, FollowQueue, ChangeTold;
    var n := |changes| - 1;
    var queue, last := FollowQueues(t, changes[..n]), FollowQueue(FollowTable(t, changes[..n]), changes[n]);
    if k < n {
      assert changes[..n][..k] == changes[..k] && changes[..n][k] == changes[k];
      ChangeIsTold(t, changes[..n], k);
      ToldLater(queue, last, FollowTable(t, changes[..k]), changes[k]);
    } else {
      OneChangeTold(queue, FollowTable(t, changes[..n]), changes[n]);
    }
  }

  lemma OneChangeTold(queued: seq<Invalidation>, t: Table, c: FollowChange)
    ensures ChangeTold(queued + FollowQueue(t, c), t, c)
  {
  }

  lemma ToldLater(queue: seq<Invalidation>, more: seq<Invalidation>, t: Table, c: FollowChange)
    requires ChangeTold(queue, t, c)
    ensures ChangeTold(queue + more, t, c)
  {
  }

  /** The feed never drops the pages of a file that is open. */
  lemma {:induction false} FollowSparesOpenFiles(t: Table, changes: seq<FollowChange>, v: Invalidation)
    requires Wf(t) && v in FollowQueues(t, changes) && v.kind.Pages?
    ensures !IsOpenFile(t, v.ino)
  {
    hide Wf, FollowTable, FollowStep;
    if changes != [] {
      var front, last := changes[..|changes| - 1], changes[|changes| - 1];
      FollowKeepsWf(t, front);
      FollowKeepsHandles(t, front);
      if v in FollowQueues(t, front) {
        FollowSparesOpenFiles(t, front, v);
      } else {
        PathIsItsOwn(FollowTable(t, front), last.path);
        ParentIsNoFile(FollowTable(t, front), FollowTable(t, front).paths[last.path]);
      }
    }
  }

  lemma {:induction false} FollowKeepsHandles(t: Table, changes: seq<FollowChange>)
    requires Wf(t)
    ensures forall i :: i in FollowTable(t, changes).inodes ==>
      && i in t.inodes
      && FollowTable(t, changes).inodes[i].kind == t.inodes[i].kind
      && FollowTable(t, changes).inodes[i].eviction == t.inodes[i].eviction
  {
    hide Wf, FollowStep;
    if changes != [] {
      var front := changes[..|changes| - 1];
      FollowKeepsWf(t, front);
      FollowKeepsHandles(t, front);
      StepIsOk(FollowTable(t, front), changes[|changes| - 1]);
    }
  }

  predicate IsOpenFile(t: Table, i: Ino) {
    i in t.inodes && t.inodes[i].kind.File? && t.inodes[i].IsOpen()
  }

  ghost function Forgotten(nc: map<string, int>, paths: set<string>): map<string, int> {
    map k | k in nc && k !in paths :: nc[k]
  }

  /** The added and updated paths of a batch, with their ancestors. */
  ghost function Touched(changes: seq<FollowChange>): set<string> {
    if changes == [] then {}
    else
      var c := changes[|changes| - 1];
      Touched(changes[..|changes| - 1]) + (if c.op.Delete? then {} else SelfAndUp(c.path))
  }

  /** A path is forgotten exactly when it is an added or updated path or one of its ancestors. */
  lemma {:induction false} TouchedIs(changes: seq<FollowChange>, a: string)
    ensures a in Touched(changes)
       <==> exists k ::
              0 <= k < |changes| && !changes[k].op.Delete? && (a == changes[k].path || a + "/" <= changes[k].path)
  {
    if changes != [] {
      var front := changes[..|changes| - 1];
      TouchedIs(front, a);
      SelfAndUpIs(changes[|changes| - 1].path, a);
      if k :| 0 <= k < |changes| && !changes[k].op.Delete? && (a == changes[k].path || a + "/" <= changes[k].path) {
        if k < |front| { assert front[k] == changes[k]; }
      }
      if k :| 0 <= k < |front| && !front[k].op.Delete? && (a == front[k].path || a + "/" <= front[k].path) {
        assert front[k] == changes[k];
      }
    }
  }

  lemma ParentIsNoFile(t: Table, i: Ino)
    requires Wf(t) && Live(t, i)
    ensures t.inodes[i].parent in t.inodes && !IsOpenFile(t, t.inodes[i].parent)
  {
    assert UpOk(t, i) && RootOk(t);
  }

  lemma FollowNothing(t: Table)
    ensures FollowTable(t, []) == t && FollowDirs(t, []) == {} && FollowQueues(t, []) == []
  {
  }

  lemma FollowMore(t: Table, changes: seq<FollowChange>, k: nat)
    requires k < |changes|
    ensures FollowTable(t, changes[..k + 1]) == FollowStep(FollowTable(t, changes[..k]), changes[k])
    ensures FollowDirs(t, changes[..k + 1])
         == FollowDirs(t, changes[..k]) + StaleDirOf(FollowTable(t, changes[..k]), changes[k].path)
    ensures FollowQueues(t, changes[..k + 1])
         == FollowQueues(t, changes[..k]) + FollowQueue(FollowTable(t, changes[..k]), changes[k])
  {
    assert changes[..k + 1][..k] == changes[..k];
  }

  lemma StaleDirOne(t: Table, path: string)
    ensures StaleDirOf(t, path)
         == if !Materialized(t, path) && IsLoaded(t, NearestDir(t, path).0) then {NearestDir(t, path).0} else {}
  {
    hide NearestDir;
  }

  lemma NoStepTaken(t: Table, c: FollowChange)
    ensures !Materialized(t, c.path) ==> FollowStep(t, c) == t && FollowQueue(t, c) == []
  {
  }

  // ----- A diff that is applied late ------------------------------------------------------------

  lemma RefreshedFacts(t: Table, updates: seq<Update>)
    ensures SameButMeta(t, Refreshed(t, updates))
    ensures forall i :: i in t.inodes ==>
      var e, e' := t.inodes[i], Refreshed(t, updates).inodes[i];
      e'.IsDirty() == e.IsDirty() && (e.IsDirty() ==> e' == e)
  {
    forall i | i in t.inodes
      ensures var m := MetaAfter(t.inodes[i].meta, updates, i);
              m.IsDirty() == t.inodes[i].IsDirty() && (t.inodes[i].IsDirty() ==> m == t.inodes[i].meta)
    {
      RefreshKeepsDirty(t.inodes[i].meta, updates, i);
      if t.inodes[i].IsDirty() { RefreshSkipsDirty(t.inodes[i].meta, updates, i); }
    }
  }

  lemma {:induction false} RefreshKeepsDirty(m: FileMeta, updates: seq<Update>, i: Ino)
    ensures MetaAfter(m, updates, i).IsDirty() == m.IsDirty()
  {
    if updates != [] { RefreshKeepsDirty(m, updates[..|updates| - 1], i); }
  }

  /** Metadata that a round changes was in the updates. */
  lemma ChangedAreUpdated(t: Table, entries: seq<TreeEntry>, polled: set<string>, now: int, updates: seq<Update>,
                          t': Table)
    requires DiffUpdates(t, RemoteMap(entries), now, updates) && t' == Polled(t, entries, polled, now)
    ensures forall i :: i in t'.inodes && i in t.inodes && t'.inodes[i].meta != t.inodes[i].meta ==>
      exists u :: u in updates && u.ino == i
  {
    hide Polled, RemoteMap, Dead;
    forall i | i in t'.inodes && i in t.inodes && t'.inodes[i].meta != t.inodes[i].meta
      ensures exists u :: u in updates && u.ino == i
    {
      if i in Closed(t, Dead(t, RemoteMap(entries), polled)) {
        ClosedIsMissing(t, entries, polled, now, i);
      } else {
        PolledEntry(t, entries, polled, now, i);
        assert UpdateOf(i, RemoteMap(entries)[t.inodes[i].fullPath], now) in updates;
      }
    }
  }

  lemma DirtyNeedNoTelling(queue: seq<Invalidation>, t: Table)
    ensures forall i :: i in t.inodes && t.inodes[i].meta.dirtyGeneration > 0 ==> DropTold(queue, t.inodes, i)
  {
  }

  lemma CleanAreFiles(t: Table, deletions: seq<Ino>)
    requires Files(t, SetOf(deletions) * t.inodes.Keys)
    ensures Files(t, CleanOf(t, SetOf(deletions)))
  {
  }

  lemma AppliedIsLoose(t: Table, updates: seq<Update>, deletions: set<Ino>)
    requires Wf(t) && Files(t, deletions * t.inodes.Keys)
    ensures Wf(Refreshed(t, updates)) && Loose(Refreshed(t, updates))
    ensures Files(Refreshed(t, updates), deletions * Refreshed(t, updates).inodes.Keys)
    ensures Loose(Applied(t, updates, deletions))
  {
    var p := Refreshed(t, updates);
    RefreshedFacts(t, updates);
    SameTreeKeepsWf(t, p);
    WfIsLoose(p);
    assert Files(p, CleanOf(p, deletions));
    hide Wf, Loose, AfterDeletions;
    DeletionsKeepLoose(p, CleanOf(p, deletions));
  }

  /** On an idle table a late diff is the diff of the snapshot. */
  lemma PolledIsLate(t: Table, entries: seq<TreeEntry>, polled: set<string>, now: int, updates: seq<Update>)
    requires DiffUpdates(t, RemoteMap(entries), now, updates)
    ensures var deletions := Dead(t, RemoteMap(entries), polled);
            && LatePolled(t, updates, deletions, RemotePathSet(entries)) == Polled(t, entries, polled, now)
            && Applied(t, updates, deletions) == Reconciled(t, entries, polled, now)
  {
    hide DiffUpdates, Dead, AfterDeletions, Unload, StaleDirs;
    var remote := RemoteMap(entries);
    PulledIs(t, remote, now, updates);
    PulledFacts(t, remote, now);
    DeadAreClean(t, Pulled(t, remote, now), remote, polled);
  }

  /** Anything may happen between the snapshot of `was` and the write lock.  A file that has local writes by
      then is untouched; a clean file that has not changed since agrees with the listing; a dropped file that
      is clean loses its path; an inode that the diff does not mention keeps its metadata; and whoever is not
      dropped keeps its place exactly when no name or path of a dropped file leads there. */
  lemma LateDiffConverges(was: Table, t: Table, entries: seq<TreeEntry>, polled: set<string>, now: int,
                          updates: seq<Update>, i: Ino)
    requires DiffUpdates(was, RemoteMap(entries), now, updates)
    requires Wf(t) && i in t.inodes && Files(t, Dead(was, RemoteMap(entries), polled) * t.inodes.Keys)
    ensures var remote, dead := RemoteMap(entries), Dead(was, RemoteMap(entries), polled);
            var t', drop := LatePolled(t, updates, dead, RemotePathSet(entries)), CleanOf(t, dead);
            && (i in t'.inodes <==> !(i in drop && !t.inodes[i].IsOpen()))
            && (i in t'.inodes ==> t'.inodes[i].fullPath == t.inodes[i].fullPath
                                   && t'.inodes[i].eviction == t.inodes[i].eviction)
            && (t.inodes[i].IsDirty() ==> i in t'.inodes && t'.inodes[i].meta == t.inodes[i].meta)
            && (i !in was.inodes && i in t'.inodes ==> t'.inodes[i].meta == t.inodes[i].meta)
            && (i in was.inodes && i in t'.inodes && SameFile(was.inodes[i], t.inodes[i]) ==>
                  t.inodes[i].fullPath in remote ==> InSync(t'.inodes[i].meta, remote[t.inodes[i].fullPath]))
            && (i in drop ==> !Live(t', i))
            && (Live(t, i) && i !in drop ==>
                  (Placed(t', i) <==> i !in Hits(t, drop) && t.inodes[i].fullPath !in OldPaths(t, Closed(t, drop))))
  {
    hide Wf, DiffUpdates, Dead, AfterDeletions, Unload, StaleDirs, InSync, Placed, SameFile, SameButMeta, Refreshed,
         Hits, Closed, OldPaths;
    var dead, p := Dead(was, RemoteMap(entries), polled), Refreshed(t, updates);
    RefreshedFacts(t, updates);
    SameClean(t, p, dead);
    AppliedIsLoose(t, updates, dead);
    var drop, d := CleanOf(t, dead), Applied(t, updates, dead);
    SameButMetaFacts(t, p, drop);
    LateMeta(was, t, RemoteMap(entries), now, updates, i);
    LatePlace(t, p, drop, i);
    UnloadKeepsPlace(d, StaleDirs(d, RemotePathSet(entries)), i);
    UnloadFrame(d, StaleDirs(d, RemotePathSet(entries)), i);
  }

  /** A clean file as the snapshot saw it. */
  predicate SameFile(was: Entry, e: Entry) {
    e.kind.File? && was.kind.File? && !e.IsDirty() && e.meta == was.meta && e.fullPath == was.fullPath
  }

  lemma UnloadFrame(t: Table, dirs: set<Ino>, i: Ino)
    ensures i in Unload(t, dirs).inodes <==> i in t.inodes
    ensures i in t.inodes ==> var e, e' := t.inodes[i], Unload(t, dirs).inodes[i];
                              e'.fullPath == e.fullPath && e'.eviction == e.eviction && e'.meta == e.meta
  {
  }

  lemma SameClean(t: Table, p: Table, deletions: set<Ino>)
    requires SameButMeta(t, p)
    requires forall i :: i in t.inodes && i in p.inodes ==> p.inodes[i].IsDirty() == t.inodes[i].IsDirty()
    ensures CleanOf(p, deletions) == CleanOf(t, deletions)
  {
  }

  lemma LateMeta(was: Table, t: Table, remote: map<string, TreeEntry>, now: int, updates: seq<Update>, i: Ino)
    requires DiffUpdates(was, remote, now, updates) && i in t.inodes
    ensures var m := MetaAfter(t.inodes[i].meta, updates, i);
            && i in Refreshed(t, updates).inodes && Refreshed(t, updates).inodes[i] == t.inodes[i].(meta := m)
            && (i !in was.inodes ==> m == t.inodes[i].meta)
            && (i in was.inodes && SameFile(was.inodes[i], t.inodes[i]) && t.inodes[i].fullPath in remote ==>
                  InSync(m, remote[t.inodes[i].fullPath]))
  {
    if i !in was.inodes {
      MetaUntouched(t.inodes[i].meta, updates, i);
    } else {
      PulledIs(was, remote, now, updates);
      PulledFacts(was, remote, now);
      assert Pulled(was, remote, now).inodes[i] == Refreshed(was, updates).inodes[i];
    }
  }

  lemma LatePlace(t: Table, p: Table, drop: set<Ino>, i: Ino)
    requires SameButMeta(t, p) && Wf(p) && Files(p, drop) && i in t.inodes
    requires Hits(p, drop) == Hits(t, drop) && Closed(p, drop) == Closed(t, drop)
    requires OldPaths(p, Closed(p, drop)) == OldPaths(t, Closed(t, drop))
    ensures var d := AfterDeletions(p, drop);
            && (i in d.inodes <==> !(i in drop && !t.inodes[i].IsOpen()))
            && (i in d.inodes ==> d.inodes[i].fullPath == t.inodes[i].fullPath && d.inodes[i].meta == p.inodes[i].meta
                                  && d.inodes[i].eviction == t.inodes[i].eviction)
            && (i in drop ==> !Live(d, i))
            && (Live(t, i) && i !in drop ==>
                  (Placed(d, i) <==> i !in Hits(t, drop) && t.inodes[i].fullPath !in OldPaths(t, Closed(t, drop))))
  {
    ClosedIff(p, drop, i);
    SameLive(t, p, i);
    hide Wf, AfterDeletions, Hits, Closed, OldPaths, Placed;
    if i in Closed(p, drop) {
      ClosedGone(p, drop, i);
    } else {
      StillThere(p, drop, i);
    }
    DeadLoseTheirPath(p, drop);
    if Live(t, i) && i !in drop { PlaceKeptIff(p, drop, i); }
  }

  lemma ClosedGone(t: Table, dead: set<Ino>, i: Ino)
    requires i in Closed(t, dead)
    ensures i !in AfterDeletions(t, dead).inodes
  {
    hide Hits;
    DropMissing(t, Closed(t, dead), Hits(t, dead), i);
  }

  lemma {:induction false} RefreshSkipsDirty(m: FileMeta, updates: seq<Update>, i: Ino)
    requires m.IsDirty()
    ensures MetaAfter(m, updates, i) == m
  {
    if updates != [] { RefreshSkipsDirty(m, updates[..|updates| - 1], i); }
  }

  // ----- Helpers ----------------------------------------------------------------------

  lemma NearestDirHasPath(t: Table, path: string)
    requires Loose(t) && path !in t.paths
    ensures var (dir, dirPath) := NearestDir(t, path); dir in t.inodes && t.inodes[dir].fullPath == dirPath
  {
    if path != "" {
      NearestDirIsDeepest(t, path);
    } else {
      RootIsDir(t);
    }
  }

  lemma NothingDone(t: Table)
    ensures AfterDeletions(t, CleanOf(t, {})) == t
  {
    assert CleanOf(t, {}) == {};
    NoDeletions(t);
    hide CleanOf, AfterDeletions;
  }

  lemma StaleMore(t: Table, paths: set<string>, p: string)
    ensures StaleDirs(t, paths + {p})
         == StaleDirs(t, paths) + (if p !in t.paths && IsLoaded(t, NearestDir(t, p).0) then {NearestDir(t, p).0}
             else {})
  {
    hide NearestDir;
  }

  lemma DirPathsMore(t: Table, dirs: set<Ino>, d: Ino, dirPaths: seq<string>)
    requires d in t.inodes && SetOf(dirPaths) == DirPaths(t, dirs)
    ensures SetOf(dirPaths + [t.inodes[d].fullPath]) == DirPaths(t, dirs + {d})
  {
    assert SetOf(dirPaths + [t.inodes[d].fullPath]) == SetOf(dirPaths) + {t.inodes[d].fullPath};
    assert DirPaths(t, dirs + {d}) == DirPaths(t, dirs) + {t.inodes[d].fullPath};
  }

  lemma DeadAreClean(t: Table, p: Table, remote: map<string, TreeEntry>, polled: set<string>)
    requires SameButMeta(t, p) && forall i :: i in t.inodes && i in p.inodes ==>
      p.inodes[i].IsDirty() == t.inodes[i].IsDirty()
    ensures CleanOf(p, Dead(t, remote, polled)) == Dead(t, remote, polled)
  {
  }

  lemma {:induction false} SameDeletionQueue(t: Table, p: Table, inos: seq<Ino>)
    requires SameButMeta(t, p) && forall i :: i in t.inodes && i in p.inodes ==>
      p.inodes[i].IsDirty() == t.inodes[i].IsDirty()
    ensures DeletionQueue(p, inos) == DeletionQueue(t, inos)
  {
    if inos != [] { SameDeletionQueue(t, p, inos[..|inos| - 1]); }
  }

  lemma SameDirPaths(t: Table, dirs: set<Ino>)
    ensures DirPaths(Unload(t, dirs), dirs) == DirPaths(t, dirs)
  {
  }
}
