/** The listing diff: what one poll round changes, and why a second round with the same listing changes nothing. */
module PollDiff {
  import opened Options
  import opened Iteration
  import opened InodeModel
  import opened InodeLemmas
  import opened InodeSpecs
  import opened InodeLoose
  import opened RemotePaths
  import opened RemoteDeletion

  /** One line of a remote listing. */
  datatype TreeEntry = TreeEntry(path: string, entryType: string, xetHash: Option<string>, oid: Option<string>,
                                 size: Option<nat>, mtime: Option<int>)

  datatype Update = Update(ino: Ino, hash: Option<string>, etag: Option<string>, size: nat, mtime: int)

  /** The listed files by path; a later line replaces an earlier one. */
  function RemoteMap(entries: seq<TreeEntry>): map<string, TreeEntry> {
    if entries == [] then map[]
    else
      var last := entries[|entries| - 1];
      var m := RemoteMap(entries[..|entries| - 1]);
      if last.entryType == "file" then m[last.path := last] else m
  }

  function RemotePathSet(entries: seq<TreeEntry>): set<string> {
    set e | e in entries :: e.path
  }

  /** The local metadata says what the remote says: content hash, or the object id when neither side has
      a hash, and size. */
  predicate InSync(m: FileMeta, r: TreeEntry) {
    && (if m.xetHash.Some? || r.xetHash.Some? then r.xetHash == m.xetHash else r.oid == m.etag)
    && r.size.UnwrapOr(0) == m.size
  }

  predicate NeedsUpdate(e: Entry, remote: map<string, TreeEntry>) {
    e.kind.File? && !e.IsDirty() && e.fullPath in remote && !InSync(e.meta, remote[e.fullPath])
  }

  predicate IsDead(e: Entry, remote: map<string, TreeEntry>, polled: set<string>) {
    e.kind.File? && !e.IsDirty() && e.fullPath !in remote && ParentPrefix(e.fullPath) in polled
  }

  function UpdateOf(ino: Ino, r: TreeEntry, now: int): Update {
    Update(ino, r.xetHash, r.oid, r.size.UnwrapOr(0), r.mtime.UnwrapOr(now))
  }

  ghost function Dead(t: Table, remote: map<string, TreeEntry>, polled: set<string>): set<Ino> {
    set i | i in t.inodes && IsDead(t.inodes[i], remote, polled)
  }

  // ----- Updates -----------------------------------------------------------------------

  /** The metadata of `i` after the updates, applied in order. */
  ghost function MetaAfter(m: FileMeta, updates: seq<Update>, i: Ino): FileMeta {
    if updates == [] then m
    else
      var u := updates[|updates| - 1];
      var before := MetaAfter(m, updates[..|updates| - 1], i);
      if u.ino == i then before.Refresh(u.hash, u.etag, u.size, u.mtime) else before
  }

  ghost function Refreshed(t: Table, updates: seq<Update>): Table {
    t.(inodes := map i | i in t.inodes :: t.inodes[i].(meta := MetaAfter(t.inodes[i].meta, updates, i)))
  }

  /** The updates that the diff of a snapshot asks for: one for each file out of sync. */
  ghost predicate DiffUpdates(t: Table, remote: map<string, TreeEntry>, now: int, updates: seq<Update>) {
    && (forall j, k :: 0 <= j < k < |updates| ==> updates[j].ino != updates[k].ino)
    && (forall u :: u in updates ==>
          && u.ino in t.inodes && NeedsUpdate(t.inodes[u.ino], remote)
          && u == UpdateOf(u.ino, remote[t.inodes[u.ino].fullPath], now))
    && (forall i :: i in t.inodes && NeedsUpdate(t.inodes[i], remote) ==>
          UpdateOf(i, remote[t.inodes[i].fullPath], now) in updates)
  }

  ghost function PulledMeta(e: Entry, remote: map<string, TreeEntry>, now: int): FileMeta {
    if NeedsUpdate(e, remote) then
      var r := remote[e.fullPath];
      e.meta.Refresh(r.xetHash, r.oid, r.size.UnwrapOr(0), r.mtime.UnwrapOr(now))
    else e.meta
  }

  ghost function Pulled(t: Table, remote: map<string, TreeEntry>, now: int): Table {
    t.(inodes := map i | i in t.inodes :: t.inodes[i].(meta := PulledMeta(t.inodes[i], remote, now)))
  }

  lemma {:induction false} MetaUntouched(m: FileMeta, updates: seq<Update>, i: Ino)
    requires forall u :: u in updates ==> u.ino != i
    ensures MetaAfter(m, updates, i) == m
  {
    if updates != [] { MetaUntouched(m, updates[..|updates| - 1], i); }
  }

  lemma {:induction false} MetaRefreshedOnce(m: FileMeta, updates: seq<Update>, k: nat)
    requires k < |updates|
    requires forall i, j :: 0 <= i < j < |updates| ==> updates[i].ino != updates[j].ino
    ensures var u := updates[k]; MetaAfter(m, updates, u.ino) == m.Refresh(u.hash, u.etag, u.size, u.mtime)
  {
    var front := updates[..|updates| - 1];
    if k == |updates| - 1 {
      MetaUntouched(m, front, updates[k].ino);
    } else {
      MetaRefreshedOnce(m, front, k);
    }
  }

  lemma PulledIs(t: Table, remote: map<string, TreeEntry>, now: int, updates: seq<Update>)
    requires DiffUpdates(t, remote, now, updates)
    ensures Refreshed(t, updates) == Pulled(t, remote, now)
  {
    forall i | i in t.inodes ensures MetaAfter(t.inodes[i].meta, updates, i) == PulledMeta(t.inodes[i], remote, now) {
      if NeedsUpdate(t.inodes[i], remote) {
        var u := UpdateOf(i, remote[t.inodes[i].fullPath], now);
        var k :| 0 <= k < |updates| && updates[k] == u;
        MetaRefreshedOnce(t.inodes[i].meta, updates, k);
      } else {
        MetaUntouched(t.inodes[i].meta, updates, i);
      }
    }
    SameMap(Refreshed(t, updates).inodes, Pulled(t, remote, now).inodes);
  }

  // ----- One round -----------------------------------------------------------------------

  /** The loaded directories in which some of `paths` has appeared. */
  ghost function StaleDirs(t: Table, paths: set<string>): set<Ino> {
    set p | p in paths && p !in t.paths && IsLoaded(t, NearestDir(t, p).0) :: NearestDir(t, p).0
  }

  predicate IsLoaded(t: Table, i: Ino) {
    i in t.inodes && t.inodes[i].childrenLoaded
  }

  /** The table once the updates and the deletions are done. */
  ghost function Reconciled(t: Table, entries: seq<TreeEntry>, polled: set<string>, now: int): Table {
    var remote := RemoteMap(entries);
    AfterDeletions(Pulled(t, remote, now), Dead(t, remote, polled))
  }

  ghost function Polled(t: Table, entries: seq<TreeEntry>, polled: set<string>, now: int): Table {
    var d := Reconciled(t, entries, polled, now);
    Unload(d, StaleDirs(d, RemotePathSet(entries)))
  }

  /** Metadata has no bearing on names, links and open handles. */
  ghost predicate SameButMeta(t: Table, t': Table) {
    && t'.inodes.Keys == t.inodes.Keys && t'.paths == t.paths && t'.nextInode == t.nextInode
    && (forall i :: i in t.inodes ==> t'.inodes[i] == t.inodes[i].(meta := t'.inodes[i].meta))
  }

  lemma SameButMetaFacts(t: Table, t': Table, dead: set<Ino>)
    requires SameButMeta(t, t')
    ensures Wf(t) ==> Wf(t')
    ensures Hits(t', dead) == Hits(t, dead) && Closed(t', dead) == Closed(t, dead)
    ensures OldPaths(t', Closed(t', dead)) == OldPaths(t, Closed(t, dead))
    ensures Files(t', dead) <==> Files(t, dead)
  {
    hide Wf;
    if Wf(t) { SameTreeKeepsWf(t, t'); }
    forall i | i in t.inodes ensures Named(t', i) == Named(t, i) {}
  }

  lemma SameStrays(t: Table, t': Table, dead: set<Ino>)
    requires SameButMeta(t, t') && Files(t, dead)
    ensures (Harmless(t', dead) <==> Harmless(t, dead)) && (NoStrayName(t', dead) <==> NoStrayName(t, dead))
  {
    SameButMetaFacts(t, t', dead);
    SameButMetaFacts(t, t', Hits(t, dead));
    hide Hits, Closed, OldPaths, Files;
  }

  lemma DeadAreFiles(t: Table, remote: map<string, TreeEntry>, polled: set<string>)
    ensures Files(t, Dead(t, remote, polled))
  {
  }

  lemma PulledFacts(t: Table, remote: map<string, TreeEntry>, now: int)
    ensures SameButMeta(t, Pulled(t, remote, now))
    ensures forall i :: i in t.inodes ==>
      var e, e' := t.inodes[i], Pulled(t, remote, now).inodes[i];
      e'.IsDirty() == e.IsDirty() && (e.IsDirty() ==> e' == e) && !NeedsUpdate(e', remote)
  {
  }

  /** A round leaves a tree exactly when the deletions are harmless. */
  lemma PolledKeepsWfIff(t: Table, entries: seq<TreeEntry>, polled: set<string>, now: int)
    requires Wf(t)
    ensures Wf(Polled(t, entries, polled, now)) <==> Harmless(t, Dead(t, RemoteMap(entries), polled))
  {
    hide Wf, Harmless, Pulled, Dead, AfterDeletions;
    var remote := RemoteMap(entries);
    var p, dead := Pulled(t, remote, now), Dead(t, remote, polled);
    PulledFacts(t, remote, now);
    DeadAreFiles(t, remote, polled);
    SameButMetaFacts(t, p, dead);
    SameStrays(t, p, dead);
    DeletionsKeepWfIff(p, dead);
    UnloadKeepsWfIff(AfterDeletions(p, dead), StaleDirs(AfterDeletions(p, dead), RemotePathSet(entries)));
  }

  lemma UnloadKeepsWfIff(t: Table, dirs: set<Ino>)
    ensures Wf(Unload(t, dirs)) <==> Wf(t)
  {
    hide Wf;
    if Wf(t) { UnloadKeepsWf(t, dirs); }
    if Wf(Unload(t, dirs)) { SameTreeKeepsWf(Unload(t, dirs), t); }
  }

  lemma UnloadKeepsLoose(t: Table, dirs: set<Ino>)
    requires Loose(t)
    ensures Loose(Unload(t, dirs))
  {
    var u := Unload(t, dirs);
    assert RootOk(u) && Live(u, ROOT_INODE) && MappedOk(u) by { UnloadKeepsMaps(t, dirs); }
    forall i | i in u.inodes ensures EdgeOk(u, i) && DownOk(u, i) {
      assert EdgeOk(t, i) && DownOk(t, i);
      UnloadKeepsEdges(t, dirs, i);
    }
    hide Unload, EdgeOk, DownOk, MappedOk, RootOk;
  }

  lemma UnloadKeepsEdges(t: Table, dirs: set<Ino>, i: Ino)
    requires i in t.inodes && EdgeOk(t, i) && DownOk(t, i)
    ensures EdgeOk(Unload(t, dirs), i) && DownOk(Unload(t, dirs), i)
  {
    hide ChildListOk;
    SameChildList(t.inodes[i], Unload(t, dirs).inodes[i]);
  }

  lemma SameChildList(e: Entry, e': Entry)
    requires ChildListOk(e) && e'.children == e.children && e'.childIndex == e.childIndex
    ensures ChildListOk(e')
  {
  }

  lemma UnloadKeepsMaps(t: Table, dirs: set<Ino>)
    requires RootOk(t) && Live(t, ROOT_INODE) && MappedOk(t)
    ensures RootOk(Unload(t, dirs)) && Live(Unload(t, dirs), ROOT_INODE) && MappedOk(Unload(t, dirs))
  {
    assert forall i :: Live(Unload(t, dirs), i) <==> Live(t, i);
  }

  /** Whatever happens, the directories of the table can still be found by their paths. */
  lemma PolledIsLoose(t: Table, entries: seq<TreeEntry>, polled: set<string>, now: int)
    requires Wf(t)
    ensures Loose(Reconciled(t, entries, polled, now)) && Loose(Polled(t, entries, polled, now))
  {
    hide Wf, Loose, Pulled, Dead, AfterDeletions, Unload;
    var remote := RemoteMap(entries);
    var p, dead := Pulled(t, remote, now), Dead(t, remote, polled);
    PulledFacts(t, remote, now);
    DeadAreFiles(t, remote, polled);
    SameButMetaFacts(t, p, dead);
    WfIsLoose(p);
    DeletionsKeepLoose(p, dead);
    UnloadKeepsLoose(AfterDeletions(p, dead), StaleDirs(AfterDeletions(p, dead), RemotePathSet(entries)));
  }

  /** An entry that stays in the table keeps everything but its listing, its link and, when it was out of
      sync, its remote metadata. */
  lemma PolledEntry(t: Table, entries: seq<TreeEntry>, polled: set<string>, now: int, i: Ino)
    requires i in t.inodes
    requires i !in Closed(t, Dead(t, RemoteMap(entries), polled))
    ensures i in Polled(t, entries, polled, now).inodes
    ensures var e, e' := t.inodes[i], Polled(t, entries, polled, now).inodes[i];
            && e'.inode == e.inode && e'.parent == e.parent && e'.name == e.name && e'.fullPath == e.fullPath
            && e'.kind == e.kind && e'.eviction == e.eviction
            && e'.meta == PulledMeta(e, RemoteMap(entries), now)
            && e'.childIndex == DropIndex(e.childIndex, Closed(t, Dead(t, RemoteMap(entries), polled))
                                                        + Hits(t, Dead(t, RemoteMap(entries), polled)))
            && (e'.childrenLoaded
                <==> e.childrenLoaded && i !in StaleDirs(Reconciled(t, entries, polled, now), RemotePathSet(entries)))
  {
    var remote := RemoteMap(entries);
    var dead := Dead(t, remote, polled);
    var p := Pulled(t, remote, now);
    hide Dead, StaleDirs;
    PulledFacts(t, remote, now);
    SameButMetaFacts(t, p, dead);
    hide Hits, Drop, Closed, SameButMeta;
    StillThere(p, dead, i);
  }

  /** Without stray names, everything that is not dropped stays where it belongs. */
  lemma PolledPlaced(t: Table, entries: seq<TreeEntry>, polled: set<string>, now: int, i: Ino)
    requires Wf(t) && i in t.inodes && NoStrayName(t, Dead(t, RemoteMap(entries), polled))
    ensures var t', dead := Polled(t, entries, polled, now), Dead(t, RemoteMap(entries), polled);
            && (Live(t, i) && i !in dead ==> Placed(t', i))
            && (Live(t', i) <==> Live(t, i) && i !in dead)
  {
    hide Wf, NoStrayName, Pulled, Dead, Placed;
    var remote := RemoteMap(entries);
    var p, dead := Pulled(t, remote, now), Dead(t, remote, polled);
    var d := AfterDeletions(p, dead);
    PulledFacts(t, remote, now);
    DeadAreFiles(t, remote, polled);
    SameButMetaFacts(t, p, dead);
    SameStrays(t, p, dead);
    SameLive(t, p, i);
    DeletedPlaced(p, dead, i);
    UnloadKeepsPlace(d, StaleDirs(d, RemotePathSet(entries)), i);
    hide AfterDeletions, Unload, StaleDirs;
  }

  lemma SameLive(t: Table, t': Table, i: Ino)
    requires SameButMeta(t, t')
    ensures Live(t', i) <==> Live(t, i)
  {
  }

  lemma DeletedPlaced(t: Table, dead: set<Ino>, i: Ino)
    requires Wf(t) && i in t.inodes && Files(t, dead) && NoStrayName(t, dead)
    ensures var t' := AfterDeletions(t, dead);
            && (Live(t, i) && i !in dead ==> Placed(t', i))
            && (Live(t', i) <==> Live(t, i) && i !in dead)
  {
    hide Wf, NoStrayName, AfterDeletions, Placed, Closed, Hits;
    OthersKeepTheirPlace(t, dead);
    DeadLoseTheirPath(t, dead);
    if i !in dead {
      WfIsLoose(t);
      NotClosed(t, dead, i);
      LiveStays(t, dead, i);
      if Live(t, i) { PlacedIsLive(AfterDeletions(t, dead), i); }
    }
  }

  lemma PlacedIsLive(t: Table, i: Ino)
    requires Placed(t, i)
    ensures Live(t, i)
  {
  }

  lemma UnloadKeepsPlace(t: Table, dirs: set<Ino>, i: Ino)
    ensures (Placed(Unload(t, dirs), i) <==> Placed(t, i)) && (Live(Unload(t, dirs), i) <==> Live(t, i))
  {
  }

  /** What a round may change: metadata of files out of sync, the links of dropped files, and which listings
      are known to be complete. */
  ghost predicate OnlyPulled(e: Entry, e': Entry, remote: map<string, TreeEntry>, now: int, out: set<Ino>) {
    && e'.inode == e.inode && e'.parent == e.parent && e'.name == e.name && e'.fullPath == e.fullPath
    && e'.kind == e.kind && e'.eviction == e.eviction
    && e'.meta == PulledMeta(e, remote, now)
    && e'.childIndex == DropIndex(e.childIndex, out)
    && (e'.childrenLoaded ==> e.childrenLoaded)
  }

  /** The metadata `m` of an entry after a round.  A clean listed file that has the size of its line, and its hash
      or, when neither side has a hash, its object id, is as before; any other clean listed file has what its
      line says; nothing else changes. */
  ghost predicate FollowsListing(e: Entry, m: FileMeta, remote: map<string, TreeEntry>, now: int) {
    if e.kind.File? && e.meta.dirtyGeneration == 0 && e.fullPath in remote then
      var r := remote[e.fullPath];
      if r.size.UnwrapOr(0) == e.meta.size
         && (r.xetHash == e.meta.xetHash && (r.xetHash.Some? || r.oid == e.meta.etag))
      then m == e.meta
      else m == e.meta.(xetHash := r.xetHash, etag := r.oid, size := r.size.UnwrapOr(0), mtime := r.mtime.UnwrapOr(now),
                        stagingIsCurrent := false)
    else m == e.meta
  }

  lemma PulledFollows(e: Entry, remote: map<string, TreeEntry>, now: int)
    ensures FollowsListing(e, PulledMeta(e, remote, now), remote, now)
  {
  }

  /** The listed files are those of the file lines, and of several lines for one path the last one counts. */
  lemma {:induction false} ListedIs(entries: seq<TreeEntry>, p: string)
    ensures p in RemoteMap(entries)
       <==> exists k :: 0 <= k < |entries| && entries[k].entryType == "file" && entries[k].path == p
    ensures p in RemoteMap(entries) ==>
      exists k :: 0 <= k < |entries| && entries[k].entryType == "file" && entries[k].path == p
                  && RemoteMap(entries)[p] == entries[k]
                  && forall j :: k < j < |entries| && entries[j].entryType == "file" ==> entries[j].path != p
  {
    if entries != [] {
      var n := |entries| - 1;
      ListedIs(entries[..n], p);
      assert forall k :: 0 <= k < n ==> entries[..n][k] == entries[k];
      if entries[n].entryType == "file" && entries[n].path == p {
        assert RemoteMap(entries)[p] == entries[n];
      } else if p in RemoteMap(entries) {
        var k :| 0 <= k < n && entries[..n][k].entryType == "file" && entries[..n][k].path == p
                 && RemoteMap(entries[..n])[p] == entries[..n][k]
                 && forall j :: k < j < n && entries[..n][j].entryType == "file" ==> entries[..n][j].path != p;
        assert RemoteMap(entries)[p] == entries[k];
      }
    }
  }

  /** The table after a round with these dropped files and these stale listings: files with local writes are
      untouched, clean listed files agree with the listing, dropped files lose link and path, everything else
      keeps its place, its handles and its listing, and exactly the stale listings are marked. */
  ghost predicate Converged(t: Table, t': Table, remote: map<string, TreeEntry>, polled: set<string>, now: int,
                            dead: set<Ino>, stale: set<Ino>) {
    && t'.nextInode == t.nextInode
    && (forall i :: i in dead <==>
          i in t.inodes && t.inodes[i].kind.File? && t.inodes[i].meta.dirtyGeneration == 0
          && t.inodes[i].fullPath !in remote && ParentPrefix(t.inodes[i].fullPath) in polled)
    && (forall i :: i in t'.inodes <==> i in t.inodes && !(i in dead && !t.inodes[i].IsOpen()))
    && (forall i :: i in t'.inodes ==>
          && OnlyPulled(t.inodes[i], t'.inodes[i], remote, now, dead)
          && (t'.inodes[i].childrenLoaded <==> t.inodes[i].childrenLoaded && i !in stale))
    && (forall i :: i in t.inodes && t.inodes[i].IsDirty() ==>
          i in t'.inodes && t'.inodes[i].meta == t.inodes[i].meta && (Live(t', i) <==> Live(t, i)))
    && (forall i :: i in t'.inodes ==> FollowsListing(t.inodes[i], t'.inodes[i].meta, remote, now))
    && (forall i :: Live(t, i) ==> if i in dead then !Live(t', i) else Placed(t', i))
    && (forall p :: p in t'.paths <==> p in t.paths && t.paths[p] !in dead)
    && (forall p :: p in t'.paths ==> t'.paths[p] == t.paths[p])
  }

  lemma DeadIs(t: Table, remote: map<string, TreeEntry>, polled: set<string>)
    ensures forall i :: i in Dead(t, remote, polled) <==>
      i in t.inodes && t.inodes[i].kind.File? && t.inodes[i].meta.dirtyGeneration == 0
      && t.inodes[i].fullPath !in remote && ParentPrefix(t.inodes[i].fullPath) in polled
  {
    hide ParentPrefix;
  }

  /** One round converges.  The dropped files are exactly the clean files that are not listed although their
      directory was polled, and the stale listings those in which something new has appeared. */
  lemma PollConverges(t: Table, entries: seq<TreeEntry>, polled: set<string>, now: int)
    requires Wf(t) && NoStrayName(t, Dead(t, RemoteMap(entries), polled))
    ensures Wf(Polled(t, entries, polled, now))
    ensures Converged(t, Polled(t, entries, polled, now), RemoteMap(entries), polled, now,
                      Dead(t, RemoteMap(entries), polled),
                      StaleDirs(Reconciled(t, entries, polled, now), RemotePathSet(entries)))
  {
    hide Wf, NoStrayName, Polled, Placed, Closed, StaleDirs, Reconciled, DropIndex, OnlyPulled, FollowsListing,
         Dead, IsDead, RemoteMap, ParentPrefix;
    var remote := RemoteMap(entries);
    var t', dead := Polled(t, entries, polled, now), Dead(t, remote, polled);
    DeadAreFiles(t, remote, polled);
    DeadIs(t, remote, polled);
    NoStrayIsHarmless(t, dead);
    PolledKeepsWfIff(t, entries, polled, now);
    PolledPaths(t, entries, polled, now);
    forall i | i in t.inodes
      ensures Live(t', i) <==> Live(t, i) && i !in dead
      ensures Live(t, i) && i !in dead ==> Placed(t', i)
      ensures i in t'.inodes <==> !(i in dead && !t.inodes[i].IsOpen())
      ensures i in t'.inodes ==> OnlyPulled(t.inodes[i], t'.inodes[i], remote, now, dead)
      ensures i in t'.inodes ==>
        (t'.inodes[i].childrenLoaded
         <==> t.inodes[i].childrenLoaded
              && i !in StaleDirs(Reconciled(t, entries, polled, now), RemotePathSet(entries)))
    {
      PolledPlaced(t, entries, polled, now, i);
      PolledOrGone(t, entries, polled, now, i);
    }
    forall i | i in t'.inodes ensures i in t.inodes {
      if i !in t.inodes { ClosedIsMissing(t, entries, polled, now, i); }
    }
    PulledFollowAll(t, t', remote, now, dead);
  }

  lemma PulledFollowAll(t: Table, t': Table, remote: map<string, TreeEntry>, now: int, dead: set<Ino>)
    requires forall i :: i in t'.inodes ==> i in t.inodes && OnlyPulled(t.inodes[i], t'.inodes[i], remote, now, dead)
    ensures forall i :: i in t'.inodes ==> FollowsListing(t.inodes[i], t'.inodes[i].meta, remote, now)
    ensures forall i :: i in t'.inodes && t.inodes[i].IsDirty() ==> t'.inodes[i].meta == t.inodes[i].meta
  {
    hide DropIndex, FollowsListing, PulledMeta;
    forall i | i in t'.inodes ensures FollowsListing(t.inodes[i], t'.inodes[i].meta, remote, now)
      ensures t.inodes[i].IsDirty() ==> t'.inodes[i].meta == t.inodes[i].meta
    {
      PulledFollows(t.inodes[i], remote, now);
      if t.inodes[i].IsDirty() { DirtyStays(t.inodes[i], remote, now); }
    }
  }

  lemma DirtyStays(e: Entry, remote: map<string, TreeEntry>, now: int)
    requires e.IsDirty()
    ensures PulledMeta(e, remote, now) == e.meta
  {
  }

  lemma PolledOrGone(t: Table, entries: seq<TreeEntry>, polled: set<string>, now: int, i: Ino)
    requires i in t.inodes && Wf(t) && NoStrayName(t, Dead(t, RemoteMap(entries), polled))
    ensures var t', dead := Polled(t, entries, polled, now), Dead(t, RemoteMap(entries), polled);
            && (i in t'.inodes <==> !(i in dead && !t.inodes[i].IsOpen()))
            && (i in t'.inodes ==>
                  && OnlyPulled(t.inodes[i], t'.inodes[i], RemoteMap(entries), now, dead)
                  && (t'.inodes[i].childrenLoaded
                      <==> t.inodes[i].childrenLoaded
                           && i !in StaleDirs(Reconciled(t, entries, polled, now), RemotePathSet(entries))))
  {
    var dead := Dead(t, RemoteMap(entries), polled);
    ClosedIff(t, dead, i);
    hide Polled, Dead, StaleDirs, Reconciled, Closed;
    if i in Closed(t, dead) {
      ClosedIsMissing(t, entries, polled, now, i);
    } else {
      PolledEntry(t, entries, polled, now, i);
      DeadAreFiles(t, RemoteMap(entries), polled);
      DroppedNames(t, dead, i);
    }
  }

  lemma ClosedIff(t: Table, dead: set<Ino>, i: Ino)
    requires i in t.inodes
    ensures i in Closed(t, dead) <==> i in dead && !t.inodes[i].IsOpen()
  {
  }

  /** Without stray names the listings lose exactly the dropped files. */
  lemma DroppedNames(t: Table, dead: set<Ino>, i: Ino)
    requires Wf(t) && Files(t, dead) && NoStrayName(t, dead) && i in t.inodes
    ensures DropIndex(t.inodes[i].childIndex, Closed(t, dead) + Hits(t, dead))
         == DropIndex(t.inodes[i].childIndex, dead)
  {
    var index := t.inodes[i].childIndex;
    forall n | n in t.inodes[i].childIndex
      ensures t.inodes[i].childIndex[n] in Closed(t, dead) + Hits(t, dead) <==> t.inodes[i].childIndex[n] in dead
    {
      assert DownOk(t, i);
      OwnName(t, t.inodes[i].childIndex[n]);
    }
    hide Wf, Hits, Closed;
    SameMap(DropIndex(index, Closed(t, dead) + Hits(t, dead)), DropIndex(index, dead));
  }

  lemma PolledPaths(t: Table, entries: seq<TreeEntry>, polled: set<string>, now: int)
    requires Wf(t) && NoStrayName(t, Dead(t, RemoteMap(entries), polled))
    ensures var t', dead := Polled(t, entries, polled, now), Dead(t, RemoteMap(entries), polled);
            && t'.nextInode == t.nextInode
            && (forall p :: p in t'.paths <==> p in t.paths && t.paths[p] !in dead)
            && (forall p :: p in t'.paths ==> t'.paths[p] == t.paths[p])
  {
    hide Wf, NoStrayName, Dead;
    var remote := RemoteMap(entries);
    var p, dead := Pulled(t, remote, now), Dead(t, remote, polled);
    PulledFacts(t, remote, now);
    DeadAreFiles(t, remote, polled);
    SameButMetaFacts(t, p, dead);
    SameStrays(t, p, dead);
    DeadLoseTheirPath(p, dead);
    hide Hits, Closed, OldPaths;
  }

  lemma ClosedIsMissing(t: Table, entries: seq<TreeEntry>, polled: set<string>, now: int, i: Ino)
    requires i !in t.inodes || i in Closed(t, Dead(t, RemoteMap(entries), polled))
    ensures i !in Polled(t, entries, polled, now).inodes
  {
    hide Hits, Dead;
    var p := Pulled(t, RemoteMap(entries), now);
    var dead := Dead(t, RemoteMap(entries), polled);
    DropMissing(p, Closed(p, dead), Hits(p, dead), i);
  }

  // ----- The listing and the remote --------------------------------------------------------------

  /** No unlinked inode leads to anything, neither by parent and name nor by path. */
  ghost predicate OrphansLeadNowhere(t: Table) {
    forall o :: o in t.inodes && t.inodes[o].nlink == 0 ==> Named(t, o).None? && t.inodes[o].fullPath !in t.paths
  }

  lemma NoStrays(t: Table, dead: set<Ino>)
    requires Wf(t) && OrphansLeadNowhere(t) && Files(t, dead)
    ensures NoStrayName(t, dead)
  {
    forall i | i in dead && Live(t, i)
      ensures Named(t, i) == Some(i) && t.inodes[i].fullPath in t.paths && t.paths[t.inodes[i].fullPath] == i
    {
      FileIsNotRoot(t, i);
      OwnName(t, i);
      PathOfLive(t, i);
    }
  }

  /** An unlinked file that a round drops although somebody has it open: a clean one that no line names, in a
      directory that was listed. */
  ghost predicate OpenStray(t: Table, entries: seq<TreeEntry>, polled: set<string>, o: Ino) {
    && o in t.inodes && t.inodes[o].nlink == 0 && t.inodes[o].eviction.openHandles > 0
    && t.inodes[o].kind.File? && t.inodes[o].meta.dirtyGeneration == 0 && ParentPrefix(t.inodes[o].fullPath) in polled
    && forall k :: 0 <= k < |entries| && entries[k].entryType == "file" ==> entries[k].path != t.inodes[o].fullPath
  }

  /** Against a remote that holds `files`: when the listing of each polled directory names the files that lie
      directly in it, a file that the remote has keeps its place, whatever other listings failed, unless an open
      file that was unlinked leads to it by parent and name. */
  lemma RemoteFilesKeepTheirPlace(t: Table, entries: seq<TreeEntry>, polled: set<string>, now: int,
                                  files: set<string>, i: Ino)
    requires Wf(t)
    requires forall p :: p in files && ParentPrefix(p) in polled ==>
      exists k :: 0 <= k < |entries| && entries[k].entryType == "file" && entries[k].path == p
    requires Live(t, i) && t.inodes[i].kind.File? && t.inodes[i].fullPath in files
    ensures Placed(Polled(t, entries, polled, now), i)
       <==> forall o :: OpenStray(t, entries, polled, o) ==> Named(t, o) != Some(i)
  {
    var remote := RemoteMap(entries);
    var p, dead := Pulled(t, remote, now), Dead(t, remote, polled);
    ListedIs(entries, t.inodes[i].fullPath);
    DeadIs(t, remote, polled);
    DeadAreFiles(t, remote, polled);
    PulledFacts(t, remote, now);
    SameButMetaFacts(t, p, dead);
    SameLive(t, p, i);
    hide Wf, RemoteMap, Placed, Pulled, AfterDeletions, Dead, Hits, Closed, OldPaths, OpenStray, Files, Live;
    PlaceKeptIff(p, dead, i);
    PathsOfTheDead(t, remote, polled, t.inodes[i].fullPath);
    HitsAreStrays(t, entries, polled, i);
    UnloadKeepsPlace(AfterDeletions(p, dead), StaleDirs(AfterDeletions(p, dead), RemotePathSet(entries)), i);
  }

  lemma PathsOfTheDead(t: Table, remote: map<string, TreeEntry>, polled: set<string>, path: string)
    requires path in remote || ParentPrefix(path) !in polled
    ensures path !in OldPaths(t, Closed(t, Dead(t, remote, polled)))
  {
    DeadIs(t, remote, polled);
    hide Dead;
  }

  lemma HitsAreStrays(t: Table, entries: seq<TreeEntry>, polled: set<string>, i: Ino)
    requires Wf(t) && i !in Dead(t, RemoteMap(entries), polled)
    ensures i in Hits(t, Dead(t, RemoteMap(entries), polled))
       <==> exists o :: OpenStray(t, entries, polled, o) && Named(t, o) == Some(i)
  {
    var dead := Dead(t, RemoteMap(entries), polled);
    DeadAreFiles(t, RemoteMap(entries), polled);
    hide Wf, RemoteMap, Dead;
    forall o | o in t.inodes && Named(t, o) == Some(i)
      ensures o in dead && t.inodes[o].IsOpen() <==> OpenStray(t, entries, polled, o)
    {
      DeadIs(t, RemoteMap(entries), polled);
      ListedIs(entries, t.inodes[o].fullPath);
      if o in dead && Live(t, o) {
        FileIsNotRoot(t, o);
        OwnName(t, o);
      }
    }
  }

  /** A clean file that the listing of its directory does not name is dropped; one with local writes is not. */
  lemma UnlistedFilesAreDropped(t: Table, entries: seq<TreeEntry>, polled: set<string>, now: int, i: Ino)
    requires Wf(t) && Live(t, i) && t.inodes[i].kind.File? && ParentPrefix(t.inodes[i].fullPath) in polled
    requires forall k :: 0 <= k < |entries| && entries[k].entryType == "file" ==>
      entries[k].path != t.inodes[i].fullPath
    ensures t.inodes[i].meta.dirtyGeneration == 0 ==> !Live(Polled(t, entries, polled, now), i)
    ensures t.inodes[i].meta.dirtyGeneration > 0 && OrphansLeadNowhere(t) ==> Placed(Polled(t, entries, polled, now), i)
  {
    var remote := RemoteMap(entries);
    var p, dead := Pulled(t, remote, now), Dead(t, remote, polled);
    ListedIs(entries, t.inodes[i].fullPath);
    DeadAreFiles(t, remote, polled);
    PulledFacts(t, remote, now);
    hide Wf, NoStrayName, RemoteMap, Placed, Pulled, AfterDeletions;
    SameButMetaFacts(t, p, dead);
    if t.inodes[i].meta.dirtyGeneration == 0 {
      DeadLoseTheirPath(p, dead);
      UnloadKeepsPlace(AfterDeletions(p, dead), StaleDirs(AfterDeletions(p, dead), RemotePathSet(entries)), i);
    } else if OrphansLeadNowhere(t) {
      NoStrays(t, dead);
      PolledPlaced(t, entries, polled, now, i);
    }
  }

  // ----- A second round ---------------------------------------------------------------------

  lemma UnloadNothing(t: Table)
    ensures Unload(t, {}) == t
  {
    SameMap(Unload(t, {}).inodes, t.inodes);
  }

  /** Nothing is left to update, to drop or to unload. */
  ghost predicate Settled(t: Table, entries: seq<TreeEntry>, polled: set<string>) {
    var remote := RemoteMap(entries);
    && (forall i :: i in t.inodes ==> !NeedsUpdate(t.inodes[i], remote))
    && (forall i :: i in Dead(t, remote, polled) ==> t.inodes[i].IsOpen() && Named(t, i) == None)
    && StaleDirs(t, RemotePathSet(entries)) == {}
  }

  lemma SettledStays(t: Table, entries: seq<TreeEntry>, polled: set<string>, now: int)
    requires Settled(t, entries, polled)
    ensures Polled(t, entries, polled, now) == t
  {
    hide Drop, Unload, StaleDirs;
    var remote := RemoteMap(entries);
    SameMap(Pulled(t, remote, now).inodes, t.inodes);
    assert Pulled(t, remote, now) == t;
    assert Closed(t, Dead(t, remote, polled)) == {};
    assert Hits(t, Dead(t, remote, polled)) == {};
    DropNothing(t);
    UnloadNothing(t);
  }

  lemma DeadLater(t: Table, entries: seq<TreeEntry>, polled: set<string>, now: int, i: Ino)
    requires i in Dead(Polled(t, entries, polled, now), RemoteMap(entries), polled)
    ensures i in t.inodes && i in Dead(t, RemoteMap(entries), polled) && t.inodes[i].IsOpen()
    ensures Polled(t, entries, polled, now).inodes[i].IsOpen()
  {
    hide Polled;
    if i !in t.inodes || i in Closed(t, Dead(t, RemoteMap(entries), polled)) {
      ClosedIsMissing(t, entries, polled, now, i);
    } else {
      PolledEntry(t, entries, polled, now, i);
    }
  }

  lemma DeadIsUnnamed(t: Table, entries: seq<TreeEntry>, polled: set<string>, now: int, i: Ino)
    requires i in t.inodes && i in Dead(t, RemoteMap(entries), polled) && i in Polled(t, entries, polled, now).inodes
    ensures Named(Polled(t, entries, polled, now), i) == None
  {
    hide Dead, Drop, Hits;
    var remote := RemoteMap(entries);
    var dead := Dead(t, remote, polled);
    var p := Pulled(t, remote, now);
    PulledFacts(t, remote, now);
    UnnamedAfter(p, dead, i);
    UnloadKeepsNames(AfterDeletions(p, dead), StaleDirs(AfterDeletions(p, dead), RemotePathSet(entries)), i);
  }

  lemma UnloadKeepsNames(t: Table, dirs: set<Ino>, i: Ino)
    requires i in Unload(t, dirs).inodes
    ensures Named(Unload(t, dirs), i) == Named(t, i)
  {
  }

  lemma UnnamedAfter(t: Table, dead: set<Ino>, i: Ino)
    requires i in dead && i in AfterDeletions(t, dead).inodes
    ensures Named(AfterDeletions(t, dead), i) == None
  {
    hide Drop;
    if i in Closed(t, dead) || i !in t.inodes {
      DropMissing(t, Closed(t, dead), Hits(t, dead), i);
    } else {
      StillThere(t, dead, i);
      var p := t.inodes[i].parent;
      if p in t.inodes && p !in Closed(t, dead) {
        StillThere(t, dead, p);
      } else {
        DropMissing(t, Closed(t, dead), Hits(t, dead), p);
      }
    }
  }

  lemma UnloadSettles(t: Table, paths: set<string>)
    ensures StaleDirs(Unload(t, StaleDirs(t, paths)), paths) == {}
  {
    var dirs := StaleDirs(t, paths);
    var u := Unload(t, dirs);
    forall p | p in paths && p !in u.paths ensures !IsLoaded(u, NearestDir(u, p).0) {
      NearestDirSame(t, u, p);
    }
  }

  /** The same listing again changes nothing, whatever the clock says and whatever state the table is in. */
  lemma PollIsIdempotent(t: Table, entries: seq<TreeEntry>, polled: set<string>, now: int, later: int)
    ensures var t' := Polled(t, entries, polled, now); Polled(t', entries, polled, later) == t'
  {
    hide Polled, Dead;
    var remote := RemoteMap(entries);
    var t' := Polled(t, entries, polled, now);
    forall i | i in t'.inodes ensures !NeedsUpdate(t'.inodes[i], remote) {
      if i !in t.inodes || i in Closed(t, Dead(t, remote, polled)) {
        ClosedIsMissing(t, entries, polled, now, i);
      } else {
        PolledEntry(t, entries, polled, now, i);
      }
    }
    forall i | i in Dead(t', remote, polled) ensures i in t'.inodes && t'.inodes[i].IsOpen() && Named(t', i) == None {
      DeadInTable(t', remote, polled, i);
      DeadLater(t, entries, polled, now, i);
      DeadIsUnnamed(t, entries, polled, now, i);
    }
    NothingStale(t, entries, polled, now);
    SettledStays(t', entries, polled, later);
  }

  lemma DeadInTable(t: Table, remote: map<string, TreeEntry>, polled: set<string>, i: Ino)
    requires i in Dead(t, remote, polled)
    ensures i in t.inodes
  {
  }

  lemma NothingStale(t: Table, entries: seq<TreeEntry>, polled: set<string>, now: int)
    ensures StaleDirs(Polled(t, entries, polled, now), RemotePathSet(entries)) == {}
  {
    hide Reconciled;
    UnloadSettles(Reconciled(t, entries, polled, now), RemotePathSet(entries));
  }

  lemma StaleIfLoaded(t: Table, paths: set<string>, p: string)
    requires p in paths && p !in t.paths
    ensures IsLoaded(t, NearestDir(t, p).0) ==> NearestDir(t, p).0 in StaleDirs(t, paths)
  {
  }

  /** Every listed path that the table does not hold is under a directory that will be listed again. */
  lemma NewPathsWillBeListed(t: Table, entries: seq<TreeEntry>, polled: set<string>, now: int, p: string)
    requires Wf(t)
    requires p in RemotePathSet(entries) && p != "" && p !in Polled(t, entries, polled, now).paths
    ensures var t' := Polled(t, entries, polled, now);
            var (dir, dirPath) := NearestDir(t', p);
            Live(t', dir) && t'.inodes[dir].fullPath == dirPath && StrictlyUnder(dirPath, p)
                && !t'.inodes[dir].childrenLoaded
  {
    hide Wf, Loose, Polled;
    var t' := Polled(t, entries, polled, now);
    PolledIsLoose(t, entries, polled, now);
    NearestDirIsDeepest(t', p);
    NothingStale(t, entries, polled, now);
    StaleIfLoaded(t', RemotePathSet(entries), p);
  }
}
