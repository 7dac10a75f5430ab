/** The whole-file cache on disk: byte accounting, least-recently-used eviction and one download per file. */
module FileCaching {
  import opened Options
  import opened Iteration

  datatype Item = Item(size: nat, lastAccess: nat)

  /** How the download of a leader ends. */
  datatype Exit = Fetched(size: nat) | FetchFailed | Cancelled

  datatype Start = AlreadyDone | Follow | Lead

  ghost function Total(items: map<string, Item>): nat
    decreases items.Keys
  {
    if items == map[] then 0
    else
      var k :| k in items;
      items[k].size + Total(items - {k})
  }

  lemma {:induction false} TotalSplit(items: map<string, Item>, k: string)
    requires k in items
    ensures Total(items) == items[k].size + Total(items - {k})
    decreases items.Keys
  {
    var j :| j in items && Total(items) == items[j].size + Total(items - {j});
    if j != k {
      TotalSplit(items - {j}, k);
      TotalSplit(items - {k}, j);
      SameMap((items - {j}) - {k}, (items - {k}) - {j});
    }
  }

  lemma TotalInsert(items: map<string, Item>, k: string, item: Item)
    ensures Total(items[k := item]) == item.size + Total(items - {k})
    ensures Total(items) == (if k in items then items[k].size else 0) + Total(items - {k})
  {
    TotalSplit(items[k := item], k);
    SameMap(items[k := item] - {k}, items - {k});
    if k in items { TotalSplit(items, k); } else { SameMap(items - {k}, items); }
  }

  /** Recency has no bearing on sizes. */
  lemma {:induction false} TotalSameSizes(a: map<string, Item>, b: map<string, Item>)
    requires a.Keys == b.Keys && forall k :: k in a ==> a[k].size == b[k].size
    ensures Total(a) == Total(b)
    decreases a.Keys
  {
    if k :| k in a {
      TotalSplit(a, k);
      TotalSplit(b, k);
      TotalSameSizes(a - {k}, b - {k});
    } else {
      assert a == map[] && b == map[];
    }
  }

  ghost predicate ByAge(items: map<string, Item>, order: seq<string>) {
    && (forall k :: 0 <= k < |order| ==> order[k] in items)
    && (forall j, k :: 0 <= j < k < |order| ==> items[order[j]].lastAccess <= items[order[k]].lastAccess)
  }

  function SizeOf(items: map<string, Item>, order: seq<string>): nat
    requires forall k :: 0 <= k < |order| ==> order[k] in items
  {
    if order == [] then 0 else SizeOf(items, order[..|order| - 1]) + items[order[|order| - 1]].size
  }

  /** The victims are the shortest stretch of the oldest files that brings the rest down to the capacity. */
  ghost predicate ShortestPrefix(items: map<string, Item>, capacity: nat, order: seq<string>, n: nat) {
    && ByAge(items, order) && Distinct(order) && SetOf(order) == items.Keys && n <= |order|
    && (forall m :: 0 <= m < n ==> Total(items) > capacity + SizeOf(items, order[..m]))
    && Total(items) <= capacity + SizeOf(items, order[..n])
  }

  lemma {:induction false} PrefixTotal(items: map<string, Item>, order: seq<string>)
    requires Distinct(order) && forall k :: 0 <= k < |order| ==> order[k] in items
    ensures Total(items) == SizeOf(items, order) + Total(items - SetOf(order))
  {
    if order == [] {
      SameMap(items - SetOf(order), items);
    } else {
      var front, last := order[..|order| - 1], order[|order| - 1];
      PrefixTotal(items, front);
      assert order == front + [last];
      assert SetOf(order) == SetOf(front) + {last};
      assert last !in front by { LastIsNew(order); }
      TotalSplit(items - SetOf(front), last);
      SameMap((items - SetOf(front)) - {last}, items - SetOf(order));
    }
  }

  lemma LastIsNew<T>(s: seq<T>)
    requires Distinct(s) && s != []
    ensures s[|s| - 1] !in s[..|s| - 1]
  {
  }

  /** The newest file survives: everything older goes first, and alone it fits. */
  lemma NewestSurvives(items: map<string, Item>, capacity: nat, order: seq<string>, n: nat, newest: string)
    requires ShortestPrefix(items, capacity, order, n)
    requires newest in items && items[newest].size <= capacity
    requires forall k :: k in items && k != newest ==> items[k].lastAccess < items[newest].lastAccess
    ensures newest !in order[..n]
  {
    var last := |order| - 1;
    assert newest in SetOf(order);
    var p :| 0 <= p < |order| && order[p] == newest;
    assert items[order[p]].lastAccess <= items[order[last]].lastAccess;
    assert p == last;
    PrefixTotal(items, order);
    assert items - SetOf(order) == map[];
    assert SizeOf(items, order) == SizeOf(items, order[..last]) + items[newest].size;
    assert n <= last;
  }

  // ----- What is on disk ------------------------------------------------------------------

  /** A directory entry below a shard: its name if it is text, and what the file system says of it. */
  datatype DirEntry = DirEntry(name: Option<string>, meta: Option<DiskMeta>)

  /** An unknown modification time counts as zero. */
  datatype DiskMeta = DiskMeta(isFile: bool, size: nat, modified: Option<nat>)

  datatype Shard = Shard(name: string, isDir: bool, listing: Option<seq<DirEntry>>)

  datatype DiskFile = DiskFile(shard: string, hash: string, size: nat, tick: nat)

  const TMP_DIR: string := ".tmp"

  predicate IsCached(e: DirEntry) { e.name.Some? && e.meta.Some? && e.meta.value.isFile }

  function FilesIn(shard: string, listing: seq<DirEntry>): seq<DiskFile> {
    if listing == [] then []
    else
      var front, e := FilesIn(shard, listing[..|listing| - 1]), listing[|listing| - 1];
      if IsCached(e) then front + [DiskFile(shard, e.name.value, e.meta.value.size, e.meta.value.modified.UnwrapOr(0))]
      else front
  }

  predicate IsScanned(s: Shard) { s.name != TMP_DIR && s.isDir && s.listing.Some? }

  function FilesOf(shards: seq<Shard>): seq<DiskFile> {
    if shards == [] then []
    else
      var front, s := FilesOf(shards[..|shards| - 1]), shards[|shards| - 1];
      if IsScanned(s) then front + FilesIn(s.name, s.listing.value) else front
  }

  /** The index of the files: a later file replaces an earlier one of the same name. */
  function Indexed(files: seq<DiskFile>): map<string, Item> {
    if files == [] then map[]
    else
      var f := files[|files| - 1];
      Indexed(files[..|files| - 1])[f.hash := Item(f.size, f.tick)]
  }

  function SumOf(files: seq<DiskFile>): nat {
    if files == [] then 0 else SumOf(files[..|files| - 1]) + files[|files| - 1].size
  }

  /** No file is replaced by a later one of the same name, unless it is empty. */
  predicate NoDouble(files: seq<DiskFile>) {
    forall j, k :: 0 <= j < k < |files| && files[j].hash == files[k].hash ==> files[j].size == 0
  }

  /** The entry of a name is its last file. */
  lemma {:induction false} IndexedIs(files: seq<DiskFile>, h: string)
    ensures h !in Indexed(files) ==> forall k :: 0 <= k < |files| ==> files[k].hash != h
    ensures h in Indexed(files) ==>
      exists k :: 0 <= k < |files| && files[k].hash == h && Indexed(files)[h] == Item(files[k].size, files[k].tick)
                  && forall j :: k < j < |files| ==> files[j].hash != h
  {
    if files != [] {
      var n := |files| - 1;
      IndexedIs(files[..n], h);
      if files[n].hash != h && h in Indexed(files[..n]) {
        var k :| 0 <= k < n && files[..n][k].hash == h
                 && Indexed(files[..n])[h] == Item(files[..n][k].size, files[..n][k].tick)
                 && forall j :: k < j < n ==> files[..n][j].hash != h;
        assert files[k] == files[..n][k] && forall j :: k < j < n ==> files[j] == files[..n][j];
      } else if files[n].hash != h {
        assert forall j :: 0 <= j < n ==> files[j] == files[..n][j];
      }
    }
  }

  lemma NoDoubleMore(files: seq<DiskFile>)
    requires files != []
    ensures var n := |files| - 1;
            NoDouble(files)
            <==> (NoDouble(files[..n])
                  && forall j :: 0 <= j < n && files[j].hash == files[n].hash ==> files[j].size == 0)
  {
    var n := |files| - 1;
    assert forall j :: 0 <= j < n ==> files[..n][j] == files[j];
  }

  /** The scan adds up every file, and the index keeps one of each name: the sum is exact if and only if no
      file that is replaced had any bytes; otherwise it is too large. */
  lemma {:induction false} ScanIsExactIff(files: seq<DiskFile>)
    ensures SumOf(files) >= Total(Indexed(files))
    ensures SumOf(files) == Total(Indexed(files)) <==> NoDouble(files)
  {
    if files != [] {
      var n := |files| - 1;
      var front, f := files[..n], files[n];
      ScanIsExactIff(front);
      NoDoubleMore(files);
      IndexedIs(front, f.hash);
      TotalInsert(Indexed(front), f.hash, Item(f.size, f.tick));
      assert forall j :: 0 <= j < n ==> front[j] == files[j];
      if f.hash in Indexed(front) {
        var k :| 0 <= k < n && front[k].hash == f.hash && Indexed(front)[f.hash] == Item(front[k].size, front[k].tick)
                 && forall j :: k < j < n ==> front[j].hash != f.hash;
        assert files[k].hash == f.hash;
        hide Total, Indexed;
      }
    }
  }

  /** Files that lie in the shard of their name, with no name twice in one shard and no shard twice, are
      counted once each. */
  lemma ShardedIsExact(files: seq<DiskFile>, shardOf: string -> string)
    requires forall k :: 0 <= k < |files| ==> files[k].shard == shardOf(files[k].hash)
    requires forall j, k :: 0 <= j < k < |files| ==> files[j].shard != files[k].shard || files[j].hash != files[k].hash
    ensures SumOf(files) == Total(Indexed(files))
  {
    ScanIsExactIff(files);
  }

  /** A name is indexed exactly when it is that of a regular file in some readable shard directory other than the
      one for downloads under way. */
  lemma IndexedIff(shards: seq<Shard>, h: string)
    ensures h in Indexed(FilesOf(shards)) <==>
      exists s, e :: s in shards && s.name != ".tmp" && s.isDir && s.listing.Some? && e in s.listing.value
                     && e.name == Some(h) && e.meta.Some? && e.meta.value.isFile
  {
    IndexedIs(FilesOf(shards), h);
    FoundIff(shards, h);
    hide Indexed, FilesOf;
    var files := FilesOf(shards);
    assert forall k :: 0 <= k < |files| ==> files[k] in files;
  }

  lemma {:induction false} FoundIff(shards: seq<Shard>, h: string)
    ensures (exists f :: f in FilesOf(shards) && f.hash == h) <==>
      exists s, e :: s in shards && s.name != ".tmp" && s.isDir && s.listing.Some? && e in s.listing.value
                     && e.name == Some(h) && e.meta.Some? && e.meta.value.isFile
  {
    if shards != [] {
      var n := |shards| - 1;
      var front, last := shards[..n], shards[n];
      FoundIff(front, h);
      assert forall s :: s in shards <==> s in front || s == last;
      if last.listing.Some? { FoundInIff(last.name, last.listing.value, h); }
      if IsScanned(last) {
        assert forall f :: f in FilesOf(shards) <==> f in FilesOf(front) || f in FilesIn(last.name, last.listing.value);
      }
      hide FilesOf, FilesIn;
    }
  }

  lemma {:induction false} FoundInIff(shard: string, listing: seq<DirEntry>, h: string)
    ensures (exists f :: f in FilesIn(shard, listing) && f.hash == h) <==>
      exists e :: e in listing && e.name == Some(h) && e.meta.Some? && e.meta.value.isFile
  {
    if listing != [] {
      var n := |listing| - 1;
      FoundInIff(shard, listing[..n], h);
      assert forall e :: e in listing <==> e in listing[..n] || e == listing[n];
      if IsCached(listing[n]) {
        var f := DiskFile(shard, listing[n].name.value, listing[n].meta.value.size,
                          listing[n].meta.value.modified.UnwrapOr(0));
        assert forall g :: g in FilesIn(shard, listing) <==> g in FilesIn(shard, listing[..n]) || g == f;
      }
      hide FilesIn;
    }
  }

  /** What the scan knows after these files. */
  ghost predicate Scanned(files: seq<DiskFile>, items: map<string, Item>, totalBytes: nat, maxTick: nat) {
    && items == Indexed(files) && totalBytes == SumOf(files)
    && (forall f :: f in files ==> f.tick <= maxTick)
    && (maxTick == 0 || exists f :: f in files && f.tick == maxTick)
  }

  /** Walks the shards and their entries. */
  method ScanExisting(root: Option<seq<Shard>>) returns (items: map<string, Item>, totalBytes: nat, maxTick: nat)
    ensures Scanned(FilesOf(root.UnwrapOr([])), items, totalBytes, maxTick)
  {
    items, totalBytes, maxTick := map[], 0, 0;
    if root.None? { return; }
    var shards := root.value;
    for i := 0 to |shards|
      invariant Scanned(FilesOf(shards[..i]), items, totalBytes, maxTick)
    {
      assert shards[..i + 1][..i] == shards[..i];
      hide Scanned;
      if shards[i].name == TMP_DIR { continue; }
      if !shards[i].isDir || shards[i].listing.None? { continue; }
      items, totalBytes, maxTick := ScanShard(shards[i].name, shards[i].listing.value, FilesOf(shards[..i]),
                                              items, totalBytes, maxTick);
    }
    assert shards[..|shards|] == shards;
  }

  method ScanShard(shard: string, listing: seq<DirEntry>, ghost before: seq<DiskFile>, was: map<string, Item>,
                   bytes: nat, tick: nat)
    returns (items: map<string, Item>, totalBytes: nat, maxTick: nat)
    requires Scanned(before, was, bytes, tick)
    ensures Scanned(before + FilesIn(shard, listing), items, totalBytes, maxTick)
  {
    hide Scanned, FilesIn;
    items, totalBytes, maxTick := was, bytes, tick;
    NoEntry(shard, before);
    for k := 0 to |listing|
      invariant Scanned(before + FilesIn(shard, listing[..k]), items, totalBytes, maxTick)
    {
      OneMoreEntry(shard, listing, k, before);
      if listing[k].name.None? || listing[k].meta.None? { continue; }
      var hash, meta := listing[k].name.value, listing[k].meta.value;
      if !meta.isFile { continue; }
      var modified := meta.modified.UnwrapOr(0);
      OneMoreFile(before + FilesIn(shard, listing[..k]), DiskFile(shard, hash, meta.size, modified), items, totalBytes,
                  maxTick);
      if modified > maxTick { maxTick := modified; }
      items := items[hash := Item(meta.size, modified)];
      totalBytes := totalBytes + meta.size;
    }
    assert listing[..|listing|] == listing;
  }

  lemma NoEntry(shard: string, before: seq<DiskFile>)
    ensures before + FilesIn(shard, []) == before
  {
  }

  lemma OneMoreEntry(shard: string, listing: seq<DirEntry>, k: nat, before: seq<DiskFile>)
    requires k < |listing|
    ensures var files, e := before + FilesIn(shard, listing[..k]), listing[k];
            before + FilesIn(shard, listing[..k + 1])
              == if IsCached(e)
                 then files + [DiskFile(shard, e.name.value, e.meta.value.size, e.meta.value.modified.UnwrapOr(0))]
                 else files
  {
    assert listing[..k + 1][..k] == listing[..k];
  }

  lemma OneMoreFile(files: seq<DiskFile>, f: DiskFile, items: map<string, Item>, totalBytes: nat, maxTick: nat)
    requires Scanned(files, items, totalBytes, maxTick)
    ensures Scanned(files + [f], items[f.hash := Item(f.size, f.tick)], totalBytes + f.size,
                    if f.tick > maxTick then f.tick else maxTick)
  {
    assert (files + [f])[..|files|] == files;
    assert forall g :: g in files + [f] <==> g in files || g == f;
  }

  lemma {:induction false} IndexedTicks(files: seq<DiskFile>, bound: nat)
    requires forall f :: f in files ==> f.tick <= bound
    ensures forall h :: h in Indexed(files) ==> Indexed(files)[h].lastAccess <= bound
  {
    if files != [] {
      assert files[|files| - 1] in files;
      IndexedTicks(files[..|files| - 1], bound);
    }
  }

  class FileCache {
    const capacity: nat
    var items: map<string, Item>
    var totalBytes: nat
    var clock: nat
    var inflight: set<string>
    /** Callers that wait for the download of a file. */
    ghost var waiting: map<nat, string>

    /** The byte count is exact, the clock is ahead of every access, and whoever waits waits for a download
        that is under way. */
    ghost predicate Valid()
      reads this
    {
      && totalBytes == Total(items)
      && (forall k :: k in items ==> items[k].lastAccess < clock)
      && (forall t :: t in waiting ==> waiting[t] in inflight)
    }

    /** Files found on disk keep their age, and the clock starts behind the newest of them.  The byte count is
        right from the start exactly when no name was found twice with bytes in the earlier file. */
    constructor (cap: nat, root: Option<seq<Shard>>)
      ensures capacity == cap && items == Indexed(FilesOf(root.UnwrapOr([]))) && inflight == {}
      ensures totalBytes == SumOf(FilesOf(root.UnwrapOr([]))) >= Total(items)
      ensures Valid() <==> NoDouble(FilesOf(root.UnwrapOr([])))
    {
      var found, total, newest := ScanExisting(root);
      ScanIsExactIff(FilesOf(root.UnwrapOr([])));
      IndexedTicks(FilesOf(root.UnwrapOr([])), newest);
      capacity, items, totalBytes, clock := cap, found, total, newest + 1;
      inflight, waiting := {}, map[];
    }

    method NextTick() returns (tick: nat)
      modifies this`clock
      ensures tick == old(clock) && clock == old(clock) + 1
    {
      tick := clock;
      clock := clock + 1;
    }

    /** A hit makes the file the most recently used; an entry whose file has vanished is forgotten. */
    method TryOpen(hash: string, onDisk: bool) returns (hit: bool)
      requires Valid()
      modifies this`items, this`totalBytes, this`clock
      ensures Valid()
      ensures hit <==> hash != "" && hash in old(items) && onDisk
      ensures hit ==> items == old(items)[hash := old(items)[hash].(lastAccess := old(clock))]
                      && forall k :: k in items && k != hash ==> items[k].lastAccess < items[hash].lastAccess
      ensures !hit ==> items == if hash == "" then old(items) else old(items) - {hash}
    {
      if hash == "" { return false; }
      if hash !in items {
        SameMap(items - {hash}, items);
        return false;
      }
      var tick := NextTick();
      ghost var was := items;
      items := items[hash := items[hash].(lastAccess := tick)];
      TotalSameSizes(was, items);
      if !onDisk {
        SameMap(items - {hash}, was - {hash});
        Forget(hash);
      }
      hit := onDisk;
    }

    method Forget(hash: string)
      requires Valid()
      modifies this`items, this`totalBytes
      ensures Valid() && items == old(items) - {hash}
    {
      if hash in items {
        TotalSplit(items, hash);
        totalBytes := totalBytes - items[hash].size;
      }
      SameMap(if hash in items then items else items - {hash}, items);
      items := items - {hash};
    }

    // ----- one download per file ------------------------------------------------------------

    /** Nothing to do for a nameless file, for one that could never fit, or for one that is there. */
    method NeedsPopulate(hash: string, expected: Option<nat>) returns (needed: bool)
      ensures needed <==> hash != "" && (expected.None? || expected.value <= capacity) && hash !in items
    {
      if hash == "" { return false; }
      if expected.Some? && expected.value > capacity { return false; }
      needed := hash !in items;
    }

    /** Under the lock of the in-flight table: done already, a download to wait for, or the leader's role.
        `readable` is whether the cache could be looked at without waiting. */
    method StartPopulate(hash: string, readable: bool, ghost task: nat) returns (r: Start)
      requires Valid() && task !in waiting
      modifies this`inflight, this`waiting
      ensures Valid()
      ensures r.AlreadyDone? <==> readable && hash in items
      ensures r.Lead? <==> !r.AlreadyDone? && hash !in old(inflight)
      ensures r.Lead? ==> inflight == old(inflight) + {hash} && waiting == old(waiting)
      ensures r.Follow? ==> inflight == old(inflight) && waiting == old(waiting)[task := hash]
      ensures r.AlreadyDone? ==> inflight == old(inflight) && waiting == old(waiting)
    {
      if readable && hash in items { return AlreadyDone; }
      if hash in inflight {
        waiting := waiting[task := hash];
        return Follow;
      }
      inflight := inflight + {hash};
      r := Lead;
    }

    /** The leader's guard: runs on every exit, and wakes everyone who waited for this file. */
    method EndPopulate(hash: string)
      requires Valid() && hash in inflight
      modifies this`inflight, this`waiting
      ensures Valid() && inflight == old(inflight) - {hash}
      ensures forall t :: t in waiting <==> t in old(waiting) && old(waiting)[t] != hash
      ensures forall t :: t in waiting ==> waiting[t] == old(waiting)[t]
    {
      inflight := inflight - {hash};
      waiting := map t | t in waiting && waiting[t] != hash :: waiting[t];
    }

    /** The leader's whole download.  However it ends, the file is in flight no longer. */
    method LeadPopulate(hash: string, expected: Option<nat>, exit: Exit) returns (ok: bool)
      requires Valid() && hash in inflight
      modifies this`items, this`totalBytes, this`clock, this`inflight, this`waiting
      ensures Valid() && inflight == old(inflight) - {hash}
      ensures forall t :: t in waiting ==> waiting[t] != hash
      ensures var published := exit.Fetched? && (expected.None? || expected.value == exit.size)
          && exit.size <= capacity;
              && (published ==> ok && hash in items && items[hash].size == exit.size && totalBytes <= capacity)
              && (!published ==>
                    && items == old(items)
                    && (ok <==> exit.Fetched? && (expected.None? || expected.value == exit.size)))
    {
      ok := PopulateInner(hash, expected, exit);
      EndPopulate(hash);
    }

    method PopulateInner(hash: string, expected: Option<nat>, exit: Exit) returns (ok: bool)
      requires Valid()
      modifies this`items, this`totalBytes, this`clock
      ensures Valid()
      ensures var published := exit.Fetched? && (expected.None? || expected.value == exit.size)
          && exit.size <= capacity;
              && (published ==> ok && hash in items && items[hash].size == exit.size && totalBytes <= capacity)
              && (!published ==>
                    && items == old(items)
                    && (ok <==> exit.Fetched? && (expected.None? || expected.value == exit.size)))
    {
      match exit
      case FetchFailed => ok := false;
      case Cancelled => ok := false;
      case Fetched(size) =>
        if expected.Some? && size != expected.value { return false; }
        if size > capacity { return true; }
        var order, n := Publish(hash, size);
        ok := true;
    }

    // ----- publishing and eviction ------------------------------------------------------------

    /** A new file enters as the most recent one and, if the cache is over its capacity, the shortest prefix
        of the older ones leaves.  The new file itself always stays. */
    method Publish(hash: string, size: nat) returns (ghost order: seq<string>, ghost n: nat)
      requires Valid() && size <= capacity
      modifies this`items, this`totalBytes, this`clock
      ensures Valid() && totalBytes <= capacity
      ensures var inserted := old(items)[hash := Item(size, old(clock))];
              && ShortestPrefix(inserted, capacity, order, n)
              && items == inserted - SetOf(order[..n])
      ensures hash in items && items[hash] == Item(size, old(clock))
    {
      var tick := NextTick();
      TotalInsert(items, hash, Item(size, tick));
      if hash in items { totalBytes := totalBytes - items[hash].size; }
      items := items[hash := Item(size, tick)];
      totalBytes := totalBytes + size;
      ghost var inserted := items;
      var sorted, count := EvictLocked();
      order, n := sorted, count;
      NewestSurvives(inserted, capacity, order, n, hash);
    }

    method EvictLocked() returns (order: seq<string>, n: nat)
      requires Valid()
      modifies this`items, this`totalBytes
      ensures Valid() && totalBytes <= capacity
      ensures ShortestPrefix(old(items), capacity, order, n) && items == old(items) - SetOf(order[..n])
    {
      var keys := Elements(items.Keys);
      order := SortByAge(items, keys);
      n := CountVictims(order);
      hide ShortestPrefix, Total, ByAge;
      RemoveVictims(order[..n]);
    }

    method CountVictims(order: seq<string>) returns (n: nat)
      requires Valid() && ByAge(items, order) && Distinct(order) && SetOf(order) == items.Keys
      ensures ShortestPrefix(items, capacity, order, n)
      ensures forall k :: 0 <= k < |order[..n]| ==> order[..n][k] in items
      ensures totalBytes <= capacity + SizeOf(items, order[..n]) && Distinct(order[..n])
    {
      hide Total, SizeOf, ShortestPrefix;
      n := 0;
      var freed: nat := 0;
      WholeSize(items, order);
      while n < |order| && totalBytes - freed > capacity
        invariant n <= |order| && freed == SizeOf(items, order[..n]) && freed <= totalBytes
        invariant forall m :: 0 <= m < n ==> totalBytes > capacity + SizeOf(items, order[..m])
      {
        SizeNext(items, order, n);
        freed := freed + items[order[n]].size;
        n := n + 1;
      }
      assert order[..|order|] == order;
      PrefixIsShortest(items, capacity, order, n);
    }

    /** Removes the victims one by one; the byte count never goes below zero. */
    method RemoveVictims(victims: seq<string>)
      requires Valid() && Distinct(victims) && forall k :: 0 <= k < |victims| ==> victims[k] in items
      modifies this`items, this`totalBytes
      ensures Valid() && items == old(items) - SetOf(victims)
      ensures totalBytes == old(totalBytes) - SizeOf(old(items), victims)
    {
      ghost var was := items;
      WholePrefix(victims);
      SameMap(was - {}, was);
      PrefixTotal(was, victims);
      for k := 0 to |victims|
        invariant Valid() && items == was - SetOf(victims[..k])
      {
        PrefixGrows(victims, k);
        SameMap((was - SetOf(victims[..k])) - {victims[k]}, was - SetOf(victims[..k + 1]));
        Forget(victims[k]);
      }
    }
  }

  lemma WholeSize(items: map<string, Item>, order: seq<string>)
    requires Distinct(order) && SetOf(order) == items.Keys && forall k :: 0 <= k < |order| ==> order[k] in items
    ensures SizeOf(items, order) == Total(items) && SizeOf(items, order[..0]) == 0
  {
    PrefixTotal(items, order);
    SameMap(items - SetOf(order), map[]);
  }

  lemma SizeNext(items: map<string, Item>, order: seq<string>, n: nat)
    requires Distinct(order) && n < |order| && forall k :: 0 <= k < |order| ==> order[k] in items
    ensures SizeOf(items, order[..n + 1]) == SizeOf(items, order[..n]) + items[order[n]].size <= Total(items)
  {
    assert order[..n + 1][..n] == order[..n];
    PrefixFits(items, order, n + 1);
  }

  lemma PrefixIsShortest(items: map<string, Item>, capacity: nat, order: seq<string>, n: nat)
    requires ByAge(items, order) && Distinct(order) && SetOf(order) == items.Keys && n <= |order|
    requires forall m :: 0 <= m < n ==> Total(items) > capacity + SizeOf(items, order[..m])
    requires Total(items) <= capacity + SizeOf(items, order[..n])
    ensures ShortestPrefix(items, capacity, order, n)
  {
  }

  lemma PrefixFits(items: map<string, Item>, order: seq<string>, n: nat)
    requires Distinct(order) && n <= |order| && forall k :: 0 <= k < |order| ==> order[k] in items
    ensures SizeOf(items, order[..n]) <= Total(items)
  {
    PrefixTotal(items, order[..n]);
  }

  method SortByAge(items: map<string, Item>, keys: seq<string>) returns (r: seq<string>)
    requires Distinct(keys) && SetOf(keys) == items.Keys
    ensures ByAge(items, r) && Distinct(r) && SetOf(r) == items.Keys
  {
    r := [];
    WholePrefix(keys);
    for i := 0 to |keys|
      invariant ByAge(items, r) && Distinct(r) && SetOf(r) == SetOf(keys[..i])
    {
      PrefixGrows(keys, i);
      assert keys[i] in SetOf(keys);
      r := InsertByAge(items, r, keys[i]);
    }
  }

  method InsertByAge(items: map<string, Item>, s: seq<string>, x: string) returns (r: seq<string>)
    requires ByAge(items, s) && Distinct(s) && x in items && x !in SetOf(s)
    ensures ByAge(items, r) && Distinct(r) && SetOf(r) == SetOf(s) + {x}
  {
    var k := 0;
    while k < |s| && items[s[k]].lastAccess <= items[x].lastAccess
      invariant 0 <= k <= |s|
      invariant forall j :: 0 <= j < k ==> items[s[j]].lastAccess <= items[x].lastAccess
    {
      k := k + 1;
    }
    InsertedAt(s, k, x);
    r := s[..k] + [x] + s[k..];
  }

  lemma InsertedAt(s: seq<string>, k: nat, x: string)
    requires k <= |s| && Distinct(s) && x !in SetOf(s)
    ensures Distinct(s[..k] + [x] + s[k..]) && SetOf(s[..k] + [x] + s[k..]) == SetOf(s) + {x}
  {
    assert forall j :: 0 <= j < |s| ==> s[j] in SetOf(s);
    assert s == s[..k] + s[k..];
    assert forall y :: y in s[..k] + [x] + s[k..] <==> y in s[..k] || y == x || y in s[k..];
  }
}
