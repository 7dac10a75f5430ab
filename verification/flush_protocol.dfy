/** The flush protocol: optimistic generation counters between concurrent writers, remote updates and the one
    flush loop, which snapshots, uploads, commits and applies.  Every event is one atomic step. */
module FlushProtocol {
  import opened Options
  import opened Iteration
  import opened InodeModel

  type Content = seq<int>

  /** A write first changes the bytes and later, under the table lock, marks the inode dirty: `writers`
      counts the writes in between. */
  datatype Node = Node(path: string, live: bool, content: Content, writers: nat, meta: FileMeta)

  datatype Item = Item(ino: Ino, path: string, pendingDeletes: seq<string>, generation: nat, prevHash: Option<string>)

  datatype Uploaded = Uploaded(hash: string, size: nat)

  datatype Op = AddFile(path: string, hash: string) | DeleteFile(path: string)

  datatype Phase =
    | Idle
    | Uploading(items: seq<Item>, results: seq<Uploaded>)
    | HubPending(items: seq<Item>, results: seq<Uploaded>)
    | HubDone(items: seq<Item>, results: seq<Uploaded>)

  /** `touched` are the inodes whose bytes changed since the snapshot; `sent` are the batches sent to the Hub. */
  datatype World = World(nodes: map<Ino, Node>, phase: Phase, touched: set<Ino>, errors: set<Ino>,
                         remote: map<string, string>, sent: seq<seq<Op>>)

  datatype Event =
    | WriteBytes(ino: Ino, content: Content)
    | MarkDirty(ino: Ino, clearHash: bool)
    | PrepareStaging(ino: Ino, content: Content, truncate: bool)
    | StagingCurrent(ino: Ino)
    | PollUpdate(ino: Ino, hash: Option<string>, etag: Option<string>, size: nat, mtime: int)
    | FeedUpdate(ino: Ino, hash: Option<string>, newSize: Option<nat>, newMtime: Option<int>)
    | Unlink(ino: Ino)
    | Rename(ino: Ino, path: string)
    | StartFlush(inos: seq<Ino>)
    | UploadChunk(answer: Option<seq<Uploaded>>)
    | Decide(now: int)
    | HubAnswer(ok: bool)
    | ApplyCommits(now: int)

  const UPLOAD_CHUNK_SIZE: nat := 500

  // ----- Snapshot -----------------------------------------------------------------------

  predicate Flushable(nodes: map<Ino, Node>, ino: Ino) {
    ino in nodes && nodes[ino].live && nodes[ino].meta.IsDirty()
  }

  function ItemOf(nodes: map<Ino, Node>, ino: Ino): Item
    requires ino in nodes
  {
    var n := nodes[ino];
    Item(ino, n.path, n.meta.pendingDeletes, n.meta.dirtyGeneration, n.meta.xetHash)
  }

  function Snapshot(nodes: map<Ino, Node>, inos: seq<Ino>): seq<Item> {
    if inos == [] then []
    else
      var front := Snapshot(nodes, inos[..|inos| - 1]);
      var last := inos[|inos| - 1];
      if Flushable(nodes, last) then front + [ItemOf(nodes, last)] else front
  }

  /** Each inode once, in the order of its last request. */
  function Deduped(pending: seq<Ino>): seq<Ino> {
    if pending == [] then []
    else
      var rest := Deduped(pending[1..]);
      if pending[0] in pending[1..] then rest else [pending[0]] + rest
  }

  lemma {:induction false} DedupedIs(pending: seq<Ino>)
    ensures Distinct(Deduped(pending))
    ensures forall i :: i in Deduped(pending) <==> i in pending
  {
    if pending != [] {
      DedupedIs(pending[1..]);
      assert forall i :: i in pending <==> i == pending[0] || i in pending[1..];
    }
  }

  /** After some request for `b`, `a` is not asked for again. */
  ghost predicate AskedLater(pending: seq<Ino>, a: Ino, b: Ino) {
    exists q :: 0 <= q < |pending| && pending[q] == b && a !in pending[q..]
  }

  /** The order is that of the last requests. */
  lemma {:induction false} DedupedInOrder(pending: seq<Ino>, j: nat, k: nat)
    requires j < k < |Deduped(pending)|
    ensures AskedLater(pending, Deduped(pending)[j], Deduped(pending)[k])
  {
    hide AskedLater;
    var rest := Deduped(pending[1..]);
    if pending[0] in pending[1..] {
      DedupedInOrder(pending[1..], j, k);
      StillAskedLater(pending, rest[j], rest[k]);
    } else if j == 0 {
      DedupedIs(pending[1..]);
      assert rest[k - 1] in rest;
      AskedAfterTheFirst(pending, rest[k - 1]);
    } else {
      DedupedInOrder(pending[1..], j - 1, k - 1);
      StillAskedLater(pending, rest[j - 1], rest[k - 1]);
    }
  }

  lemma StillAskedLater(pending: seq<Ino>, a: Ino, b: Ino)
    requires pending != [] && AskedLater(pending[1..], a, b)
    ensures AskedLater(pending, a, b)
  {
    var q :| 0 <= q < |pending[1..]| && pending[1..][q] == b && a !in pending[1..][q..];
    assert pending[q + 1] == b && pending[q + 1..] == pending[1..][q..];
  }

  lemma AskedAfterTheFirst(pending: seq<Ino>, b: Ino)
    requires pending != [] && pending[0] !in pending[1..] && b in pending[1..]
    ensures AskedLater(pending, pending[0], b)
  {
    var q :| 0 <= q < |pending[1..]| && pending[1..][q] == b;
    assert pending[q + 1] == b;
    assert forall x :: x in pending[q + 1..] ==> x in pending[1..];
  }

  /** The walk of the program: backwards, keeping what was not seen before, and then reversed. */
  method Dedup(pending: seq<Ino>) returns (deduped: seq<Ino>)
    ensures deduped == Deduped(pending)
  {
    var seen: set<Ino> := {};
    var backwards := [];
    var k := |pending|;
    while k > 0
      invariant 0 <= k <= |pending|
      invariant seen == SetOf(pending[k..])
      invariant Reverse(backwards) == Deduped(pending[k..])
      decreases k
    {
      k := k - 1;
      assert pending[k..] == [pending[k]] + pending[k + 1..];
      if pending[k] !in seen {
        seen := seen + {pending[k]};
        ReverseSnoc(backwards, pending[k]);
        backwards := backwards + [pending[k]];
      }
    }
    assert pending[0..] == pending;
    deduped := Reverse(backwards);
  }

  function Reverse(s: seq<Ino>): seq<Ino> {
    if s == [] then [] else Reverse(s[1..]) + [s[0]]
  }

  lemma {:induction false} ReverseSnoc(s: seq<Ino>, x: Ino)
    ensures Reverse(s + [x]) == [x] + Reverse(s)
  {
    if s != [] {
      assert (s + [x])[1..] == s[1..] + [x];
      ReverseSnoc(s[1..], x);
    }
  }

  // ----- Operations ---------------------------------------------------------------------

  /** Nothing changed since the last commit: no pending rename, and the content hash is the committed one. */
  predicate Unchanged(item: Item, u: Uploaded) {
    item.pendingDeletes == [] && item.prevHash == Some(u.hash)
  }

  function Adds(items: seq<Item>, results: seq<Uploaded>): seq<Op>
    requires |items| == |results|
  {
    if items == [] then []
    else
      var k := |items| - 1;
      Adds(items[..k], results[..k])
        + (if Unchanged(items[k], results[k]) then [] else [AddFile(items[k].path, results[k].hash)])
  }

  function DeleteOps(paths: seq<string>): seq<Op> {
    if paths == [] then [] else DeleteOps(paths[..|paths| - 1]) + [DeleteFile(paths[|paths| - 1])]
  }

  function Deletes(items: seq<Item>, results: seq<Uploaded>): seq<Op>
    requires |items| == |results|
  {
    if items == [] then []
    else
      var k := |items| - 1;
      Deletes(items[..k], results[..k])
        + (if Unchanged(items[k], results[k]) then [] else DeleteOps(items[k].pendingDeletes))
  }

  /** All additions before all deletions, as the Hub requires. */
  function Ops(items: seq<Item>, results: seq<Uploaded>): seq<Op>
    requires |items| == |results|
  {
    Adds(items, results) + Deletes(items, results)
  }

  /** Additions first, then deletes; an item is left out when it has no pending delete and its content is the
      committed one. */
  method BuildOps(items: seq<Item>, results: seq<Uploaded>) returns (ops: seq<Op>, skipped: seq<bool>)
    requires |items| == |results|
    ensures ops == Ops(items, results)
    ensures |skipped| == |items|
    ensures forall k :: 0 <= k < |items| ==>
      (skipped[k] <==> items[k].pendingDeletes == [] && items[k].prevHash == Some(results[k].hash))
    ensures forall k :: 0 <= k < |items| && !skipped[k] ==>
      && AddFile(items[k].path, results[k].hash) in ops
      && (forall p :: p in items[k].pendingDeletes ==> DeleteFile(p) in ops)
  {
    AllChangedAreSent(items, results);
    hide Ops;
    ops, skipped := CollectOps(items, results);
  }

  method CollectOps(items: seq<Item>, results: seq<Uploaded>) returns (ops: seq<Op>, skipped: seq<bool>)
    requires |items| == |results|
    ensures ops == Ops(items, results)
    ensures |skipped| == |items| && forall k :: 0 <= k < |items| ==> skipped[k] == Unchanged(items[k], results[k])
  {
    hide Adds, Deletes, DeleteOps;
    ops, skipped := [], seq(|items|, _ => false);
    var deleteOps := [];
    NoOps();
    for i := 0 to |items|
      invariant |skipped| == |items|
      invariant forall k :: 0 <= k < i ==> skipped[k] == Unchanged(items[k], results[k])
      invariant forall k :: i <= k < |items| ==> !skipped[k]
      invariant ops == Adds(items[..i], results[..i])
      invariant deleteOps == Deletes(items[..i], results[..i])
    {
      var item, u := items[i], results[i];
      OneMoreOp(items, results, i);
      if item.pendingDeletes == [] && item.prevHash == Some(u.hash) {
        skipped := skipped[i := true];
        continue;
      }
      ops := ops + [AddFile(item.path, u.hash)];
      deleteOps := CollectDeletes(item.pendingDeletes, deleteOps);
    }
    assert items[..|items|] == items && results[..|items|] == results;
    ops := ops + deleteOps;
  }

  method CollectDeletes(paths: seq<string>, before: seq<Op>) returns (ops: seq<Op>)
    ensures ops == before + DeleteOps(paths)
  {
    ops := before;
    for j := 0 to |paths|
      invariant ops == before + DeleteOps(paths[..j])
    {
      assert paths[..j + 1][..j] == paths[..j];
      ops := ops + [DeleteFile(paths[j])];
    }
    assert paths[..|paths|] == paths;
  }

  lemma NoOps()
    ensures Adds([], []) == [] && Deletes([], []) == []
  {
  }

  lemma OneMoreOp(items: seq<Item>, results: seq<Uploaded>, i: nat)
    requires |items| == |results| && i < |items|
    ensures Adds(items[..i + 1], results[..i + 1])
         == Adds(items[..i], results[..i])
            + (if Unchanged(items[i], results[i]) then [] else [AddFile(items[i].path, results[i].hash)])
    ensures Deletes(items[..i + 1], results[..i + 1])
         == Deletes(items[..i], results[..i])
            + (if Unchanged(items[i], results[i]) then [] else DeleteOps(items[i].pendingDeletes))
  {
    assert items[..i + 1][..i] == items[..i] && results[..i + 1][..i] == results[..i];
  }

  lemma {:induction false} DeleteOpsAre(paths: seq<string>)
    ensures forall op :: op in DeleteOps(paths) <==> op.DeleteFile? && op.path in paths
  {
    if paths != [] {
      var n := |paths| - 1;
      DeleteOpsAre(paths[..n]);
      assert paths == paths[..n] + [paths[n]];
    }
  }

  /** An item goes to the Hub as soon as it has a pending delete or new content: with its addition and with every
      one of its deletes. */
  lemma {:induction false} ChangedItemIsSent(items: seq<Item>, results: seq<Uploaded>, k: nat)
    requires |items| == |results| && k < |items|
    requires items[k].pendingDeletes != [] || items[k].prevHash != Some(results[k].hash)
    ensures AddFile(items[k].path, results[k].hash) in Adds(items, results)
    ensures forall p :: p in items[k].pendingDeletes ==> DeleteFile(p) in Deletes(items, results)
  {
    var n := |items| - 1;
    if k < n {
      ChangedItemIsSent(items[..n], results[..n], k);
    } else {
      DeleteOpsAre(items[k].pendingDeletes);
      hide DeleteOps;
    }
  }

  lemma AllChangedAreSent(items: seq<Item>, results: seq<Uploaded>)
    requires |items| == |results|
    ensures forall k :: 0 <= k < |items|
                        && (items[k].pendingDeletes != [] || items[k].prevHash != Some(results[k].hash)) ==>
      && AddFile(items[k].path, results[k].hash) in Ops(items, results)
      && (forall p :: p in items[k].pendingDeletes ==> DeleteFile(p) in Ops(items, results))
  {
    hide Adds, Deletes;
    forall k | 0 <= k < |items| && (items[k].pendingDeletes != [] || items[k].prevHash != Some(results[k].hash))
      ensures AddFile(items[k].path, results[k].hash) in Ops(items, results)
      ensures forall p :: p in items[k].pendingDeletes ==> DeleteFile(p) in Ops(items, results)
    {
      ChangedItemIsSent(items, results, k);
    }
  }

  /** What is sent comes from an item with a pending delete or with new content. */
  ghost predicate FromChanged(items: seq<Item>, results: seq<Uploaded>, op: Op)
    requires |items| == |results|
  {
    exists k :: 0 <= k < |items|
                && (items[k].pendingDeletes != [] || items[k].prevHash != Some(results[k].hash))
                && match op
                   case AddFile(p, h) => p == items[k].path && h == results[k].hash
                   case DeleteFile(p) => p in items[k].pendingDeletes
  }

  lemma {:induction false} OnlyChangedAreSent(items: seq<Item>, results: seq<Uploaded>)
    requires |items| == |results|
    ensures forall op :: op in Adds(items, results) ==> op.AddFile? && FromChanged(items, results, op)
    ensures forall op :: op in Deletes(items, results) ==> op.DeleteFile? && FromChanged(items, results, op)
  {
    if items != [] {
      var n := |items| - 1;
      OnlyChangedAreSent(items[..n], results[..n]);
      DeleteOpsAre(items[n].pendingDeletes);
      forall op | FromChanged(items[..n], results[..n], op) ensures FromChanged(items, results, op) {
        var k :| 0 <= k < n
                 && (items[..n][k].pendingDeletes != [] || items[..n][k].prevHash != Some(results[..n][k].hash))
                 && match op
                    case AddFile(p, h) => p == items[..n][k].path && h == results[..n][k].hash
                    case DeleteFile(p) => p in items[..n][k].pendingDeletes;
        assert items[..n][k] == items[k] && results[..n][k] == results[k];
      }
      hide DeleteOps;
    }
  }

  /** The batch: nothing but what changed, and every addition before every delete. */
  lemma BatchIsWhatChanged(items: seq<Item>, results: seq<Uploaded>)
    requires |items| == |results|
    ensures forall op :: op in Ops(items, results) ==> FromChanged(items, results, op)
    ensures forall i, j :: 0 <= i < j < |Ops(items, results)| && Ops(items, results)[i].DeleteFile? ==>
      Ops(items, results)[j].DeleteFile?
  {
    OnlyChangedAreSent(items, results);
    hide Adds, Deletes, FromChanged;
    var a, d, ops := Adds(items, results), Deletes(items, results), Ops(items, results);
    assert forall k :: 0 <= k < |a| ==> a[k] in a && ops[k] == a[k];
    assert forall k :: 0 <= k < |d| ==> d[k] in d && ops[|a| + k] == d[k];
    assert forall k :: |a| <= k < |ops| ==> ops[k] == d[k - |a|];
  }

  function ApplyOps(remote: map<string, string>, ops: seq<Op>): map<string, string> {
    if ops == [] then remote
    else
      var r := ApplyOps(remote, ops[..|ops| - 1]);
      match ops[|ops| - 1]
      case AddFile(p, h) => r[p := h]
      case DeleteFile(p) => r - {p}
  }

  // ----- Steps --------------------------------------------------------------------------

  /** Applies the uploads of the items selected by `changed` to the nodes. */
  function Applied(nodes: map<Ino, Node>, items: seq<Item>, results: seq<Uploaded>, changed: bool, now: int)
    : map<Ino, Node>
    requires |items| == |results|
  {
    if items == [] then nodes
    else
      var k := |items| - 1;
      var before := Applied(nodes, items[..k], results[..k], changed, now);
      var item, u := items[k], results[k];
      if Unchanged(item, u) == changed || item.ino !in before then before
      else
        var n := before[item.ino];
        before[item.ino := n.(meta := n.meta.ApplyCommit(u.hash, u.size, item.generation, now))]
  }

  function ItemInos(items: seq<Item>): set<Ino> {
    set item | item in items :: item.ino
  }

  function ChangedInos(items: seq<Item>, results: seq<Uploaded>): set<Ino>
    requires |items| == |results|
  {
    set k | 0 <= k < |items| && !Unchanged(items[k], results[k]) :: items[k].ino
  }

  predicate Locked(s: World, ino: Ino) {
    s.phase.Uploading? && ino in ItemInos(s.phase.items)
  }

  function WithNode(s: World, ino: Ino, n: Node): World {
    s.(nodes := s.nodes[ino := n])
  }

  /** What the upload of one staging file reports: the digest of its bytes, or anything if they changed meanwhile. */
  function UploadOf(digest: Content -> string, s: World, item: Item, answer: Uploaded): Uploaded {
    if item.ino in s.touched || item.ino !in s.nodes then answer
    else Uploaded(digest(s.nodes[item.ino].content), |s.nodes[item.ino].content|)
  }

  function NextChunk(items: seq<Item>, done: nat): nat {
    if done > |items| then 0 else if |items| - done < UPLOAD_CHUNK_SIZE then |items| - done else UPLOAD_CHUNK_SIZE
  }

  function UploadResults(digest: Content -> string, s: World, items: seq<Item>, answers: seq<Uploaded>): seq<Uploaded>
    requires |items| == |answers|
  {
    seq(|items|, k requires 0 <= k < |items| => UploadOf(digest, s, items[k], answers[k]))
  }

  function FlushStep(digest: Content -> string, s: World, e: Event): World
    requires e.StartFlush? || e.UploadChunk? || e.Decide? || e.HubAnswer? || e.ApplyCommits?
  {
    match e
    case StartFlush(inos) =>
      if !s.phase.Idle? then s
      else
        var items := Snapshot(s.nodes, Deduped(inos));
        if items == [] then s else s.(phase := Uploading(items, []), touched := {})
    case UploadChunk(answer) =>
      if !s.phase.Uploading? then s
      else
        var items, done := s.phase.items, |s.phase.results|;
        var n := NextChunk(items, done);
        if answer.None? then s.(phase := Idle, errors := s.errors + ItemInos(items))
        else if n == 0 || |answer.value| != n || done + n > |items| then s
        else s.(phase := Uploading(items,
            s.phase.results + UploadResults(digest, s, items[done..done + n], answer.value)))
    case Decide(now) =>
      if !s.phase.Uploading? || |s.phase.results| != |s.phase.items| then s
      else
        var items, results := s.phase.items, s.phase.results;
        var ops := Ops(items, results);
        var t := s.(nodes := Applied(s.nodes, items, results, false, now));
        if ops == [] then t.(phase := Idle) else t.(phase := HubPending(items, results), sent := s.sent + [ops])
    case HubAnswer(ok) =>
      if !s.phase.HubPending? || |s.phase.results| != |s.phase.items| then s
      else if ok then s.(phase := HubDone(s.phase.items, s.phase.results),
                         remote := ApplyOps(s.remote, Ops(s.phase.items, s.phase.results)))
      else s.(phase := Idle, errors := s.errors + ChangedInos(s.phase.items, s.phase.results))
    case ApplyCommits(now) =>
      if !s.phase.HubDone? || |s.phase.results| != |s.phase.items| then s
      else s.(nodes := Applied(s.nodes, s.phase.items, s.phase.results, true, now), phase := Idle)
  }

  function NodeStep(s: World, e: Event): World
    requires !(e.StartFlush? || e.UploadChunk? || e.Decide? || e.HubAnswer? || e.ApplyCommits?)
  {
    if e.ino !in s.nodes then s
    else
      var n := s.nodes[e.ino];
      match e
      case WriteBytes(ino, content) =>
        WithNode(s, ino, n.(content := content, writers := n.writers + 1)).(touched := s.touched + {ino})
      case MarkDirty(ino, clearHash) =>
        if n.writers == 0 then s
        else
          var m := n.meta.SetDirty();
          WithNode(s, ino, n.(writers := n.writers - 1, meta := if clearHash then m.(xetHash := None) else m))
      case PrepareStaging(ino, content, truncate) =>
        if Locked(s, ino) || (!truncate && (n.meta.IsDirty() || n.meta.stagingIsCurrent)) then s
        else
          WithNode(s, ino, n.(content := content, writers := n.writers + 1, meta := n.meta.(stagingIsCurrent := false)))
            .(touched := s.touched + {ino})
      case StagingCurrent(ino) =>
        if n.writers == 0 then s else WithNode(s, ino, n.(meta := n.meta.(stagingIsCurrent := true)))
      case PollUpdate(ino, hash, etag, size, mtime) =>
        WithNode(s, ino, n.(meta := n.meta.Refresh(hash, etag, size, mtime)))
      case FeedUpdate(ino, hash, newSize, newMtime) =>
        WithNode(s, ino, n.(meta := n.meta.Merge(hash, newSize, newMtime)))
      case Unlink(ino) => WithNode(s, ino, n.(live := false))
      case Rename(ino, path) =>
        var m := if n.meta.IsDirty() && n.meta.xetHash.Some?
                 then n.meta.(pendingDeletes := n.meta.pendingDeletes + [n.path]) else n.meta;
        WithNode(s, ino, n.(path := path, meta := m))
  }

  function Step(digest: Content -> string, s: World, e: Event): World {
    if e.StartFlush? || e.UploadChunk? || e.Decide? || e.HubAnswer? || e.ApplyCommits? then FlushStep(digest, s, e)
    else NodeStep(s, e)
  }

  function Run(digest: Content -> string, s: World, events: seq<Event>): World {
    if events == [] then s
    else Step(digest, Run(digest, s, events[..|events| - 1]), events[|events| - 1])
  }

  // ----- The invariant --------------------------------------------------------------------

  /** A clean inode with a current staging file and no write under way holds exactly the committed content. */
  ghost predicate NodeOk(digest: Content -> string, n: Node) {
    !n.meta.IsDirty() && n.meta.stagingIsCurrent && n.writers == 0 ==> n.meta.xetHash == Some(digest(n.content))
  }

  /** An item in flight: if its bytes changed since the snapshot, a writer is still to mark the inode or the
      generation has moved on; otherwise its upload is of the bytes on disk. */
  ghost predicate ItemOk(digest: Content -> string, s: World, item: Item, result: Option<Uploaded>) {
    item.generation > 0 &&
    (item.ino in s.nodes ==>
       var n := s.nodes[item.ino];
       && n.meta.dirtyGeneration >= item.generation
       && (item.ino in s.touched ==> n.writers > 0 || n.meta.dirtyGeneration > item.generation)
       && (item.ino !in s.touched && result.Some? ==> result.value.hash == digest(n.content)))
  }

  /** Items that `Decide` has already applied are settled; the others are still guarded. */
  ghost predicate PhaseOk(digest: Content -> string, s: World) {
    s.phase.Idle? ||
    (&& |s.phase.results| <= |s.phase.items|
     && (!s.phase.Uploading? ==> |s.phase.results| == |s.phase.items|)
     && (forall j, k :: 0 <= j < k < |s.phase.items| ==> s.phase.items[j].ino != s.phase.items[k].ino)
     && (forall k :: 0 <= k < |s.phase.items| ==>
           Pending(s.phase, k) ==>
             ItemOk(digest, s, s.phase.items[k], if k < |s.phase.results| then Some(s.phase.results[k]) else None)))
  }

  predicate Pending(phase: Phase, k: nat)
    requires !phase.Idle? && k < |phase.items|
  {
    phase.Uploading? || (k < |phase.results| && !Unchanged(phase.items[k], phase.results[k]))
  }

  ghost predicate Inv(digest: Content -> string, s: World) {
    && (forall i :: i in s.nodes ==> NodeOk(digest, s.nodes[i]))
    && PhaseOk(digest, s)
  }

  predicate Saturates(s: World, e: Event) {
    e.MarkDirty? && e.ino in s.nodes && s.nodes[e.ino].meta.dirtyGeneration >= U64_MAX
  }

  lemma NodeStepKeepsInv(digest: Content -> string, s: World, e: Event)
    requires !(e.StartFlush? || e.UploadChunk? || e.Decide? || e.HubAnswer? || e.ApplyCommits?)
    requires Inv(digest, s) && !Saturates(s, e)
    ensures Inv(digest, NodeStep(s, e))
  {
    if e.ino in s.nodes {
      NodeStepOne(digest, s, e);
      NodeStepItems(digest, s, e.ino, NodeStep(s, e));
      hide NodeStep, NodeOk, PhaseOk, OneNode;
    }
  }

  /** What an event on one inode may do to the rest of the world. */
  ghost predicate OneNode(s: World, i: Ino, t: World) {
    && t.phase == s.phase && t.nodes.Keys == s.nodes.Keys && i in s.nodes
    && (forall j :: j in t.nodes && j != i ==> t.nodes[j] == s.nodes[j])
    && s.touched <= t.touched <= s.touched + {i}
    && t.nodes[i].meta.dirtyGeneration >= s.nodes[i].meta.dirtyGeneration
    && (i in t.touched && i !in s.touched ==> t.nodes[i].writers > 0)
    && (t.nodes[i].writers < s.nodes[i].writers ==> t.nodes[i].meta.dirtyGeneration > s.nodes[i].meta.dirtyGeneration)
    && (i !in t.touched ==> t.nodes[i].content == s.nodes[i].content)
  }

  lemma NodeStepItems(digest: Content -> string, s: World, i: Ino, t: World)
    requires PhaseOk(digest, s) && OneNode(s, i, t)
    ensures PhaseOk(digest, t)
  {
    hide Unchanged;
    if !s.phase.Idle? {
      forall k | 0 <= k < |s.phase.items| && Pending(s.phase, k)
        ensures ItemOk(digest, t, s.phase.items[k], if k < |s.phase.results| then Some(s.phase.results[k]) else None)
      {
        assert ItemOk(digest, s, s.phase.items[k], if k < |s.phase.results| then Some(s.phase.results[k]) else None);
      }
    }
  }

  lemma NodeStepOne(digest: Content -> string, s: World, e: Event)
    requires !(e.StartFlush? || e.UploadChunk? || e.Decide? || e.HubAnswer? || e.ApplyCommits?)
    requires e.ino in s.nodes && NodeOk(digest, s.nodes[e.ino]) && !Saturates(s, e)
    ensures OneNode(s, e.ino, NodeStep(s, e)) && NodeOk(digest, NodeStep(s, e).nodes[e.ino])
    ensures forall i :: i in s.nodes && i != e.ino ==>
      i in NodeStep(s, e).nodes && NodeStep(s, e).nodes[i] == s.nodes[i]
    ensures NodeStep(s, e).nodes.Keys == s.nodes.Keys
  {
  }

  // ----- The flush loop's own steps -----------------------------------------------------------

  lemma {:induction false} SnapshotFacts(nodes: map<Ino, Node>, inos: seq<Ino>)
    requires Distinct(inos)
    ensures var items := Snapshot(nodes, inos);
            && (forall item :: item in items ==>
                item.ino in inos && Flushable(nodes, item.ino) && item == ItemOf(nodes, item.ino))
            && (forall j, k :: 0 <= j < k < |items| ==> items[j].ino != items[k].ino)
  {
    if inos != [] {
      var front := inos[..|inos| - 1];
      SnapshotFacts(nodes, front);
      assert inos[|inos| - 1] !in front;
    }
  }

  /** The snapshot takes exactly the requested inodes that are linked and dirty, each as it is. */
  lemma {:induction false} SnapshotIs(nodes: map<Ino, Node>, inos: seq<Ino>)
    ensures forall i :: i in ItemInos(Snapshot(nodes, inos)) <==>
      i in inos && i in nodes && nodes[i].live && nodes[i].meta.dirtyGeneration > 0
    ensures forall item :: item in Snapshot(nodes, inos) ==>
      && item.ino in nodes
      && item.path == nodes[item.ino].path && item.pendingDeletes == nodes[item.ino].meta.pendingDeletes
      && item.generation == nodes[item.ino].meta.dirtyGeneration && item.prevHash == nodes[item.ino].meta.xetHash
  {
    if inos != [] {
      var n := |inos| - 1;
      SnapshotIs(nodes, inos[..n]);
      assert inos == inos[..n] + [inos[n]];
      SnapshotMore(nodes, inos);
    }
  }

  lemma SnapshotMore(nodes: map<Ino, Node>, inos: seq<Ino>)
    requires inos != []
    ensures var n := |inos| - 1;
            ItemInos(Snapshot(nodes, inos))
              == ItemInos(Snapshot(nodes, inos[..n])) + (if Flushable(nodes, inos[n]) then {inos[n]} else {})
  {
    var front := Snapshot(nodes, inos[..|inos| - 1]);
    if Flushable(nodes, inos[|inos| - 1]) {
      var item := ItemOf(nodes, inos[|inos| - 1]);
      assert forall x :: x in front + [item] <==> x in front || x == item;
    }
  }

  /** What applying the commits does to one inode: nothing, unless it is the inode of a selected item. */
  lemma {:induction false} AppliedAt(nodes: map<Ino, Node>, items: seq<Item>, results: seq<Uploaded>, changed: bool,
        now: int, i: Ino)
    requires |items| == |results|
    requires forall j, k :: 0 <= j < k < |items| ==> items[j].ino != items[k].ino
    ensures Applied(nodes, items, results, changed, now).Keys == nodes.Keys
    ensures (i in nodes
             && forall k :: 0 <= k < |items| ==> items[k].ino != i || Unchanged(items[k], results[k]) == changed) ==>
      Applied(nodes, items, results, changed, now)[i] == nodes[i]
    ensures forall k ::
      (0 <= k < |items| && items[k].ino == i && Unchanged(items[k], results[k]) != changed && i in nodes) ==>
      Applied(nodes, items, results, changed, now)[i]
        == nodes[i].(meta := nodes[i].meta.ApplyCommit(results[k].hash, results[k].size, items[k].generation, now))
  {
    if items != [] {
      var n := |items| - 1;
      AppliedAt(nodes, items[..n], results[..n], changed, now, i);
      assert forall k :: 0 <= k < n ==> items[..n][k] == items[k] && results[..n][k] == results[k];
    }
  }

  lemma ApplyKeepsNodeOk(digest: Content -> string, s: World, item: Item, u: Uploaded, now: int)
    requires item.ino in s.nodes && NodeOk(digest, s.nodes[item.ino]) && ItemOk(digest, s, item, Some(u))
    ensures var n := s.nodes[item.ino];
            NodeOk(digest, n.(meta := n.meta.ApplyCommit(u.hash, u.size, item.generation, now)))
  {
  }

  lemma AppliedKeepsNodes(digest: Content -> string, s: World, changed: bool, now: int)
    requires Inv(digest, s) && !s.phase.Idle? && |s.phase.results| == |s.phase.items|
    requires s.phase.Uploading? || changed
    ensures forall i :: i in s.nodes ==>
      i in Applied(s.nodes, s.phase.items, s.phase.results, changed, now)
      && NodeOk(digest, Applied(s.nodes, s.phase.items, s.phase.results, changed, now)[i])
  {
    var items, results := s.phase.items, s.phase.results;
    forall i | i in s.nodes
      ensures i in Applied(s.nodes, items, results, changed, now)
          && NodeOk(digest, Applied(s.nodes, items, results, changed, now)[i])
    {
      AppliedAt(s.nodes, items, results, changed, now, i);
      hide Applied, NodeOk, ItemOk;
      if k :| 0 <= k < |items| && items[k].ino == i && Unchanged(items[k], results[k]) != changed {
        assert Pending(s.phase, k);
        ApplyKeepsNodeOk(digest, s, items[k], results[k], now);
      }
    }
  }

  lemma DecideKeepsItems(digest: Content -> string, s: World, now: int)
    requires Inv(digest, s) && s.phase.Uploading? && |s.phase.results| == |s.phase.items|
    ensures var t := s.(nodes := Applied(s.nodes, s.phase.items, s.phase.results, false, now));
            forall k :: 0 <= k < |s.phase.items| && !Unchanged(s.phase.items[k], s.phase.results[k]) ==>
              ItemOk(digest, t, s.phase.items[k], Some(s.phase.results[k]))
  {
    var items, results := s.phase.items, s.phase.results;
    forall k | 0 <= k < |items| && !Unchanged(items[k], results[k])
      ensures ItemOk(digest, s.(nodes := Applied(s.nodes, items, results, false, now)), items[k], Some(results[k]))
    {
      assert Pending(s.phase, k) && ItemOk(digest, s, items[k], Some(results[k]));
      AppliedAt(s.nodes, items, results, false, now, items[k].ino);
      hide Applied;
    }
  }

  lemma StartKeepsInv(digest: Content -> string, s: World, inos: seq<Ino>)
    requires Inv(digest, s)
    ensures Inv(digest, FlushStep(digest, s, StartFlush(inos)))
  {
    DedupedIs(inos);
    SnapshotFacts(s.nodes, Deduped(inos));
    hide NodeOk, Snapshot, Deduped;
    if s.phase.Idle? {
      var items := Snapshot(s.nodes, Deduped(inos));
      forall k | 0 <= k < |items| ensures ItemOk(digest, s.(touched := {}), items[k], None) {
        assert items[k] in items;
      }
    }
  }

  lemma UploadKeepsInv(digest: Content -> string, s: World, answer: Option<seq<Uploaded>>)
    requires Inv(digest, s)
    ensures Inv(digest, FlushStep(digest, s, UploadChunk(answer)))
  {
    hide NodeOk;
    var t := FlushStep(digest, s, UploadChunk(answer));
    if t.phase.Uploading? {
      forall k | 0 <= k < |t.phase.items|
        ensures ItemOk(digest, t, t.phase.items[k], if k < |t.phase.results| then Some(t.phase.results[k]) else None)
      {
        assert Pending(s.phase, k);
        assert ItemOk(digest, s, s.phase.items[k], if k < |s.phase.results| then Some(s.phase.results[k]) else None);
      }
    }
  }

  lemma FlushStepKeepsInv(digest: Content -> string, s: World, e: Event)
    requires e.StartFlush? || e.UploadChunk? || e.Decide? || e.HubAnswer? || e.ApplyCommits?
    requires Inv(digest, s)
    ensures Inv(digest, FlushStep(digest, s, e))
  {
    match e
    case StartFlush(inos) => StartKeepsInv(digest, s, inos);
    case UploadChunk(answer) => UploadKeepsInv(digest, s, answer);
    case Decide(now) =>
      if s.phase.Uploading? && |s.phase.results| == |s.phase.items| {
        AppliedKeepsNodes(digest, s, false, now);
        DecideKeepsItems(digest, s, now);
        hide Applied, NodeOk, ItemOk, Ops, Unchanged;
        AppliedKeys(s.nodes, s.phase.items, s.phase.results, false, now);
      }
    case HubAnswer(ok) =>
      hide NodeOk, ItemOk, Ops, ApplyOps, Unchanged;
      if s.phase.HubPending? { HubAnswerKeepsItems(digest, s, FlushStep(digest, s, e)); }
    case ApplyCommits(now) =>
      if s.phase.HubDone? && |s.phase.results| == |s.phase.items| {
        AppliedKeepsNodes(digest, s, true, now);
        hide Applied, NodeOk, ItemOk;
        AppliedKeys(s.nodes, s.phase.items, s.phase.results, true, now);
      }
  }

  lemma HubAnswerKeepsItems(digest: Content -> string, s: World, t: World)
    requires PhaseOk(digest, s) && s.phase.HubPending? && t.nodes == s.nodes && t.touched == s.touched
    requires t.phase.Idle? || t.phase == HubDone(s.phase.items, s.phase.results)
    ensures PhaseOk(digest, t)
  {
    if !t.phase.Idle? {
      forall k | 0 <= k < |s.phase.items| && Pending(t.phase, k)
        ensures ItemOk(digest, t, s.phase.items[k], if k < |s.phase.results| then Some(s.phase.results[k]) else None)
      {
        assert Pending(s.phase, k);
        assert ItemOk(digest, s, s.phase.items[k], if k < |s.phase.results| then Some(s.phase.results[k]) else None);
      }
    }
  }

  lemma {:induction false} AppliedKeys(nodes: map<Ino, Node>, items: seq<Item>, results: seq<Uploaded>, changed: bool,
        now: int)
    requires |items| == |results|
    ensures Applied(nodes, items, results, changed, now).Keys == nodes.Keys
    ensures forall i :: i in nodes ==>
      Applied(nodes, items, results, changed, now)[i].meta.dirtyGeneration <= nodes[i].meta.dirtyGeneration
  {
    if items != [] { AppliedKeys(nodes, items[..|items| - 1], results[..|items| - 1], changed, now); }
  }

  // ----- No write is lost -----------------------------------------------------------------------

  ghost predicate GenerationsUpTo(s: World, g: nat) {
    forall i :: i in s.nodes ==> s.nodes[i].meta.dirtyGeneration <= g
  }

  lemma StepGenerations(digest: Content -> string, s: World, e: Event, g: nat)
    requires GenerationsUpTo(s, g)
    ensures GenerationsUpTo(Step(digest, s, e), g + 1)
  {
    hide Applied, Ops, ApplyOps, Unchanged, Snapshot, Deduped, UploadResults, NextChunk;
    if e.Decide? && s.phase.Uploading? && |s.phase.results| == |s.phase.items| {
      AppliedKeys(s.nodes, s.phase.items, s.phase.results, false, e.now);
    } else if e.ApplyCommits? && s.phase.HubDone? && |s.phase.results| == |s.phase.items| {
      AppliedKeys(s.nodes, s.phase.items, s.phase.results, true, e.now);
    }
  }

  /** In every interleaving of writers, remote updates and the flush loop that is too short to exhaust the
      64-bit counter: an inode that is clean, with a current staging file and no write under way, has a
      staging file with exactly the committed content. */
  lemma {:induction false} NoLostWrite(digest: Content -> string, s: World, events: seq<Event>, g: nat)
    requires Inv(digest, s) && GenerationsUpTo(s, g) && g + |events| <= U64_MAX
    ensures Inv(digest, Run(digest, s, events)) && GenerationsUpTo(Run(digest, s, events), g + |events|)
  {
    hide Inv, FlushStep, NodeStep, GenerationsUpTo;
    if events != [] {
      var front, e := events[..|events| - 1], events[|events| - 1];
      NoLostWrite(digest, s, front, g);
      var before := Run(digest, s, front);
      StepGenerations(digest, before, e, g + |front|);
      if e.StartFlush? || e.UploadChunk? || e.Decide? || e.HubAnswer? || e.ApplyCommits? {
        FlushStepKeepsInv(digest, before, e);
      } else {
        BelowSaturation(before, e, g + |front|);
        NodeStepKeepsInv(digest, before, e);
      }
    }
  }

  /** No write is marked while the counter of its inode is at its maximum. */
  predicate NeverSaturates(digest: Content -> string, s: World, events: seq<Event>) {
    forall k :: 0 <= k < |events| ==> !Saturates(Run(digest, s, events[..k]), events[k])
  }

  /** However long the run: no write is lost as long as no counter is asked to count beyond its maximum. */
  lemma {:induction false} NoLostWriteUnlessSaturated(digest: Content -> string, s: World, events: seq<Event>)
    requires Inv(digest, s) && NeverSaturates(digest, s, events)
    ensures Inv(digest, Run(digest, s, events))
  {
    hide Inv, FlushStep, NodeStep, Saturates;
    if events != [] {
      var front, e := events[..|events| - 1], events[|events| - 1];
      assert forall k :: 0 <= k < |front| ==> front[..k] == events[..k] && front[k] == events[k];
      NoLostWriteUnlessSaturated(digest, s, front);
      if e.StartFlush? || e.UploadChunk? || e.Decide? || e.HubAnswer? || e.ApplyCommits? {
        FlushStepKeepsInv(digest, Run(digest, s, front), e);
      } else {
        NodeStepKeepsInv(digest, Run(digest, s, front), e);
      }
    }
  }

  lemma BelowSaturation(s: World, e: Event, g: nat)
    requires GenerationsUpTo(s, g) && g < U64_MAX
    ensures !Saturates(s, e)
  {
  }

  /** A failed chunk changes no file and sends nothing; every file of the batch is still dirty and has an error. */
  lemma FailedChunkKeepsTheBatchDirty(digest: Content -> string, s: World)
    requires Inv(digest, s) && s.phase.Uploading?
    ensures var t := Step(digest, s, UploadChunk(None));
            && t.nodes == s.nodes && t.sent == s.sent && t.remote == s.remote && t.phase.Idle?
            && (forall k :: 0 <= k < |s.phase.items| ==>
                  && s.phase.items[k].ino in t.errors
                  && (s.phase.items[k].ino in t.nodes ==> t.nodes[s.phase.items[k].ino].meta.IsDirty()))
  {
    forall k | 0 <= k < |s.phase.items|
      ensures s.phase.items[k].ino in ItemInos(s.phase.items)
      ensures s.phase.items[k].ino in s.nodes ==> s.nodes[s.phase.items[k].ino].meta.IsDirty()
    {
      assert Pending(s.phase, k);
      assert s.phase.items[k] in s.phase.items;
    }
  }

  /** A refused commit changes no file and nothing on the remote; every file that was to be committed is still
      dirty and has an error. */
  lemma RefusedCommitKeepsTheBatchDirty(digest: Content -> string, s: World)
    requires Inv(digest, s) && s.phase.HubPending?
    ensures var t := Step(digest, s, HubAnswer(false));
            && t.nodes == s.nodes && t.remote == s.remote && t.phase.Idle?
            && |s.phase.results| == |s.phase.items|
            && (forall i :: i in t.errors ==>
                  i in s.errors
                  || exists k :: 0 <= k < |s.phase.items| && s.phase.items[k].ino == i
                                 && (s.phase.items[k].pendingDeletes != []
                                     || s.phase.items[k].prevHash != Some(s.phase.results[k].hash)))
            && (forall k :: 0 <= k < |s.phase.items|
                            && (s.phase.items[k].pendingDeletes != []
                                || s.phase.items[k].prevHash != Some(s.phase.results[k].hash)) ==>
                  && s.phase.items[k].ino in t.errors
                  && (s.phase.items[k].ino in t.nodes ==> t.nodes[s.phase.items[k].ino].meta.IsDirty()))
  {
    var t := Step(digest, s, HubAnswer(false));
    forall k | 0 <= k < |s.phase.items|
               && (s.phase.items[k].pendingDeletes != [] || s.phase.items[k].prevHash != Some(s.phase.results[k].hash))
      ensures s.phase.items[k].ino in ChangedInos(s.phase.items, s.phase.results)
      ensures s.phase.items[k].ino in s.nodes ==> s.nodes[s.phase.items[k].ino].meta.IsDirty()
    {
      assert Pending(s.phase, k);
      assert ItemOk(digest, s, s.phase.items[k], Some(s.phase.results[k]));
    }
  }

  /** What a flush settles without the Hub: an inode changes only as the inode of an item without pending deletes
      whose content is the committed one, and it is clean afterwards unless it was written meanwhile.  Every item
      with a pending delete or with new content is untouched, and exactly when there is one the batch is sent. */
  lemma DecideSettlesOnlyTheUnchanged(digest: Content -> string, s: World, now: int)
    requires Inv(digest, s) && s.phase.Uploading? && |s.phase.results| == |s.phase.items|
    ensures var items, results := s.phase.items, s.phase.results;
            var t := Step(digest, s, Decide(now));
            && t.remote == s.remote && t.nodes.Keys == s.nodes.Keys
            && (forall i :: i in s.nodes && t.nodes[i] != s.nodes[i] ==>
                  exists k :: 0 <= k < |items| && items[k].ino == i && items[k].pendingDeletes == []
                              && items[k].prevHash == Some(results[k].hash))
            && (forall k :: 0 <= k < |items| && items[k].ino in s.nodes && items[k].pendingDeletes == []
                            && items[k].prevHash == Some(results[k].hash)
                            && s.nodes[items[k].ino].meta.dirtyGeneration == items[k].generation ==>
                  var n := t.nodes[items[k].ino];
                  n.meta.dirtyGeneration == 0 && n.meta.xetHash == items[k].prevHash && n.meta.pendingDeletes == []
                  && n.meta.size == results[k].size && n.meta.stagingIsCurrent && n.path == s.nodes[items[k].ino].path)
            && (if exists k :: 0 <= k < |items| && (items[k].pendingDeletes != []
                                                    || items[k].prevHash != Some(results[k].hash))
                then t.phase == HubPending(items, results) && t.sent == s.sent + [Ops(items, results)]
                else t.phase.Idle? && t.sent == s.sent)
  {
    var items, results := s.phase.items, s.phase.results;
    var t := Step(digest, s, Decide(now));
    AppliedKeys(s.nodes, items, results, false, now);
    SentIff(items, results);
    hide Inv, Applied, Ops;
    forall i | i in s.nodes
      ensures t.nodes[i] != s.nodes[i] ==>
        exists k :: 0 <= k < |items| && items[k].ino == i && items[k].pendingDeletes == []
                    && items[k].prevHash == Some(results[k].hash)
      ensures forall k :: 0 <= k < |items| && items[k].ino == i && items[k].pendingDeletes == []
                          && items[k].prevHash == Some(results[k].hash)
                          && s.nodes[i].meta.dirtyGeneration == items[k].generation ==>
                t.nodes[i].meta.dirtyGeneration == 0 && t.nodes[i].meta.xetHash == items[k].prevHash
                && t.nodes[i].meta.pendingDeletes == [] && t.nodes[i].path == s.nodes[i].path
                && t.nodes[i].meta.size == results[k].size && t.nodes[i].meta.stagingIsCurrent
    {
      ItemsApart(digest, s);
      AppliedAt(s.nodes, items, results, false, now, i);
    }
  }

  lemma SentIff(items: seq<Item>, results: seq<Uploaded>)
    requires |items| == |results|
    ensures Ops(items, results) != []
       <==> exists k :: 0 <= k < |items|
                        && (items[k].pendingDeletes != [] || items[k].prevHash != Some(results[k].hash))
  {
    AllChangedAreSent(items, results);
    BatchIsWhatChanged(items, results);
    hide Ops;
    if Ops(items, results) != [] {
      assert Ops(items, results)[0] in Ops(items, results);
    }
  }

  lemma ItemsApart(digest: Content -> string, s: World)
    requires Inv(digest, s) && !s.phase.Idle?
    ensures forall j, k :: 0 <= j < k < |s.phase.items| ==> s.phase.items[j].ino != s.phase.items[k].ino
  {
  }

  /** Uploads go in chunks of five hundred files, the last one with what is left. */
  lemma ChunksAreBounded(digest: Content -> string, s: World, answer: seq<Uploaded>)
    requires Inv(digest, s) && s.phase.Uploading? && |s.phase.results| < |s.phase.items|
    ensures var t := Step(digest, s, UploadChunk(Some(answer)));
            var left := |s.phase.items| - |s.phase.results|;
            && t.nodes == s.nodes && t.phase.Uploading? && t.phase.items == s.phase.items
            && (|answer| == (if left < 500 then left else 500) ==>
                  |t.phase.results| == |s.phase.results| + |answer| && s.phase.results <= t.phase.results)
  {
  }

  /** A staging file is filled anew, by a truncating open or for a clean file without a current one, only while no
      upload reads it, and is current once it is filled; uploads of other files do not wait. */
  lemma StagingIsFilledIff(digest: Content -> string, s: World, ino: Ino, content: Content, truncate: bool)
    requires ino in s.nodes
    ensures var n, m := s.nodes[ino], Step(digest, s, PrepareStaging(ino, content, truncate)).nodes[ino];
            if || (s.phase.Uploading? && exists item :: item in s.phase.items && item.ino == ino)
               || (!truncate && (n.meta.dirtyGeneration > 0 || n.meta.stagingIsCurrent))
            then m == n
            else m.content == content && m.writers == n.writers + 1 && !m.meta.stagingIsCurrent
                 && m.meta.dirtyGeneration == n.meta.dirtyGeneration && m.path == n.path
    ensures s.nodes[ino].writers > 0 ==>
      var n := s.nodes[ino];
      Step(digest, s, StagingCurrent(ino)).nodes[ino] == n.(meta := n.meta.(stagingIsCurrent := true))
  {
  }

  /** A write that is marked moves the generation on, and the committed hash is forgotten exactly when the write
      replaces the file. */
  lemma MarkMovesTheGeneration(digest: Content -> string, s: World, ino: Ino, clearHash: bool)
    requires ino in s.nodes && s.nodes[ino].writers > 0
    ensures var n, m := s.nodes[ino], Step(digest, s, MarkDirty(ino, clearHash)).nodes[ino];
            && m.meta.dirtyGeneration == (if n.meta.dirtyGeneration < U64_MAX then n.meta.dirtyGeneration + 1
                                          else U64_MAX)
            && m.meta.xetHash == (if clearHash then None else n.meta.xetHash)
            && m.writers == n.writers - 1 && m.content == n.content && m.path == n.path
            && m.meta.pendingDeletes == n.meta.pendingDeletes && m.meta.stagingIsCurrent == n.meta.stagingIsCurrent
  {
  }

  /** A poll and the feed leave a file with local writes alone; of a clean one they replace what they report, and
      its staging file is stale from then on. */
  lemma RemoteChangesSpareWrites(digest: Content -> string, s: World, ino: Ino, hash: Option<string>,
                                 etag: Option<string>, size: Option<nat>, mtime: Option<int>)
    requires ino in s.nodes
    ensures var n, m := s.nodes[ino], Step(digest, s, FeedUpdate(ino, hash, size, mtime)).nodes[ino];
            if n.meta.dirtyGeneration > 0 then m == n
            else m.meta.xetHash == (if hash.Some? then hash else n.meta.xetHash)
                 && m.meta.size == (if size.Some? then size.value else n.meta.size)
                 && m.meta.mtime == (if mtime.Some? then mtime.value else n.meta.mtime)
                 && !m.meta.stagingIsCurrent && !m.meta.IsDirty() && m.content == n.content && m.path == n.path
    ensures size.Some? && mtime.Some? ==>
      var n := s.nodes[ino];
      var m := Step(digest, s, PollUpdate(ino, hash, etag, size.value, mtime.value)).nodes[ino];
      if n.meta.dirtyGeneration > 0 then m == n
      else m.meta.xetHash == hash && m.meta.etag == etag && m.meta.size == size.value
           && m.meta.mtime == mtime.value
           && !m.meta.stagingIsCurrent && !m.meta.IsDirty() && m.content == n.content && m.path == n.path
  {
  }

  /** Whatever a flush is asked for, a file that was unlinked is not in its batch. */
  lemma UnlinkedIsNotFlushed(digest: Content -> string, s: World, ino: Ino, inos: seq<Ino>)
    requires s.phase.Idle?
    ensures var t := Step(digest, Step(digest, s, Unlink(ino)), StartFlush(inos));
            !t.phase.Idle? ==> forall item :: item in t.phase.items ==> item.ino != ino
  {
    SnapshotIs(Step(digest, s, Unlink(ino)).nodes, Deduped(inos));
    hide Snapshot, Deduped;
  }

  /** A rename remembers the old path for deletion exactly when the file has local writes and the remote knows
      it. */
  lemma RenameRemembersThePath(digest: Content -> string, s: World, ino: Ino, path: string)
    requires ino in s.nodes
    ensures var n, m := s.nodes[ino], Step(digest, s, Rename(ino, path)).nodes[ino];
            && m.path == path && m.content == n.content && m.writers == n.writers && m.live == n.live
            && m.meta == n.meta.(pendingDeletes := m.meta.pendingDeletes)
            && m.meta.pendingDeletes == if n.meta.dirtyGeneration > 0 && n.meta.xetHash.Some?
                                        then n.meta.pendingDeletes + [n.path] else n.meta.pendingDeletes
  {
  }

  /** The bytes of a dirty file are its writers' alone: no poll, no change of the feed, no open that does not
      truncate, and no step of the flush loop replaces them. */
  lemma DirtyBytesStay(digest: Content -> string, s: World, e: Event, i: Ino)
    requires i in s.nodes && s.nodes[i].meta.dirtyGeneration > 0
    requires !(e.WriteBytes? && e.ino == i) && !(e.PrepareStaging? && e.ino == i && e.truncate)
    ensures i in Step(digest, s, e).nodes && Step(digest, s, e).nodes[i].content == s.nodes[i].content
  {
    hide Applied, Ops, ApplyOps, Snapshot, Deduped, UploadResults, NextChunk, Unchanged;
    if e.Decide? && s.phase.Uploading? && |s.phase.results| == |s.phase.items| {
      AppliedKeepsBytes(s.nodes, s.phase.items, s.phase.results, false, e.now);
    } else if e.ApplyCommits? && s.phase.HubDone? && |s.phase.results| == |s.phase.items| {
      AppliedKeepsBytes(s.nodes, s.phase.items, s.phase.results, true, e.now);
    }
  }

  lemma {:induction false} AppliedKeepsBytes(nodes: map<Ino, Node>, items: seq<Item>, results: seq<Uploaded>,
                                             changed: bool, now: int)
    requires |items| == |results|
    ensures Applied(nodes, items, results, changed, now).Keys == nodes.Keys
    ensures forall i :: i in nodes ==> Applied(nodes, items, results, changed, now)[i].content == nodes[i].content
  {
    if items != [] { AppliedKeepsBytes(nodes, items[..|items| - 1], results[..|items| - 1], changed, now); }
  }

  /** One dirty file on its own. */
  function OneFile(n: Node, remote: map<string, string>): World {
    World(map[Ino(2) := n], Idle, {}, {}, remote, [])
  }

  lemma OneFileUpload(digest: Content -> string, n: Node, remote: map<string, string>)
    requires n.live && n.meta.IsDirty()
    ensures var s := OneFile(n, remote);
            var item, u := ItemOf(s.nodes, Ino(2)), Uploaded(digest(n.content), |n.content|);
            Step(digest, Step(digest, s, StartFlush([Ino(2)])), UploadChunk(Some([u])))
                == s.(phase := Uploading([item], [u]))
  {
    var s := OneFile(n, remote);
    var item, u := ItemOf(s.nodes, Ino(2)), Uploaded(digest(n.content), |n.content|);
    var s1 := s.(phase := Uploading([item], []));
    OneFileStart(digest, n, remote);
    OneChunk(digest, s1, item, u);
    hide Step;
  }

  lemma OneFileStart(digest: Content -> string, n: Node, remote: map<string, string>)
    requires n.live && n.meta.IsDirty()
    ensures var s := OneFile(n, remote);
            Step(digest, s, StartFlush([Ino(2)])) == s.(phase := Uploading([ItemOf(s.nodes, Ino(2))], []))
  {
    var s := OneFile(n, remote);
    assert Deduped([Ino(2)]) == [Ino(2)] by { assert [Ino(2)][1..] == []; }
    assert Snapshot(s.nodes, [Ino(2)]) == [ItemOf(s.nodes, Ino(2))] by { assert [Ino(2)][..0] == []; }
    hide Deduped, Snapshot;
  }

  lemma OneChunk(digest: Content -> string, s: World, item: Item, u: Uploaded)
    requires s.phase == Uploading([item], []) && UploadOf(digest, s, item, u) == u
    ensures Step(digest, s, UploadChunk(Some([u]))) == s.(phase := Uploading([item], [u]))
  {
    assert [item][0..1] == [item];
    assert UploadResults(digest, s, [item], [u]) == [u];
    assert s.phase.results + [u] == [u];
    hide UploadResults, UploadOf;
  }

  lemma AppliedOne(nodes: map<Ino, Node>, item: Item, u: Uploaded, changed: bool, now: int)
    requires item.ino in nodes
    ensures Applied(nodes, [item], [u], changed, now)
         == if Unchanged(item, u) == changed then nodes
            else nodes[item.ino := nodes[item.ino].(meta := nodes[item.ino].meta.ApplyCommit(u.hash, u.size,
                item.generation, now))]
  {
    assert [item][..0] == [] && [u][..0] == [];
  }

  lemma OpsOfOne(remote: map<string, string>, item: Item, u: Uploaded)
    requires !Unchanged(item, u) && item.pendingDeletes == []
    ensures Ops([item], [u]) == [AddFile(item.path, u.hash)]
    ensures ApplyOps(remote, Ops([item], [u])) == remote[item.path := u.hash]
  {
    assert [item][..0] == [] && [u][..0] == [];
    assert Adds([item], [u]) == [AddFile(item.path, u.hash)] && Deletes([item], [u]) == [];
    assert [AddFile(item.path, u.hash)][..0] == [];
  }

  /** Deciding, committing and applying a batch of one changed file. */
  lemma CommitOne(digest: Content -> string, s: World, item: Item, u: Uploaded)
    requires s.phase == Uploading([item], [u]) && !Unchanged(item, u) && item.ino in s.nodes
        && item.pendingDeletes == []
    ensures var t := Step(digest, Step(digest, Step(digest, s, Decide(0)), HubAnswer(true)), ApplyCommits(0));
            && t.phase == Idle
            && t.nodes == Applied(s.nodes, [item], [u], true, 0)
            && t.remote == s.remote[item.path := u.hash]
  {
    OpsOfOne(s.remote, item, u);
    AppliedOne(s.nodes, item, u, false, 0);
    hide Applied, Ops, Unchanged, ApplyOps;
  }

  /** A flush of one file from the snapshot to the end, with two events in between. */
  function Around(digest: Content -> string, n: Node, e1: Event, e2: Event): seq<Event> {
    [StartFlush([Ino(2)]), UploadChunk(Some([Uploaded(digest(n.content), |n.content|)])), e1, e2,
     Decide(0), HubAnswer(true), ApplyCommits(0)]
  }

  lemma FlushAround(digest: Content -> string, n: Node, remote: map<string, string>, e1: Event, e2: Event, w: World)
    requires n.live && n.meta.IsDirty() && n.meta.xetHash != Some(digest(n.content)) && n.meta.pendingDeletes == []
    requires var s := OneFile(n, remote);
             var item, u := ItemOf(s.nodes, Ino(2)), Uploaded(digest(n.content), |n.content|);
             w == Step(digest, Step(digest, s.(phase := Uploading([item], [u])), e1), e2)
             && w.phase == Uploading([item], [u]) && Ino(2) in w.nodes
    ensures var u := Uploaded(digest(n.content), |n.content|);
            var t, m := Run(digest, OneFile(n, remote), Around(digest, n, e1, e2)), w.nodes[Ino(2)];
            && t.phase == Idle && t.remote == w.remote[n.path := u.hash]
            && t.nodes == w.nodes[Ino(2) := m.(meta := m.meta.ApplyCommit(u.hash, u.size, n.meta.dirtyGeneration, 0))]
  {
    var s := OneFile(n, remote);
    var item, u := ItemOf(s.nodes, Ino(2)), Uploaded(digest(n.content), |n.content|);
    OneFileUpload(digest, n, remote);
    CommitOne(digest, w, item, u);
    AppliedOne(w.nodes, item, u, true, 0);
    SevenSteps(digest, s, StartFlush([Ino(2)]), UploadChunk(Some([u])), e1, e2, Decide(0), HubAnswer(true),
        ApplyCommits(0));
    hide Step, Applied, Run;
  }

  /** Beyond the 64-bit counter the protocol fails: a write that comes while a batch is in flight no longer
      moves the generation, and the commit declares the inode clean. */
  lemma SaturatedCounterLosesWrites(digest: Content -> string, first: Content, second: Content)
    returns (s: World, events: seq<Event>)
    requires digest(first) != digest(second)
    ensures s == OneFile(Node("f", true, first, 0, FileMeta(|first|, 0, None, true, None, U64_MAX, [])), map[])
    ensures Inv(digest, s) && !Inv(digest, Run(digest, s, events))
  {
    var meta := FileMeta(|first|, 0, None, true, None, U64_MAX, []);
    var n := Node("f", true, first, 0, meta);
    s := OneFile(n, map[]);
    var item, u := ItemOf(s.nodes, Ino(2)), Uploaded(digest(first), |first|);
    var s2 := s.(phase := Uploading([item], [u]));
    var s3 := s2.(nodes := s2.nodes[Ino(2) := n.(content := second, writers := 1)], touched := {Ino(2)});
    assert Step(digest, s2, WriteBytes(Ino(2), second)) == s3;
    var w := s3.(nodes := s3.nodes[Ino(2) := n.(content := second)]);
    assert Step(digest, s3, MarkDirty(Ino(2), false)) == w;
    hide Step;
    FlushAround(digest, n, map[], WriteBytes(Ino(2), second), MarkDirty(Ino(2), false), w);
    events := Around(digest, n, WriteBytes(Ino(2), second), MarkDirty(Ino(2), false));
    assert !NodeOk(digest, Run(digest, s, events).nodes[Ino(2)]);
  }

  lemma SevenSteps(digest: Content -> string, s: World, a: Event, b: Event, c: Event, d: Event, e: Event, f: Event,
        g: Event)
    ensures Run(digest, s, [a, b, c, d, e, f, g])
         == Step(digest, Step(digest, Step(digest,
             Step(digest, Step(digest, Step(digest, Step(digest, s, a), b), c), d), e), f), g)
  {
    hide Step;
    RunOne(digest, s, [], a);
    RunOne(digest, s, [a], b);
    RunOne(digest, s, [a, b], c);
    RunOne(digest, s, [a, b, c], d);
    RunOne(digest, s, [a, b, c, d], e);
    RunOne(digest, s, [a, b, c, d, e], f);
    RunOne(digest, s, [a, b, c, d, e, f], g);
    assert [] + [a] == [a] && [a] + [b] == [a, b] && [a, b] + [c] == [a, b, c] && [a, b, c] + [d] == [a, b, c, d];
    assert [a, b, c, d] + [e] == [a, b, c, d, e] && [a, b, c, d, e] + [f] == [a, b, c, d, e, f];
    assert [a, b, c, d, e, f] + [g] == [a, b, c, d, e, f, g];
  }

  lemma RunOne(digest: Content -> string, s: World, front: seq<Event>, e: Event)
    ensures Run(digest, s, front + [e]) == Step(digest, Run(digest, s, front), e)
  {
    assert (front + [e])[..|front|] == front;
  }

  // ----- What a batch publishes ---------------------------------------------------------------------

  function DeletedPaths(items: seq<Item>, results: seq<Uploaded>): set<string>
    requires |items| == |results|
  {
    set k, p | 0 <= k < |items| && p in items[k].pendingDeletes :: p
  }

  lemma {:induction false} ApplyAppend(remote: map<string, string>, a: seq<Op>, b: seq<Op>)
    ensures ApplyOps(remote, a + b) == ApplyOps(ApplyOps(remote, a), b)
  {
    if b == [] {
      assert a + b == a;
    } else {
      assert (a + b)[..|a + b| - 1] == a + b[..|b| - 1];
      ApplyAppend(remote, a, b[..|b| - 1]);
    }
  }

  lemma AddOne(remote: map<string, string>, items: seq<Item>, results: seq<Uploaded>)
    requires |items| == |results| && items != []
    ensures var n := |items| - 1;
            ApplyOps(remote, Adds(items, results))
              == if Unchanged(items[n], results[n]) then ApplyOps(remote, Adds(items[..n], results[..n]))
                 else ApplyOps(remote, Adds(items[..n], results[..n]))[items[n].path := results[n].hash]
  {
    var n := |items| - 1;
    var front := Adds(items[..n], results[..n]);
    if Unchanged(items[n], results[n]) {
      assert front + [] == front;
    } else {
      assert (front + [AddFile(items[n].path, results[n].hash)])[..|front|] == front;
    }
  }

  lemma {:induction false} AddsPublish(remote: map<string, string>, items: seq<Item>, results: seq<Uploaded>, k: nat)
    requires |items| == |results| && k < |items| && !Unchanged(items[k], results[k])
    requires forall i, j :: 0 <= i < j < |items| ==> items[i].path != items[j].path
    ensures var r := ApplyOps(remote, Adds(items, results)); items[k].path in r && r[items[k].path] == results[k].hash
  {
    hide Adds, ApplyOps, Unchanged;
    var n := |items| - 1;
    AddOne(remote, items, results);
    if k < n {
      AddsPublish(remote, items[..n], results[..n], k);
    }
  }

  lemma {:induction false} AddsLeave(remote: map<string, string>, items: seq<Item>, results: seq<Uploaded>, p: string)
    requires |items| == |results|
    requires forall k :: 0 <= k < |items| && !Unchanged(items[k], results[k]) ==> items[k].path != p
    ensures var r := ApplyOps(remote, Adds(items, results));
            && (p in r <==> p in remote)
            && (p in r && p in remote ==> r[p] == remote[p])
  {
    if items != [] {
      hide Adds, ApplyOps, Unchanged;
      var n := |items| - 1;
      AddOne(remote, items, results);
      assert forall k :: 0 <= k < n ==> items[..n][k] == items[k] && results[..n][k] == results[k];
      AddsLeave(remote, items[..n], results[..n], p);
    }
  }

  lemma {:induction false} DeleteOpsRemove(remote: map<string, string>, paths: seq<string>)
    ensures ApplyOps(remote, DeleteOps(paths)) == remote - SetOf(paths)
  {
    if paths != [] {
      var n := |paths| - 1;
      DeleteOpsRemove(remote, paths[..n]);
      ApplyAppend(remote, DeleteOps(paths[..n]), [DeleteFile(paths[n])]);
      assert paths == paths[..n] + [paths[n]];
      assert SetOf(paths) == SetOf(paths[..n]) + {paths[n]};
    }
  }

  lemma NoDeletes(remote: map<string, string>)
    ensures ApplyOps(remote, Deletes([], [])) == remote - DeletedPaths([], [])
  {
    assert DeletedPaths([], []) == {};
  }

  lemma DeletesLast(remote: map<string, string>, items: seq<Item>, results: seq<Uploaded>)
    requires |items| == |results| && items != []
    ensures var n := |items| - 1;
            ApplyOps(remote, Deletes(items, results))
              == if Unchanged(items[n], results[n]) then ApplyOps(remote, Deletes(items[..n], results[..n]))
                 else ApplyOps(ApplyOps(remote, Deletes(items[..n], results[..n])), DeleteOps(items[n].pendingDeletes))
  {
    var n := |items| - 1;
    var front := Deletes(items[..n], results[..n]);
    assert front + [] == front;
    ApplyAppend(remote, front, DeleteOps(items[n].pendingDeletes));
    hide ApplyOps, DeleteOps, Unchanged;
  }

  lemma {:induction false} DeletesRemove(remote: map<string, string>, items: seq<Item>, results: seq<Uploaded>)
    requires |items| == |results|
    ensures ApplyOps(remote, Deletes(items, results)) == remote - DeletedPaths(items, results)
  {
    hide ApplyOps, DeletedPaths, DeleteOps, Unchanged, Deletes;
    if items == [] {
      NoDeletes(remote);
    } else {
      var n := |items| - 1;
      DeletesRemove(remote, items[..n], results[..n]);
      DeletesLast(remote, items, results);
      DeleteOpsRemove(remote - DeletedPaths(items[..n], results[..n]), items[n].pendingDeletes);
      DeletedMore(items, results);
    }
  }

  lemma DeletedMore(items: seq<Item>, results: seq<Uploaded>)
    requires |items| == |results| && items != []
    ensures var n := |items| - 1;
            DeletedPaths(items, results)
              == DeletedPaths(items[..n], results[..n])
                 + (if Unchanged(items[n], results[n]) then {} else SetOf(items[n].pendingDeletes))
  {
    var n := |items| - 1;
    assert forall k :: 0 <= k < n ==> items[..n][k] == items[k] && results[..n][k] == results[k];
    forall p ensures p in DeletedPaths(items, results)
                <==> || p in DeletedPaths(items[..n], results[..n])
                     || p in items[n].pendingDeletes
    {
      if p in DeletedPaths(items, results) {
        var k :| 0 <= k < |items| && p in items[k].pendingDeletes;
        if k < n { assert items[..n][k] == items[k]; }
      }
    }
  }

  /** After a committed batch each changed file is on the remote under its snapshot path with its new hash,
      exactly when no pending delete of the batch names that path; every path that the batch does not
      mention is as before. */
  lemma BatchPublishes(remote: map<string, string>, items: seq<Item>, results: seq<Uploaded>, k: nat)
    requires |items| == |results| && k < |items|
    requires items[k].pendingDeletes != [] || items[k].prevHash != Some(results[k].hash)
    requires forall i, j :: 0 <= i < j < |items| ==> items[i].path != items[j].path
    ensures var r := ApplyOps(remote, Ops(items, results));
            var p := items[k].path;
            p in r && r[p] == results[k].hash <==> forall item :: item in items ==> p !in item.pendingDeletes
  {
    assert items[k].path in DeletedPaths(items, results)
           <==> exists item :: item in items && items[k].path in item.pendingDeletes;
    ApplyAppend(remote, Adds(items, results), Deletes(items, results));
    AddsPublish(remote, items, results, k);
    DeletesRemove(ApplyOps(remote, Adds(items, results)), items, results);
  }

  lemma BatchLeavesTheRest(remote: map<string, string>, items: seq<Item>, results: seq<Uploaded>, p: string)
    requires |items| == |results|
    requires forall k :: 0 <= k < |items| && !Unchanged(items[k], results[k]) ==>
      items[k].path != p && p !in items[k].pendingDeletes
    ensures var r := ApplyOps(remote, Ops(items, results));
            (p in r <==> p in remote) && (p in r && p in remote ==> r[p] == remote[p])
  {
    ApplyAppend(remote, Adds(items, results), Deletes(items, results));
    AddsLeave(remote, items, results, p);
    DeletesRemove(ApplyOps(remote, Adds(items, results)), items, results);
  }

  // ----- Renames ----------------------------------------------------------------------------------------

  lemma OneItemBatch(remote: map<string, string>, item: Item, u: Uploaded)
    requires item.pendingDeletes != [] || item.prevHash != Some(u.hash)
    ensures Ops([item], [u]) == [AddFile(item.path, u.hash)] + DeleteOps(item.pendingDeletes)
    ensures ApplyOps(remote, Ops([item], [u])) == remote[item.path := u.hash] - SetOf(item.pendingDeletes)
  {
    assert [item][..0] == [] && [u][..0] == [];
    assert Adds([item], [u]) == [AddFile(item.path, u.hash)] && Deletes([item], [u]) == DeleteOps(item.pendingDeletes);
    assert [AddFile(item.path, u.hash)][..0] == [];
    ApplyAppend(remote, [AddFile(item.path, u.hash)], DeleteOps(item.pendingDeletes));
    DeleteOpsRemove(remote[item.path := u.hash], item.pendingDeletes);
  }

  lemma MovedCommit(digest: Content -> string, s: World, item: Item, u: Uploaded)
    requires s.phase == Uploading([item], [u]) && item.pendingDeletes != [] && item.ino in s.nodes
    ensures var t := Step(digest, Step(digest, Step(digest, s, Decide(0)), HubAnswer(true)), ApplyCommits(0));
            && t.phase == Idle && t.nodes == Applied(s.nodes, [item], [u], true, 0)
            && t.remote == s.remote[item.path := u.hash] - SetOf(item.pendingDeletes)
  {
    assert !Unchanged(item, u);
    OneItemBatch(s.remote, item, u);
    AppliedOne(s.nodes, item, u, false, 0);
    hide Applied, Ops, ApplyOps, Unchanged, DeleteOps;
    var d := Step(digest, s, Decide(0));
    assert d.phase == HubPending([item], [u]) && d.nodes == s.nodes && d.remote == s.remote;
  }

  /** A dirty file that the remote knows is renamed and then flushed: the remote has it under the new name with
      its current content, and no longer under the old one, also when the content is what it was before. */
  lemma RenameThenFlushMovesTheFile(digest: Content -> string, n: Node, remote: map<string, string>, path: string)
    requires n.live && n.meta.dirtyGeneration > 0 && n.meta.xetHash.Some? && n.meta.pendingDeletes == []
    requires n.path != path
    ensures var u := Uploaded(digest(n.content), |n.content|);
            var t := Run(digest, OneFile(n, remote),
                         [Rename(Ino(2), path), StartFlush([Ino(2)]), UploadChunk(Some([u])), Decide(0),
                          HubAnswer(true), ApplyCommits(0)]);
            && t.phase.Idle? && t.remote == remote[path := digest(n.content)] - {n.path}
            && t.nodes.Keys == {Ino(2)} && t.nodes[Ino(2)].path == path && t.nodes[Ino(2)].meta.dirtyGeneration == 0
            && t.nodes[Ino(2)].meta.xetHash == Some(digest(n.content)) && t.nodes[Ino(2)].meta.pendingDeletes == []
  {
    var u := Uploaded(digest(n.content), |n.content|);
    var m := n.(path := path, meta := n.meta.(pendingDeletes := [n.path]));
    var s, item := OneFile(n, remote), ItemOf(OneFile(m, remote).nodes, Ino(2));
    var w := OneFile(m, remote).(phase := Uploading([item], [u]));
    RenamedFile(digest, n, remote, path);
    OneFileUpload(digest, m, remote);
    AppliedOne(w.nodes, item, u, true, 0);
    assert SetOf([n.path]) == {n.path};
    hide Step, Applied, Run, Unchanged;
    MovedCommit(digest, w, item, u);
    SixSteps(digest, s, Rename(Ino(2), path), StartFlush([Ino(2)]), UploadChunk(Some([u])), Decide(0), HubAnswer(true),
             ApplyCommits(0));
  }

  lemma RenamedFile(digest: Content -> string, n: Node, remote: map<string, string>, path: string)
    requires n.live && n.meta.IsDirty() && n.meta.xetHash.Some? && n.meta.pendingDeletes == []
    ensures Step(digest, OneFile(n, remote), Rename(Ino(2), path))
         == OneFile(n.(path := path, meta := n.meta.(pendingDeletes := [n.path])), remote)
  {
    assert [] + [n.path] == [n.path];
    hide FlushStep;
  }

  lemma SixSteps(digest: Content -> string, s: World, a: Event, b: Event, c: Event, d: Event, e: Event, f: Event)
    ensures Run(digest, s, [a, b, c, d, e, f])
         == Step(digest, Step(digest, Step(digest, Step(digest, Step(digest, Step(digest, s, a), b), c), d), e), f)
  {
    hide Step;
    RunOne(digest, s, [], a);
    RunOne(digest, s, [a], b);
    RunOne(digest, s, [a, b], c);
    RunOne(digest, s, [a, b, c], d);
    RunOne(digest, s, [a, b, c, d], e);
    RunOne(digest, s, [a, b, c, d, e], f);
    assert [] + [a] == [a] && [a] + [b] == [a, b] && [a, b] + [c] == [a, b, c] && [a, b, c] + [d] == [a, b, c, d];
    assert [a, b, c, d] + [e] == [a, b, c, d, e] && [a, b, c, d, e] + [f] == [a, b, c, d, e, f];
  }

  // ----- Renames during a flush ------------------------------------------------------------------------

  function At(remote: map<string, string>, p: string): Option<string> {
    if p in remote then Some(remote[p]) else None
  }

  function AddedAt(before: Option<string>, items: seq<Item>, results: seq<Uploaded>, p: string): Option<string>
    requires |items| == |results|
  {
    if items == [] then before
    else
      var n := |items| - 1;
      if items[n].path == p && !Unchanged(items[n], results[n]) then Some(results[n].hash)
      else AddedAt(before, items[..n], results[..n], p)
  }

  /** The content that a batch leaves at a path: nothing where it deletes, what it adds there, and otherwise
      what was there before. */
  function BatchAt(remote: map<string, string>, items: seq<Item>, results: seq<Uploaded>, p: string): Option<string>
    requires |items| == |results|
  {
    if p in DeletedPaths(items, results) then None else AddedAt(At(remote, p), items, results, p)
  }

  lemma {:induction false} AddsAt(remote: map<string, string>, items: seq<Item>, results: seq<Uploaded>, p: string)
    requires |items| == |results|
    ensures At(ApplyOps(remote, Adds(items, results)), p) == AddedAt(At(remote, p), items, results, p)
  {
    hide Adds, ApplyOps, Unchanged;
    if items == [] {
      NoAdds(remote);
    } else {
      var n := |items| - 1;
      AddOne(remote, items, results);
      AddsAt(remote, items[..n], results[..n], p);
      hide AddedAt;
      AddedMore(At(remote, p), items, results, p);
    }
  }

  lemma NoAdds(remote: map<string, string>)
    ensures ApplyOps(remote, Adds([], [])) == remote
  {
  }

  lemma AddedMore(before: Option<string>, items: seq<Item>, results: seq<Uploaded>, p: string)
    requires |items| == |results| && items != []
    ensures var n := |items| - 1;
            AddedAt(before, items, results, p)
              == if items[n].path == p && !Unchanged(items[n], results[n]) then Some(results[n].hash)
                 else AddedAt(before, items[..n], results[..n], p)
  {
  }

  /** At every path, whether the batch mentions it or not. */
  lemma BatchIs(remote: map<string, string>, items: seq<Item>, results: seq<Uploaded>, p: string)
    requires |items| == |results|
    ensures At(ApplyOps(remote, Ops(items, results)), p) == BatchAt(remote, items, results, p)
  {
    ApplyAppend(remote, Adds(items, results), Deletes(items, results));
    AddsAt(remote, items, results, p);
    DeletesRemove(ApplyOps(remote, Adds(items, results)), items, results);
    hide Adds, Deletes, ApplyOps, DeletedPaths, AddedAt, Unchanged;
  }

  /** Where the renames among `events` leave a file. */
  function PathAfter(path: string, ino: Ino, events: seq<Event>): string {
    if events == [] then path
    else
      var last := events[|events| - 1];
      if last.Rename? && last.ino == ino then last.path else PathAfter(path, ino, events[..|events| - 1])
  }

  predicate IsWait(phase: Phase, e: Event) {
    if phase.HubPending? then !e.HubAnswer? else phase.HubDone? && !e.ApplyCommits?
  }

  /** What an event on one inode does to its path and its generation. */
  lemma NodeStepAt(s: World, e: Event)
    requires !(e.StartFlush? || e.UploadChunk? || e.Decide? || e.HubAnswer? || e.ApplyCommits?)
    ensures var t := NodeStep(s, e);
            && t.phase == s.phase && t.remote == s.remote && t.nodes.Keys == s.nodes.Keys
            && (forall i :: i in s.nodes && i != e.ino ==> t.nodes[i] == s.nodes[i])
            && (e.ino in s.nodes ==>
                  && t.nodes[e.ino].path == (if e.Rename? then e.path else s.nodes[e.ino].path)
                  && var g, g' := s.nodes[e.ino].meta.dirtyGeneration, t.nodes[e.ino].meta.dirtyGeneration;
                     g' == g || g' == if g < U64_MAX then g + 1 else U64_MAX)
  {
  }

  lemma WaitStep(digest: Content -> string, s: World, e: Event)
    requires IsWait(s.phase, e) && GenerationsUpTo(s, U64_MAX)
    ensures var t := Step(digest, s, e);
            && t.phase == s.phase && t.remote == s.remote && t.nodes.Keys == s.nodes.Keys
            && GenerationsUpTo(t, U64_MAX)
            && (forall i :: i in s.nodes ==>
                  && t.nodes[i].meta.dirtyGeneration >= s.nodes[i].meta.dirtyGeneration
                  && t.nodes[i].path == if e.Rename? && e.ino == i then e.path else s.nodes[i].path)
  {
    hide NodeStep, Applied, Ops, ApplyOps, Snapshot, Deduped, UploadResults, NextChunk;
    if !(e.StartFlush? || e.UploadChunk? || e.Decide? || e.HubAnswer? || e.ApplyCommits?) { NodeStepAt(s, e); }
  }

  /** While the Hub has not answered, and again until the commits are applied, the batch waits as it is. */
  lemma {:induction false} BatchWaits(digest: Content -> string, s: World, events: seq<Event>)
    requires GenerationsUpTo(s, U64_MAX) && forall e :: e in events ==> IsWait(s.phase, e)
    requires s.phase.HubPending? || s.phase.HubDone?
    ensures var t := Run(digest, s, events);
            && t.phase == s.phase && t.remote == s.remote && t.nodes.Keys == s.nodes.Keys
            && GenerationsUpTo(t, U64_MAX)
            && (forall i :: i in s.nodes ==>
                  && t.nodes[i].meta.dirtyGeneration >= s.nodes[i].meta.dirtyGeneration
                  && t.nodes[i].path == PathAfter(s.nodes[i].path, i, events))
  {
    hide Step, GenerationsUpTo;
    if events != [] {
      var front, e := events[..|events| - 1], events[|events| - 1];
      BatchWaits(digest, s, front);
      WaitStep(digest, Run(digest, s, front), e);
    }
  }

  lemma {:induction false} RunAppend(digest: Content -> string, s: World, a: seq<Event>, b: seq<Event>)
    ensures Run(digest, s, a + b) == Run(digest, Run(digest, s, a), b)
  {
    hide Step;
    if b == [] {
      assert a + b == a;
    } else {
      assert (a + b)[..|a + b| - 1] == a + b[..|b| - 1];
      RunAppend(digest, s, a, b[..|b| - 1]);
    }
  }

  lemma {:induction false} PathAfterAppend(path: string, ino: Ino, a: seq<Event>, b: seq<Event>)
    ensures PathAfter(path, ino, a + b) == PathAfter(PathAfter(path, ino, a), ino, b)
  {
    if b == [] {
      assert a + b == a;
    } else {
      assert (a + b)[..|a + b| - 1] == a + b[..|b| - 1];
      PathAfterAppend(path, ino, a, b[..|b| - 1]);
    }
  }

  /** From a sent batch to just before its commits are applied. */
  function UntilApply(before: seq<Event>, after: seq<Event>): seq<Event> {
    before + [HubAnswer(true)] + after
  }

  lemma CommittedWorld(digest: Content -> string, s: World, before: seq<Event>, after: seq<Event>)
    requires s.phase.HubPending? && |s.phase.results| == |s.phase.items| && GenerationsUpTo(s, U64_MAX)
    requires (forall e :: e in before ==> !e.HubAnswer?) && (forall e :: e in after ==> !e.ApplyCommits?)
    ensures var w := Run(digest, s, UntilApply(before, after));
            && w.phase == HubDone(s.phase.items, s.phase.results) && w.nodes.Keys == s.nodes.Keys
            && w.remote == ApplyOps(s.remote, Ops(s.phase.items, s.phase.results))
            && (forall i :: i in s.nodes ==>
                  && w.nodes[i].meta.dirtyGeneration >= s.nodes[i].meta.dirtyGeneration
                  && w.nodes[i].path == PathAfter(s.nodes[i].path, i, before + after))
  {
    BatchWaits(digest, s, before);
    var u := Run(digest, s, before);
    var v := Step(digest, u, HubAnswer(true));
    assert v == u.(phase := HubDone(s.phase.items, s.phase.results),
                   remote := ApplyOps(s.remote, Ops(s.phase.items, s.phase.results)));
    RunOne(digest, s, before, HubAnswer(true));
    hide Step, ApplyOps, Ops, Run, PathAfter;
    BatchWaits(digest, v, after);
    RunAppend(digest, s, before + [HubAnswer(true)], after);
    forall i | i in s.nodes
      ensures PathAfter(s.nodes[i].path, i, before + after) == PathAfter(u.nodes[i].path, i, after)
    {
      PathAfterAppend(s.nodes[i].path, i, before, after);
    }
  }

  /** A batch has been sent; anything may happen until the Hub accepts it, and again until the commits are
      applied.  A file that was marked dirty meanwhile stays dirty with all its pending deletes.  Any other file
      is declared clean and no flush will take it up again, and the remote has its content at its path exactly
      when the file has kept its path and no pending delete of the batch names it, or when it has been renamed
      to a path where the batch leaves the same content anyway.  If it has been renamed, its content stays
      behind under the old path. */
  lemma CommitPublishesIff(digest: Content -> string, s: World, before: seq<Event>, after: seq<Event>, now: int,
                           k: nat)
    requires Inv(digest, s) && GenerationsUpTo(s, U64_MAX) && s.phase.HubPending?
    requires k < |s.phase.items| && k < |s.phase.results| && s.phase.items[k].ino in s.nodes
    requires s.phase.items[k].pendingDeletes != [] || s.phase.items[k].prevHash != Some(s.phase.results[k].hash)
    requires forall i, j :: 0 <= i < j < |s.phase.items| ==> s.phase.items[i].path != s.phase.items[j].path
    requires (forall e :: e in before ==> !e.HubAnswer?) && (forall e :: e in after ==> !e.ApplyCommits?)
    ensures var items, results := s.phase.items, s.phase.results;
            var i, hash := items[k].ino, results[k].hash;
            var w := Run(digest, s, UntilApply(before, after));
            var t := Run(digest, s, UntilApply(before, after) + [ApplyCommits(now)]);
            && i in w.nodes && i in t.nodes && t.phase.Idle?
            && t.nodes[i].path == PathAfter(s.nodes[i].path, i, before + after)
            && (w.nodes[i].meta.dirtyGeneration != items[k].generation ==>
                  t.nodes[i].meta.IsDirty() && t.nodes[i].meta == w.nodes[i].meta.(mtime := now))
            && (w.nodes[i].meta.dirtyGeneration == items[k].generation ==>
                  && !Flushable(t.nodes, i) && !t.nodes[i].meta.IsDirty()
                  && t.nodes[i].meta.pendingDeletes == [] && t.nodes[i].meta.xetHash == Some(hash)
                  && t.nodes[i].meta.size == results[k].size && t.nodes[i].meta.stagingIsCurrent
                  && (At(t.remote, t.nodes[i].path) == Some(hash)
                      <==> if t.nodes[i].path == items[k].path then items[k].path !in DeletedPaths(items, results)
                           else BatchAt(s.remote, items, results, t.nodes[i].path) == Some(hash))
                  && (items[k].path !in DeletedPaths(items, results) ==> At(t.remote, items[k].path) == Some(hash)))
  {
    var items, results := s.phase.items, s.phase.results;
    var i := items[k].ino;
    assert ItemOk(digest, s, items[k], Some(results[k]));
    assert |items| == |results| && Pending(s.phase, k) ==> !Unchanged(items[k], results[k]);
    hide Inv, Step, Run, Applied, ApplyOps, Ops, DeletedPaths, BatchAt, PathAfter, Unchanged, GenerationsUpTo,
         UntilApply;
    CommittedWorld(digest, s, before, after);
    var w := Run(digest, s, UntilApply(before, after));
    RunOne(digest, s, UntilApply(before, after), ApplyCommits(now));
    CommitsApplied(digest, w, now);
    AppliedAt(w.nodes, items, results, true, now, i);
    BatchIs(s.remote, items, results, PathAfter(s.nodes[i].path, i, before + after));
    BatchPublishes(s.remote, items, results, k);
  }

  lemma CommitsApplied(digest: Content -> string, w: World, now: int)
    requires w.phase.HubDone? && |w.phase.results| == |w.phase.items|
    ensures Step(digest, w, ApplyCommits(now))
         == w.(nodes := Applied(w.nodes, w.phase.items, w.phase.results, true, now), phase := Idle)
  {
    hide Applied;
  }

  lemma RenameStep(digest: Content -> string, s: World, n: Node, t: World)
    requires Ino(2) in s.nodes && s.nodes[Ino(2)] == n && n.meta.IsDirty() && n.meta.xetHash.Some?
    requires n.path == "a" && n.meta.pendingDeletes == []
    requires t == s.(nodes := s.nodes[Ino(2) := n.(path := "b", meta := n.meta.(pendingDeletes := ["a"]))])
    ensures Step(digest, s, Rename(Ino(2), "b")) == t
  {
    assert [] + ["a"] == ["a"];
  }

  /** A rename of a dirty file does not move its generation.  When it falls between the snapshot and the
      commit, the file ends up clean under a path the remote does not have, and the delete of its old path
      is forgotten. */
  lemma RenameDuringFlushIsForgotten(digest: Content -> string, content: Content)
    returns (s: World, events: seq<Event>)
    requires digest(content) != "before"
    ensures s == OneFile(Node("a", true, content, 0, FileMeta(|content|, 0, Some("before"), true, None, 1, [])),
                         map["a" := "before"])
    ensures Inv(digest, s)
    ensures var t := Run(digest, s, events);
            && t.phase.Idle? && t.nodes.Keys == {Ino(2)} && t.nodes[Ino(2)].path == "b"
            && !t.nodes[Ino(2)].meta.IsDirty() && t.nodes[Ino(2)].meta.pendingDeletes == []
            && t.remote == map["a" := digest(content)]
  {
    var n := Node("a", true, content, 0, FileMeta(|content|, 0, Some("before"), true, None, 1, []));
    s := OneFile(n, map["a" := "before"]);
    var item, u := ItemOf(s.nodes, Ino(2)), Uploaded(digest(content), |content|);
    var s2 := s.(phase := Uploading([item], [u]));
    var w := s2.(nodes := s2.nodes[Ino(2) := n.(path := "b", meta := n.meta.(pendingDeletes := ["a"]))]);
    var idle := Unlink(Ino(9));
    RenameStep(digest, s2, n, w);
    assert Step(digest, w, idle) == w;
    hide Step;
    FlushAround(digest, n, map["a" := "before"], Rename(Ino(2), "b"), idle, w);
    events := Around(digest, n, Rename(Ino(2), "b"), idle);
  }
}
