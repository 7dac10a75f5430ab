/** The queue of remote deletes: every queued path is accounted for until it is committed or cancelled. */
module DeleteQueues {
  import opened Options

  /** A batch sent to the Hub and not yet answered. */
  datatype Batch = Batch(id: nat, paths: seq<string>)

  ghost function PathsOf(batches: seq<Batch>): multiset<string> {
    if batches == [] then multiset{} else PathsOf(batches[..|batches| - 1]) + multiset(batches[|batches| - 1].paths)
  }

  ghost function SizeOf(batches: seq<Batch>): nat {
    if batches == [] then 0 else SizeOf(batches[..|batches| - 1]) + |batches[|batches| - 1].paths|
  }

  lemma LastBatch(batches: seq<Batch>)
    requires batches != []
    ensures var n := |batches| - 1;
            && PathsOf(batches) == PathsOf(batches[..n]) + multiset(batches[n].paths)
            && SizeOf(batches) == SizeOf(batches[..n]) + |batches[n].paths|
  {
  }

  lemma {:induction false} WithoutOne(batches: seq<Batch>, k: nat)
    requires k < |batches|
    ensures PathsOf(batches) == PathsOf(batches[..k] + batches[k + 1..]) + multiset(batches[k].paths)
    ensures SizeOf(batches) == SizeOf(batches[..k] + batches[k + 1..]) + |batches[k].paths|
  {
    hide PathsOf, SizeOf;
    var n := |batches| - 1;
    if k == n {
      LastBatch(batches);
      assert batches[..k] + batches[k + 1..] == batches[..n];
    } else {
      WithoutOne(batches[..n], k);
      var rest := batches[..k] + batches[k + 1..];
      assert rest[..|rest| - 1] == batches[..n][..k] + batches[..n][k + 1..];
      assert rest[|rest| - 1] == batches[n];
      LastBatch(rest);
      LastBatch(batches);
    }
  }

  function OtherThan(path: string): string -> bool {
    (p: string) => p != path
  }

  function NotUnder(prefix: string): string -> bool {
    (p: string) => !(prefix <= p)
  }

  /** The paths that are kept, in their order. */
  function Kept(paths: seq<string>, keep: string -> bool): seq<string> {
    if paths == [] then []
    else Kept(paths[..|paths| - 1], keep) + (if keep(paths[|paths| - 1]) then [paths[|paths| - 1]] else [])
  }

  lemma {:induction false} KeptSplits(paths: seq<string>, keep: string -> bool)
    ensures multiset(Kept(paths, keep)) + multiset(Kept(paths, p => !keep(p))) == multiset(paths)
    ensures forall p :: p in Kept(paths, keep) <==> p in paths && keep(p)
  {
    if paths != [] {
      var front, last := paths[..|paths| - 1], paths[|paths| - 1];
      KeptSplits(front, keep);
      assert paths == front + [last];
    }
  }

  /** Every occurrence in `whole` is in exactly one of the four places. */
  ghost predicate Balanced(whole: multiset<string>, queued: multiset<string>, live: multiset<string>,
                           committed: multiset<string>, cancelled: multiset<string>) {
    forall p :: whole[p] == queued[p] + live[p] + committed[p] + cancelled[p]
  }

  lemma Move(whole: multiset<string>, q: multiset<string>, b: multiset<string>, l: multiset<string>,
        c: multiset<string>,
             x: multiset<string>)
    ensures Balanced(whole, q + b, l, c, x) <==> Balanced(whole, q, l, c, x + b)
    ensures Balanced(whole, q + b, l, c, x) <==> Balanced(whole, q, l + b, c, x)
    ensures Balanced(whole, q, l + b, c, x) <==> Balanced(whole, q, l, c + b, x)
    ensures Balanced(whole, q, l, c, x) ==> Balanced(whole + b, q + b, l, c, x)
  {
  }

  /** The account of a queue. */
  ghost predicate Accounted(whole: multiset<string>, queued: seq<string>, live: seq<Batch>, committed: multiset<string>,
                            cancelled: multiset<string>) {
    Balanced(whole, multiset(queued), PathsOf(live), committed, cancelled)
  }

  lemma Enqueued(whole: multiset<string>, queued: seq<string>, live: seq<Batch>, c: multiset<string>,
        x: multiset<string>, p: string)
    requires Accounted(whole, queued, live, c, x)
    ensures Accounted(whole + multiset{p}, queued + [p], live, c, x)
  {
    assert multiset(queued + [p]) == multiset(queued) + multiset{p};
    hide Balanced;
    Move(whole, multiset(queued), multiset{p}, PathsOf(live), c, x);
  }

  lemma Revoked(whole: multiset<string>, queued: seq<string>, live: seq<Batch>, c: multiset<string>,
        x: multiset<string>,
                keep: string -> bool)
    requires Accounted(whole, queued, live, c, x)
    ensures Accounted(whole, Kept(queued, keep), live, c, x + multiset(Kept(queued, p => !keep(p))))
  {
    KeptSplits(queued, keep);
    hide Balanced, Kept;
    Move(whole, multiset(Kept(queued, keep)), multiset(Kept(queued, p => !keep(p))), PathsOf(live), c, x);
  }

  lemma Taken(whole: multiset<string>, live: seq<Batch>, c: multiset<string>, x: multiset<string>, b: Batch)
    requires Accounted(whole, b.paths, live, c, x)
    ensures Accounted(whole, [], live + [b], c, x) && SizeOf(live + [b]) == SizeOf(live) + |b.paths|
  {
    assert (live + [b])[..|live|] == live;
  }

  lemma Ended(whole: multiset<string>, queued: seq<string>, live: seq<Batch>, c: multiset<string>,
        x: multiset<string>, k: nat)
    requires k < |live| && Accounted(whole, queued, live, c, x)
    ensures Accounted(whole, queued + live[k].paths, live[..k] + live[k + 1..], c, x)
    ensures Accounted(whole, queued, live[..k] + live[k + 1..], c + multiset(live[k].paths), x)
    ensures SizeOf(live) == SizeOf(live[..k] + live[k + 1..]) + |live[k].paths|
  {
    WithoutOne(live, k);
    assert multiset(queued + live[k].paths) == multiset(queued) + multiset(live[k].paths);
    hide Balanced, PathsOf;
    Move(whole, multiset(queued), multiset(live[k].paths), PathsOf(live[..k] + live[k + 1..]), c, x);
  }

  lemma BalancedSizes(whole: multiset<string>, q: multiset<string>, l: multiset<string>, c: multiset<string>,
        x: multiset<string>)
    requires Balanced(whole, q, l, c, x)
    ensures |whole| == |q| + |l| + |c| + |x|
  {
    assert whole == q + l + c + x;
  }

  class DeleteQueue {
    var queued: seq<string>
    var inFlight: nat
    var nextBatch: nat
    ghost var live: seq<Batch>
    ghost var enqueued: multiset<string>
    ghost var committed: multiset<string>
    ghost var cancelled: multiset<string>

    /** Every enqueued occurrence is in exactly one place, and the counter is the size of the live batches. */
    ghost predicate Valid()
      reads this
    {
      && Accounted(enqueued, queued, live, committed, cancelled)
      && inFlight == SizeOf(live)
      && (forall k :: 0 <= k < |live| ==> live[k].id < nextBatch)
      && (forall j, k :: 0 <= j < k < |live| ==> live[j].id != live[k].id)
    }

    constructor ()
      ensures Valid() && queued == [] && live == [] && enqueued == multiset{}
    {
      queued, inFlight, nextBatch, live := [], 0, 0, [];
      enqueued, committed, cancelled := multiset{}, multiset{}, multiset{};
    }

    method Enqueue(path: string)
      requires Valid()
      modifies this`queued, this`enqueued
      ensures Valid() && queued == old(queued) + [path] && enqueued == old(enqueued) + multiset{path}
    {
      hide Accounted;
      Enqueued(enqueued, queued, live, committed, cancelled, path);
      queued := queued + [path];
      enqueued := enqueued + multiset{path};
    }

    /** Revokes queued deletes; a delete that is in flight is out of reach. */
    method Retain(keep: string -> bool)
      requires Valid()
      modifies this`queued, this`cancelled
      ensures Valid() && queued == Kept(old(queued), keep)
      ensures cancelled == old(cancelled) + multiset(Kept(old(queued), p => !keep(p)))
    {
      hide Accounted;
      var r := [];
      for k := 0 to |queued|
        invariant r == Kept(queued[..k], keep)
      {
        assert queued[..k + 1][..k] == queued[..k];
        if keep(queued[k]) { r := r + [queued[k]]; }
      }
      assert queued[..|queued|] == queued;
      hide Kept;
      Revoked(enqueued, queued, live, committed, cancelled, keep);
      cancelled := cancelled + multiset(Kept(queued, p => !keep(p)));
      queued := r;
    }

    method CancelDelete(path: string)
      requires Valid()
      modifies this`queued, this`cancelled
      ensures Valid() && queued == Kept(old(queued), OtherThan(path))
      ensures forall p :: p in queued <==> p in old(queued) && p != path
      ensures forall p :: p in cancelled <==> p in old(cancelled) || (p == path && p in old(queued))
    {
      var keep := OtherThan(path);
      KeptSplits(queued, keep);
      KeptSplits(queued, p => !keep(p));
      ghost var dropped := Kept(queued, p => !keep(p));
      assert forall p :: p in multiset(dropped) <==> p in dropped;
      Retain(keep);
    }

    method CancelDeletePrefix(prefix: string)
      requires Valid()
      modifies this`queued, this`cancelled
      ensures Valid() && queued == Kept(old(queued), NotUnder(prefix))
      ensures forall p :: p in queued <==> p in old(queued) && !(prefix <= p)
      ensures forall p :: p in cancelled <==> p in old(cancelled) || (prefix <= p && p in old(queued))
    {
      var keep := NotUnder(prefix);
      KeptSplits(queued, keep);
      KeptSplits(queued, p => !keep(p));
      ghost var dropped := Kept(queued, p => !keep(p));
      assert forall p :: p in multiset(dropped) <==> p in dropped;
      Retain(keep);
    }

    /** Moves the whole queue into one batch; nothing to do when it is empty. */
    method TakeBatch() returns (batch: Option<Batch>)
      requires Valid()
      modifies this`queued, this`inFlight, this`nextBatch, this`live
      ensures Valid() && queued == []
      ensures old(queued) == [] ==> batch == None && live == old(live)
      ensures old(queued) != [] ==>
        batch.Some? && batch.value.paths == old(queued) && live == old(live) + [batch.value]
    {
      hide Accounted, SizeOf;
      if queued == [] { return None; }
      var b := Batch(nextBatch, queued);
      Taken(enqueued, live, committed, cancelled, b);
      inFlight := inFlight + |queued|;
      queued := [];
      nextBatch := nextBatch + 1;
      live := live + [b];
      batch := Some(b);
    }

    /** The batch ends: committed by the Hub, or dropped by an error or an abandoned shutdown, in which case
        its paths are queued again.  The counter cannot underflow. */
    method EndBatch(batch: Batch, isCommitted: bool, ghost k: nat)
      requires Valid() && k < |live| && live[k] == batch
      modifies this`queued, this`inFlight, this`live, this`committed
      ensures Valid() && live == old(live)[..k] + old(live)[k + 1..]
      ensures queued == if isCommitted then old(queued) else old(queued) + batch.paths
      ensures committed == if isCommitted then old(committed) + multiset(batch.paths) else old(committed)
    {
      hide Accounted, SizeOf;
      Ended(enqueued, queued, live, committed, cancelled, k);
      inFlight := inFlight - |batch.paths|;
      if isCommitted {
        committed := committed + multiset(batch.paths);
      } else {
        queued := queued + batch.paths;
      }
      live := live[..k] + live[k + 1..];
    }

    /** What status and unmount report: the deletes that are neither committed nor cancelled. */
    method PendingCount() returns (n: nat)
      requires Valid()
      ensures n + |committed| + |cancelled| == |enqueued|
    {
      SizeIsCount(live);
      BalancedSizes(enqueued, multiset(queued), PathsOf(live), committed, cancelled);
      assert |multiset(queued)| == |queued|;
      n := |queued| + inFlight;
    }

    /** One flush: with or without an answer, no path disappears. */
    method FlushPendingDeletes(answered: bool)
      requires Valid()
      modifies this
      ensures Valid() && enqueued == old(enqueued) && cancelled == old(cancelled) && live == old(live)
      ensures committed == if answered then old(committed) + multiset(old(queued)) else old(committed)
      ensures queued == if answered then [] else old(queued)
    {
      hide Accounted, SizeOf;
      var batch := TakeBatch();
      if batch.Some? {
        ghost var k := |live| - 1;
        EndBatch(batch.value, answered, k);
      }
    }
  }

  lemma {:induction false} SizeIsCount(batches: seq<Batch>)
    ensures |PathsOf(batches)| == SizeOf(batches)
  {
    if batches != [] {
      SizeIsCount(batches[..|batches| - 1]);
    }
  }
}
