/** Choosing eviction candidates: the oldest files of the table, with a bounded heap. */
module InodeLru {
  import opened Options
  import opened Iteration
  import opened InodeModel

  predicate IsCandidate(e: Entry) {
    e.kind.File? && e.nlink > 0 && !e.IsDirty() && e.meta.pendingDeletes == [] && !e.IsOpen()
  }

  /** The heap's order: by time of the last touch, and by number within one tick. */
  predicate Older(inodes: map<Ino, Entry>, a: Ino, b: Ino)
    requires a in inodes && b in inodes
  {
    var s, t := inodes[a].eviction.lastTouched, inodes[b].eviction.lastTouched;
    s < t || (s == t && a.number <= b.number)
  }

  /** A heap is known by its content; `HeapPop` removes the newest, so the newest is kept at the end. */
  ghost predicate HeapOk(inodes: map<Ino, Entry>, heap: seq<Ino>) {
    && Distinct(heap)
    && (forall k :: 0 <= k < |heap| ==> heap[k] in inodes)
    && (forall j, k :: 0 <= j < k < |heap| ==> Older(inodes, heap[j], heap[k]))
  }

  method HeapPush(inodes: map<Ino, Entry>, heap: seq<Ino>, x: Ino) returns (r: seq<Ino>)
    requires HeapOk(inodes, heap) && x in inodes && x !in heap
    ensures HeapOk(inodes, r) && |r| == |heap| + 1 && forall i :: i in r <==> i in heap || i == x
  {
    var k := 0;
    while k < |heap| && Older(inodes, heap[k], x)
      invariant 0 <= k <= |heap|
      invariant forall j :: 0 <= j < k ==> Older(inodes, heap[j], x)
    {
      k := k + 1;
    }
    InsertedAt(heap, k, x);
    r := heap[..k] + [x] + heap[k..];
  }

  lemma InsertedAt(s: seq<Ino>, k: nat, x: Ino)
    requires k <= |s| && Distinct(s) && x !in s
    ensures Distinct(s[..k] + [x] + s[k..]) && forall i :: i in s[..k] + [x] + s[k..] <==> i in s || i == x
  {
    assert s == s[..k] + s[k..];
    assert forall j :: 0 <= j < |s| ==> s[j] in s;
    assert forall i :: i in s[..k] + [x] + s[k..] <==> i in s[..k] || i == x || i in s[k..];
  }

  /** What is in the heap is older than every candidate seen that is not. */
  ghost predicate KeepsOldest(inodes: map<Ino, Entry>, seen: set<Ino>, heap: seq<Ino>, most: nat) {
    && (forall i :: i in heap ==> i in seen && i in inodes && IsCandidate(inodes[i]))
    && |heap| <= most
    && (forall i :: i in seen && i in inodes && IsCandidate(inodes[i]) && i !in heap ==>
          |heap| == most && forall j :: j in heap && j in inodes ==> Older(inodes, j, i))
  }

  lemma PopKeepsOldest(inodes: map<Ino, Entry>, seen: set<Ino>, before: seq<Ino>, heap: seq<Ino>, x: Ino, most: nat)
    requires most > 0 && KeepsOldest(inodes, seen, before, most) && x in inodes && x !in seen && IsCandidate(inodes[x])
    requires HeapOk(inodes, heap) && |heap| == |before| + 1 && forall i :: i in heap <==> i in before || i == x
    ensures |heap| <= most ==> KeepsOldest(inodes, seen + {x}, heap, most)
    ensures |heap| > most ==>
      HeapOk(inodes, heap[..most]) && |heap| == most + 1 && KeepsOldest(inodes, seen + {x}, heap[..most], most)
  {
    if |heap| > most {
      var kept, newest := heap[..most], heap[most];
      assert heap == kept + [newest];
      assert newest in heap && newest !in kept;
      assert forall i :: i in heap <==> i in kept || i == newest;
      forall i, j | i in seen + {x} && i in inodes && IsCandidate(inodes[i]) && i !in kept && j in kept && j in inodes
        ensures Older(inodes, j, i)
      {
        var p :| 0 <= p < most && heap[p] == j;
        assert Older(inodes, j, newest);
        if i != newest {
          assert i !in before;
          if newest != x { assert Older(inodes, newest, i); }
        }
      }
    }
  }

  /** The content of the heap, in no particular order. */
  method IntoVec(heap: seq<Ino>) returns (v: seq<Ino>)
    requires Distinct(heap)
    ensures Distinct(v) && |v| == |heap| && forall i :: i in v <==> i in heap
  {
    v := heap;
  }

  /** Oldest first; within one tick the order is anybody's. */
  ghost predicate ByTick(inodes: map<Ino, Entry>, s: seq<Ino>) {
    && (forall k :: 0 <= k < |s| ==> s[k] in inodes)
    && (forall j, k :: 0 <= j < k < |s| ==>
          inodes[s[j]].eviction.lastTouched <= inodes[s[k]].eviction.lastTouched)
  }

  method SortByTick(inodes: map<Ino, Entry>, s: seq<Ino>) returns (r: seq<Ino>)
    requires Distinct(s) && forall k :: 0 <= k < |s| ==> s[k] in inodes
    ensures ByTick(inodes, r) && Distinct(r) && |r| == |s| && forall i :: i in r <==> i in s
  {
    r := [];
    WholePrefix(s);
    for n := 0 to |s|
      invariant ByTick(inodes, r) && Distinct(r) && |r| == n && forall i :: i in r <==> i in SetOf(s[..n])
    {
      PrefixGrows(s, n);
      r := InsertByTick(inodes, r, s[n]);
    }
  }

  method InsertByTick(inodes: map<Ino, Entry>, s: seq<Ino>, x: Ino) returns (r: seq<Ino>)
    requires ByTick(inodes, s) && Distinct(s) && x in inodes && x !in s
    ensures ByTick(inodes, r) && Distinct(r) && |r| == |s| + 1 && forall i :: i in r <==> i in s || i == x
  {
    var k := 0;
    while k < |s| && inodes[s[k]].eviction.lastTouched <= inodes[x].eviction.lastTouched
      invariant 0 <= k <= |s|
      invariant forall j :: 0 <= j < k ==> inodes[s[j]].eviction.lastTouched <= inodes[x].eviction.lastTouched
    {
      k := k + 1;
    }
    InsertedAt(s, k, x);
    r := s[..k] + [x] + s[k..];
  }

  /** The `most` oldest candidates, oldest first: every candidate that is left out is newer than all of them,
      by number within one tick, and one is left out only when the list is full. */
  method LruCandidates(inodes: map<Ino, Entry>, most: nat) returns (picks: seq<Ino>)
    ensures ByTick(inodes, picks) && Distinct(picks) && |picks| <= most
    ensures forall i :: i in picks ==>
      && i in inodes && inodes[i].kind.File? && inodes[i].nlink > 0 && inodes[i].meta.dirtyGeneration == 0
      && inodes[i].meta.pendingDeletes == [] && inodes[i].eviction.openHandles == 0
    ensures forall i, j ::
      (i in inodes && inodes[i].kind.File? && inodes[i].nlink > 0 && inodes[i].meta.dirtyGeneration == 0
       && inodes[i].meta.pendingDeletes == [] && inodes[i].eviction.openHandles == 0 && i !in picks) ==>
      && |picks| == most
      && (j in picks ==> inodes[j].eviction.lastTouched < inodes[i].eviction.lastTouched
                         || (inodes[j].eviction.lastTouched == inodes[i].eviction.lastTouched && j.number <= i.number))
  {
    if most == 0 { return []; }
    var heap := [];
    var order := Elements(inodes.Keys);
    WholePrefix(order);
    for k := 0 to |order|
      invariant HeapOk(inodes, heap) && KeepsOldest(inodes, SetOf(order[..k]), heap, most)
    {
      PrefixGrows(order, k);
      assert order[k] in SetOf(order);
      if IsCandidate(inodes[order[k]]) {
        var more := HeapPush(inodes, heap, order[k]);
        PopKeepsOldest(inodes, SetOf(order[..k]), heap, more, order[k], most);
        heap := if |more| > most then more[..most] else more;
      }
    }
    var v := IntoVec(heap);
    assert forall k :: 0 <= k < |v| ==> v[k] in v;
    picks := SortByTick(inodes, v);
  }
}
