/** The pool of open file handles behind the stateless protocol: least-recently-used eviction with pins. */
module HandlePooling {
  import opened Options
  import opened Iteration

  type Ino = nat

  datatype Handle = Handle(number: nat)

  datatype HandleEntry = HandleEntry(fileHandle: Handle, pinCount: nat)

  datatype Evicted = Evicted(ino: Ino, fileHandle: Handle)

  const HANDLE_POOL_CAPACITY: nat := 64

  function Without(order: seq<Ino>, ino: Ino): seq<Ino> {
    if order == [] then []
    else if order[0] == ino then order[1..]
    else [order[0]] + Without(order[1..], ino)
  }

  lemma {:induction false} WithoutFacts(order: seq<Ino>, ino: Ino)
    requires Distinct(order)
    ensures Distinct(Without(order, ino)) && SetOf(Without(order, ino)) == SetOf(order) - {ino}
    ensures ino !in order ==> Without(order, ino) == order
  {
    if order != [] {
      var rest := order[1..];
      assert order == [order[0]] + rest;
      assert order[0] !in rest by { FirstIsAlone(order); }
      WithoutFacts(rest, ino);
      assert SetOf(order) == {order[0]} + SetOf(rest);
      if order[0] != ino {
        var kept := Without(rest, ino);
        assert order[0] !in kept by { assert order[0] !in SetOf(kept); }
        assert SetOf([order[0]] + kept) == {order[0]} + SetOf(kept);
      }
    }
  }

  lemma FirstIsAlone(order: seq<Ino>)
    requires Distinct(order) && order != []
    ensures order[0] !in order[1..] && Distinct(order[1..]) && SetOf(order[1..]) == SetOf(order) - {order[0]}
  {
    assert order == [order[0]] + order[1..];
  }

  /** The access order lists every inode of the pool once. */
  ghost predicate OrderOk(handles: map<Ino, HandleEntry>, order: seq<Ino>) {
    Distinct(order) && SetOf(order) == handles.Keys
  }

  /** Each inserted handle is either in the pool, for one inode, or has left, once. */
  ghost predicate HandlesOk(handles: map<Ino, HandleEntry>, inserted: set<Handle>, left: seq<Handle>) {
    && Distinct(left)
    && (forall i :: i in handles ==> handles[i].fileHandle in inserted && handles[i].fileHandle !in left)
    && (forall i, j :: i in handles && j in handles && i != j ==> handles[i].fileHandle != handles[j].fileHandle)
    && (forall h :: h in left ==> h in inserted)
    && (forall h :: h in inserted ==> h in left || InPool(handles, h))
  }

  ghost predicate InPool(handles: map<Ino, HandleEntry>, h: Handle) {
    exists i :: i in handles && handles[i].fileHandle == h
  }

  ghost function Count(readers: map<Ino, nat>, i: Ino): nat {
    if i in readers then readers[i] else 0
  }

  /** Each pin is an operation under way, unless the entry was taken away under one. */
  ghost predicate PinsOk(handles: map<Ino, HandleEntry>, readers: map<Ino, nat>, disturbed: set<Ino>) {
    forall i :: i !in disturbed ==> Count(readers, i) == if i in handles then handles[i].pinCount else 0
  }

  /** The oldest handles, none of them in use, in the order in which they leave. */
  ghost predicate AreOldest(handles: map<Ino, HandleEntry>, order: seq<Ino>, evicted: seq<Evicted>) {
    && |evicted| <= |order|
    && forall k :: 0 <= k < |evicted| ==>
         && order[k] in handles && handles[order[k]].pinCount == 0
         && evicted[k] == Evicted(order[k], handles[order[k]].fileHandle)
  }

  ghost predicate Fewer(handles: map<Ino, HandleEntry>, now: map<Ino, HandleEntry>) {
    forall i :: i in now ==> i in handles && now[i] == handles[i]
  }

  lemma FrontLeaves(handles: map<Ino, HandleEntry>, order: seq<Ino>)
    requires OrderOk(handles, order)
    ensures order == [] ==> |handles| == 0
    ensures order != [] ==>
      order[0] in handles && OrderOk(handles - {order[0]}, order[1..]) && |handles - {order[0]}| == |handles| - 1
  {
    if order == [] {
      EmptyOrder(handles, order);
    } else {
      FirstIsAlone(order);
      assert order[0] in SetOf(order);
      RemovedOne(handles, order[0]);
    }
  }

  lemma BackEnters(handles: map<Ino, HandleEntry>, order: seq<Ino>, ino: Ino, e: HandleEntry)
    requires OrderOk(handles, order) && ino !in handles
    ensures OrderOk(handles[ino := e], order + [ino]) && |handles[ino := e]| == |handles| + 1
  {
    AddedOne(handles, ino, e);
    AppendNew(order, ino);
  }

  lemma OneMoreOldest(handles: map<Ino, HandleEntry>, order: seq<Ino>, evicted: seq<Evicted>,
        now: map<Ino, HandleEntry>)
    requires AreOldest(handles, order, evicted) && |evicted| < |order| && Fewer(handles, now)
    requires order[|evicted|] in now && now[order[|evicted|]].pinCount == 0
    ensures var lru := order[|evicted|];
            && AreOldest(handles, order, evicted + [Evicted(lru, now[lru].fileHandle)])
            && order[|evicted|..][0] == lru && order[|evicted|..][1..] == order[|evicted| + 1..]
            && Fewer(handles, now - {lru})
  {
  }

  lemma OldestOfFewer(was: map<Ino, HandleEntry>, ino: Ino, order: seq<Ino>, evicted: seq<Evicted>,
        now: map<Ino, HandleEntry>,
                      e: HandleEntry)
    requires AreOldest(was - {ino}, order, evicted) && Fewer(was - {ino}, now)
    ensures AreOldest(was, order, evicted) && ino !in now
    ensures Fewer(was, now[ino := e] - {ino})
  {
  }

  lemma NoneYet(handles: map<Ino, HandleEntry>, order: seq<Ino>)
    ensures AreOldest(handles, order, []) && Fewer(handles, handles) && order[0..] == order
  {
  }

  lemma SameHandles(was: map<Ino, HandleEntry>, now: map<Ino, HandleEntry>, inserted: set<Handle>, left: seq<Handle>)
    requires HandlesOk(was, inserted, left)
    requires now.Keys == was.Keys && forall i :: i in was ==> now[i].fileHandle == was[i].fileHandle
    ensures HandlesOk(now, inserted, left)
  {
    forall h | InPool(was, h) ensures InPool(now, h) {
      var i :| i in was && was[i].fileHandle == h;
      assert now[i].fileHandle == h;
    }
  }

  lemma Repinned(was: map<Ino, HandleEntry>, readers: map<Ino, nat>, disturbed: set<Ino>, ino: Ino, e: HandleEntry,
        n: nat)
    requires PinsOk(was, readers, disturbed)
    requires ino in disturbed || (ino in was && e.pinCount == n)
    ensures ino in was ==> PinsOk(was[ino := e], readers[ino := n], disturbed)
    ensures ino !in was ==> PinsOk(was, readers[ino := n], disturbed)
  {
  }

  /** A handle that leaves, leaves for good. */
  lemma Leaves(was: map<Ino, HandleEntry>, inserted: set<Handle>, left: seq<Handle>, ino: Ino)
    requires HandlesOk(was, inserted, left) && ino in was
    ensures HandlesOk(was - {ino}, inserted, left + [was[ino].fileHandle])
  {
    var now, h := was - {ino}, was[ino].fileHandle;
    assert forall g :: g in left + [h] <==> g in left || g == h;
    forall g | InPool(was, g) && g != h ensures InPool(now, g) {
      var i :| i in was && was[i].fileHandle == g;
      assert i in now && now[i].fileHandle == g;
    }
  }

  lemma LeavesUnpinned(was: map<Ino, HandleEntry>, readers: map<Ino, nat>, disturbed: set<Ino>, ino: Ino)
    requires PinsOk(was, readers, disturbed) && ino in was
    ensures PinsOk(was - {ino}, readers, if was[ino].pinCount > 0 then disturbed + {ino} else disturbed)
  {
  }

  lemma Enters(was: map<Ino, HandleEntry>, inserted: set<Handle>, left: seq<Handle>, ino: Ino, h: Handle)
    requires HandlesOk(was, inserted, left) && ino !in was && h !in inserted
    ensures HandlesOk(was[ino := HandleEntry(h, 0)], inserted + {h}, left)
  {
    var now := was[ino := HandleEntry(h, 0)];
    assert now[ino].fileHandle == h;
    forall g | InPool(was, g) ensures InPool(now, g) {
      var i :| i in was && was[i].fileHandle == g;
      assert i in now && now[i].fileHandle == g;
    }
  }

  lemma EntersUnpinned(was: map<Ino, HandleEntry>, readers: map<Ino, nat>, disturbed: set<Ino>, ino: Ino, h: Handle)
    requires PinsOk(was, readers, disturbed) && ino !in was
    ensures PinsOk(was[ino := HandleEntry(h, 0)], readers, disturbed)
  {
  }

  lemma PinMore(was: map<Ino, HandleEntry>, readers: map<Ino, nat>, disturbed: set<Ino>, ino: Ino)
    requires PinsOk(was, readers, disturbed) && ino in was
    ensures PinsOk(was[ino := was[ino].(pinCount := was[ino].pinCount + 1)], readers[ino := Count(readers, ino) + 1],
      disturbed)
  {
  }

  /** Operations remain only on inodes in the pool, unless their entry was taken away. */
  lemma ReaderIsPinned(handles: map<Ino, HandleEntry>, readers: map<Ino, nat>, disturbed: set<Ino>, ino: Ino)
    requires PinsOk(handles, readers, disturbed) && Count(readers, ino) > 0
    ensures ino in disturbed || (ino in handles && handles[ino].pinCount == Count(readers, ino))
  {
  }

  class HandlePool {
    var handles: map<Ino, HandleEntry>
    var order: seq<Ino>
    /** Every handle that was ever inserted, and those that have left, in the order they left. */
    ghost var inserted: set<Handle>
    ghost var left: seq<Handle>
    /** The operations under way on each inode, and the inodes whose entry was taken away under one. */
    ghost var readers: map<Ino, nat>
    ghost var disturbed: set<Ino>

    ghost predicate Valid()
      reads this
    {
      OrderOk(handles, order) && HandlesOk(handles, inserted, left) && PinsOk(handles, readers, disturbed)
    }

    constructor ()
      ensures Valid() && handles == map[] && order == []
    {
      handles, order := map[], [];
      inserted, left, readers, disturbed := {}, [], map[], {};
    }

    /** One more operation on the inode; the access order stays. */
    method Pin(ino: Ino) returns (r: Option<Handle>)
      requires Valid()
      modifies this`handles, this`readers
      ensures Valid()
      ensures r.Some? <==> ino in old(handles)
      ensures r.Some? ==>
        && r.value == old(handles)[ino].fileHandle
        && handles == old(handles)[ino := HandleEntry(r.value, old(handles)[ino].pinCount + 1)]
        && Count(readers, ino) == Count(old(readers), ino) + 1
      ensures r.None? ==> handles == old(handles) && readers == old(readers)
    {
      hide HandlesOk, PinsOk;
      if ino !in handles { return None; }
      var entry := handles[ino];
      var pinned := entry.(pinCount := entry.pinCount + 1);
      PinMore(handles, readers, disturbed, ino);
      SameHandles(handles, handles[ino := pinned], inserted, left);
      assert handles[ino := pinned].Keys == handles.Keys;
      handles := handles[ino := pinned];
      readers := readers[ino := Count(readers, ino) + 1];
      r := Some(entry.fileHandle);
    }

    /** An operation ends.  As long as the entry was not taken away under it, exactly its own pin goes. */
    method Unpin(ino: Ino)
      requires Valid() && Count(readers, ino) > 0
      modifies this`handles, this`readers
      ensures Valid() && Count(readers, ino) == Count(old(readers), ino) - 1
      ensures handles.Keys == old(handles.Keys)
      ensures ino in handles && ino !in disturbed ==> handles[ino].pinCount == old(handles)[ino].pinCount - 1
      ensures forall i :: i in handles && i != ino ==> handles[i] == old(handles)[i]
    {
      hide HandlesOk, PinsOk;
      ghost var n: nat := Count(readers, ino) - 1;
      ReaderIsPinned(handles, readers, disturbed, ino);
      if ino in handles {
        var entry := handles[ino];
        var unpinned := entry.(pinCount := if entry.pinCount == 0 then 0 else entry.pinCount - 1);
        Repinned(handles, readers, disturbed, ino, unpinned, n);
        SameHandles(handles, handles[ino := unpinned], inserted, left);
        assert handles[ino := unpinned].Keys == handles.Keys;
        handles := handles[ino := unpinned];
      } else {
        Repinned(handles, readers, disturbed, ino, HandleEntry(Handle(0), 0), n);
      }
      readers := readers[ino := n];
    }

    method OrderRemove(ino: Ino)
      modifies this`order
      ensures order == Without(old(order), ino)
    {
      var k := 0;
      while k < |order| && order[k] != ino
        invariant 0 <= k <= |order| && order == old(order)
        invariant Without(order, ino) == order[..k] + Without(order[k..], ino)
      {
        assert order[k..][0] == order[k] && order[k..][1..] == order[k + 1..];
        k := k + 1;
      }
      if k < |order| {
        assert order[k..][0] == ino && order[k..][1..] == order[k + 1..];
        order := order[..k] + order[k + 1..];
      } else {
        assert order[k..] == [];
      }
    }

    /** Pins the handle and makes the inode the most recently used. */
    method AcquireShared(ino: Ino) returns (r: Option<Handle>)
      requires Valid()
      modifies this`handles, this`readers, this`order
      ensures Valid()
      ensures r.Some? <==> ino in old(handles)
      ensures r.Some? ==> ino in handles
      ensures r.Some? ==>
        && r.value == old(handles)[ino].fileHandle
            && handles[ino] == HandleEntry(r.value, old(handles)[ino].pinCount + 1)
        && order == Without(old(order), ino) + [ino]
        && forall i :: i in handles && i != ino ==> i in old(handles) && handles[i] == old(handles)[i]
      ensures r.None? ==> handles == old(handles) && order == old(order)
    {
      hide HandlesOk, PinsOk;
      var handle := Pin(ino);
      if handle.None? { return None; }
      WithoutFacts(order, ino);
      assert ino in SetOf(order);
      if order[|order| - 1] == ino {
        WithoutLast(order);
      } else {
        OrderRemove(ino);
        AppendNew(order, ino);
        order := order + [ino];
      }
      r := handle;
    }

    // ----- leaving the pool -------------------------------------------------------------------

    method Remove(ino: Ino) returns (r: Option<Handle>)
      requires Valid()
      modifies this`handles, this`order, this`left, this`disturbed
      ensures Valid() && handles == old(handles) - {ino}
      ensures r == if ino in old(handles) then Some(old(handles)[ino].fileHandle) else None
      ensures left == if r.Some? then old(left) + [r.value] else old(left)
      ensures disturbed == if ino in old(handles) && old(handles)[ino].pinCount > 0 then old(disturbed) + {ino}
        else old(disturbed)
      ensures order == Without(old(order), ino)
    {
      hide HandlesOk, PinsOk;
      WithoutFacts(order, ino);
      if ino !in handles {
        SameMap(handles - {ino}, handles);
        assert ino !in SetOf(order);
        return None;
      }
      var entry := handles[ino];
      Leaves(handles, inserted, left, ino);
      LeavesUnpinned(handles, readers, disturbed, ino);
      handles := handles - {ino};
      left := left + [entry.fileHandle];
      disturbed := if entry.pinCount > 0 then disturbed + {ino} else disturbed;
      OrderRemove(ino);
      r := Some(entry.fileHandle);
    }

    /** Inserts a new handle.  Another handle of the same inode is replaced; then the oldest handles leave, one
        after the other, until there is room or the oldest one is in use. */
    method Insert(ino: Ino, fileHandle: Handle) returns (evicted: seq<Evicted>, replaced: Option<Handle>)
      requires Valid() && fileHandle !in inserted
      modifies this
      ensures Valid()
      ensures replaced == if ino in old(handles) then Some(old(handles)[ino].fileHandle) else None
      ensures AreOldest(old(handles), Without(old(order), ino), evicted)
      ensures order == Without(old(order), ino)[|evicted|..] + [ino]
      ensures left == old(left) + (if replaced.Some? then [replaced.value] else []) + HandlesOf(evicted)
      ensures ino in handles && handles[ino] == HandleEntry(fileHandle, 0)
      ensures Fewer(old(handles), handles - {ino})
      ensures |handles| <= HANDLE_POOL_CAPACITY || (order[0] in handles && handles[order[0]].pinCount > 0)
      ensures evicted != [] ==> |handles| >= HANDLE_POOL_CAPACITY
    {
      hide HandlesOk, PinsOk, OrderOk, AreOldest, Fewer;
      ghost var was := handles;
      replaced := Remove(ino);
      ghost var rest := order;
      evicted := EvictOldest();
      OldestOfFewer(was, ino, rest, evicted, handles, HandleEntry(fileHandle, 0));
      BackEnters(handles, order, ino, HandleEntry(fileHandle, 0));
      Enters(handles, inserted, left, ino, fileHandle);
      EntersUnpinned(handles, readers, disturbed, ino, fileHandle);
      ghost var oldest := order;
      handles := handles[ino := HandleEntry(fileHandle, 0)];
      order := order + [ino];
      inserted := inserted + {fileHandle};
      assert oldest != [] ==> order[0] == oldest[0];
    }

    /** Evicts from the front of the access order until there is room or the oldest handle is in use. */
    method EvictOldest() returns (evicted: seq<Evicted>)
      requires Valid()
      modifies this`handles, this`order, this`left
      ensures Valid() && AreOldest(old(handles), old(order), evicted) && Fewer(old(handles), handles)
      ensures order == old(order)[|evicted|..]
      ensures left == old(left) + HandlesOf(evicted)
      ensures |handles| < HANDLE_POOL_CAPACITY || (order != [] && order[0] in handles && handles[order[0]].pinCount > 0)
      ensures evicted != [] ==> |handles| >= HANDLE_POOL_CAPACITY - 1
    {
      hide HandlesOk, PinsOk, OrderOk, AreOldest, Fewer;
      evicted := [];
      NoneYet(handles, order);
      while |handles| >= HANDLE_POOL_CAPACITY
        invariant Valid()
        invariant AreOldest(old(handles), old(order), evicted) && Fewer(old(handles), handles)
        invariant |evicted| <= |old(order)| && order == old(order)[|evicted|..]
        invariant left == old(left) + HandlesOf(evicted)
        invariant evicted != [] ==> |handles| >= HANDLE_POOL_CAPACITY - 1
        decreases |order|
      {
        FrontLeaves(handles, order);
        var lru := order[0];
        if handles[lru].pinCount != 0 { break; }
        OneMoreOldest(old(handles), old(order), evicted, handles);
        Leaves(handles, inserted, left, lru);
        LeavesUnpinned(handles, readers, disturbed, lru);
        var entry := handles[lru];
        HandlesOfMore(evicted, Evicted(lru, entry.fileHandle));
        order := order[1..];
        handles := handles - {lru};
        left := left + [entry.fileHandle];
        evicted := evicted + [Evicted(lru, entry.fileHandle)];
      }
    }

    /** Empties the pool: every entry once, in any order. */
    method Drain() returns (all: seq<Evicted>)
      requires Valid()
      modifies this
      ensures Valid() && handles == map[] && order == []
      ensures forall i :: i in old(handles) ==> Evicted(i, old(handles)[i].fileHandle) in all
      ensures left == old(left) + HandlesOf(all) && |all| == |old(order)|
    {
      hide HandlesOk, PinsOk;
      all := [];
      assert order[0..] == order;
      while order != []
        invariant Valid() && inserted == old(inserted)
        invariant left == old(left) + HandlesOf(all)
        invariant |all| + |order| == |old(order)|
        invariant forall i :: i in handles ==> i in old(handles) && handles[i] == old(handles)[i]
        invariant forall i :: i in old(handles) && i !in handles ==> Evicted(i, old(handles)[i].fileHandle) in all
        decreases |order|
      {
        var ino := order[0];
        assert ino in SetOf(order);
        WithoutFacts(order, ino);
        ghost var e := Evicted(ino, handles[ino].fileHandle);
        var h := Remove(ino);
        HandlesOfMore(all, e);
        assert forall x :: x in all + [e] <==> x in all || x == e;
        all := all + [Evicted(ino, h.value)];
      }
      assert handles.Keys == {};
    }
  }

  function HandlesOf(evicted: seq<Evicted>): seq<Handle> {
    if evicted == [] then [] else HandlesOf(evicted[..|evicted| - 1]) + [evicted[|evicted| - 1].fileHandle]
  }

  lemma HandlesOfMore(evicted: seq<Evicted>, e: Evicted)
    ensures HandlesOf(evicted + [e]) == HandlesOf(evicted) + [e.fileHandle]
  {
    assert (evicted + [e])[..|evicted|] == evicted;
  }

  lemma AppendNew(order: seq<Ino>, ino: Ino)
    requires Distinct(order) && ino !in SetOf(order)
    ensures Distinct(order + [ino]) && SetOf(order + [ino]) == SetOf(order) + {ino}
  {
    assert forall k :: 0 <= k < |order| ==> order[k] in SetOf(order);
  }

  lemma {:induction false} WithoutLast(order: seq<Ino>)
    requires Distinct(order) && order != []
    ensures Without(order, order[|order| - 1]) + [order[|order| - 1]] == order
  {
    if |order| > 1 {
      FirstIsAlone(order);
      WithoutLast(order[1..]);
    }
  }

  lemma RemovedOne(handles: map<Ino, HandleEntry>, ino: Ino)
    requires ino in handles
    ensures |handles - {ino}| == |handles| - 1
  {
    assert (handles - {ino}).Keys == handles.Keys - {ino};
  }

  lemma AddedOne(handles: map<Ino, HandleEntry>, ino: Ino, e: HandleEntry)
    requires ino !in handles
    ensures |handles[ino := e]| == |handles| + 1
  {
    assert handles[ino := e].Keys == handles.Keys + {ino};
  }

  lemma EmptyOrder(handles: map<Ino, HandleEntry>, order: seq<Ino>)
    requires SetOf(order) == handles.Keys
    ensures order == [] ==> |handles| == 0
  {
    assert order == [] ==> handles.Keys == {};
  }
}
