/** The mount registry.  Each method is one lock region of the program; whatever runs between two regions
    of one request may interleave with any region of another. */
module MountRegistry {
  import opened Options
  import opened Iteration

  datatype MountState = Starting | Mounted | Stopping | Failed

  datatype Handle = Handle(number: nat)

  datatype Entry = Entry(id: nat, target: string, state: MountState, handle: Option<Handle>)

  datatype MountError = HostUnavailable | AlreadyMounted | TargetInUse

  datatype MountStart = Began(id: nat) | Rejected(error: MountError)

  datatype UnmountStart = NotMounted | RecordCleared | StillBusy | OpenForWriting | Stops(id: nat, handle: Handle)

  const MAX_FAILED_RECORDS: nat := 20

  /** Where a handle is, from its creation on. */
  datatype Place = InEntry(id: nat) | Taken | Unmounted | Dropped

  function Retain(entries: seq<Entry>, keep: Entry -> bool): seq<Entry> {
    if entries == [] then []
    else
      var last := entries[|entries| - 1];
      Retain(entries[..|entries| - 1], keep) + (if keep(last) then [last] else [])
  }

  function OtherTarget(target: string): Entry -> bool {
    (e: Entry) => e.target != target
  }

  function NotFailedAt(target: string): Entry -> bool {
    (e: Entry) => !(e.target == target && e.state.Failed?)
  }

  ghost predicate Apart(entries: seq<Entry>) {
    forall j, k :: 0 <= j < k < |entries| ==> entries[j].target != entries[k].target && entries[j].id != entries[k].id
  }

  lemma {:induction false} RetainMembers(entries: seq<Entry>, keep: Entry -> bool)
    ensures forall e :: e in Retain(entries, keep) <==> e in entries && keep(e)
    ensures |Retain(entries, keep)| <= |entries|
  {
    if entries != [] {
      var front, last := entries[..|entries| - 1], entries[|entries| - 1];
      RetainMembers(front, keep);
      assert forall e :: e in entries <==> e in front || e == last;
    }
  }

  lemma {:induction false} RetainFacts(entries: seq<Entry>, keep: Entry -> bool)
    requires Apart(entries)
    ensures forall e :: e in Retain(entries, keep) <==> e in entries && keep(e)
    ensures Apart(Retain(entries, keep))
  {
    RetainMembers(entries, keep);
    if entries != [] {
      var front, last := entries[..|entries| - 1], entries[|entries| - 1];
      RetainFacts(front, keep);
      var kept := Retain(front, keep);
      forall k | 0 <= k < |kept| ensures kept[k].target != last.target && kept[k].id != last.id {
        assert kept[k] in kept;
      }
    }
  }

  lemma SameEntry(entries: seq<Entry>, a: Entry, b: Entry)
    requires Apart(entries) && a in entries && b in entries && (a.target == b.target || a.id == b.id)
    ensures a == b
  {
  }

  method DropOldestFailed(entries: seq<Entry>, most: nat) returns (kept: seq<Entry>)
    ensures kept == DropFailed(entries, most)
  {
    var excess := most;
    kept := [];
    for k := 0 to |entries|
      invariant kept + DropFailed(entries[k..], excess) == DropFailed(entries, most)
    {
      assert entries[k..][0] == entries[k] && entries[k..][1..] == entries[k + 1..];
      if excess > 0 && entries[k].state == Failed {
        excess := excess - 1;
      } else {
        kept := kept + [entries[k]];
      }
    }
    assert entries[|entries|..] == [];
  }

  /** Position of the first entry for a target. */
  method FindTarget(entries: seq<Entry>, target: string) returns (pos: nat)
    ensures pos <= |entries|
    ensures pos < |entries| ==> entries[pos].target == target
    ensures forall k :: 0 <= k < pos ==> entries[k].target != target
  {
    pos := 0;
    while pos < |entries| && entries[pos].target != target
      invariant pos <= |entries|
      invariant forall k :: 0 <= k < pos ==> entries[k].target != target
    {
      pos := pos + 1;
    }
  }

  /** At most one entry per target; an entry holds a handle exactly when it is mounted; starting and stopping
      entries belong to exactly one request each; once cleared, the registry stays empty. */
  ghost predicate EntriesOk(entries: seq<Entry>, nextId: nat, mounting: map<nat, string>, stopping: map<nat, string>,
                            shutdown: bool, cleared: bool) {
    && Apart(entries)
    && (forall e :: e in entries ==> e.id < nextId && (e.handle.Some? <==> e.state.Mounted?))
    && (forall e :: e in entries ==>
        (e.state.Starting? <==> e.id in mounting) && (e.state.Stopping? <==> e.id in stopping))
    && (forall i :: i in mounting ==> i < nextId && (cleared || Entry(i, mounting[i], Starting, None) in entries))
    && (forall i :: i in stopping ==> i < nextId && (cleared || Entry(i, stopping[i], Stopping, None) in entries))
    && (cleared ==> shutdown && entries == [])
  }

  /** Every handle is in one place, and only unmounted once. */
  ghost predicate HandlesOk(entries: seq<Entry>, place: map<Handle, Place>, unmounts: seq<Handle>) {
    && (forall e :: e in entries && e.handle.Some? ==>
        e.handle.value in place && place[e.handle.value] == InEntry(e.id))
    && (forall h :: h in place && place[h].InEntry? ==> Holds(entries, place[h].id, h))
    && (forall h :: h in unmounts <==> h in place && place[h].Unmounted?)
    && Distinct(unmounts)
  }

  ghost predicate Holds(entries: seq<Entry>, id: nat, h: Handle) {
    exists e :: e in entries && e.id == id && e.handle == Some(h)
  }

  /** The entries `now` are `was` with one entry replaced, keeping its identity. */
  ghost predicate IsReplaced(was: seq<Entry>, x: Entry, y: Entry, now: seq<Entry>) {
    && Apart(now) && x in was && y.id == x.id && y.target == x.target
    && forall f :: f in now <==> f == y || (f in was && f != x)
  }

  lemma ReplacedHandles(was: seq<Entry>, x: Entry, y: Entry, now: seq<Entry>, place: map<Handle, Place>,
        unmounts: seq<Handle>)
    requires Apart(was) && IsReplaced(was, x, y, now) && HandlesOk(was, place, unmounts)
    ensures x.handle == None && y.handle == None ==> HandlesOk(now, place, unmounts)
    ensures x.handle == None && y.handle.Some? && y.handle.value !in place ==>
      HandlesOk(now, place[y.handle.value := InEntry(y.id)], unmounts)
    ensures x.handle.Some? && y.handle == None ==> HandlesOk(now, place[x.handle.value := Taken], unmounts)
  {
    forall h, i | Holds(was, i, h) && (x.handle == None || h != x.handle.value) ensures Holds(now, i, h) {
      var e :| e in was && e.id == i && e.handle == Some(h);
      assert e in now;
    }
    if y.handle.Some? { assert y in now && Holds(now, y.id, y.handle.value); }
  }

  /** Entries without a handle may go without anyone missing them. */
  lemma FewerHandles(was: seq<Entry>, now: seq<Entry>, place: map<Handle, Place>, unmounts: seq<Handle>)
    requires HandlesOk(was, place, unmounts)
    requires forall e :: e in now ==> e in was || e.handle == None
    requires forall e :: e in was && e.handle.Some? ==> e in now
    ensures HandlesOk(now, place, unmounts)
  {
    forall h, i | Holds(was, i, h) ensures Holds(now, i, h) {
      var e :| e in was && e.id == i && e.handle == Some(h);
      assert e in now;
    }
  }

  /** Adding an entry for a target whose only record is of a failed mount. */
  lemma Added(was: seq<Entry>, id: nat, target: string, now: seq<Entry>)
    requires Apart(was) && now == Retain(was, OtherTarget(target)) + [Entry(id, target, Starting, None)]
    requires forall e :: e in was ==> e.id < id
    ensures Apart(now)
    ensures forall e :: e in now <==> (e in was && e.target != target) || e == Entry(id, target, Starting, None)
  {
    var kept := Retain(was, OtherTarget(target));
    RetainFacts(was, OtherTarget(target));
    assert forall k :: 0 <= k < |kept| ==> kept[k] in kept;
    assert forall e :: e in now <==> e in kept || e == Entry(id, target, Starting, None);
  }

  /** During a teardown, a mounted entry is on the list or arrived after the listing. */
  ghost predicate TeardownOk(entries: seq<Entry>, remaining: Option<set<string>>, arrived: set<Handle>,
        shutdown: bool) {
    remaining.Some? ==>
      shutdown
      && forall e :: e in entries && e.handle.Some? ==> e.handle.value in arrived || e.target in remaining.value
  }

  lemma FreshTaken(entries: seq<Entry>, place: map<Handle, Place>, unmounts: seq<Handle>, h: Handle)
    requires HandlesOk(entries, place, unmounts) && h !in place
    ensures HandlesOk(entries, place[h := Taken], unmounts)
  {
  }

  function Targets(entries: seq<Entry>): seq<string> {
    if entries == [] then []
    else
      var last := entries[|entries| - 1];
      Targets(entries[..|entries| - 1]) + (if last.state.Mounted? then [last.target] else [])
  }

  lemma {:induction false} TargetsFacts(entries: seq<Entry>, p: string)
    ensures p in Targets(entries) <==> exists e :: e in entries && e.state.Mounted? && e.target == p
  {
    if entries != [] {
      var front, last := entries[..|entries| - 1], entries[|entries| - 1];
      TargetsFacts(front, p);
      assert forall e :: e in entries <==> e in front || e == last;
    }
  }

  // ----- failed records ----------------------------------------------------------------------

  function FailedCount(entries: seq<Entry>): nat {
    if entries == [] then 0 else (if entries[0].state.Failed? then 1 else 0) + FailedCount(entries[1..])
  }

  /** Without the first `n` failed records. */
  function DropFailed(entries: seq<Entry>, n: nat): seq<Entry> {
    if entries == [] then []
    else if n > 0 && entries[0].state.Failed? then DropFailed(entries[1..], n - 1)
    else [entries[0]] + DropFailed(entries[1..], n)
  }

  lemma {:induction false} DropFailedFacts(entries: seq<Entry>, n: nat)
    ensures FailedCount(DropFailed(entries, n)) == if FailedCount(entries) < n then 0 else FailedCount(entries) - n
    ensures forall e :: e in DropFailed(entries, n) ==> e in entries
    ensures forall e :: e in entries && !e.state.Failed? ==> e in DropFailed(entries, n)
  {
    if entries != [] {
      var rest := entries[1..];
      if n > 0 && entries[0].state.Failed? {
        DropFailedFacts(rest, n - 1);
      } else {
        DropFailedFacts(rest, n);
        assert DropFailed(entries, n)[1..] == DropFailed(rest, n);
      }
    }
  }

  /** The oldest records go: up to some entry all failed ones are dropped, and from there on none. */
  lemma {:induction false} DropFailedIsOldest(entries: seq<Entry>, n: nat)
    ensures exists k :: 0 <= k <= |entries|
                        && DropFailed(entries, n) == Retain(entries[..k], (e: Entry) => !e.state.Failed?) + entries[k..]
  {
    hide *;
    var keep := (e: Entry) => !e.state.Failed?;
    var k := OldestDropped(entries, n, keep);
    assert DropFailed(entries, n) == Retain(entries[..k], keep) + entries[k..];
  }

  lemma {:induction false} OldestDropped(entries: seq<Entry>, n: nat, keep: Entry -> bool) returns (k: nat)
    requires forall e :: keep(e) <==> !e.state.Failed?
    ensures k <= |entries| && DropFailed(entries, n) == Retain(entries[..k], keep) + entries[k..]
  {
    if n == 0 || entries == [] {
      DropNone(entries);
      k := 0;
      assert Retain(entries[..0], keep) == [] && [] + entries == entries;
    } else {
      k := OldestDropped(entries[1..], if entries[0].state.Failed? then n - 1 else n, keep);
      RetainPrefixCons(entries, k, keep);
      hide Retain;
      k := k + 1;
    }
  }

  lemma RetainPrefixCons(entries: seq<Entry>, k: nat, keep: Entry -> bool)
    requires k < |entries|
    ensures Retain(entries[..k + 1], keep) + entries[k + 1..]
            == (if keep(entries[0]) then [entries[0]] else []) + (Retain(entries[1..][..k], keep) + entries[1..][k..])
  {
    hide Retain;
    RetainCons(entries[0], entries[1..][..k], keep);
    assert entries[..k + 1] == [entries[0]] + entries[1..][..k];
    assert entries[k + 1..] == entries[1..][k..];
  }

  lemma {:induction false} RetainCons(e: Entry, rest: seq<Entry>, keep: Entry -> bool)
    ensures Retain([e] + rest, keep) == (if keep(e) then [e] else []) + Retain(rest, keep)
  {
    if rest == [] {
      assert [e] + rest == [e] && [e][..0] == [];
    } else {
      var n := |rest| - 1;
      assert ([e] + rest)[..n + 1] == [e] + rest[..n];
      RetainCons(e, rest[..n], keep);
    }
  }

  /** The count is that of the failed records. */
  lemma {:induction false} FailedCountIs(entries: seq<Entry>)
    ensures FailedCount(entries) == |Retain(entries, (e: Entry) => e.state.Failed?)|
  {
    if entries != [] {
      FailedCountIs(entries[1..]);
      assert entries == [entries[0]] + entries[1..];
      RetainCons(entries[0], entries[1..], (e: Entry) => e.state.Failed?);
    }
  }

  lemma {:induction false} DropFailedApart(entries: seq<Entry>, n: nat)
    requires Apart(entries)
    ensures Apart(DropFailed(entries, n))
  {
    if entries != [] {
      var rest := entries[1..];
      if n > 0 && entries[0].state.Failed? {
        DropFailedApart(rest, n - 1);
      } else {
        DropFailedApart(rest, n);
        DropFailedFacts(rest, n);
        var kept := DropFailed(rest, n);
        forall k | 0 <= k < |kept| ensures kept[k].target != entries[0].target && kept[k].id != entries[0].id {
          assert kept[k] in kept && kept[k] in rest;
        }
      }
    }
  }

  lemma {:induction false} DropNone(entries: seq<Entry>)
    ensures DropFailed(entries, 0) == entries
  {
    if entries != [] { DropNone(entries[1..]); }
  }

  /** The registry, with the requests that are between two of their lock regions. */
  datatype Snapshot = Snapshot(entries: seq<Entry>, shutdown: bool, nextId: nat, mounting: map<nat, string>,
                         stopping: map<nat, string>, place: map<Handle, Place>, unmounts: seq<Handle>, cleared: bool,
                         arrived: set<Handle>, remaining: Option<set<string>>)

  ghost predicate Ok(s: Snapshot) {
    && EntriesOk(s.entries, s.nextId, s.mounting, s.stopping, s.shutdown, s.cleared)
    && HandlesOk(s.entries, s.place, s.unmounts)
    && TeardownOk(s.entries, s.remaining, s.arrived, s.shutdown)
  }

  // ----- One lemma for each change of the entries -------------------------------------------------

  lemma Adds(s: Snapshot, target: string, now: seq<Entry>)
    requires Ok(s) && !s.shutdown &&
        now == Retain(s.entries, OtherTarget(target)) + [Entry(s.nextId, target, Starting, None)]
    requires forall e :: e in s.entries && e.target == target ==> e.state.Failed?
    ensures Ok(s.(entries := now, nextId := s.nextId + 1, mounting := s.mounting[s.nextId := target]))
  {
    Added(s.entries, s.nextId, target, now);
    hide HandlesOk, Retain, Apart;
    FewerHandles(s.entries, now, s.place, s.unmounts);
    AddsEntries(s.entries, s.nextId, s.mounting, s.stopping, s.cleared, target, now);
    hide EntriesOk;
  }

  lemma AddsEntries(entries: seq<Entry>, nextId: nat, mounting: map<nat, string>, stopping: map<nat, string>,
        cleared: bool,
                    target: string, now: seq<Entry>)
    requires EntriesOk(entries, nextId, mounting, stopping, false, cleared) && Apart(now)
    requires forall e :: e in entries && e.target == target ==> e.state.Failed?
    requires forall e ::
      e in now <==> (e in entries && e.target != target) || e == Entry(nextId, target, Starting, None)
    ensures EntriesOk(now, nextId + 1, mounting[nextId := target], stopping, false, cleared)
  {
  }

  lemma Arrives(s: Snapshot, id: nat, result: Option<Handle>, now: seq<Entry>)
    requires Ok(s) && id in s.mounting && (result.Some? ==> result.value !in s.place)
    requires IsReplaced(s.entries, Entry(id, s.mounting[id], Starting, None),
                        Entry(id, s.mounting[id], if result.Some? then Mounted else Failed, result), now)
    ensures var t := s.(entries := now, mounting := s.mounting - {id});
            Ok(if result.Some? then t.(place := s.place[result.value := InEntry(id)],
                arrived := s.arrived + {result.value}) else t)
  {
    var x, y := Entry(id, s.mounting[id], Starting, None),
                Entry(id, s.mounting[id], if result.Some? then Mounted else Failed, result);
    ReplacedHandles(s.entries, x, y, now, s.place, s.unmounts);
    ArrivesEntries(s.entries, s.nextId, s.mounting, s.stopping, s.shutdown, s.cleared, id, y, now);
    hide HandlesOk, EntriesOk, Apart;
  }

  lemma ArrivesEntries(entries: seq<Entry>, nextId: nat, mounting: map<nat, string>, stopping: map<nat, string>,
        shutdown: bool,
                       cleared: bool, id: nat, y: Entry, now: seq<Entry>)
    requires EntriesOk(entries, nextId, mounting, stopping, shutdown, cleared) && id in mounting
    requires y.id == id && y.target == mounting[id] && (y.state.Mounted? || y.state.Failed?)
        && (y.handle.Some? <==> y.state.Mounted?)
    requires IsReplaced(entries, Entry(id, mounting[id], Starting, None), y, now)
    ensures EntriesOk(now, nextId, mounting - {id}, stopping, shutdown, cleared)
  {
  }

  lemma ArrivesLate(s: Snapshot, id: nat, result: Option<Handle>)
    requires Ok(s) && id in s.mounting && (result.Some? ==> result.value !in s.place)
    requires forall e :: e in s.entries ==> e.id != id
    ensures s.cleared
    ensures Ok(s.(mounting := s.mounting - {id}, place := if result.Some? then s.place[result.value := Taken]
      else s.place))
  {
    if result.Some? { FreshTaken(s.entries, s.place, s.unmounts, result.value); }
    hide HandlesOk;
  }

  lemma BeginsToStop(s: Snapshot, x: Entry, now: seq<Entry>)
    requires Ok(s) && x in s.entries && x.state.Mounted? && x.handle.Some?
    requires IsReplaced(s.entries, x, x.(state := Stopping, handle := None), now)
    ensures x.id !in s.stopping
    ensures Ok(s.(entries := now, stopping := s.stopping[x.id := x.target], place := s.place[x.handle.value := Taken]))
  {
    ReplacedHandles(s.entries, x, x.(state := Stopping, handle := None), now, s.place, s.unmounts);
    hide HandlesOk;
  }

  lemma Fails(s: Snapshot, x: Entry, now: seq<Entry>)
    requires Ok(s) && x in s.entries && x.state.Mounted? && x.handle.Some?
    requires IsReplaced(s.entries, x, x.(state := Failed, handle := None), now)
    ensures Ok(s.(entries := now, place := s.place[x.handle.value := Taken]))
  {
    ReplacedHandles(s.entries, x, x.(state := Failed, handle := None), now, s.place, s.unmounts);
    hide HandlesOk;
  }

  lemma Forgets(s: Snapshot, now: seq<Entry>)
    requires Ok(s) && Apart(now) && (forall e :: e in now ==> e in s.entries)
    requires forall e :: e in s.entries && !e.state.Failed? ==> e in now
    ensures Ok(s.(entries := now))
  {
    FewerHandles(s.entries, now, s.place, s.unmounts);
    hide HandlesOk;
    assert now == [] || now[0] in now;
  }

  lemma Stopped(s: Snapshot, id: nat, now: seq<Entry>)
    requires Ok(s) && id in s.stopping && now == Retain(s.entries, OtherTarget(s.stopping[id]))
    ensures forall e :: e in now <==> e in s.entries && e.id != id
    ensures s.cleared ==> now == s.entries
    ensures Ok(s.(entries := now, stopping := s.stopping - {id}))
  {
    RetainFacts(s.entries, OtherTarget(s.stopping[id]));
    if !s.cleared {
      var own := Entry(id, s.stopping[id], Stopping, None);
      forall e | e in s.entries && (e.target == own.target || e.id == id) ensures e == own {
        SameEntry(s.entries, e, own);
      }
    }
    FewerHandles(s.entries, now, s.place, s.unmounts);
    hide HandlesOk;
  }

  lemma UnmountedIsLogged(s: Snapshot)
    requires Ok(s)
    ensures forall h :: h in s.unmounts <==> h in s.place && s.place[h].Unmounted?
  {
  }

  lemma OkIsApart(s: Snapshot)
    requires Ok(s)
    ensures Apart(s.entries)
  {
  }

  lemma FoundIsLive(s: Snapshot, e: Entry)
    requires Ok(s) && e in s.entries
    ensures !s.cleared && Apart(s.entries)
  {
  }

  function AfterLoss(e: Entry, gone: set<Handle>): Entry {
    if e.handle.Some? && e.handle.value in gone then e.(state := Failed, handle := None) else e
  }

  /** The one entry for a target is in the state its position says. */
  lemma EntryFacts(s: Snapshot, e: Entry)
    requires Ok(s) && e in s.entries
    ensures e.handle.Some? <==> e.state.Mounted?
    ensures forall f :: f in s.entries && (f.target == e.target || f.id == e.id) ==> f == e
    ensures e.id in s.mounting ==> e == Entry(e.id, s.mounting[e.id], Starting, None)
  {
    if e.id in s.mounting && !s.cleared { SameEntry(s.entries, e, Entry(e.id, s.mounting[e.id], Starting, None)); }
  }

  class Registry {
    var entries: seq<Entry>
    var shutdown: bool
    var nextId: nat
    /** Requests between their lock regions: mounts by entry id, unmounts by entry id, both with their target. */
    ghost var mounting: map<nat, string>
    ghost var stopping: map<nat, string>
    ghost var place: map<Handle, Place>
    ghost var unmounts: seq<Handle>
    ghost var cleared: bool
    /** Handles that arrived since `unmount_all` listed its targets. */
    ghost var arrived: set<Handle>
    /** The listed targets that the teardown has not come to yet. */
    ghost var remaining: Option<set<string>>

    ghost function State(): Snapshot
      reads this
    {
      Snapshot(entries, shutdown, nextId, mounting, stopping, place, unmounts, cleared, arrived, remaining)
    }

    ghost predicate Valid()
      reads this
    {
      Ok(State())
    }

    constructor ()
      ensures Valid() && entries == [] && !shutdown
    {
      entries, shutdown, nextId := [], false, 0;
      mounting, stopping, place, unmounts, cleared, arrived := map[], map[], map[], [], false, {};
      remaining := None;
    }

    method RequestShutdown()
      requires Valid()
      modifies this`shutdown
      ensures Valid() && shutdown
    {
      shutdown := true;
    }

    method RetainEntries(keep: Entry -> bool)
      modifies this`entries
      ensures entries == Retain(old(entries), keep)
    {
      var r := [];
      for k := 0 to |entries|
        invariant r == Retain(entries[..k], keep)
        invariant entries == old(entries)
      {
        assert entries[..k + 1][..k] == entries[..k];
        if keep(entries[k]) { r := r + [entries[k]]; }
      }
      assert entries[..|entries|] == entries;
      entries := r;
    }

    // ----- mount -------------------------------------------------------------------------

    /** First region of a mount.  No entry is added once shutdown was requested. */
    method BeginMount(target: string, available: bool) returns (r: MountStart)
      requires Valid()
      modifies this`entries, this`nextId, this`mounting
      ensures Valid()
      ensures r.Began? <==> !shutdown && available && forall e :: e in old(entries) && e.target == target ==>
        e.state.Failed?
      ensures r.Rejected? ==> entries == old(entries) && mounting == old(mounting)
      ensures shutdown ==> r == Rejected(HostUnavailable)
      ensures r == Rejected(TargetInUse) ==> !available
      ensures r == Rejected(AlreadyMounted) <==>
        !shutdown && exists e :: e in old(entries) && e.target == target && !e.state.Failed?
      ensures r.Began? ==>
        && r.id == old(nextId) && mounting == old(mounting)[r.id := target]
        && entries == Retain(old(entries), OtherTarget(target)) + [Entry(r.id, target, Starting, None)]
    {
      hide Ok;
      if shutdown { return Rejected(HostUnavailable); }
      var pos := FindTarget(entries, target);
      if pos < |entries| { EntryFacts(State(), entries[pos]); }
      if pos < |entries| && entries[pos].state != Failed {
        assert entries[pos] in entries;
        return Rejected(AlreadyMounted);
      }
      if !available { return Rejected(TargetInUse); }
      ghost var s := State();
      RetainEntries(OtherTarget(target));
      var id := nextId;
      nextId := nextId + 1;
      entries := entries + [Entry(id, target, Starting, None)];
      mounting := mounting[id := target];
      Adds(s, target, entries);
      r := Began(id);
    }

    method FindId(id: nat) returns (pos: nat)
      ensures pos <= |entries|
      ensures pos < |entries| ==> entries[pos].id == id
      ensures pos == |entries| ==> forall e :: e in entries ==> e.id != id
    {
      pos := 0;
      while pos < |entries| && entries[pos].id != id
        invariant pos <= |entries|
        invariant forall k :: 0 <= k < pos ==> entries[k].id != id
      {
        pos := pos + 1;
      }
    }

    /** Second region of a mount.  A handle that comes too late is given back to be unmounted. */
    method FinishMount(id: nat, result: Option<Handle>) returns (orphan: Option<Handle>)
      requires Valid() && id in mounting && (result.Some? ==> result.value !in place)
      modifies this`entries, this`mounting, this`place, this`arrived
      ensures Valid() && mounting == old(mounting) - {id}
      ensures orphan == if old(cleared) then result else None
      ensures cleared ==> entries == old(entries) && place == if result.Some? then old(place)[result.value := Taken]
        else old(place)
      ensures !cleared ==>
        var started, done := Entry(id, old(mounting)[id], Starting, None),
                             Entry(id, old(mounting)[id], if result.Some? then Mounted else Failed, result);
        && |entries| == |old(entries)|
        && (forall k :: 0 <= k < |entries| ==> entries[k] == if old(entries)[k] == started then done
            else old(entries)[k])
        && done in entries
        && place == if result.Some? then old(place)[result.value := InEntry(id)] else old(place)
      ensures arrived == if result.Some? && !cleared then old(arrived) + {result.value} else old(arrived)
    {
      hide Ok;
      orphan := None;
      var pos := FindId(id);
      if pos == |entries| {
        ArrivesLate(State(), id, result);
        orphan := result;
        mounting := mounting - {id};
        if result.Some? { place := place[result.value := Taken]; }
        return;
      }
      var e := entries[pos];
      EntryFacts(State(), e);
      FoundIsLive(State(), e);
      var done := e.(state := if result.Some? then Mounted else Failed, handle := result);
      Replaced(entries, pos, done);
      Arrives(State(), id, result, entries[pos := done]);
      entries := entries[pos := done];
      mounting := mounting - {id};
      if result.Some? {
        place := place[result.value := InEntry(id)];
        arrived := arrived + {result.value};
      }
    }

    // ----- unmount -----------------------------------------------------------------------

    /** First region of an unmount: decides, and takes the handle out of a mounted entry. */
    method BeginUnmount(target: string, force: bool, openWriters: nat) returns (r: UnmountStart)
      requires Valid()
      modifies this`entries, this`stopping, this`place
      ensures Valid()
      ensures r.NotMounted? <==> forall e :: e in old(entries) ==> e.target != target
      ensures r.RecordCleared? ==> exists e :: e in old(entries) && e.target == target && e.state.Failed?
                                               && (forall f :: f in entries <==> f in old(entries) && f != e)
      ensures r.StillBusy? ==> exists e ::
        e in old(entries) && e.target == target && (e.state.Starting? || e.state.Stopping?)
      ensures r.OpenForWriting? ==> openWriters > 0 && !force
      ensures r.NotMounted? || r.StillBusy? || r.OpenForWriting? ==> entries == old(entries)
      ensures !r.Stops? ==> stopping == old(stopping) && place == old(place)
      ensures r.Stops? ==>
        var was, now := Entry(r.id, target, Mounted, Some(r.handle)), Entry(r.id, target, Stopping, None);
        && was in old(entries) && (force || openWriters == 0)
        && (forall f :: f in entries <==> (f in old(entries) && f != was) || f == now)
        && stopping == old(stopping)[r.id := target] && r.id !in old(stopping)
        && place == old(place)[r.handle := Taken]
      ensures r.Stops? || r.OpenForWriting? || forall e :: e in entries ==> e.target != target || !e.state.Mounted?
    {
      hide Ok;
      var pos := FindTarget(entries, target);
      if pos == |entries| { return NotMounted; }
      var e := entries[pos];
      EntryFacts(State(), e);
      OkIsApart(State());
      match e.state
      case Failed =>
        RemovedOne(entries, pos);
        Forgets(State(), entries[..pos] + entries[pos + 1..]);
        entries := entries[..pos] + entries[pos + 1..];
        r := RecordCleared;
      case Starting => r := StillBusy;
      case Stopping => r := StillBusy;
      case Mounted =>
        if openWriters > 0 && !force { return OpenForWriting; }
        var stops := e.(state := Stopping, handle := None);
        Replaced(entries, pos, stops);
        BeginsToStop(State(), e, entries[pos := stops]);
        entries := entries[pos := stops];
        stopping := stopping[e.id := target];
        place := place[e.handle.value := Taken];
        r := Stops(e.id, e.handle.value);
    }

    /** Between the regions: the volume is unmounted, outside the lock.  A handle is never unmounted twice. */
    ghost method UnmountHandle(h: Handle)
      requires Valid() && h in place && place[h].Taken?
      modifies this`place, this`unmounts
      ensures Valid() && place == old(place)[h := Unmounted] && unmounts == old(unmounts) + [h]
    {
      place := place[h := Unmounted];
      assert forall g :: g in unmounts + [h] <==> g in unmounts || g == h;
      unmounts := unmounts + [h];
    }

    /** Second region of an unmount.  The cleanup goes by target, and removes exactly the entry of this request. */
    method FinishUnmount(id: nat, target: string)
      requires Valid() && id in stopping && stopping[id] == target
      modifies this`entries, this`stopping
      ensures Valid() && stopping == old(stopping) - {id}
      ensures forall e :: e in entries <==> e in old(entries) && e.id != id
      ensures cleared ==> entries == old(entries)
    {
      hide Ok;
      ghost var s := State();
      RetainEntries(OtherTarget(target));
      stopping := stopping - {id};
      Stopped(s, id, entries);
    }

    // ----- failed mounts ------------------------------------------------------------------

    /** Clears the record of a failed mount. */
    method Dismiss(target: string) returns (dismissed: bool)
      requires Valid()
      modifies this`entries
      ensures Valid()
      ensures forall e :: e in entries <==> e in old(entries) && !(e.target == target && e.state.Failed?)
      ensures dismissed <==> exists e :: e in old(entries) && e.target == target && e.state.Failed?
    {
      hide Ok;
      OkIsApart(State());
      ghost var s := State();
      var before := entries;
      var keep := NotFailedAt(target);
      RetainFacts(entries, keep);
      RetainAll(entries, keep);
      RetainEntries(keep);
      Forgets(s, entries);
      dismissed := |entries| != |before|;
    }

    /** Keeps the newest records of failed mounts; mounts that have not failed are not touched. */
    method PruneFailed()
      requires Valid()
      modifies this`entries
      ensures Valid() && FailedCount(entries) <= MAX_FAILED_RECORDS
      ensures entries == if FailedCount(old(entries)) <= MAX_FAILED_RECORDS then old(entries)
                         else DropFailed(old(entries), FailedCount(old(entries)) - MAX_FAILED_RECORDS)
    {
      hide Ok;
      OkIsApart(State());
      var failed := CountFailed();
      var excess: nat := if failed > MAX_FAILED_RECORDS then failed - MAX_FAILED_RECORDS else 0;
      var kept := DropOldestFailed(entries, excess);
      DropFailedFacts(entries, excess);
      DropFailedApart(entries, excess);
      DropNone(entries);
      Forgets(State(), kept);
      entries := kept;
    }

    method CountFailed() returns (n: nat)
      ensures n == FailedCount(entries)
    {
      n := 0;
      for k := 0 to |entries|
        invariant n + FailedCount(entries[k..]) == FailedCount(entries)
      {
        assert entries[k..][0] == entries[k] && entries[k..][1..] == entries[k + 1..];
        if entries[k].state == Failed { n := n + 1; }
      }
      assert entries[|entries|..] == [];
    }

    // ----- health --------------------------------------------------------------------------

    /** Mounts whose volume is gone fail; their handles are taken, to be unmounted outside the lock. */
    method FailLost(gone: set<Handle>) returns (lost: seq<Handle>)
      requires Valid()
      modifies this`entries, this`place
      ensures Valid() && |entries| == |old(entries)|
      ensures forall k :: 0 <= k < |entries| ==>
        var e := old(entries)[k];
        entries[k] == if e.handle.Some? && e.handle.value in gone then Entry(e.id, e.target, Failed, None) else e
      ensures forall h :: h in lost <==> h in gone && exists e :: e in old(entries) && e.handle == Some(h)
    {
      hide Ok;
      ghost var was := entries;
      lost := [];
      for k := 0 to |entries|
        invariant Valid() && |entries| == |was|
        invariant forall j :: 0 <= j < k ==> entries[j] == AfterLoss(was[j], gone)
        invariant forall j :: k <= j < |was| ==> entries[j] == was[j]
        invariant forall h :: h in lost <==> h in gone && exists j :: 0 <= j < k && was[j].handle == Some(h)
      {
        var e := entries[k];
        EntryFacts(State(), e);
        OkIsApart(State());
        if e.state == Mounted && e.handle.value in gone {
          var failed := e.(state := Failed, handle := None);
          Replaced(entries, k, failed);
          Fails(State(), e, entries[k := failed]);
          place := place[e.handle.value := Taken];
          entries := entries[k := failed];
          lost := lost + [e.handle.value];
        }
      }
    }

    // ----- teardown ---------------------------------------------------------------------------

    /** First region of `unmount_all`.  Shutdown was requested before, so the list can only get shorter. */
    method ListMounted() returns (targets: seq<string>)
      requires Valid() && shutdown
      modifies this`arrived, this`remaining
      ensures Valid() && arrived == {} && remaining == Some(SetOf(targets))
      ensures targets == Targets(entries)
    {
      targets := [];
      for k := 0 to |entries|
        invariant targets == Targets(entries[..k])
      {
        assert entries[..k + 1][..k] == entries[..k];
        if entries[k].state == Mounted { targets := targets + [entries[k].target]; }
      }
      assert entries[..|entries|] == entries;
      forall e | e in entries && e.handle.Some? ensures e.target in SetOf(targets) {
        TargetsFacts(entries, e.target);
      }
      arrived := {};
      remaining := Some(SetOf(targets));
    }

    /** The forced unmount of one listed target leaves no mount there. */
    method StopListed(target: string, openWriters: nat) returns (r: UnmountStart)
      requires Valid() && remaining.Some?
      modifies this`entries, this`stopping, this`place, this`remaining
      ensures Valid() && remaining == Some(old(remaining).value - {target})
      ensures shutdown == old(shutdown)
      ensures r.Stops? ==>
        place == old(place)[r.handle := Taken] && r.id !in old(stopping) && stopping == old(stopping)[r.id := target]
      ensures !r.Stops? ==> place == old(place) && stopping == old(stopping)
    {
      hide HandlesOk;
      r := BeginUnmount(target, true, openWriters);
      remaining := Some(remaining.value - {target});
    }

    /** Last region of `unmount_all`.  A handle that is dropped here, instead of being unmounted, belongs to a
        mount that finished after the listing. */
    method ClearAll()
      requires Valid() && remaining == Some({})
      modifies this`entries, this`place, this`cleared
      ensures Valid() && entries == [] && cleared
      ensures forall h :: h in old(place) && old(place)[h].InEntry? ==> h in arrived
      ensures place.Keys == old(place).Keys
      ensures forall h :: h in place ==> place[h] == if old(place)[h].InEntry? then Dropped else old(place)[h]
    {
      forall h | h in place && place[h].InEntry? ensures h in arrived {
        assert Holds(entries, place[h].id, h);
      }
      entries := [];
      place := map h | h in place :: if place[h].InEntry? then Dropped else place[h];
      cleared := true;
    }

    /** Left alone, the teardown unmounts every mounted volume. */
    method UnmountAll(openWriters: nat)
      requires Valid() && shutdown
      modifies this
      ensures Valid() && entries == [] && cleared && stopping == old(stopping)
      ensures forall h :: h in old(place) && old(place)[h].InEntry? ==> h in place && h in unmounts
    {
      hide Ok;
      ghost var before := place;
      var targets := ListMounted();
      for k := 0 to |targets|
        invariant Valid() && shutdown && arrived == {} && stopping == old(stopping)
        invariant remaining.Some? && remaining.value <= SetOf(targets[k..])
        invariant forall h :: h in before && before[h].InEntry? ==>
          h in place && (place[h].InEntry? || place[h].Unmounted?)
      {
        assert targets[k..] == [targets[k]] + targets[k + 1..];
        var r := StopListed(targets[k], openWriters);
        if r.Stops? {
          UnmountHandle(r.handle);
          FinishUnmount(r.id, targets[k]);
        }
      }
      assert SetOf(targets[|targets|..]) == {};
      assert remaining.value == {};
      ClearAll();
      UnmountedIsLogged(State());
    }
  }

  lemma {:induction false} RetainAll(entries: seq<Entry>, keep: Entry -> bool)
    ensures |Retain(entries, keep)| == |entries| <==> forall e :: e in entries ==> keep(e)
  {
    if entries != [] {
      var front, last := entries[..|entries| - 1], entries[|entries| - 1];
      RetainAll(front, keep);
      RetainMembers(front, keep);
      assert forall e :: e in entries <==> e in front || e == last;
    }
  }

  lemma Replaced(entries: seq<Entry>, pos: nat, e: Entry)
    requires pos < |entries| && Apart(entries) && e.id == entries[pos].id && e.target == entries[pos].target
    ensures IsReplaced(entries, entries[pos], e, entries[pos := e])
  {
    var r := entries[pos := e];
    assert r[pos] == e;
    forall f | f in entries && f != entries[pos] ensures f in r {
      var k :| 0 <= k < |entries| && entries[k] == f;
      assert r[k] == f;
    }
  }

  lemma RemovedOne(entries: seq<Entry>, pos: nat)
    requires pos < |entries| && Apart(entries)
    ensures Apart(entries[..pos] + entries[pos + 1..])
    ensures forall f :: f in entries[..pos] + entries[pos + 1..] <==> f in entries && f != entries[pos]
  {
    var r := entries[..pos] + entries[pos + 1..];
    forall f | f in entries && f != entries[pos] ensures f in r {
      var k :| 0 <= k < |entries| && entries[k] == f;
      if k < pos { assert r[k] == f; } else { assert r[k - 1] == f; }
    }
  }
}
