/** Reconstruction plans: deriving the plan of a byte range from the plan of the whole file, and the cache with
    its single flight of requests. */
module PlanCaching {
  import opened Options

  newtype Byte = x: int | 0 <= x < 256

  type Hash = string

  /** A term stands for a stretch of the file; `data` is what its chunks unpack to. */
  datatype Term = Term(hash: Hash, data: seq<Byte>)

  datatype Plan = Plan(offsetIntoFirst: nat, terms: seq<Term>, xorbs: map<Hash, nat>)

  datatype Range = Range(start: nat, end: nat)

  function Bytes(terms: seq<Term>): seq<Byte> {
    if terms == [] then [] else Bytes(terms[..|terms| - 1]) + terms[|terms| - 1].data
  }

  /** The bytes that a plan reconstructs, when `length` of them are asked for. */
  function Denotes(p: Plan, length: nat): seq<Byte>
    requires p.offsetIntoFirst + length <= |Bytes(p.terms)|
  {
    Bytes(p.terms)[p.offsetIntoFirst..p.offsetIntoFirst + length]
  }

  function Min(a: nat, b: nat): nat { if a <= b then a else b }

  lemma {:induction false} BytesAppend(a: seq<Term>, b: seq<Term>)
    ensures Bytes(a + b) == Bytes(a) + Bytes(b)
  {
    if b == [] {
      assert a + b == a;
    } else {
      assert (a + b)[..|a + b| - 1] == a + b[..|b| - 1];
      BytesAppend(a, b[..|b| - 1]);
    }
  }

  lemma BytesSlice(terms: seq<Term>, lo: nat, hi: nat)
    requires lo <= hi <= |terms|
    ensures |Bytes(terms[..lo])| <= |Bytes(terms[..hi])| <= |Bytes(terms)|
    ensures Bytes(terms[lo..hi]) == Bytes(terms)[|Bytes(terms[..lo])|..|Bytes(terms[..hi])|]
  {
    assert terms[..hi] == terms[..lo] + terms[lo..hi] && terms == terms[..hi] + terms[hi..];
    BytesAppend(terms[..lo], terms[lo..hi]);
    BytesAppend(terms[..hi], terms[hi..]);
  }

  lemma BytesNext(terms: seq<Term>, k: nat)
    requires k < |terms|
    ensures Bytes(terms[..k + 1]) == Bytes(terms[..k]) + terms[k].data
    ensures |Bytes(terms[..k])| + |terms[k].data| <= |Bytes(terms)|
  {
    assert terms[..k + 1][..k] == terms[..k];
    BytesSlice(terms, k, k + 1);
  }

  /** The kept terms are the run that starts with the term holding `start` and stops before the first term
      that begins at or after `end`. */
  ghost predicate IsRun(terms: seq<Term>, r: Range, lo: nat, hi: nat) {
    && lo <= hi <= |terms|
    && |Bytes(terms[..lo])| <= r.start
    && (lo < hi ==> r.start < |Bytes(terms[..lo + 1])| && |Bytes(terms[..hi - 1])| < r.end)
    && (hi < |terms| ==> |Bytes(terms[..hi])| >= r.end)
    && (lo == hi ==> r.start >= |Bytes(terms)|)
  }

  /** The plan is the run of the file's terms for this range, entered at the right offset. */
  ghost predicate DerivedFrom(full: Plan, r: Range, plan: Plan) {
    exists lo: nat, hi: nat :: IsRun(full.terms, r, lo, hi) && plan.terms == full.terms[lo..hi]
                     && (lo < hi ==> plan.offsetIntoFirst == r.start - |Bytes(full.terms[..lo])|)
  }

  lemma RunDenotes(terms: seq<Term>, r: Range, lo: nat, hi: nat)
    requires IsRun(terms, r, lo, hi) && r.start < r.end && r.start < |Bytes(terms)|
    ensures var off := r.start - |Bytes(terms[..lo])|;
            var length := Min(r.end, |Bytes(terms)|) - r.start;
            && off + length <= |Bytes(terms[lo..hi])|
            && Bytes(terms[lo..hi])[off..off + length] == Bytes(terms)[r.start..r.start + length]
  {
    hide Bytes;
    BytesSlice(terms, lo, hi);
    assert hi == |terms| ==> terms[..hi] == terms;
    SliceInSlice(Bytes(terms), |Bytes(terms[..lo])|, |Bytes(terms[..hi])|, r.start, Min(r.end, |Bytes(terms)|));
  }

  lemma SliceInSlice(s: seq<Byte>, lo: nat, hi: nat, a: nat, b: nat)
    requires lo <= a <= b <= hi <= |s|
    ensures s[lo..hi][a - lo..b - lo] == s[a..b]
  {
    var part := s[lo..hi][a - lo..b - lo];
    assert forall k :: 0 <= k < |part| ==> part[k] == s[a..b][k];
  }

  /** Walks the terms with a running offset and keeps those that overlap the range. */
  method DeriveRange(full: Plan, r: Range) returns (plan: Plan, ghost lo: nat, ghost hi: nat)
    requires r.start < r.end
    ensures IsRun(full.terms, r, lo, hi) && plan.terms == full.terms[lo..hi]
    ensures DerivedFrom(full, r, plan)
    ensures plan.terms == [] <==> r.start >= |Bytes(full.terms)|
    ensures plan.terms != [] ==>
      var length := Min(r.end, |Bytes(full.terms)|) - r.start;
      && plan.offsetIntoFirst < |plan.terms[0].data|
      && plan.offsetIntoFirst + length <= |Bytes(plan.terms)|
      && Denotes(plan, length) == Bytes(full.terms)[r.start..r.start + length]
    ensures forall t :: t in plan.terms && t.hash in full.xorbs ==>
      t.hash in plan.xorbs && plan.xorbs[t.hash] == full.xorbs[t.hash]
    ensures forall h :: h in plan.xorbs ==> h in full.xorbs && exists t :: t in plan.terms && t.hash == h
  {
    hide Bytes, IsRun;
    var kept, offset, needed;
    kept, offset, needed, lo, hi := KeepOverlapping(full.terms, r);
    FirstKept(full.terms, r, lo, hi);
    HashesAre(kept);
    plan := Plan(offset, kept, map h | h in full.xorbs && h in needed :: full.xorbs[h]);
    assert lo < hi ==> plan.offsetIntoFirst == r.start - |Bytes(full.terms[..lo])|;
  }

  method KeepOverlapping(terms: seq<Term>, r: Range)
    returns (kept: seq<Term>, offset: nat, needed: set<Hash>, ghost lo: nat, ghost hi: nat)
    requires r.start < r.end
    ensures lo <= hi <= |terms| && kept == terms[lo..hi] && needed == Hashes(kept)
    ensures hi < |terms| ==> |Bytes(terms[..hi])| >= r.end
    ensures lo == hi ==> |Bytes(terms[..lo])| <= r.start
    ensures lo < hi ==>
      |Bytes(terms[..lo])| <= r.start < |Bytes(terms[..lo + 1])| && offset == r.start - |Bytes(terms[..lo])|
      && |Bytes(terms[..hi - 1])| < r.end
  {
    hide Bytes;
    var cur: nat := 0;
    kept, offset, needed := [], 0, {};
    lo, hi := 0, 0;
    var k: nat := 0;
    NoBytes(terms);
    while k < |terms|
      invariant k <= |terms| && hi == k && cur == |Bytes(terms[..k])|
      invariant lo <= k && kept == terms[lo..k] && needed == Hashes(kept)
      invariant lo == k ==> cur <= r.start
      invariant lo < k ==>
        |Bytes(terms[..lo])| <= r.start < |Bytes(terms[..lo + 1])| && offset == r.start - |Bytes(terms[..lo])|
            && r.start < cur && |Bytes(terms[..k - 1])| < r.end
      decreases |terms| - k
    {
      BytesNext(terms, k);
      var termStart, termEnd := cur, cur + |terms[k].data|;
      if termEnd <= r.start {
        cur := termEnd;
        k := k + 1;
        lo, hi := k, k;
        continue;
      }
      if termStart >= r.end { break; }
      // The program subtracts with saturation here; the subtraction never goes below zero.
      if kept == [] { offset := r.start - termStart; }
      HashesMore(kept, terms[k]);
      needed := needed + {terms[k].hash};
      kept := kept + [terms[k]];
      cur := termEnd;
      k := k + 1;
      hi := k;
    }
  }

  lemma NoBytes(terms: seq<Term>)
    ensures Bytes(terms[..0]) == [] && terms[..|terms|] == terms
  {
  }

  function Hashes(terms: seq<Term>): set<Hash> {
    set t | t in terms :: t.hash
  }

  lemma HashesMore(terms: seq<Term>, t: Term)
    ensures Hashes(terms + [t]) == Hashes(terms) + {t.hash}
  {
    assert forall x :: x in terms + [t] <==> x in terms || x == t;
  }

  lemma HashesAre(terms: seq<Term>)
    ensures forall t :: t in terms ==> t.hash in Hashes(terms)
    ensures forall h :: h in Hashes(terms) ==> exists t :: t in terms && t.hash == h
  {
  }

  lemma FirstKept(terms: seq<Term>, r: Range, lo: nat, hi: nat)
    requires lo <= hi <= |terms| && r.start < r.end
    requires lo == hi ==> |Bytes(terms[..lo])| <= r.start && (hi == |terms| || |Bytes(terms[..hi])| >= r.end)
    requires lo < hi ==> |Bytes(terms[..lo])| <= r.start < |Bytes(terms[..lo + 1])| && |Bytes(terms[..hi - 1])| < r.end
    requires hi < |terms| ==> |Bytes(terms[..hi])| >= r.end
    ensures IsRun(terms, r, lo, hi)
    ensures lo == hi <==> r.start >= |Bytes(terms)|
    ensures lo < hi ==>
      var off := r.start - |Bytes(terms[..lo])|;
      var length := Min(r.end, |Bytes(terms)|) - r.start;
      && off < |terms[lo..hi][0].data|
      && off + length <= |Bytes(terms[lo..hi])|
      && Bytes(terms[lo..hi])[off..off + length] == Bytes(terms)[r.start..r.start + length]
  {
    assert terms[..|terms|] == terms;
    if lo < hi {
      BytesNext(terms, lo);
      BytesSlice(terms, lo, hi);
      RunDenotes(terms, r, lo, hi);
    }
  }

  /** The server's contract: no answer past the end of the file, except that the empty file has the empty plan
      at its start; otherwise a plan of the requested bytes. */
  ghost predicate Answers(full: Plan, r: Range, answer: Option<Plan>)
    requires r.start < r.end
  {
    && (answer.None? <==> r.start >= |Bytes(full.terms)| && !(full.terms == [] && r.start == 0))
    && (answer.Some? && r.start < |Bytes(full.terms)| ==>
          var length := Min(r.end, |Bytes(full.terms)|) - r.start;
          && answer.value.offsetIntoFirst + length <= |Bytes(answer.value.terms)|
          && Denotes(answer.value, length) == Bytes(full.terms)[r.start..r.start + length])
  }

  // ----- The cache ---------------------------------------------------------------------------

  datatype Key = Key(file: Hash, range: Option<Range>)

  datatype CacheEntry = CacheEntry(plan: Plan, insertedAt: nat, lastAccessed: nat)

  datatype Lookup = ExactHit(plan: Plan) | FullPlan(full: Plan) | Miss

  datatype Action = Lead | Wait

  const MAX_CACHE_ENTRIES: nat := 4096

  predicate IsFresh(e: CacheEntry, now: nat, ttl: nat) {
    now < e.insertedAt + ttl
  }

  function WithoutRangesOf(cache: map<Key, CacheEntry>, file: Hash): map<Key, CacheEntry> {
    map k | k in cache && (k.file != file || k.range.None?) :: cache[k]
  }

  function WithoutRanges(cache: map<Key, CacheEntry>): map<Key, CacheEntry> {
    map k | k in cache && k.range.None? :: cache[k]
  }

  /** A full cache gives up its ranges; if it is still full, it gives up its least recently used plan. */
  ghost predicate RoomMade(cache: map<Key, CacheEntry>, rest: map<Key, CacheEntry>) {
    if |cache| < MAX_CACHE_ENTRIES then rest == cache
    else if |WithoutRanges(cache)| < MAX_CACHE_ENTRIES then rest == WithoutRanges(cache)
    else exists victim :: IsLeastRecent(WithoutRanges(cache), victim) && rest == WithoutRanges(cache) - {victim}
  }

  ghost predicate IsLeastRecent(cache: map<Key, CacheEntry>, victim: Key) {
    victim in cache && forall k :: k in cache ==> cache[victim].lastAccessed <= cache[k].lastAccessed
  }

  lemma SubMapIsSmaller(a: map<Key, CacheEntry>, b: map<Key, CacheEntry>)
    requires a.Keys <= b.Keys
    ensures |a| <= |b|
  {
    SubsetIsSmaller(a.Keys, b.Keys);
  }

  lemma {:induction false} SubsetIsSmaller(a: set<Key>, b: set<Key>)
    requires a <= b
    ensures |a| <= |b|
    decreases a
  {
    if a != {} {
      var x :| x in a;
      SubsetIsSmaller(a - {x}, b - {x});
    }
  }

  lemma SameSizeIsAll(a: set<Key>, b: set<Key>)
    requires a <= b && |a| >= |b|
    ensures a == b
  {
    if x :| x in b && x !in a {
      SubsetIsSmaller(a, b - {x});
    }
  }

  /** What the requests share between the locks. */
  datatype Shared = Shared(cache: map<Key, CacheEntry>, inflight: set<Key>, served: set<(Key, Plan)>,
                           leaders: map<Key, nat>, waiting: map<nat, Key>)

  /** One round of the loop of a request: when it looks, how things are when it joins, and how they are when it
      is woken or, as the leader, when the server has answered. */
  datatype Round = Round(now: nat, joined: Shared, woken: Shared)

  datatype Reply = Answered(plan: Option<Plan>) | NotYet

  ghost predicate SharedOk(s: Shared) {
    && |s.cache| <= MAX_CACHE_ENTRIES
    && (forall k :: k in s.cache ==> (k, s.cache[k].plan) in s.served)
    && s.leaders.Keys == s.inflight
    && (forall t :: t in s.waiting ==> s.waiting[t] in s.inflight)
  }

  /** The others keep the shared state valid and never take back what the server gave; this task waits only in
      between, and a key that it leads stays in flight until it is done. */
  ghost predicate Script(key: Key, task: nat, served: set<(Key, Plan)>, rounds: seq<Round>) {
    forall n :: 0 <= n < |rounds| ==>
      && SharedOk(rounds[n].joined) && SharedOk(rounds[n].woken)
      && task !in rounds[n].joined.waiting && task !in rounds[n].woken.waiting
      && (if n == 0 then served else rounds[n - 1].woken.served) <= rounds[n].joined.served
      && rounds[n].joined.served <= rounds[n].woken.served
      && (key !in rounds[n].joined.inflight ==> key in rounds[n].woken.inflight && rounds[n].woken.leaders[key] == task)
  }

  predicate HitIn(cache: map<Key, CacheEntry>, key: Key, now: nat, ttl: nat) {
    key in cache && IsFresh(cache[key], now, ttl)
  }

  predicate FullHitIn(cache: map<Key, CacheEntry>, key: Key, now: nat, ttl: nat) {
    key.range.Some? && HitIn(cache, Key(key.file, None), now, ttl)
  }

  /** What one round comes to: a plan of the cache, the answer from the plan of the file, waiting while somebody
      else fetches the key, or as the leader what the server says. */
  ghost predicate RoundIs(key: Key, ttl: nat, cache: map<Key, CacheEntry>, round: Round, response: Option<Plan>,
                          r: Option<Option<Plan>>)
    requires key.range.Some? ==> key.range.value.start < key.range.value.end
  {
    if HitIn(cache, key, round.now, ttl) then r == Some(Some(cache[key].plan))
    else if FullHitIn(cache, key, round.now, ttl) then
      r.Some? && Answers(cache[Key(key.file, None)].plan, key.range.value, r.value)
    else if key in round.joined.inflight then r == None
    else r == Some(response)
  }

  /** The reply is that of the first round that does not have to wait. */
  ghost predicate ReplyIs(key: Key, ttl: nat, cache: map<Key, CacheEntry>, rounds: seq<Round>, response: Option<Plan>,
                          r: Reply)
    requires key.range.Some? ==> key.range.value.start < key.range.value.end
    decreases |rounds|
  {
    if rounds == [] then r == NotYet
    else if RoundIs(key, ttl, cache, rounds[0], response, None) then
      ReplyIs(key, ttl, rounds[0].woken.cache, rounds[1..], response, r)
    else r.Answered? && RoundIs(key, ttl, cache, rounds[0], response, Some(r.plan))
  }

  lemma ReplyStep(key: Key, ttl: nat, cache: map<Key, CacheEntry>, rounds: seq<Round>, n: nat, response: Option<Plan>,
                  r: Option<Option<Plan>>)
    requires (key.range.Some? ==> key.range.value.start < key.range.value.end) && n < |rounds|
    requires RoundIs(key, ttl, cache, rounds[n], response, r)
    ensures r.None? ==>
      forall x :: ReplyIs(key, ttl, rounds[n].woken.cache, rounds[n + 1..], response, x) ==>
        ReplyIs(key, ttl, cache, rounds[n..], response, x)
    ensures r.Some? ==> ReplyIs(key, ttl, cache, rounds[n..], response, Answered(r.value))
  {
    assert rounds[n..][0] == rounds[n] && rounds[n..][1..] == rounds[n + 1..];
    if r.Some? { NoWait(key, ttl, cache, rounds[n], response, r); }
    hide RoundIs;
  }

  lemma NoWait(key: Key, ttl: nat, cache: map<Key, CacheEntry>, round: Round, response: Option<Plan>,
               r: Option<Option<Plan>>)
    requires key.range.Some? ==> key.range.value.start < key.range.value.end
    requires RoundIs(key, ttl, cache, round, response, r) && r.Some?
    ensures !RoundIs(key, ttl, cache, round, response, None)
  {
  }

  lemma ScriptAt(key: Key, task: nat, served: set<(Key, Plan)>, rounds: seq<Round>, n: nat)
    requires Script(key, task, served, rounds) && n < |rounds|
    ensures var r := rounds[n];
            && SharedOk(r.joined) && SharedOk(r.woken)
            && task !in r.joined.waiting && task !in r.woken.waiting && r.joined.served <= r.woken.served
            && (key !in r.joined.inflight ==> key in r.woken.inflight)
            && (if n == 0 then served else rounds[n - 1].woken.served) <= r.joined.served
            && (n + 1 < |rounds| ==> r.woken.served <= rounds[n + 1].joined.served)
  {
    hide SharedOk;
    assert n == 0 ==> rounds[0].joined.served >= served;
    if n + 1 < |rounds| { assert rounds[n + 1].joined.served >= rounds[(n + 1) - 1].woken.served; }
  }

  class PlanCache {
    const ttl: nat
    var cache: map<Key, CacheEntry>
    var inflight: set<Key>
    /** Every plan that the server has given, under the key it was asked for. */
    ghost var served: set<(Key, Plan)>
    /** The callers that fetch a key, and those that wait for one. */
    ghost var leaders: map<Key, nat>
    ghost var waiting: map<nat, Key>

    /** The cache is bounded and holds only what the server gave; each key in flight has exactly one leader,
        and nobody waits for a key that nobody fetches. */
    ghost predicate Valid()
      reads this
    {
      && |cache| <= MAX_CACHE_ENTRIES
      && (forall k :: k in cache ==> (k, cache[k].plan) in served)
      && leaders.Keys == inflight
      && (forall t :: t in waiting ==> waiting[t] in inflight)
    }

    constructor (timeToLive: nat)
      ensures Valid() && cache == map[] && inflight == {} && ttl == timeToLive
    {
      ttl := timeToLive;
      cache, inflight, served, leaders, waiting := map[], {}, {}, map[], map[];
    }

    /** An entry that is still valid; an expired one is dropped. */
    method TryGet(key: Key, now: nat) returns (r: Option<Plan>)
      requires Valid()
      modifies this`cache
      ensures Valid()
      ensures r.Some? <==> key in old(cache) && now < old(cache)[key].insertedAt + ttl
      ensures r.Some? ==> r.value == old(cache)[key].plan && (key, r.value) in served
      ensures forall k :: k in cache ==> k in old(cache) && cache[k].plan == old(cache)[k].plan
                                         && cache[k].insertedAt == old(cache)[k].insertedAt
                                         && (k != key ==> cache[k] == old(cache)[k])
      ensures forall k :: k in old(cache) && k != key ==> k in cache
      ensures r.Some? ==> key in cache && cache[key] == old(cache)[key].(lastAccessed := now)
      ensures r.None? ==> key !in cache
    {
      if key !in cache { return None; }
      if IsFresh(cache[key], now, ttl) {
        r := Some(cache[key].plan);
        assert cache[key := cache[key].(lastAccessed := now)].Keys == cache.Keys;
        cache := cache[key := cache[key].(lastAccessed := now)];
      } else {
        SubMapIsSmaller(cache - {key}, cache);
        cache := cache - {key};
        r := None;
      }
    }

    /** Step 1: the exact key first, because the server trims its ranges tighter, then the plan of the file. */
    method LookUp(key: Key, now: nat) returns (r: Lookup)
      requires Valid()
      modifies this`cache
      ensures Valid()
      ensures r.ExactHit? <==> key in old(cache) && now < old(cache)[key].insertedAt + ttl
      ensures r.ExactHit? ==>
        && r.plan == old(cache)[key].plan && (key, r.plan) in served
        && cache == old(cache)[key := old(cache)[key].(lastAccessed := now)]
      ensures r.FullPlan? <==>
        && !r.ExactHit? && key.range.Some? && Key(key.file, None) in old(cache)
        && now < old(cache)[Key(key.file, None)].insertedAt + ttl
      ensures r.FullPlan? ==>
        && r.full == old(cache)[Key(key.file, None)].plan && (Key(key.file, None), r.full) in served
        && Key(key.file, None) in cache && cache[Key(key.file, None)].lastAccessed == now
      ensures forall k :: k in cache ==> k in old(cache) && cache[k].plan == old(cache)[k].plan
                                         && cache[k].insertedAt == old(cache)[k].insertedAt
      ensures forall k ::
        (k in old(cache) && (now < old(cache)[k].insertedAt + ttl || (k != key && k != Key(key.file, None)))) ==>
        k in cache
    {
      var exact := TryGet(key, now);
      if exact.Some? { return ExactHit(exact.value); }
      if key.range.None? { return Miss; }
      var full := TryGet(Key(key.file, None), now);
      r := if full.Some? then FullPlan(full.value) else Miss;
    }

    /** Answers a range from the plan of the file, with the server's contract at the end of the file: no
        answer past the end, except that the empty file has the empty plan at its start. */
    method AnswerFromFull(full: Plan, r: Range) returns (answer: Option<Plan>)
      requires r.start < r.end
      ensures answer.Some? ==> DerivedFrom(full, r, answer.value)
      ensures Answers(full, r, answer)
    {
      var plan, lo, hi := DeriveRange(full, r);
      if plan.terms == [] && (full.terms != [] || r.start > 0) { return None; }
      answer := Some(plan);
    }

    /** Where a plan may come from: the server, for this very key, or the plan of the whole file. */
    ghost predicate HasProvenance(key: Key, plan: Plan)
      reads this
    {
      || (key, plan) in served
      || (key.range.Some? && exists full ::
          (Key(key.file, None), full) in served && DerivedFrom(full, key.range.value, plan))
    }

    /** What the other requests do while this one holds no lock. */
    method Interfere(s: Shared)
      requires SharedOk(s) && served <= s.served
      modifies this
      ensures Valid() && cache == s.cache && inflight == s.inflight && served == s.served
      ensures leaders == s.leaders && waiting == s.waiting
    {
      cache, inflight, served, leaders, waiting := s.cache, s.inflight, s.served, s.leaders, s.waiting;
    }

    /** A request among others.  As long as somebody else fetches the key it waits and looks again; in the end
        it answers from the cache, from the plan of the file, or, as the leader, from the server.  Every plan
        that it returns was given by the server for this key or follows from the server's plan of the file. */
    method GetReconstruction(key: Key, rounds: seq<Round>, response: Option<Plan>, ghost task: nat)
      returns (r: Reply)
      requires Valid() && task !in waiting && Script(key, task, served, rounds)
      requires key.range.Some? ==> key.range.value.start < key.range.value.end
      modifies this
      ensures Valid() && old(served) <= served
      ensures ReplyIs(key, ttl, old(cache), rounds, response, r)
      ensures r.Answered? && r.plan.Some? ==> HasProvenance(key, r.plan.value)
    {
      hide Valid, SharedOk, ReplyIs, RoundIs, Script, HasProvenance;
      if rounds != [] { ScriptAt(key, task, served, rounds, 0); }
      for n := 0 to |rounds|
        invariant Valid() && task !in waiting && old(served) <= served
        invariant n < |rounds| ==> served <= rounds[n].joined.served
        invariant forall x :: ReplyIs(key, ttl, cache, rounds[n..], response, x) ==>
                    ReplyIs(key, ttl, old(cache), rounds, response, x)
      {
        ScriptAt(key, task, old(served), rounds, n);
        ghost var was := cache;
        var reply := OneRound(key, rounds[n], response, task);
        ReplyStep(key, ttl, was, rounds, n, response, reply);
        if reply.Some? { return Answered(reply.value); }
      }
      assert rounds[|rounds|..] == [];
      assert ReplyIs(key, ttl, cache, [], response, NotYet) by { NoRounds(key, ttl, cache, response); }
      r := NotYet;
    }

    lemma NoRounds(key: Key, ttl: nat, cache: map<Key, CacheEntry>, response: Option<Plan>)
      requires key.range.Some? ==> key.range.value.start < key.range.value.end
      ensures ReplyIs(key, ttl, cache, [], response, NotYet)
    {
    }

    /** One time around: look, join, and either wait or fetch. */
    method OneRound(key: Key, round: Round, response: Option<Plan>, ghost task: nat) returns (r: Option<Option<Plan>>)
      requires Valid() && task !in waiting && SharedOk(round.joined) && SharedOk(round.woken)
      requires task !in round.joined.waiting && task !in round.woken.waiting
      requires served <= round.joined.served <= round.woken.served
      requires key !in round.joined.inflight ==> key in round.woken.inflight
      requires key.range.Some? ==> key.range.value.start < key.range.value.end
      modifies this
      ensures Valid() && old(served) <= served && RoundIs(key, ttl, old(cache), round, response, r)
      ensures r.None? ==> cache == round.woken.cache && served == round.woken.served && task !in waiting
      ensures r.Some? && r.value.Some? ==> HasProvenance(key, r.value.value)
    {
      hide DerivedFrom, IsRun, Bytes, Answers, SharedOk, HitIn, FullHitIn, IsFresh;
      HitFacts(key, cache, round.now, ttl);
      var found := LookUp(key, round.now);
      match found {
        case ExactHit(plan) => return Some(Some(plan));
        case FullPlan(full) =>
          var answer := AnswerFromFull(full, key.range.value);
          return Some(answer);
        case Miss =>
      }
      Interfere(round.joined);
      var action := Join(key, task);
      Interfere(round.woken);
      if action.Lead? {
        FinishFetch(key, round.now, response);
        return Some(response);
      }
      r := None;
    }

    lemma HitFacts(key: Key, cache: map<Key, CacheEntry>, now: nat, ttl: nat)
      ensures HitIn(cache, key, now, ttl) <==> key in cache && now < cache[key].insertedAt + ttl
      ensures FullHitIn(cache, key, now, ttl)
         <==> key.range.Some? && Key(key.file, None) in cache && now < cache[Key(key.file, None)].insertedAt + ttl
    {
    }

    /** The leader has the server's answer: a plan is stored, the key leaves, and everyone who waited is woken. */
    method FinishFetch(key: Key, now: nat, response: Option<Plan>)
      requires Valid() && key in inflight
      modifies this
      ensures Valid() && inflight == old(inflight) - {key}
      ensures served == old(served) + (if response.Some? then {(key, response.value)} else {})
      ensures response.Some? ==> key in cache && cache[key].plan == response.value
      ensures response.None? ==> cache == old(cache)
      ensures forall t :: t in waiting <==> t in old(waiting) && old(waiting)[t] != key
    {
      hide RoomMade, WithoutRangesOf, WithoutRanges, HasProvenance, DerivedFrom, Bytes, IsFresh;
      if response.Some? {
        ghost var rest := Store(key, response.value, now);
      }
      Release(key);
    }

    /** Step 2: the first caller for a key leads; the others subscribe while the key is in flight. */
    method Join(key: Key, ghost task: nat) returns (action: Action)
      requires Valid() && task !in waiting
      modifies this`inflight, this`leaders, this`waiting
      ensures Valid()
      ensures action.Lead? <==> key !in old(inflight)
      ensures action.Lead? ==>
        && inflight == old(inflight) + {key} && leaders == old(leaders)[key := task]
        && waiting == old(waiting)
      ensures action.Wait? ==>
        && inflight == old(inflight) && leaders == old(leaders)
        && waiting == old(waiting)[task := key]
    {
      if key in inflight {
        waiting := waiting[task := key];
        return Wait;
      }
      inflight := inflight + {key};
      leaders := leaders[key := task];
      action := Lead;
    }

    method LeastRecent() returns (victim: Key)
      requires cache != map[]
      ensures IsLeastRecent(cache, victim)
    {
      var todo := cache.Keys;
      victim :| victim in todo;
      todo := todo - {victim};
      while todo != {}
        invariant victim in cache && todo <= cache.Keys
        invariant forall k :: k in cache && k !in todo ==> cache[victim].lastAccessed <= cache[k].lastAccessed
        decreases todo
      {
        var k :| k in todo;
        if cache[k].lastAccessed < cache[victim].lastAccessed { victim := k; }
        todo := todo - {k};
      }
    }

    /** Step 3: the leader stores the server's plan.  A plan of the file makes the ranges of that file
        redundant; a full cache gives up its ranges first, and its least recently used plan only when it
        holds nothing but plans of files. */
    method Store(key: Key, plan: Plan, now: nat) returns (ghost rest: map<Key, CacheEntry>)
      requires Valid()
      modifies this`cache, this`served
      ensures Valid() && served == old(served) + {(key, plan)}
      ensures RoomMade(if key.range.None? then WithoutRangesOf(old(cache), key.file) else old(cache), rest)
      ensures cache == rest[key := CacheEntry(plan, now, now)]
      ensures forall k :: k in cache && k != key ==>
        && k in old(cache) && cache[k] == old(cache)[k]
        && (key.range.None? && k.file == key.file ==> k.range.None?)
      ensures |old(cache)| < MAX_CACHE_ENTRIES ==>
        forall k :: k in old(cache) && (key.range.None? && k.file == key.file ==> k.range.None?) ==> k in cache
      ensures forall k :: k in old(cache) && k.range.None? && k !in cache ==>
        forall j :: j in cache && j != key ==>
          j.range.None? && old(cache)[k].lastAccessed <= old(cache)[j].lastAccessed
    {
      hide RoomMade, WithoutRanges;
      served := served + {(key, plan)};
      if key.range.None? {
        SubMapIsSmaller(WithoutRangesOf(cache, key.file), cache);
        cache := WithoutRangesOf(cache, key.file);
      }
      MakeRoom();
      rest := cache;
      AddedSize(cache, key, CacheEntry(plan, now, now));
      cache := cache[key := CacheEntry(plan, now, now)];
    }

    method MakeRoom()
      requires |cache| <= MAX_CACHE_ENTRIES
      modifies this`cache
      ensures |cache| < MAX_CACHE_ENTRIES && RoomMade(old(cache), cache)
      ensures forall k :: k in cache ==> k in old(cache) && cache[k] == old(cache)[k]
      ensures |old(cache)| < MAX_CACHE_ENTRIES ==> cache == old(cache)
      ensures |old(cache)| == MAX_CACHE_ENTRIES ==> forall k :: k in cache ==> k.range.None?
      ensures forall k :: k in old(cache) && k.range.None? && k !in cache ==>
        forall j :: j in old(cache) ==> (j.range.None? && old(cache)[k].lastAccessed <= old(cache)[j].lastAccessed)
    {
      if |cache| < MAX_CACHE_ENTRIES { return; }
      SubMapIsSmaller(WithoutRanges(cache), cache);
      cache := WithoutRanges(cache);
      if |cache| >= MAX_CACHE_ENTRIES {
        SameSizeIsAll(cache.Keys, old(cache).Keys);
        var victim := LeastRecent();
        RemovedSize(cache, victim);
        cache := cache - {victim};
      }
    }

    /** The leader is done: the key leaves, and everyone who waited for it is woken. */
    method Release(key: Key)
      requires Valid() && key in inflight
      modifies this`inflight, this`leaders, this`waiting
      ensures Valid() && inflight == old(inflight) - {key} && leaders == old(leaders) - {key}
      ensures forall t :: t in waiting <==> t in old(waiting) && old(waiting)[t] != key
      ensures forall t :: t in waiting ==> waiting[t] == old(waiting)[t]
    {
      inflight := inflight - {key};
      leaders := leaders - {key};
      waiting := map t | t in waiting && waiting[t] != key :: waiting[t];
    }
  }

  lemma AddedSize(cache: map<Key, CacheEntry>, key: Key, e: CacheEntry)
    ensures |cache[key := e]| <= |cache| + 1
  {
    assert cache[key := e].Keys == cache.Keys + {key};
  }

  lemma RemovedSize(cache: map<Key, CacheEntry>, key: Key)
    requires key in cache
    ensures |cache - {key}| == |cache| - 1
  {
    assert (cache - {key}).Keys == cache.Keys - {key};
  }
}
