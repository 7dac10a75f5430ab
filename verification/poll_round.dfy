/** One poll round: which directories count as listed when some listings fail. */
module PollRounds {
  import opened Options
  import opened Iteration
  import opened RemotePaths
  import opened PollDiff

  function Depth(path: string): nat {
    if path == "" then 0 else Depth(path[..|path| - 1]) + (if path[|path| - 1] == '/' then 1 else 0)
  }

  lemma {:induction false} DepthAppend(a: string, b: string)
    ensures Depth(a + b) == Depth(a) + Depth(b)
  {
    if b == "" {
      assert a + b == a;
    } else {
      assert (a + b)[..|a + b| - 1] == a + b[..|b| - 1];
      DepthAppend(a, b[..|b| - 1]);
    }
  }

  lemma {:induction false} DepthZero(a: string)
    ensures '/' !in a <==> Depth(a) == 0
  {
    if a != "" {
      DepthZero(a[..|a| - 1]);
      assert a == a[..|a| - 1] + [a[|a| - 1]];
    }
  }

  /** A directory is one level above everything directly in it. */
  lemma ParentDepth(path: string)
    requires '/' in path
    ensures Depth(path) == Depth(ParentPrefix(path)) + 1
  {
    ParentPrefixFacts(path);
    var parent := ParentPrefix(path);
    var name := path[|parent| + 1..];
    assert path == parent + "/" + name;
    DepthAppend(parent + "/", name);
    DepthAppend(parent, "/");
    assert Depth("/") == 1 by { assert "/"[..0] == ""; }
    DepthZero(name);
  }

  predicate ListsDir(entries: seq<TreeEntry>, path: string) {
    exists e :: e in entries && e.entryType == "directory" && e.path == path
  }

  /** A directory counts as listed when its listing arrived, or when its parent counts as listed and no
      listing mentions the directory any more. */
  ghost predicate Confirmed(entries: seq<TreeEntry>, polled: set<string>, failed: set<string>, path: string)
    decreases |path|
  {
    ParentPrefixFacts(path);
    || path in polled
    || (path != "" && path in failed && Confirmed(entries, polled, failed, ParentPrefix(path))
        && !ListsDir(entries, path))
  }

  predicate ByDepth(s: seq<string>) {
    forall j, k :: 0 <= j < k < |s| ==> Depth(s[j]) <= Depth(s[k])
  }

  method SortByDepth(s: seq<string>) returns (r: seq<string>)
    ensures ByDepth(r) && multiset(r) == multiset(s)
  {
    r := [];
    for i := 0 to |s|
      invariant ByDepth(r) && multiset(r) == multiset(s[..i])
    {
      hide ByDepth;
      assert s[..i + 1] == s[..i] + [s[i]];
      r := InsertByDepth(r, s[i]);
    }
    assert s[..|s|] == s;
  }

  method InsertByDepth(s: seq<string>, x: string) returns (r: seq<string>)
    requires ByDepth(s)
    ensures ByDepth(r) && multiset(r) == multiset(s) + multiset{x}
  {
    hide Depth;
    var k := 0;
    while k < |s| && Depth(s[k]) <= Depth(x)
      invariant 0 <= k <= |s|
      invariant forall j :: 0 <= j < k ==> Depth(s[j]) <= Depth(x)
    {
      k := k + 1;
    }
    assert s == s[..k] + s[k..];
    r := s[..k] + [x] + s[k..];
  }

  lemma SameMembers(a: seq<string>, b: seq<string>)
    requires multiset(a) == multiset(b)
    ensures SetOf(a) == SetOf(b)
  {
    forall x ensures x in a <==> x in b {
      assert x in a <==> x in multiset(a);
      assert x in b <==> x in multiset(b);
    }
  }

  /** What has been confirmed once the first `k` failed directories have been looked at. */
  ghost predicate CascadeOk(entries: seq<TreeEntry>, polled: set<string>, order: seq<string>, k: nat, now: set<string>)
    requires k <= |order|
  {
    forall p :: p in now <==> p in polled || (p in order[..k] && Confirmed(entries, polled, SetOf(order), p))
  }

  lemma ParentIsSettled(entries: seq<TreeEntry>, polled: set<string>, order: seq<string>, k: nat, now: set<string>)
    requires ByDepth(order) && k < |order| && CascadeOk(entries, polled, order, k, now)
    ensures ParentPrefix(order[k]) in now <==> Confirmed(entries, polled, SetOf(order), ParentPrefix(order[k]))
  {
    var p := order[k];
    var parent := ParentPrefix(p);
    ParentPrefixFacts(p);
    if parent != "" && parent in order {
      var j :| 0 <= j < |order| && order[j] == parent;
      ParentDepth(p);
      assert order[..k][j] == parent;
    }
  }

  lemma CascadeStep(entries: seq<TreeEntry>, polled: set<string>, order: seq<string>, k: nat, now: set<string>)
    requires ByDepth(order) && k < |order| && CascadeOk(entries, polled, order, k, now)
    requires order[k] !in polled
    ensures CascadeOk(entries, polled, order, k + 1,
                      if ParentPrefix(order[k]) in now && !ListsDir(entries, order[k]) then now + {order[k]} else now)
  {
    ParentIsSettled(entries, polled, order, k, now);
    PrefixGrows(order, k);
    assert order[k] in order && order[k] in SetOf(order);
    forall p ensures p in order[..k + 1] <==> p in order[..k] || p == order[k] {
      assert p in order[..k + 1] <==> p in SetOf(order[..k + 1]);
    }
  }

  /** Confirmation goes down from parent to child: a failed directory is confirmed exactly when its parent is and
      no line mentions it as a directory. */
  lemma ConfirmedDown(entries: seq<TreeEntry>, polled: set<string>, failed: set<string>)
    ensures forall p :: p in failed && p !in polled ==>
      (Confirmed(entries, polled, failed, p)
       <==> p != "" && Confirmed(entries, polled, failed, ParentPrefix(p))
            && !exists e :: e in entries && e.entryType == "directory" && e.path == p)
    ensures forall p :: Confirmed(entries, polled, failed, p) ==> p in polled || p in failed
    ensures forall p :: p in polled ==> Confirmed(entries, polled, failed, p)
  {
  }

  /** The failed directories whose deletion the listings confirm, parents first.  Each directory was asked
      for once, so it is either listed or failed; the root has no parent, so it is never confirmed. */
  method ConfirmDeletions(entries: seq<TreeEntry>, listed: set<string>, failures: seq<string>)
    returns (polled: set<string>, complete: bool)
    requires forall p :: p in failures ==> p !in listed
    ensures forall p ::
      p in polled <==> p in listed || (p in failures && Confirmed(entries, listed, SetOf(failures), p))
    ensures complete <==> forall p :: p in failures ==> Confirmed(entries, listed, SetOf(failures), p)
    ensures forall p :: p in polled ==> p in listed || p in failures
    ensures forall p :: p in listed ==> p in polled
    ensures forall p :: p in failures ==>
      (p in polled <==> p != "" && ParentPrefix(p) in polled
                        && !exists e :: e in entries && e.entryType == "directory" && e.path == p)
    ensures complete <==> forall p :: p in failures ==> p in polled
  {
    ConfirmedDown(entries, listed, SetOf(failures));
    hide Confirmed;
    var order := SortByDepth(failures);
    SameMembers(order, failures);
    assert forall p :: p in order <==> p in SetOf(order);
    assert forall p :: p in failures <==> p in SetOf(failures);
    polled := listed;
    for k := 0 to |order|
      invariant CascadeOk(entries, listed, order, k, polled)
    {
      CascadeStep(entries, listed, order, k, polled);
      var parent := ParentPrefix(order[k]);
      if parent in polled {
        var dirStillExists := exists e :: e in entries && e.entryType == "directory" && e.path == order[k];
        if !dirStillExists { polled := polled + {order[k]}; }
      }
    }
    assert order[..|order|] == order;
    complete := forall p :: p in failures ==> p in polled;
  }

  /** The directories of the remote: every directory but the root lies in a directory. */
  ghost predicate RemoteDirs(dirs: set<string>) {
    forall d :: d in dirs && d != "" ==> ParentPrefix(d) in dirs
  }

  /** Confirmation is never wrong: when the listings that did arrive are true, a directory that counts as
      listed without a listing of its own is not there any more. */
  lemma {:induction false} ConfirmedIsGone(entries: seq<TreeEntry>, polled: set<string>, failed: set<string>,
        dirs: set<string>,
                                           path: string)
    requires RemoteDirs(dirs)
    requires forall d :: d in dirs && d != "" && ParentPrefix(d) in polled ==> ListsDir(entries, d)
    requires Confirmed(entries, polled, failed, path) && path !in polled
    ensures path !in dirs
    decreases |path|
  {
    ParentPrefixFacts(path);
    if ParentPrefix(path) !in polled {
      ConfirmedIsGone(entries, polled, failed, dirs, ParentPrefix(path));
    }
  }
}
