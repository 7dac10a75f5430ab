/** The worklist shared by the recursive traversals: what is on the stack, and why the walk ends. */
module InodeWorklist {
  import opened Options
  import opened Iteration
  import opened InodeModel
  import opened InodeLemmas

  function Inos(children: seq<DirChild>): (r: seq<Ino>)
    ensures |r| == |children|
    ensures forall k :: 0 <= k < |r| ==> r[k] == children[k].ino
  {
    seq(|children|, k requires 0 <= k < |children| => children[k].ino)
  }

  ghost predicate ChildOf(t: Table, d: Ino, i: Ino) {
    Live(t, i) && i != ROOT_INODE && t.inodes[i].parent == d
  }

  /** `seen` grows from `r` downwards, and `stack` holds, once each, the children not yet seen. */
  ghost predicate WorkOk(t: Table, r: Ino, seen: set<Ino>, stack: seq<Ino>) {
    && (forall i :: i in seen ==> InSubtree(t, r, i) && (i == r || t.inodes[i].parent in seen))
    && (forall i :: i in stack ==> i !in seen && InSubtree(t, r, i) && (i == r || t.inodes[i].parent in seen))
    && (forall d, c :: d in seen && ChildOf(t, d, c) ==> c in seen || c in stack)
    && (forall j, k :: 0 <= j < k < |stack| ==> stack[j] != stack[k])
    && (r in seen || r in stack)
  }

  lemma WorkStart(t: Table, r: Ino)
    requires r in t.inodes
    ensures WorkOk(t, r, {}, [r])
  {
  }

  /** No inode below `r` has `r` as its child. */
  lemma ChildIsNotRoot(t: Table, r: Ino, d: Ino, c: Ino)
    requires Wf(t) && d in t.inodes && InSubtree(t, r, d) && ChildOf(t, d, c)
    ensures c != r && InSubtree(t, r, c)
  {
    ParentIsShorter(t, c);
    PathsGrow(t, r, d);
  }

  lemma {:induction false} PathsGrow(t: Table, r: Ino, i: Ino)
    requires Wf(t) && i in t.inodes && InSubtree(t, r, i)
    ensures r in t.inodes && |t.inodes[r].fullPath| <= |t.inodes[i].fullPath|
    decreases |t.inodes[i].fullPath|
  {
    if i != r {
      ParentIsShorter(t, i);
      PathsGrow(t, r, t.inodes[i].parent);
    }
  }

  lemma InosMembers(children: seq<DirChild>, i: Ino)
    ensures i in Inos(children) <==> exists c :: c in children && c.ino == i
  {
    if i in Inos(children) {
      var k :| 0 <= k < |children| && Inos(children)[k] == i;
      assert children[k] in children;
    }
    if c :| c in children && c.ino == i {
      var k :| 0 <= k < |children| && children[k] == c;
      assert Inos(children)[k] == i;
    }
  }

  lemma ChildrenAreListed(t: Table, d: Ino)
    requires Wf(t) && d in t.inodes
    ensures forall c :: c in Inos(t.inodes[d].children) <==> ChildOf(t, d, c)
    ensures DistinctInos(t.inodes[d].children)
  {
    forall i ensures i in Inos(t.inodes[d].children) <==> ChildOf(t, d, i) {
      ChildIff(t, d, i);
      InosMembers(t.inodes[d].children, i);
    }
    assert LinkOk(t, d);
  }

  lemma ListedIsNew(t: Table, r: Ino, seen: set<Ino>, stack: seq<Ino>, x: Ino)
    requires Wf(t) && WorkOk(t, r, seen, stack) && x in stack
    ensures forall c :: c in Inos(t.inodes[x].children) ==>
              c !in seen && c != x && c !in stack && c != r && InSubtree(t, r, c) && t.inodes[c].parent == x
    ensures forall c :: ChildOf(t, x, c) ==> c in Inos(t.inodes[x].children)
    ensures DistinctInos(t.inodes[x].children)
  {
    ChildrenAreListed(t, x);
    forall c | c in Inos(t.inodes[x].children)
      ensures c !in seen && c != x && c !in stack && c != r && InSubtree(t, r, c)
    {
      ChildIsNotRoot(t, r, x, c);
      ParentIsShorter(t, c);
    }
  }

  lemma WorkStep(t: Table, r: Ino, seen: set<Ino>, stack: seq<Ino>)
    requires Wf(t) && WorkOk(t, r, seen, stack) && stack != []
    ensures stack[|stack| - 1] in t.inodes && stack[|stack| - 1] !in seen
    ensures var x := stack[|stack| - 1];
            WorkOk(t, r, seen + {x}, stack[..|stack| - 1] + Inos(t.inodes[x].children))
  {
    var x := stack[|stack| - 1];
    assert x in stack;
    ListedIsNew(t, r, seen, stack, x);
    WorkPush(t, r, seen, stack, Inos(t.inodes[x].children));
  }

  lemma WorkPush(t: Table, r: Ino, seen: set<Ino>, stack: seq<Ino>, below: seq<Ino>)
    requires stack != [] && WorkOk(t, r, seen, stack)
    requires forall j, k :: 0 <= j < k < |below| ==> below[j] != below[k]
    requires forall c :: c in below ==>
      c !in seen && c !in stack && InSubtree(t, r, c) && t.inodes[c].parent == stack[|stack| - 1]
    requires forall c :: ChildOf(t, stack[|stack| - 1], c) ==> c in below
    ensures WorkOk(t, r, seen + {stack[|stack| - 1]}, stack[..|stack| - 1] + below)
  {
    var x := stack[|stack| - 1];
    var rest := stack[..|stack| - 1];
    assert x in stack;
    assert forall i :: i in stack <==> i == x || i in rest;
    assert forall k :: 0 <= k < |below| ==> below[k] in below;
    assert forall k :: 0 <= k < |rest| ==> rest[k] in rest && rest[k] == stack[k];
    assert forall i :: i in rest + below <==> i in rest || i in below;
  }

  lemma {:induction false} ClosedCovers(t: Table, r: Ino, seen: set<Ino>, i: Ino)
    requires Wf(t) && WorkOk(t, r, seen, []) && i in t.inodes && InSubtree(t, r, i)
    ensures i in seen
    decreases |t.inodes[i].fullPath|
  {
    if i != r {
      ParentIsShorter(t, i);
      ClosedCovers(t, r, seen, t.inodes[i].parent);
      assert ChildOf(t, t.inodes[i].parent, i);
    }
  }

  /** When the stack runs empty, exactly the subtree has been seen. */
  lemma WorkDone(t: Table, r: Ino, seen: set<Ino>, stack: seq<Ino>)
    requires Wf(t) && WorkOk(t, r, seen, stack) && stack == []
    ensures seen == Subtree(t, r)
  {
    forall i | i in t.inodes && InSubtree(t, r, i) ensures i in seen {
      ClosedCovers(t, r, seen, i);
    }
    SameSet(seen, Subtree(t, r));
  }
}
