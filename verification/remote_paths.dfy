/** Ancestor directories of a path, as strings and as inodes. */
module RemotePaths {
  import opened Options
  import opened Iteration
  import opened InodeModel
  import opened InodeLemmas
  import opened InodeLoose

  /** Everything before the last slash, or the empty path. */
  function ParentPrefix(path: string): string {
    if path == "" then ""
    else if path[|path| - 1] == '/' then path[..|path| - 1]
    else ParentPrefix(path[..|path| - 1])
  }

  lemma {:induction false} ParentPrefixFacts(path: string)
    ensures path != "" ==> |ParentPrefix(path)| < |path|
    ensures ParentPrefix(path) != "" ==> ParentPrefix(path) + "/" <= path
    ensures '/' in path ==> ParentPrefix(path) + "/" <= path && '/' !in path[|ParentPrefix(path)| + 1..]
    ensures '/' !in path ==> ParentPrefix(path) == ""
  {
    if path != "" && path[|path| - 1] != '/' {
      var front := path[..|path| - 1];
      ParentPrefixFacts(front);
      assert path == front + [path[|path| - 1]];
    }
  }

  lemma SlashIsNotLater(path: string, k: nat)
    requires k < |path| && path[k] == '/'
    ensures k <= |ParentPrefix(path)|
  {
    ParentPrefixFacts(path);
    var tail := path[|ParentPrefix(path)| + 1..];
    assert forall j :: 0 <= j < |tail| ==> tail[j] == path[|ParentPrefix(path)| + 1 + j];
  }

  /** The directory part of a child's path is the path of its directory. */
  lemma ParentOfChildPath(dir: string, name: string)
    requires ValidName(name)
    ensures ParentPrefix(ChildPath(dir, name)) == dir
  {
    var p := ChildPath(dir, name);
    ParentPrefixFacts(p);
    if dir != "" {
      SlashIsNotLater(p, |dir|);
      SlashIsInParent(dir, name, |ParentPrefix(p)|);
      assert ParentPrefix(p) == p[..|dir|];
    }
  }

  predicate IsAncestor(a: string, path: string)
    decreases |path|
  {
    ParentPrefixFacts(path);
    var parent := ParentPrefix(path);
    a == parent || (parent != "" && IsAncestor(a, parent))
  }

  /** The ancestors of a path are the root and every prefix that ends before a slash. */
  lemma {:induction false} AncestorIffPrefix(a: string, path: string)
    requires path != ""
    ensures IsAncestor(a, path) <==> StrictlyUnder(a, path)
    decreases |path|
  {
    ParentPrefixFacts(path);
    var parent := ParentPrefix(path);
    if parent != "" {
      AncestorIffPrefix(a, parent);
      if a != "" && a != parent && a + "/" <= path {
        SlashIsNotLater(path, |a|);
        assert path[..|parent|] == parent;
      }
    } else if a != "" && a + "/" <= path {
      SlashIsNotLater(path, |a|);
    }
  }

  predicate IsDir(t: Table, path: string) {
    path in t.paths && t.paths[path] in t.inodes && t.inodes[t.paths[path]].kind.Directory?
  }

  ghost function NearestDir(t: Table, path: string): (Ino, string)
    decreases |path|
  {
    ParentPrefixFacts(path);
    var a := ParentPrefix(path);
    if IsDir(t, a) then (t.inodes[t.paths[a]].inode, a)
    else if a == "" then (ROOT_INODE, "")
    else NearestDir(t, a)
  }

  /** Everything above a path is its parent or above its parent. */
  lemma AboveParent(path: string, b: string)
    requires path != ""
    ensures var a := ParentPrefix(path);
            && |a| < |path| && StrictlyUnder(a, path)
            && (StrictlyUnder(b, path) ==> b == a || (a != "" && StrictlyUnder(b, a) && |b| < |a|))
            && (a != "" && StrictlyUnder(b, a) ==> StrictlyUnder(b, path))
  {
    ParentPrefixFacts(path);
    var a := ParentPrefix(path);
    AncestorIffPrefix(a, path);
    AncestorIffPrefix(b, path);
    if a != "" { AncestorIffPrefix(b, a); }
  }

  lemma MappedDir(t: Table, a: string)
    requires Loose(t) && IsDir(t, a)
    ensures var d := t.inodes[t.paths[a]].inode;
            Live(t, d) && t.inodes[d].kind.Directory? && t.inodes[d].fullPath == a
  {
    assert EdgeOk(t, t.paths[a]);
  }

  lemma RootIsDir(t: Table)
    requires Loose(t)
    ensures Live(t, ROOT_INODE) && t.inodes[ROOT_INODE].kind.Directory? && t.inodes[ROOT_INODE].fullPath == ""
  {
  }

  /** The deepest directory of the table that a path lies under. */
  lemma {:induction false} NearestDirIsDeepest(t: Table, path: string)
    requires Loose(t) && path != ""
    ensures var (dir, dirPath) := NearestDir(t, path);
            && Live(t, dir) && t.inodes[dir].kind.Directory? && t.inodes[dir].fullPath == dirPath
            && StrictlyUnder(dirPath, path)
            && (forall a :: StrictlyUnder(a, path) && IsDir(t, a) ==> |a| <= |dirPath|)
    decreases |path|
  {
    var a := ParentPrefix(path);
    hide Loose, ParentPrefix, StrictlyUnder, IsAncestor;
    forall b ensures |a| < |path| && StrictlyUnder(a, path)
      ensures StrictlyUnder(b, path) ==> b == a || (a != "" && StrictlyUnder(b, a) && |b| < |a|)
      ensures a != "" && StrictlyUnder(b, a) ==> StrictlyUnder(b, path)
    {
      AboveParent(path, b);
    }
    if IsDir(t, a) {
      MappedDir(t, a);
    } else if a == "" {
      RootIsDir(t);
    } else {
      NearestDirIsDeepest(t, a);
    }
  }

  /** The answer depends on the directories only. */
  lemma {:induction false} NearestDirSame(t: Table, t': Table, path: string)
    requires forall a :: IsDir(t, a) <==> IsDir(t', a)
    requires forall a :: IsDir(t, a) && IsDir(t', a) ==> t.inodes[t.paths[a]].inode == t'.inodes[t'.paths[a]].inode
    ensures NearestDir(t, path) == NearestDir(t', path)
    decreases |path|
  {
    ParentPrefixFacts(path);
    if !IsDir(t, ParentPrefix(path)) && ParentPrefix(path) != "" { NearestDirSame(t, t', ParentPrefix(path)); }
  }
}
