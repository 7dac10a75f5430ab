/**
 The values held by the inode table and the property that makes its three
 redundant indexes (inode map, path map, per-directory child lists) one tree.
 */
module InodeModel {
  import opened Options

  /** Inode numbers.  Number 1 is the root; numbers are never reused. */
  datatype Ino = Ino(number: nat)

  const ROOT_INODE: Ino := Ino(1)
  const U64_MAX: nat := 0xFFFF_FFFF_FFFF_FFFF

  function SaturatingSub(a: nat, b: nat): nat {
    if a < b then 0 else a - b
  }

  datatype InodeKind = File | Directory | Symlink

  datatype DirChild = DirChild(ino: Ino, name: string)

  function ChildPath(parentPath: string, name: string): string {
    if parentPath == "" then name else parentPath + "/" + name
  }

  /** A single path component, as the file-system front ends hand it over. */
  predicate ValidName(name: string) {
    name != "" && '/' !in name
  }

  /** Content metadata: what the remote comparison and the flush protocol read and write. */
  datatype FileMeta = FileMeta(
    size: nat,
    mtime: int,
    xetHash: Option<string>,
    stagingIsCurrent: bool,
    etag: Option<string>,
    dirtyGeneration: nat,
    pendingDeletes: seq<string>)
  {
    predicate IsDirty() { dirtyGeneration > 0 }

    /** Saturates at the largest 64-bit value. */
    function SetDirty(): FileMeta {
      this.(dirtyGeneration := if dirtyGeneration < U64_MAX then dirtyGeneration + 1 else U64_MAX)
    }

    /** The remote metadata replaces the local, unless there are local writes. */
    function Refresh(hash: Option<string>, newEtag: Option<string>, newSize: nat, newMtime: int): FileMeta {
      if IsDirty() then this
      else this.(xetHash := hash, etag := newEtag, size := newSize, mtime := newMtime, stagingIsCurrent := false)
    }

    /** Absent fields keep their value. */
    function Merge(hash: Option<string>, newSize: Option<nat>, newMtime: Option<int>): FileMeta {
      if IsDirty() then this
      else this.(xetHash := if hash.Some? then hash else xetHash, size := newSize.UnwrapOr(size),
                 mtime := newMtime.UnwrapOr(mtime), stagingIsCurrent := false)
    }

    /** Metadata moves to the committed content only when no write came after the snapshot. */
    function ApplyCommit(hash: string, newSize: nat, snapshotGeneration: nat, now: int): FileMeta {
      var m := if dirtyGeneration == snapshotGeneration
               then this.(dirtyGeneration := 0, xetHash := Some(hash), stagingIsCurrent := true,
                          size := newSize, pendingDeletes := [])
               else this;
      m.(mtime := now)
    }
  }

  datatype EvictionState = EvictionState(nlookup: nat, lastTouched: nat, openHandles: nat)

  datatype Entry = Entry(
    inode: Ino,
    parent: Ino,
    name: string,
    fullPath: string,
    kind: InodeKind,
    nlink: nat,
    childrenLoaded: bool,
    children: seq<DirChild>,
    childIndex: map<string, Ino>,
    meta: FileMeta,
    eviction: EvictionState)
  {
    predicate IsDirty() { meta.IsDirty() }

    predicate IsOpen() { eviction.openHandles > 0 }

    function AddChild(ino: Ino, childName: string): Entry {
      this.(childIndex := childIndex[childName := ino],
            children := children + [DirChild(ino, childName)])
    }

    function RemoveChildByIno(ino: Ino): Entry {
      match Position(children, ino)
      case None => this
      case Some(pos) =>
        this.(children := children[..pos] + children[pos + 1..],
              childIndex := childIndex - {children[pos].name})
    }

    function RemoveChildByName(childName: string): Entry {
      if childName !in childIndex then this
      else
        var e := this.(childIndex := childIndex - {childName});
        match Position(children, childIndex[childName])
        case None => e
        case Some(pos) => e.(children := children[..pos] + children[pos + 1..])
    }
  }

  /** Index of the first child that is `ino`. */
  function Position(children: seq<DirChild>, ino: Ino): (r: Option<nat>)
    ensures r.Some? ==> r.value < |children| && children[r.value].ino == ino
    ensures r.None? ==> forall k :: 0 <= k < |children| ==> children[k].ino != ino
  {
    if children == [] then None
    else if children[0].ino == ino then Some(0)
    else
      match Position(children[1..], ino)
      case None => assert forall k :: 1 <= k < |children| ==> children[k] == children[1..][k - 1]; None
      case Some(p) => Some(p + 1)
  }

  datatype Table = Table(inodes: map<Ino, Entry>, paths: map<string, Ino>, nextInode: nat)

  ghost predicate Live(t: Table, i: Ino) {
    i in t.inodes && t.inodes[i].nlink > 0
  }

  ghost function SubDirs(inodes: map<Ino, Entry>, d: Ino): set<Ino> {
    set i | i in inodes && i != ROOT_INODE && inodes[i].parent == d && inodes[i].kind.Directory?
  }

  /** The child list and the name index of one directory are the same bijection. */
  ghost predicate ChildListOk(e: Entry) {
    && (forall k :: 0 <= k < |e.children| ==>
          e.children[k].name in e.childIndex && e.childIndex[e.children[k].name] == e.children[k].ino)
    && (forall n :: n in e.childIndex ==> DirChild(e.childIndex[n], n) in e.children)
    && (forall j, k :: 0 <= j < k < |e.children| ==> e.children[j].ino != e.children[k].ino)
  }

  ghost predicate LinkOk(t: Table, i: Ino)
    requires i in t.inodes
  {
    var e := t.inodes[i];
    && e.inode == i && i.number < t.nextInode
    && ChildListOk(e)
    && (if e.kind.Directory? then e.nlink == 2 + |SubDirs(t.inodes, i)| else e.children == [] && e.nlink <= 1)
  }

  /** Everything a directory lists is a live inode that points back at it. */
  ghost predicate DownOk(t: Table, i: Ino)
    requires i in t.inodes
  {
    var e := t.inodes[i];
    forall n :: n in e.childIndex ==>
      var c := e.childIndex[n];
      c in t.inodes && c != ROOT_INODE && t.inodes[c].parent == i && t.inodes[c].name == n && t.inodes[c].nlink > 0
  }

  /** A live inode is listed by its parent directory, and its path extends the parent's. */
  ghost predicate UpOk(t: Table, i: Ino)
    requires i in t.inodes
  {
    var e := t.inodes[i];
    i != ROOT_INODE && e.nlink > 0 ==>
      && e.parent in t.inodes
      && t.inodes[e.parent].kind.Directory?
      && e.name in t.inodes[e.parent].childIndex
      && t.inodes[e.parent].childIndex[e.name] == i
      && ValidName(e.name)
      && e.fullPath == ChildPath(t.inodes[e.parent].fullPath, e.name)
  }

  ghost predicate PathsOk(t: Table) {
    && (forall p :: p in t.paths ==> Live(t, t.paths[p]) && t.inodes[t.paths[p]].fullPath == p)
    && (forall i :: Live(t, i) ==> t.inodes[i].fullPath in t.paths && t.paths[t.inodes[i].fullPath] == i)
  }

  ghost predicate RootOk(t: Table) {
    && ROOT_INODE in t.inodes
    && t.inodes[ROOT_INODE].kind.Directory?
    && t.inodes[ROOT_INODE].fullPath == ""
    && t.inodes[ROOT_INODE].parent == ROOT_INODE
  }

  ghost predicate Wf(t: Table) {
    && RootOk(t)
    && PathsOk(t)
    && (forall i {:trigger LinkOk(t, i)} :: i in t.inodes ==> LinkOk(t, i))
    && (forall i {:trigger DownOk(t, i)} :: i in t.inodes ==> DownOk(t, i))
    && (forall i {:trigger UpOk(t, i)} :: i in t.inodes ==> UpOk(t, i))
  }

  /** `i` is `r` or hangs below it through live links.  This follows parent links upwards, whereas
      the program's traversals follow child lists down.  In a well-formed table a parent's path is
      always shorter, so the length test only makes the definition total. */
  ghost predicate InSubtree(t: Table, r: Ino, i: Ino)
    decreases if i in t.inodes then |t.inodes[i].fullPath| else 0
  {
    i in t.inodes
    && (i == r
        || (&& i != ROOT_INODE
            && Live(t, i)
            && t.inodes[i].parent in t.inodes
            && |t.inodes[t.inodes[i].parent].fullPath| < |t.inodes[i].fullPath|
            && InSubtree(t, r, t.inodes[i].parent)))
  }

  ghost function Subtree(t: Table, r: Ino): set<Ino> {
    set i | i in t.inodes && InSubtree(t, r, i)
  }

  ghost predicate StrictlyUnder(dir: string, path: string) {
    if dir == "" then path != "" else dir + "/" <= path
  }

  /** Removing a set of children from one directory. */
  function FilterOut(children: seq<DirChild>, gone: set<Ino>): seq<DirChild> {
    if children == [] then []
    else if children[0].ino in gone then FilterOut(children[1..], gone)
    else [children[0]] + FilterOut(children[1..], gone)
  }

  function DropIndex(index: map<string, Ino>, gone: set<Ino>): map<string, Ino> {
    map n | n in index && index[n] !in gone :: index[n]
  }

  ghost function DetachEntry(t: Table, gone: set<Ino>, orphaned: set<Ino>, i: Ino): Entry
    requires i in t.inodes
  {
    var e := t.inodes[i];
    var lost := |SubDirs(t.inodes, i) * gone|;
    e.(children := FilterOut(e.children, gone + orphaned),
       childIndex := DropIndex(e.childIndex, gone + orphaned),
       nlink := if i in orphaned then 0 else SaturatingSub(e.nlink, lost))
  }

  /** The table without the inodes `gone`, and with the inodes `orphaned` kept only for their open handles. */
  ghost function Detach(t: Table, gone: set<Ino>, orphaned: set<Ino>): Table {
    Table(
      map i | i in t.inodes && i !in gone :: DetachEntry(t, gone, orphaned, i),
      map p | p in t.paths && t.paths[p] !in gone + orphaned :: t.paths[p],
      t.nextInode)
  }

  /** The table with the cached listing of the directories `dirs` marked stale. */
  ghost function Unload(t: Table, dirs: set<Ino>): Table {
    t.(inodes := map i | i in t.inodes ::
         if i in dirs then t.inodes[i].(childrenLoaded := false) else t.inodes[i])
  }
}
