# hf-mount: verified model

This project models the in-memory structures and the protocols at the heart of hf-mount, and proves what
they keep. hf-mount shows a remote repository or bucket as a file system: an inode table holds what is known
of the remote tree, a poller and a change feed keep it up to date, a flush loop carries local writes to the
remote, and several caches and pools sit in between. Each Dafny module follows one part of the program.

| files | part |
|---|---|
| `inode_*.dfy` | the inode table: three redundant indexes that must describe one tree |
| `remote_*.dfy`, `poll*.dfy` | the listing diff, the change feed, and the round that collects listings |
| `follow_resume.dfy`, `sse_parser.dfy` | the reconnect loop of the change feed and the parser of its stream |
| `flush_protocol.dfy`, `delete_queue.dfy` | generation counters between writers and the flush loop; queued remote deletes |
| `registry.dfy` | the mount registry, one method for each lock region |
| `prefetch.dfy` | the read-ahead buffer and the seek window of a file handle |
| `plan_cache.dfy`, `file_cache.dfy`, `handle_pool.dfy` | reconstruction plans, whole files on disk, open handles |
| `path_codec.dfy` | mount paths as file names |
| `options.dfy`, `iteration.dfy` | optional values; walking hash sets and maps in arbitrary order |

## How the model is built

Objects that the program updates in place are classes (`InodeTable`, `RemoteSync`, `FollowLoop`,
`DeleteQueue`, `Registry`, `PrefetchState`, `PlanCache`, `FileCache`, `HandlePool`, `SseParser`). Their methods
have the program's loops and are proved against functions or predicates on plain values, and the properties are
proved about those. Where tasks interleave, the steps are the lock regions: the registry's methods are one
region each, with ghost tokens for the requests in between, and the flush protocol is a transition function over
events of writers, remote updates and the flush loop. `Run` theorems quantify over all sequences of events.

The tree property is `InodeModel.Wf`: the child list and the name index of a directory are the same bijection,
a directory lists exactly its live children, paths extend the parent's path by the name, the path map holds
exactly the live inodes, and a directory has two links and one for each subdirectory. An orphan is an inode
without links that is kept for its open handles.

Content hashes are a function from contents to strings that the flush theorems take as a parameter; revisions
and cursors of the change feed are positions in an append-only log; clocks are counters; the order of hash maps
is arbitrary; sizes, inode numbers and link counts are unbounded, except the generation counter, which saturates
at the 64-bit maximum as in the program.

## What was found

- The listing diff drops open files by parent and name, and closed files together with their path. An orphan
  therefore takes down whatever has its name or its path now. Everything that is not dropped keeps its place
  exactly when no dropped orphan leads, by parent and name when it is open and by path when it is not, to a file or
  directory that is to stay (`RemoteDeletion.OthersKeepTheirPlace`); the table stays a tree exactly when no name
  leads to a directory and no path to an inode that stays (`RemoteDeletion.DeletionsKeepWfIff`).
  `RemoteDeletion.StrayNameTakesThePlace` and `RemoteDeletion.StrayNameBreaksTheTree` show both for a recreated
  file with local writes and for a new directory.
- `remove` on an orphan whose path has been recreated drops the mapping of the recreated file
  (`InodeSpecs.RemoveKeepsWfIff`); `remove_orphan` does not.
- A subscription without a resume point that is answered with a cursor forgets the changes it never saw, for as
  long as the loop holds a cursor (`FollowResume.NoChangeIsSkippedIff`, `FollowResume.GapIff`,
  `FollowResume.GapLasts`, `FollowResume.RefusedRevisionSkipsChanges`).
- A rename of a dirty file between the snapshot and the commit of a flush leaves the file clean at a path that
  the remote does not have (`FlushProtocol.RenameDuringFlushIsForgotten`), unless the batch leaves the same content
  at the new path (`FlushProtocol.CommitPublishesIff`). The comment at src/virtual_fs/flush.rs:308-314 says that
  the next flush cycle corrects concurrent renames; the file is clean by then, so no flush takes it up.
- At the saturated generation counter a concurrent write is lost (`FlushProtocol.SaturatedCounterLosesWrites`).
- A batch publishes a file exactly when no pending delete of the batch names its path
  (`FlushProtocol.BatchPublishes`), because the deletes come last.
- Where documentation and code differ, the model follows the code: eviction from the handle pool stops at a
  pinned oldest handle instead of skipping it (src/nfs.rs:786-788), `update_subtree_paths` has no case for hard
  links (src/virtual_fs/inode.rs:854-855), the path decoder loses the two characters after an invalid percent
  sign and its number parser accepts a plus sign (src/daemon.rs:280-287), and the encoding is injective only up to
  outer slashes (src/daemon.rs:53).
- The event parser departs from section 9.2.6 of the HTML Living Standard exactly where a carriage return stands
  alone, where an event has a name but no data or data but no name, and where an empty first data line is followed
  by others (`SseParsing.AgreesWithStandardIff`).
- A cache directory in which a name occurs in two shards is counted twice at the start, and the surplus is never
  corrected (`FileCaching.ScanIsExactIff`); files in the shard of their name are counted once
  (`FileCaching.ShardedIsExact`).

## Model

| member | source | states |
|---|---|---|
| InodeModel.Position | src/virtual_fs/inode.rs:171-185 | a child is found by inode number exactly when the list holds it, at a position that holds it |
| InodeLemmas.RemoveChildIsFilter | src/virtual_fs/inode.rs:171-176 | removing a child by number takes exactly that child out of the ordered list and out of the name index, which stay the same bijection |
| InodeLemmas.RemoveChildByNameIsFilter | src/virtual_fs/inode.rs:179-185 | removing by name and removing by the number behind that name are the same |
| InodeLemmas.AddKeepsChildList | src/virtual_fs/inode.rs:164-167 | adding a child under a free name keeps list and index one bijection |
| InodeLemmas.ParentIsShorter | src/virtual_fs/inode.rs:9-15 | in a well-formed table a live parent's path is strictly shorter, so parent links have no cycle and the traversals, which keep no visited set, end |
| InodeLemmas.ChildIff | src/virtual_fs/inode.rs:142-146 | a directory lists an inode exactly when the inode is live and names the directory as its parent |
| InodeLemmas.SubtreeIsPathPrefix | src/virtual_fs/inode.rs:9-15 | two independent meanings of 'below' agree: following parent links and being a path prefix at a slash |
| InodeLemmas.InsertKeepsWfIff | src/virtual_fs/inode.rs:570-664 | inserting a fresh entry keeps the three indexes one tree if and only if the parent is a directory of the table, the name is one component, and the path is the parent's path extended by it |
| InodeLemmas.DetachKeepsWf | src/virtual_fs/inode.rs:882-922 | removing any set closed under children and orphaning any set of files keeps the tree |
| InodeSpecs.RemoveKeepsWfIff | src/virtual_fs/inode.rs:904-922 | remove keeps the tree exactly when it is not the root and the path it drops is not owned by another, recreated file |
| InodeSpecs.OrphanSubtree | src/virtual_fs/inode.rs:904-922 | nothing hangs below an unlinked inode |
| InodeSpecs.UnlinkKeepsWfIff | src/virtual_fs/inode.rs:927-951 | unlink_one keeps the tree exactly for files and symbolic links; a directory would keep a wrong link count |
| InodeSpecs.EvictKeepsWf | src/virtual_fs/inode.rs:484-555 | evicting any set of files and unloading any directories keeps the tree |
| InodeSpecs.OrphanKeepsWf | src/virtual_fs/inode.rs:1000-1018 | removing an orphan keeps the tree, also when its path has been reused |
| InodeRuns.StepKeepsWf | src/virtual_fs/inode.rs:484-1018 | one operation whose guard holds keeps the tree, for every operation of the table |
| InodeRuns.RunKeepsWf | src/virtual_fs/inode.rs:484-1018 | every table reached by any sequence of guarded operations is one tree with three agreeing indexes |
| InodeRuns.StepKeepsWrites | src/virtual_fs/inode.rs:484-1018 | one guarded operation, with eviction sparing files with local writes as its methods do: an inode with local writes keeps its entry and its metadata unless it, or a directory above it, is what the operation removes |
| InodeRuns.RunKeepsWrites | src/virtual_fs/inode.rs:484-555 | the same through every sequence of guarded operations: no eviction on the way makes local writes disappear |
| InodeWorklist.WorkStep | src/virtual_fs/inode.rs:745-782 | one turn of a stack traversal: the popped inode is new, and the stack holds each unseen child once |
| InodeWorklist.WorkDone | src/virtual_fs/inode.rs:745-782 | when the stack runs empty, the seen inodes are exactly the subtree |
| InodeRename.ChildPathInjective | src/virtual_fs/inode.rs:9-15 | with names that are non-empty and free of slashes, a path determines parent path and name |
| InodeRename.DestinationIsFree | src/virtual_fs/inode.rs:856-876 | no live inode lies at or below a free destination |
| InodeRename.RebasedInjective | src/virtual_fs/inode.rs:856-876 | rebasing keeps the paths of the moved subtree distinct |
| InodeRename.RenameKeepsWf | src/virtual_fs/inode.rs:856-988 | moving an edge and rebasing exactly the paths below it gives a tree again |
| InodeRename.MoveBelowItselfBreaks | src/virtual_fs/inode.rs:957-988 | a directory moved below itself can never be part of a tree again, whatever its paths |
| InodeRename.MoveSteps | src/virtual_fs/inode.rs:957-988 | the statements of move_child, in order, give the moved edge with both parents' lists, indexes and link counts |
| InodeRename.BelowSomeChild | src/virtual_fs/inode.rs:872-876 | everything below an inode is below one of its listed children |
| InodeRename.SiblingsApart | src/virtual_fs/inode.rs:872-876 | the subtrees of two children are disjoint, so the recursion visits every inode once |
| InodeLru.LruCandidates | src/virtual_fs/inode.rs:419-449 | among the linked files without local writes, open handles and pending deletes, the bounded heap returns at most the requested number, oldest first and in any order within one tick; a candidate is left out only when the list is full and it is newer, by number within one tick, than all that are in |
| InodeTables.InodeTable.constructor | src/virtual_fs/inode.rs:265-308 | the fresh table is a tree that consists of the root |
| InodeTables.InodeTable.Insert | src/virtual_fs/inode.rs:570-664 | an existing path keeps its inode and the table; otherwise the new state is the table with the entry listed, and it is a tree exactly under the insertion condition |
| InodeTables.InodeTable.Remove | src/virtual_fs/inode.rs:904-922 | both maps lose exactly the subtree, and only the parent of its top changes |
| InodeTables.InodeTable.UnlinkOne | src/virtual_fs/inode.rs:927-951 | the named child leaves list, index and path map and loses one link; a missing parent or name changes nothing |
| InodeTables.InodeTable.EvictIfSafe | src/virtual_fs/inode.rs:484-509 | a file without local writes, kernel lookups and pending deletes that is still linked goes, with its path; every other inode keeps its entry and its path; the parent's listing becomes stale, no metadata changes, and the tree stays |
| InodeTables.InodeTable.EvictBatchIfSafe | src/virtual_fs/inode.rs:517-555 | the same for every inode of the batch, sparing open ones as well: each that goes is reported once, all others keep entry and path, and exactly the parents' listings become stale |
| InodeTables.InodeTable.RemoveOrphan | src/virtual_fs/inode.rs:1000-1018 | removes an inode exactly when it has no link, and its path only while the path is still its own |
| InodeTables.InodeTable.MoveChild | src/virtual_fs/inode.rs:957-988 | entry by entry, the edge has moved and nothing else has changed |
| InodeTables.InodeTable.UpdateSubtreePaths | src/virtual_fs/inode.rs:856-876 | the recursion ends, and rebases the entries and path mappings of exactly the subtree |
| InodeTables.InodeTable.Rename | src/virtual_fs/inode.rs:856-988 | with a free name and a destination outside the moved subtree, the two steps restore the tree and rebase exactly the moved paths |
| InodeTables.InodeTable.HasDirtyOrOpenDescendants | src/virtual_fs/inode.rs:745-758 | true exactly when some inode of the subtree is dirty or open |
| InodeTables.InodeTable.HasCleanDescendants | src/virtual_fs/inode.rs:765-782 | true exactly when some strict descendant is clean |
| InodeTables.InodeTable.UpdateRemoteFile | src/virtual_fs/inode.rs:705-729 | replaces the remote metadata of a clean file, leaves dirty and all other files alone |
| InodeTables.InodeTable.MergeRemoteFile | src/virtual_fs/inode.rs:814-840 | absent fields keep their value; dirty files and all other files are left alone |
| InodeTables.InodeTable.InvalidateChildren | src/virtual_fs/inode.rs:732-736 | only the one listing becomes stale |
| InodeTables.InodeTable.NearestDirAncestor | src/virtual_fs/inode.rs:798-809 | the loop finds what the recursive definition says |
| RemotePaths.ParentOfChildPath | src/virtual_fs/poll.rs:650 | cutting at the last slash gives back the directory of a child path |
| RemotePaths.AncestorIffPrefix | src/virtual_fs/inode.rs:798-809 | the ancestors reached by cutting at slashes are the root and every prefix that ends before a slash |
| RemotePaths.NearestDirIsDeepest | src/virtual_fs/inode.rs:798-809 | the walk finds the deepest directory of the table that a path lies under |
| RemoteDeletion.DeletionStep | src/virtual_fs/poll.rs:76-96 | for any files in any order, and whether or not the tree has survived so far: dropping one more file from a partly processed table gives what dropping all of them at once gives |
| RemoteDeletion.DeletionsKeepLoose | src/virtual_fs/poll.rs:670-674 | whatever is dropped, listings and paths still name live inodes and lead up to directories, so the next deletion finds its way |
| RemoteDeletion.DeletionsKeepWfIff | src/virtual_fs/poll.rs:670-674 | dropping a set of files keeps the tree if and only if every name that is unlinked leads to a file and every path that goes with a removed file belonged to an inode that is dropped as well |
| RemoteDeletion.DeletionKeepsWfIff | src/virtual_fs/poll.rs:76-96 | for one file: an open one keeps the tree exactly when its parent and name do not lead to a directory, a closed one exactly when it is linked or nobody owns its path |
| RemoteDeletion.OthersKeepTheirPlace | src/virtual_fs/poll.rs:76-96 | everything that is not dropped stays listed under its name and mapped by its path if and only if no dropped orphan leads, by parent and name when it is open and by path when it is not, to something that is not dropped |
| RemoteDeletion.PlaceKeptIff | src/virtual_fs/poll.rs:76-96 | the same for a single inode |
| RemoteDeletion.DeadLoseTheirPath | src/virtual_fs/poll.rs:76-96 | every dropped file loses its link and its path, and without stray names exactly their paths go |
| RemoteDeletion.StrayNameTakesThePlace | src/virtual_fs/poll.rs:85-94 | a concrete family of tables: whatever has taken the name of a dropped orphan, file or directory, local writes or not, loses its place, whether or not the orphan is open |
| RemoteDeletion.StrayNameBreaksTheTree | src/virtual_fs/poll.rs:85-94 | in the same tables the result is a tree exactly when the orphan is open and no directory has taken its name |
| PollDiff.PulledIs | src/virtual_fs/poll.rs:602-668 | applying the updates of a snapshot one by one refreshes exactly the clean listed files that are out of sync |
| PollDiff.PolledKeepsWfIff | src/virtual_fs/poll.rs:582-698 | one round leaves a tree exactly when its deletions are harmless |
| PollDiff.PollConverges | src/virtual_fs/poll.rs:582-718 | after one round: dirty files untouched; clean files on a line have the line's hash, object id, size and time unless they had its hash (or, without hashes, its object id) and size already; clean files that no line names lose link and path exactly when their directory was listed; everything else keeps number, parent, name, path, kind, handles and place; exactly the listings with something new are stale; the tree stays; for tables without stray names |
| PollDiff.RemoteFilesKeepTheirPlace | src/virtual_fs/poll.rs:644-657 | given the files that the remote really has and listings that name them where they arrived: a file that the remote has keeps its place, whether or not its directory could be listed, if and only if no open unlinked file that the round drops leads to it by parent and name |
| PollDiff.UnlistedFilesAreDropped | src/virtual_fs/poll.rs:644-657 | conversely a live clean file that no line names, in a directory that was listed, is live no longer |
| PollDiff.ListedIs | src/virtual_fs/poll.rs:589-593 | the listing as a map: a path is in it exactly when a file line names it, with what the last such line says |
| PollDiff.PollIsIdempotent | src/virtual_fs/poll.rs:582-718 | the same listing again changes nothing, for every table |
| PollDiff.NewPathsWillBeListed | src/virtual_fs/poll.rs:676-698 | a listed path that the table does not hold lies under a directory whose listing is stale |
| RemoteSyncs.RemoteSync.RemoveRemoteFile | src/virtual_fs/poll.rs:76-96 | drops a clean file, open files by unlinking; the parent is queued with its pages and the file with its pages exactly when nobody has it open; dirty or missing inodes are left alone; the table need not be a tree any more |
| RemoteSyncs.RemoteSync.ListedFiles | src/virtual_fs/poll.rs:589-593 | of several lines for one path the last file line counts |
| RemoteSyncs.RemoteSync.ComputeDiff | src/virtual_fs/poll.rs:599-657 | one update for each clean listed file out of sync, and the deletions are exactly the clean files that no line names, in directories whose listing arrived |
| RemoteSyncs.RemoteSync.ApplyUpdates | src/virtual_fs/poll.rs:665-668 | the state is the snapshot's updates applied in order, and every inode whose metadata changed is queued, with its pages exactly when nobody has it open |
| RemoteSyncs.RemoteSync.ApplyDeletions | src/virtual_fs/poll.rs:670-674 | in any order, on whatever the table has become: the re-check under the lock lets exactly the clean inodes still present go, and each that goes is queued with its parent |
| RemoteSyncs.RemoteSync.FindStaleDirs | src/virtual_fs/poll.rs:676-691 | finds exactly the loaded directories nearest to a listed path that the table does not hold |
| RemoteSyncs.RemoteSync.UnloadDirs | src/virtual_fs/poll.rs:693-698 | exactly these listings become stale |
| RemoteSyncs.RemoteSync.ClearNegative | src/virtual_fs/poll.rs:700-717 | the negative cache loses exactly what is at or below a changed directory |
| RemoteSyncs.RemoteSync.ApplyDiff | src/virtual_fs/poll.rs:659-717 | updates, deletions and stale listings under the write lock, on a table that may have moved on since the snapshot |
| RemoteSyncs.RemoteSync.ApplyPollDiff | src/virtual_fs/poll.rs:582-732 | the four phases together give the state and the negative cache of one poll round, from any tree; every inode whose metadata changed is queued, every dropped file with its parent, with their pages exactly when nobody has them open |
| RemoteSyncs.LateDiffConverges | src/virtual_fs/poll.rs:596-674 | with anything happening between snapshot and lock: files dirty by then are untouched, clean files unchanged since the snapshot agree with the listing, clean dropped files lose their link, inodes unknown to the snapshot keep their metadata, and all others keep their place exactly when no name or path of a dropped file leads there |
| RemoteSyncs.OpenFilesKeepTheirPages | src/virtual_fs/poll.rs:59-71 | a full page invalidation is never queued for an open file that was updated or dropped |
| RemoteSyncs.UpdatesAreTold | src/virtual_fs/poll.rs:59-71 | conversely every inode whose metadata the updates of a snapshot change is queued, with its pages when nobody has it open |
| RemoteSyncs.DeletionsAreTold | src/virtual_fs/poll.rs:76-96 | every file that the deletions drop is queued, with its pages when nobody has it open, and so is its parent |
| PollRounds.ConfirmDeletions | src/virtual_fs/poll.rs:262-281 | sorted by depth, one pass over the failed directories confirms exactly those whose parent is listed or confirmed and that no line names, and so on down; the round is complete exactly when all are confirmed |
| PollRounds.ConfirmedIsGone | src/virtual_fs/poll.rs:262-281 | when the listings that arrived are true, a confirmed directory is gone from the remote |
| PollRounds.ParentDepth | src/virtual_fs/poll.rs:266 | a directory is one level above everything directly in it, so parents are processed first |
| PollFollow.FollowSimulates | src/virtual_fs/poll.rs:479-537 | if every clean file agrees with the remote before a batch of changes, it agrees with the remote moved on by the batch after it |
| PollFollow.LastChangeWins | src/virtual_fs/poll.rs:507-532 | after a batch, whatever the table held before: a path whose last change is a deletion is no clean file of the table, and a clean file has the hash and the size that the last change for its path carries |
| PollFollow.FollowKeepsDirty | src/virtual_fs/poll.rs:507-509 | files with local writes keep metadata and place |
| PollFollow.FollowUnloads | src/virtual_fs/poll.rs:495-506 | a changed path that was not held as a file leaves its nearest directory to be listed again |
| PollFollow.FollowedIsInSync | src/virtual_fs/poll.rs:462-537 | after a batch, a full listing of the remote finds nothing to update and nothing to delete: the feed reaches the state of the poll |
| PollFollow.SelfAndUpIs | src/virtual_fs/poll.rs:551-558 | the loop over slashes visits a path and exactly its ancestors |
| RemoteSyncs.RemoteSync.FollowOne | src/virtual_fs/poll.rs:490-532 | one change does what the simulation step says; the changed file is queued, with its pages exactly when nobody has it open, and the parent of a dropped one |
| RemoteSyncs.RemoteSync.ApplyFollowChanges | src/virtual_fs/poll.rs:479-573 | a batch gives the followed table and the reduced negative cache, and for every change of a clean file held at that step the queue holds the file, with its pages exactly when nobody has it open, and the parent if it was dropped |
| RemoteSyncs.TouchedIs | src/virtual_fs/poll.rs:542-560 | the negative cache forgets a path exactly when it is an added or updated path or an ancestor of one |
| RemoteSyncs.FollowSparesOpenFiles | src/virtual_fs/poll.rs:64-71 | the feed never drops the pages of an open file |
| RemoteSyncs.ChangesAreTold | src/virtual_fs/poll.rs:479-573 | conversely no change of a clean file stays untold: for each change of a batch, judged in the table that the changes before it have left, the kernel hears of the file and, after a deletion, of its directory |
| FollowResume.TurnKeepsInv | src/virtual_fs/poll.rs:339-459 | one turn keeps the invariant; a turn that neither stops nor sleeps is one more refusal, at most three in a row; the loop gives up only for the three stated reasons |
| FollowResume.NoChangeIsSkippedIff | src/virtual_fs/poll.rs:303-460 | in every run against every server, from a known or unknown revision: all changes before the current resume point were applied by the stream or covered by a complete poll round if and only if no gap is open, and everything before the last known revision always is |
| FollowResume.StartIsOk | src/virtual_fs/poll.rs:334-338 | both starts, with a primed revision and without one, satisfy what every run keeps |
| FollowResume.GapIff | src/virtual_fs/poll.rs:360-444 | after any answer a gap is open exactly when the loop holds a cursor that already had one, or that a subscription without cursor and revision gave it while a change of the log had not been seen |
| FollowResume.GapLasts | src/virtual_fs/poll.rs:339-444 | a gap lasts exactly as long as the loop holds a cursor: no stream closes it, every way back to the revision does |
| FollowResume.RefusedRevisionSkipsChanges | src/virtual_fs/poll.rs:374-411 | a concrete run that opens a gap: the revision is refused, the bare subscription answers with a cursor, and changes in between are not looked at while it is good |
| FollowResume.BackoffIsBounded | src/virtual_fs/poll.rs:15-57 | every delay is between the base and 64 times the base |
| FollowResume.ResetGoesBack | src/virtual_fs/poll.rs:418-422 | a stream that is reset leaves the loop at the last known revision with no gap, healthy, whatever came before in the stream and would have come after |
| FollowResume.ResetReconciles | src/virtual_fs/poll.rs:339-359 | the turn after it probes: when the revision moved, a complete round covers the log up to the probed revision and remembers it, an incomplete one sleeps and tries again, and otherwise the loop subscribes from the revision it knew |
| FollowResume.LiveIsOneShot | src/virtual_fs/poll.rs:442-444 | after any stream the loop never subscribes without a resume point again; without a cursor in the stream it keeps the resume point it had |
| FollowResume.ChangesMoveTheCursor | src/virtual_fs/poll.rs:412-417 | after any endless stream a batch of changes is covered, and the resume point is the position after it |
| FollowResume.ReadyEndsTheBackoff | src/virtual_fs/poll.rs:402-411 | ready moves the resume point only when it carries a cursor, and ends the backing off |
| FollowResume.ReconnectEndsTheStream | src/virtual_fs/poll.rs:423-429 | a directed reconnect keeps or moves the resume point the same way, is healthy, and nothing after it in the stream counts |
| FollowResume.HealthyIff | src/virtual_fs/poll.rs:396-441 | a session is healthy exactly when the stream had a ready, a reset or a reconnect |
| FollowResume.GivesUpIff | src/virtual_fs/poll.rs:360-459 | the loop gives up exactly when the feed is not served, when a subscription without resume point is refused, or with the third stream in a row that has neither |
| FollowResume.SetbacksStepBack | src/virtual_fs/poll.rs:366-395 | a refused resume point is given up for the next best one without a pause; a failed connection keeps it and pauses for the server's hint, up to the limit, or for the backoff |
| FollowResume.ProbeIsSkippedOnce | src/virtual_fs/poll.rs:334-341 | only the first turn may skip the probe |
| FollowResume.Backoff.Next | src/virtual_fs/poll.rs:39-43 | returns the current delay and doubles the next one up to the cap |
| FollowResume.FollowLoop.FollowStream | src/virtual_fs/poll.rs:399-441 | the event loop of one session, event by event |
| FollowResume.FollowLoop.ProbeAndReconcile | src/virtual_fs/poll.rs:340-359 | a moved revision is reconciled before it is remembered |
| FollowResume.FollowLoop.EndSession | src/virtual_fs/poll.rs:442-458 | the bookkeeping after a session |
| FollowResume.FollowLoop.Connect | src/virtual_fs/poll.rs:360-395 | the answers to a subscription |
| FollowResume.FollowLoop.FollowRemoteChanges | src/virtual_fs/poll.rs:303-460 | the whole loop, for any script of environment answers, refines the transition function that the run theorems are about |
| FlushProtocol.NoLostWrite | src/virtual_fs/flush.rs:376-583 | in every interleaving of writers, remote updates and the flush loop shorter than the 64-bit counter: a clean inode with a current staging file and no write under way holds exactly the committed content |
| FlushProtocol.NoLostWriteUnlessSaturated | src/virtual_fs/flush.rs:376-583 | the same for runs of any length in which no inode is marked dirty at the maximum of its counter |
| FlushProtocol.NodeStepKeepsInv | src/virtual_fs/inode.rs:200-236 | every step of a writer, a remote update, an open, an unlink or a rename keeps the invariant |
| FlushProtocol.FlushStepKeepsInv | src/virtual_fs/flush.rs:402-583 | snapshot, upload, decision, Hub answer and apply keep the invariant |
| FlushProtocol.FailedChunkKeepsTheBatchDirty | src/virtual_fs/flush.rs:456-481 | a failed upload chunk changes no file, sends nothing, and leaves every file of the batch dirty with an error |
| FlushProtocol.RefusedCommitKeepsTheBatchDirty | src/virtual_fs/flush.rs:558-568 | a refused commit changes no file and nothing on the remote, and leaves exactly the files that were to be committed with an error and dirty |
| FlushProtocol.SaturatedCounterLosesWrites | src/virtual_fs/inode.rs:200-202 | at the saturated counter a concrete run declares an inode clean that has newer bytes |
| FlushProtocol.DedupedIs | src/virtual_fs/flush.rs:385-388 | deduplication keeps each inode once |
| FlushProtocol.Dedup | src/virtual_fs/flush.rs:385-388 | walking backwards with a seen set and reversing gives each inode at its last request |
| FlushProtocol.BuildOps | src/virtual_fs/flush.rs:496-546 | all additions come first; every item with a pending delete or with a hash that is not the committed one has its addition and each of its deletions in the batch; nothing else is in the batch |
| FlushProtocol.ChangedItemIsSent | src/virtual_fs/flush.rs:502-546 | an item with a pending delete or new content has its addition and every one of its deletions among the operations |
| FlushProtocol.BatchIsWhatChanged | src/virtual_fs/flush.rs:502-546 | every operation comes from such an item, and no addition stands after a deletion |
| FlushProtocol.DecideSettlesOnlyTheUnchanged | src/virtual_fs/flush.rs:500-546 | before the Hub is asked, an inode changes only as that of an item without pending deletes whose content is the committed one, and becomes clean unless it was written meanwhile; a batch is sent exactly when some item is not of this kind |
| FlushProtocol.DedupedInOrder | src/virtual_fs/flush.rs:385-388 | the batch is in the order of the last requests |
| FlushProtocol.SnapshotIs | src/virtual_fs/flush.rs:403-440 | the batch holds exactly the requested inodes that exist, are linked and dirty, each with its path, pending deletes, generation and committed hash |
| FlushProtocol.DirtyBytesStay | src/virtual_fs/flush.rs:376-583 | the bytes of a dirty file change only by its writers and by a truncating open |
| FlushProtocol.StagingIsFilledIff | src/virtual_fs/mod.rs:2006-2080 | an open fills the staging file anew exactly when it truncates or finds neither local writes nor a current file, and only while no upload reads it |
| FlushProtocol.MarkMovesTheGeneration | src/virtual_fs/inode.rs:200-202 | a marked write moves the generation on, up to the saturated maximum, and forgets the committed hash exactly when it replaces the file |
| FlushProtocol.RemoteChangesSpareWrites | src/virtual_fs/inode.rs:705-840 | what a poll or the feed reports changes clean files only, field by field, and leaves their staging files stale |
| FlushProtocol.RenameRemembersThePath | src/virtual_fs/mod.rs:4185-4192 | a rename remembers the old path for deletion exactly when the file has local writes and the remote knows it |
| FlushProtocol.ChunksAreBounded | src/virtual_fs/flush.rs:450-481 | uploads go in chunks of at most five hundred files, and a chunk's answers are appended |
| FlushProtocol.RenameThenFlushMovesTheFile | src/virtual_fs/flush.rs:502-546 | a dirty file that the remote knows is renamed and flushed: the remote has its content at the new path and nothing at the old one, also when the content is what it was |
| FlushProtocol.UnlinkedIsNotFlushed | src/virtual_fs/flush.rs:415-418 | a file that was unlinked is in no batch, whatever a flush is asked for |
| FlushProtocol.BatchPublishes | src/virtual_fs/flush.rs:496-568 | a committed batch leaves each changed file at its snapshot path with its new hash if and only if no pending delete of any item names that path |
| FlushProtocol.BatchLeavesTheRest | src/virtual_fs/flush.rs:496-568 | a path that the batch does not mention is as before |
| FlushProtocol.BatchIs | src/virtual_fs/flush.rs:496-568 | the content that a batch leaves at any path: nothing where it deletes, what it adds there, else what was there |
| FlushProtocol.CommitPublishesIff | src/virtual_fs/flush.rs:546-583 | from a sent batch, through any events, the acceptance of the Hub, any events, and the commits: a file marked dirty meanwhile keeps everything but its times; any other is clean, no flush takes it up again, and the remote has its content at its path exactly when it has kept the snapshot path and no pending delete names that, or the batch leaves the same content at the path it was renamed to; under the snapshot path the content stays behind |
| FlushProtocol.RenameDuringFlushIsForgotten | src/virtual_fs/flush.rs:309-314 | a concrete run: a rename between snapshot and commit ends with a clean file at a path the remote does not have, and its pending delete forgotten |
| DeleteQueues.DeleteQueue.Enqueue | src/virtual_fs/flush.rs:127-137 | the path is queued and accounted for |
| DeleteQueues.DeleteQueue.CancelDelete | src/virtual_fs/flush.rs:140-145 | exactly the queued occurrences of the path are cancelled |
| DeleteQueues.DeleteQueue.CancelDeletePrefix | src/virtual_fs/flush.rs:148-153 | exactly the queued paths with the prefix are cancelled |
| DeleteQueues.DeleteQueue.TakeBatch | src/virtual_fs/flush.rs:315-328 | the whole queue becomes one live batch, or nothing happens |
| DeleteQueues.DeleteQueue.EndBatch | src/virtual_fs/flush.rs:354-362 | a batch ends committed or queued again; the in-flight counter is the size of the live batches and cannot underflow |
| DeleteQueues.DeleteQueue.PendingCount | src/virtual_fs/flush.rs:103-106 | the reported count is what was enqueued and is neither committed nor cancelled |
| DeleteQueues.DeleteQueue.FlushPendingDeletes | src/virtual_fs/flush.rs:315-343 | with or without an answer, no path disappears |
| DeleteQueues.Ended | src/virtual_fs/flush.rs:354-362 | both ways of ending a batch keep every enqueued occurrence in exactly one place |
| DeleteQueues.Revoked | src/virtual_fs/flush.rs:140-153 | cancelling keeps every enqueued occurrence in exactly one place |
| MountRegistry.Adds | src/manager/registry.rs:242-288 | a new entry keeps one entry per target, because only failed records of the target are replaced |
| MountRegistry.Arrives | src/manager/registry.rs:301-327 | a finished mount keeps the registry consistent: it is mounted with its handle or failed without |
| MountRegistry.ArrivesLate | src/manager/registry.rs:304-309 | a mount whose entry is gone can only be one that a teardown cleared |
| MountRegistry.BeginsToStop | src/manager/registry.rs:377-393 | taking the handle out of a mounted entry keeps the registry consistent |
| MountRegistry.Stopped | src/manager/registry.rs:402 | the cleanup by target removes exactly the entry that this request stopped |
| MountRegistry.DropFailedFacts | src/manager/registry.rs:487-499 | pruning drops only failed records, oldest first, down to the limit |
| MountRegistry.DropFailedIsOldest | src/manager/registry.rs:487-499 | up to some entry all failed records go and from there on none: no record goes that is newer than a failed one that stays |
| MountRegistry.Registry.BeginMount | src/manager/registry.rs:242-288 | a mount begins exactly when there is no shutdown, the drive is free and every entry of the target has failed |
| MountRegistry.Registry.FinishMount | src/manager/registry.rs:301-330 | the entry becomes mounted or failed, or the handle is given back |
| MountRegistry.Registry.BeginUnmount | src/manager/registry.rs:349-393 | each refusal with its reason, or the entry is stopping and its handle taken |
| MountRegistry.Registry.UnmountHandle | src/manager/registry.rs:395-401 | a handle is unmounted only once |
| MountRegistry.Registry.FinishUnmount | src/manager/registry.rs:402 | exactly the stopped entry goes |
| MountRegistry.Registry.Dismiss | src/manager/registry.rs:443-455 | clears exactly the failed record of the target |
| MountRegistry.Registry.PruneFailed | src/manager/registry.rs:487-499 | at most twenty failed records remain; without an excess nothing changes |
| MountRegistry.Registry.FailLost | src/manager/registry.rs:192-209 | exactly the mounts whose volume is gone fail, and their handles are taken once |
| MountRegistry.Registry.ListMounted | src/manager/registry.rs:470-474 | the targets of the mounted entries |
| MountRegistry.Registry.StopListed | src/manager/registry.rs:476-481 | a listed target has no mount afterwards |
| MountRegistry.Registry.ClearAll | src/manager/registry.rs:482 | a handle that is dropped unmounted belongs to a mount that finished after the listing |
| MountRegistry.Registry.UnmountAll | src/manager/registry.rs:469-485 | without interference every mounted volume is unmounted |
| Prefetch.ReadChunkRange | src/virtual_fs/prefetch.rs:287-317 | the bytes of a range of the unread chain, across chunk boundaries |
| Prefetch.PrefetchState.DrainToSeek | src/virtual_fs/prefetch.rs:234-277 | exactly the consumed bytes leave the buffer; outside direct mode the seek window then ends where the buffer begins and stays bounded |
| Prefetch.PrefetchState.TryServeForward | src/virtual_fs/prefetch.rs:192-212 | serves exactly the offsets in the buffer, with the file's own bytes |
| Prefetch.PrefetchState.TryServeSeek | src/virtual_fs/prefetch.rs:216-230 | serves exactly the offsets in the seek window, with the file's own bytes; never in direct mode |
| Prefetch.PrefetchState.PrepareFetch | src/virtual_fs/prefetch.rs:106-174 | sizes the download within the file and the adaptive window, classifies the access, and continues a stream only at the exact end of what it delivered |
| Prefetch.PrefetchState.StoreFetched | src/virtual_fs/prefetch.rs:177-182 | the buffer holds the download |
| Prefetch.PrefetchState.FetchData | src/virtual_fs/mod.rs:2304-2455 | delivers the bytes of the first chunks that reach the size asked for, cut at the end of the range for a range download and at the end of the file for a stream; exactly a stream that delivered enough stays open, and stands at the end of what was delivered |
| Prefetch.PrefetchState.Read | src/virtual_fs/mod.rs:2490-2563 | whatever is buffered and however downloads are cut: the bytes are the file's own, none is missing before the end, and the end flag is exact |
| PlanCaching.DeriveRange | src/cached_xet_client.rs:105-143 | the kept terms are the contiguous run that overlaps the range, they denote exactly the requested bytes, every kept hash keeps its xorb, and the plan is empty exactly past the end |
| PlanCaching.RunDenotes | src/cached_xet_client.rs:105-143 | the run's bytes from the offset on are the requested bytes of the file |
| PlanCaching.PlanCache.TryGet | src/cached_xet_client.rs:175-189 | a valid entry answers and becomes recent, an expired one is dropped |
| PlanCaching.PlanCache.LookUp | src/cached_xet_client.rs:172-201 | the exact key first, then the plan of the file; every answer was given by the server under that key |
| PlanCaching.PlanCache.AnswerFromFull | src/cached_xet_client.rs:213-229 | no answer exactly past the end of the file, except for the empty file at its start; otherwise the requested bytes |
| PlanCaching.PlanCache.Join | src/cached_xet_client.rs:233-243 | one leader per key, and whoever waits waits for a key that is being fetched |
| PlanCaching.PlanCache.Store | src/cached_xet_client.rs:256-281 | the cache stays within its bound; a plan of a file makes its ranges redundant; a full cache gives up its ranges first, then its least recently used plan |
| PlanCaching.PlanCache.MakeRoom | src/cached_xet_client.rs:265-279 | ranges go first, then the least recently used plan |
| PlanCaching.PlanCache.Release | src/cached_xet_client.rs:283-285 | the key leaves and everyone who waited for it is woken |
| PlanCaching.PlanCache.FinishFetch | src/cached_xet_client.rs:250-287 | the leader stores the plan of the server, the key leaves, and everyone who waited for it is woken |
| PlanCaching.PlanCache.OneRound | src/cached_xet_client.rs:160-287 | one round among other requests: a hit, an answer from the plan of the file, waiting for the fetch of another, or the server as leader |
| PlanCaching.PlanCache.GetReconstruction | src/cached_xet_client.rs:147-291 | among other requests, which may do anything that keeps the shared state valid between the locks: the reply is that of the first round that does not have to wait, and every plan returned was given by the server for that key or derived from the plan of the same file that the server gave |
| FileCaching.TotalSplit | src/file_cache.rs:40-43 | the byte total is a sum that one item can be taken out of |
| FileCaching.NewestSurvives | src/file_cache.rs:324-379 | the newest file is never a victim |
| FileCaching.ScanExisting | src/file_cache.rs:92-141 | the walk over shards and entries indexes the files found, adds up their sizes and finds the newest time |
| FileCaching.ScanIsExactIff | src/file_cache.rs:97-138 | the sum of the scan is the total of the index if and only if no file with bytes is replaced by a later one of the same name; otherwise it is too large |
| FileCaching.ShardedIsExact | src/file_cache.rs:143-151 | files that lie in the shard of their name are counted once each |
| FileCaching.IndexedIff | src/file_cache.rs:97-138 | a name is indexed exactly when a file with it lies in a scanned shard, and never for the temporary shard alone |
| FileCaching.FileCache.constructor | src/file_cache.rs:61-91 | rediscovered files keep their age, the clock starts after them, and the accounting is right from the start exactly when no name was found twice with bytes in the earlier file |
| FileCaching.FileCache.TryOpen | src/file_cache.rs:167-184 | a hit becomes the most recent file, a vanished file is forgotten |
| FileCaching.FileCache.Forget | src/file_cache.rs:187-195 | the item and exactly its bytes go |
| FileCaching.FileCache.NeedsPopulate | src/file_cache.rs:213-227 | nothing to do for a nameless file, for one that could never fit, or for one that is there |
| FileCaching.FileCache.StartPopulate | src/file_cache.rs:229-247 | done, follow or lead; at most one leader per file |
| FileCaching.FileCache.EndPopulate | src/file_cache.rs:402-412 | the guard clears the entry and wakes every follower |
| FileCaching.FileCache.LeadPopulate | src/file_cache.rs:258-270 | however the download ends, also when cancelled, the file is in flight no longer |
| FileCaching.FileCache.PopulateInner | src/file_cache.rs:272-349 | publishes exactly the downloads of the right size that fit |
| FileCaching.FileCache.Publish | src/file_cache.rs:324-343 | afterwards the total is within the capacity, the victims are the shortest prefix in access order, and the new file stays |
| FileCaching.FileCache.EvictLocked | src/file_cache.rs:351-379 | evicts exactly the shortest prefix of the oldest files |
| FileCaching.FileCache.CountVictims | src/file_cache.rs:362-370 | counts the shortest sufficient prefix; the running difference never goes below zero |
| FileCaching.FileCache.RemoveVictims | src/file_cache.rs:371-379 | removes the victims and exactly their bytes |
| HandlePooling.HandlePool.Pin | src/nfs.rs:731-735 | one more pin, same access order |
| HandlePooling.HandlePool.Unpin | src/nfs.rs:737-741 | exactly its own pin goes, as long as the entry was not taken away under the operation |
| HandlePooling.HandlePool.AcquireShared | src/nfs.rs:745-752 | pins and makes the inode the most recent |
| HandlePooling.HandlePool.Remove | src/nfs.rs:761-765 | the entry leaves, once |
| HandlePooling.HandlePool.Insert | src/nfs.rs:789-824 | the replaced handle and the oldest unused ones leave, in that order; the rest keeps its order; afterwards the pool is within its capacity or the oldest handle is in use |
| HandlePooling.HandlePool.EvictOldest | src/nfs.rs:800-814 | evicts a prefix of the access order, none of it in use |
| HandlePooling.HandlePool.Drain | src/nfs.rs:768-774 | every handle leaves once |
| HandlePooling.Leaves | src/nfs.rs:761-824 | a handle that leaves has left for good: no handle leaves twice |
| SseParsing.PushTwice | src/follow.rs:106-149 | two chunks are as good as one: same events, same parser state |
| SseParsing.FramingIndependent | src/follow.rs:106-149 | any chunking of a stream gives the events of the whole stream |
| SseParsing.BufferHasNoNewline | src/follow.rs:110-147 | no newline is ever left behind, so none is skipped by the scan offset |
| SseParsing.SseParser.Push | src/follow.rs:106-149 | the loop with its scan offset computes the line-by-line meaning of buffer and chunk |
| SseParsing.SseParser.Handle | src/follow.rs:117-145 | the meaning of one line |
| SseParsing.LinesAgreeIff | src/follow.rs:110-115 | the parser splits a stream into the lines of section 9.2.6 of the HTML Living Standard if and only if every carriage return is directly followed by a line feed; otherwise the standard sees more lines |
| SseParsing.TraceAgreesIff | src/follow.rs:117-142 | on the same lines, every line dispatches what the standard dispatches if and only if every event has both a name and data or neither, and its first data value is not empty unless it is the only one |
| SseParsing.FieldsAgree | src/follow.rs:124-130 | the parser's split of a field line is the standard's: the name before the first colon, the value after it without one leading space |
| SseParsing.ValueWithoutSpace | src/follow.rs:124-130 | a value that does not start with a space follows the colon directly |
| SseParsing.AgreesWithStandardIff | src/follow.rs:106-149 | for every byte stream in any chunks: line by line the parser dispatches what the standard dispatches exactly under both conditions, and then delivers its events |
| SseParsing.DisagreementsCancelOut | src/follow.rs:117-142 | why the comparison goes line by line: a concrete stream on which two disagreements give the same list of events |
| PathCodec.TwoReplacesAreOne | src/daemon.rs:54-59 | the two sequential replacements are one substitution per character |
| PathCodec.DecodePath | src/daemon.rs:274-292 | the loop computes the recursive decoding |
| PathCodec.DecodeEncode | src/daemon.rs:54-59 | decoding an encoded path gives it back without outer slashes but one in front, and the encoding has no slash |
| PathCodec.RoundTripIff | src/daemon.rs:274-292 | the round trip is exact for paths with one leading and no trailing slash and for no others |
| PathCodec.DecodesEveryByte | src/daemon.rs:274-292 | every byte is read back from its two hexadecimal digits, in either case, wherever they stand |
| PathCodec.EncodingCollidesIff | src/daemon.rs:52-59 | two paths share a file name exactly when they differ only in outer slashes |
| PathCodec.CanonicalPathsDoNotCollide | src/daemon.rs:52-59 | paths with one leading and no trailing slash have different file names |
| PathCodec.InvalidSequenceLosesTwo | src/daemon.rs:277-288 | an invalid sequence keeps the percent sign and loses the two characters after it |

## Left out

- The `VirtualFs` operations (open, write, rename, unlink, fsync): what they guarantee are preconditions, such as a
  free rename target outside the moved subtree (`RenameOk`) and a write that changes bytes and then marks the inode.
- RemoteSync.ApplyPollDiff: the round on an idle table; with anything happening between the snapshot and the write
  lock, `ComputeDiff`, `ApplyDiff` and `LateDiffConverges` say what is kept.
- PollConverges: for tables without stray names, outside which `OthersKeepTheirPlace` says that it fails.
- FollowedIsInSync: only for files that have a content hash, because the feed does not carry object ids.
- NoLostWrite: runs are shorter than the 64-bit counter; the saturated case is the counterexample beside it.
- The staging file that is missing at the snapshot of a flush, staging garbage collection, streaming writes, and the
  failure of a local file operation between changing bytes and marking the inode.
- ClearAll: a mount that finishes between the listing and the clearing of a teardown is dropped, not unmounted; the
  contract says exactly that, and not that every handle is unmounted.
- PlanCaching.PlanCache.GetReconstruction: that a request is answered in the end depends on the leaders it waits for.
- Registry.UnmountAll: its regions follow each other; the regions themselves have contracts for every state that the
  other requests can leave.
- Cancellation of the leader of a plan request: it has no guard, so only safety is stated for the plan cache.
- InodeTable.Insert: the debug assertions and the kind of an entry that already has the path.
- Entry fields that the proofs do not need: mode, owner, access and change times, symbolic link targets, the
  revalidation stamp, where a listing came from, whether a directory was created locally, the pending-eviction flag,
  and whether touches are recorded. The remaining metadata is grouped in `FileMeta` and `EvictionState`.
- PrefetchState.FetchData: one download attempt per fetch; the retries and the timeout only choose among its outcomes,
  and a stream that ends without any byte, which the program keeps, is dropped here, as nothing can come from it.
- LruCandidates: the heap is represented by its content in order, not by its array layout.
- Registry journal, activity log, statistics, reports and upload retries; error texts everywhere.
- Decoding bytes to text in the event parser is a parameter, with the byte order mark that may start a stream; the
  last event number and the typed events are not modelled.
- FUSE, NFS and WinFsp front ends, the Hub client, Xet transfer, daemon forking, settings and the desktop program:
  input and output, which appear here only as nondeterministic answers.
