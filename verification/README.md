# Workspace forest: disk, tree, cache and index

The workspace is a forest of nodes kept in several forms at once: directories
nested by slug, each with a `node.json` that holds `id`, `parent_id` and an
ordered `children_ids`; the in-memory `Tree`; the runtime cache (a dictionary
beside a snapshot tree that is never updated); and the search index (one row
per node, with the root ancestor as its story). This project models the code
that keeps these forms in step and proves that it does, and where it does not.

## How the model is laid out

| file | contents |
|---|---|
| `Domain.dfy`, `Seqs.dfy`, `Order.dfy` | nodes and errors; facts about sequences without repeats; string order |
| `Forest.dfy` | forests by parent pointers: ancestor chains, subtrees, re-parenting, breadth-first walks along child lists |
| `Walks.dfy` | the same walks over child lists that may say anything: what they find and exactly when they end |
| `Tree.dfy` | the `Tree` class, and each operation as a function on forests |
| `Slug.dfy` | `slugify` and the numbered candidates |
| `Disk.dfy`, `DiskOps.dfy`, `LocalFilesystem.dfy` | the disk as records by path; what each write does to it; the class that does it step by step |
| `WriteFacts.dfy` | the writes once more in plain terms, record by record and directory by directory |
| `Reconstruct.dfy` | rebuilding a tree from any list of records |
| `Refinement.dfy`, `Removal.dfy` | writes as tree operations on what loading gives; deleting leaf by leaf |
| `Crash.dfy` | what loading gives when the process stops between the steps of a write |
| `Cache.dfy`, `CacheRuns.dfy`, `CacheReads.dfy`, `CacheFindings.dfy` | the cache; its safety over every run of writes and restarts; exactly when reads stay right from any snapshot; what goes wrong |
| `Index.dfy`, `Sync.dfy`, `Reconciler.dfy` | rows and their projection; the incremental hooks; the full rebuild |
| `IndexRuns.dfy`, `IndexPaths.dfy` | writes, failures and rebuilds as a state machine; the path column |
| `Repository.dfy`, `Dispatch.dfy`, `Service.dfy` | the repository class; its calls on the synchroniser; the service with its cycle search |
| `Startup.dfy`, `Search.dfy` | boot classification; search |

A disk is a map from path (directory names from the root) to record. `Placed`
says ids are unique and every `parent_id` is the id of the enclosing node;
`WF` adds that `children_ids` lists exactly the child directories, without
repeats. `TreeOf(d)` is the same records by id. A forest is `WellFormed` when
ids key it, parents resolve without cycles (witnessed by a rank), and parent
pointers and child lists agree. Each imperative method is proved equal to a
function on these values, and the theorems are about those functions. The lemmas
named `...Plain` say what such a function gives without naming it or its parts.

Unicode normalisation and case folding are function parameters (`fold`,
`casefold`); time is a number handed in; every call that may fail at run time
takes its outcome from a parameter (`Env`, `RebuildEnv`, `Faults`, `Probes`).

## What the code does differently from what it says

The model follows the code in each of these places.

- `update_metadata` rewrites the whole node it read through the cache, child
  list included. `UpdateKeepsWFIff` gives the exact condition under which the
  disk stays well-formed, and `CachedRunKeepsWFIff` lifts it to whole runs: no
  other write with a cache ever breaks a well-formed disk. Even where it stays
  well-formed it can undo a reordering of children (`CachedWriteIsTreeOpIff`).
- A delete with a loaded cache reports the ids the snapshot leads to. It can
  report a node that was moved away and is still on disk
  (`DeleteReportsLiveNode`), and it can miss a node created below since, which
  leaves the disk while its index row stays (`DeleteMissesNewNode`).
  `DeleteReportsExactlyIff` says for every delete and every snapshot when the
  report is exact.
- The walks over child lists, in the snapshot and on disk, keep no visited set.
  `WalkEndsIff` says exactly when one ends: no node it meets is listed somewhere
  below itself. `DeleteCommitsIff` and `MoveReturnsIff` carry this over to the
  delete and the move. `DeleteCanHang` gives, for every parent and child, a run
  of five writes after which deleting one node never reaches the disk. A restart
  makes it worse (`RestartCanHang`): boot snapshots the loop, so the delete of a
  node that the snapshot knows never reaches the disk, and its move never returns.
- Boot takes its snapshot of whatever child lists are on disk by then. Where one
  misses an entry, a delete leaves the missed node in the cache, and reading it
  returns a node that is gone: after creating a node below a childless one,
  updating the parent's metadata from the cache, a restart, and deleting the
  parent (`RestartCanReadDeleted`). `RunReadsIff` says exactly over which runs,
  from any snapshot, cached reads stay right.
- A move that stops between renaming the directory and rewriting the record
  makes loading drop the moved subtree, depending on how the two directories
  sort (`CrashBeforeRewrite`).
- `LocalFilesystem.rename_node` renames the directory before a blank title is
  refused (`ReslugUnchangedIff`); the service checks the title first, so this
  takes a caller below it.
- A move to a missing parent is documented to raise a parent-not-found error.
  The repository rewrites the error to name the moved node, so the service
  reports that node as missing (`MissingParentBlamesNode`), and on a
  well-formed disk it never reports a missing parent (`AlwaysCycle`).
- A failed id listing during a rebuild leads to a report with errors although
  the rows were replaced; the report type promises that errors mean nothing was
  committed. `ErrorsMeanUntouchedIff` says for every index when they do.
- A rename leaves the row's path alone; `RenamePathsIff` says exactly when that
  is right. A rename of an absent row is silently no failure, although the
  comment there speaks of a stale flag.
- `Tree.subtree` documents an order by node id and follows child lists
  (`WalkFollowsList`).
  `Tree.attach` does not detach from an old parent (`AttachKeepsIff`).
- `LocalFilesystem.delete_node` says it deletes the deepest directory first; it
  removes the top directory first, which takes everything with it (`TopFirst`).
- A move inside the same parent picks a new directory name, because the node's
  own old directory counts as taken.

## Model

| member | source | states |
|---|---|---|
| Forests.WalkExact | backend/domain/tree.py:75-100 | on a well-formed forest the breadth-first walk, which keeps no visited set, ends and visits exactly the nodes whose ancestor chain reaches its start, each once, never a deeper one before a shallower one |
| Forests.ParentsFirst | backend/domain/tree.py:75-100 | in such a walk every parent comes before its children |
| Walks.WalkEndsIff | backend/domain/tree.py:86-100 | on any forest, whatever its child lists say, the walk ends if and only if no node it meets is listed somewhere below itself |
| Walks.WalkIdsReached | backend/domain/tree.py:86-100 | a walk that ends has met exactly the nodes that child lists lead to |
| Walks.WalkFollowsList | backend/domain/tree.py:86-100 | after its start the walk takes the children in the order of their list, whatever their ids |
| Walks.CoveringWalk | backend/domain/tree.py:86-100 | where every child is listed by its parent and no walk meets a loop, each walk ends and meets its whole subtree |
| Walks.HangLoopFreeIff | backend/filesystem/impl/local_filesystem.py:400-413 | listing a node below a new parent keeps the walk below the node finite exactly when it was finite and does not meet that parent |
| Forests.ReparentSafeIff | backend/domain/tree.py:201-215 | hanging a node under a present node keeps parents acyclic exactly when the new parent is outside its subtree |
| Forests.ReparentRoots | backend/index/sync.py:485-520 | after a move the story of exactly the moved subtree becomes that of the new parent (or the node itself at root), every other node keeps its story, and the subtree is the same set of nodes |
| Trees.AddKeeps | backend/domain/tree.py:104-135 | adding a childless node and attaching it to the parent it names keeps the forest well-formed |
| Trees.AttachKeepsIff | backend/domain/tree.py:118-135 | attach keeps a well-formed forest well-formed exactly when the node was a root or already below the target |
| Trees.DetachKeeps | backend/domain/tree.py:137-149 | detach keeps the forest well-formed |
| Trees.InsertKeeps | backend/domain/tree.py:151-160 | insert_child of a root or own child outside the node's subtree keeps the forest well-formed |
| Trees.PutAtExact | backend/domain/tree.py:162-172 | move_child permutes the list: the child lands on the clamped index, the others keep their relative order, nothing is repeated or lost; `Trees.PutAtLands` says where that is |
| Trees.PutAtLands | backend/domain/tree.py:162-172 | with the others in their order: the child comes first for a position of zero or less, last from their number on, and between the first so many and the rest otherwise |
| Trees.AttachPlain | backend/domain/tree.py:118-135 | record by record: the node gets the parent, the parent's list gets the node at its end unless it has it, nothing else changes |
| Trees.DetachPlain | backend/domain/tree.py:137-149 | record by record: the node loses its parent, the old parent's list loses the node, nothing else changes |
| Trees.InsertPlain | backend/domain/tree.py:151-160 | record by record: the new parent, and the place on its list, last without a position |
| Trees.RemovePlain | backend/domain/tree.py:174-184 | record by record: the node and its listing go, nothing else changes |
| Trees.RemoveKeeps | backend/domain/tree.py:174-184 | removing a leaf keeps the forest well-formed |
| Trees.RemoveAcyclicIff | backend/domain/tree.py:174-184 | removing a node leaves every parent resolving exactly when the node had no children |
| Trees.Tree.Subtree | backend/domain/tree.py:75-100 | the loop returns the nodes of the walk in order, and fails exactly on an absent start |
| Trees.Tree.Add | backend/domain/tree.py:104-116 | succeeds exactly for a new id whose parent, if named, is present; a refusal changes nothing |
| Trees.Tree.Attach | backend/domain/tree.py:118-135 | which error in which order, and the new forest; a refusal changes nothing |
| Trees.Tree.Detach | backend/domain/tree.py:137-149 | the node is unlisted and made a root, nothing else changes |
| Trees.Tree.InsertChild | backend/domain/tree.py:151-160 | attach, then reposition when a position is given |
| Trees.Tree.MoveChild | backend/domain/tree.py:162-172 | on success the child lands among the others where the position says (first, between or last), the parent keeps everything else and no other record changes; the errors |
| Trees.Tree.Remove | backend/domain/tree.py:174-184 | drops any one node and its listing; the tree stays valid exactly when it was a leaf |
| Trees.Tree.ReplaceChildren | backend/domain/tree.py:186-199 | replaces one child list and nothing else |
| Trees.Tree.ChildrenOf | backend/domain/tree.py:63-69 | the listed children in order; fails exactly when the node or a listed child is absent |
| Trees.Tree.AssertNoCycle | backend/domain/tree.py:201-215 | the upward walk ends and refuses exactly the new parents inside the node's subtree |
| Slugs.SlugifyIsSlug | backend/filesystem/slug.py:17-37 | whatever the title, the result is non-empty, over [a-z0-9-], without a dash at either end or two in a row |
| Slugs.SlugifyFixesExactlySlugs | backend/filesystem/slug.py:17-37 | the slugs are exactly the strings slugify leaves alone and exactly its results; it is idempotent |
| Slugs.SlugifyJoinsWords | backend/filesystem/slug.py:17-37 | for every title, the slug is the longest runs over [a-z0-9] of the folded title with one dash between any two, or "node" when there is none |
| Slugs.SlugifySpread | backend/filesystem/slug.py:17-37 | the same from the other side: any number of words with any other text before, after and (not empty) between them give those words with single dashes; no word gives "node" |
| Slugs.SlugifyTwo | backend/filesystem/slug.py:17-37 | two slugs with any text free of [a-z0-9] between them give one slug with one dash between them |
| Slugs.CandidatePlain | backend/filesystem/impl/local_filesystem.py:359-363 | the first candidate is the base, the k-th the base, a dash and k in decimal without leading zeros |
| Slugs.CandidatesDistinct | backend/filesystem/impl/local_filesystem.py:359-363 | base, base-2, base-3, ... are pairwise different |
| Slugs.CandidateVisible | backend/filesystem/impl/local_filesystem.py:308-325 | no candidate is a hidden directory or clashes with node.json or canvas.md |
| DiskOps.CandidatesRunOut | backend/filesystem/impl/local_filesystem.py:350-366 | pigeonhole: n siblings cannot take n+1 candidates, so the search for a name ends |
| LocalFilesystems.LocalFilesystem.FindUniqueSlug | backend/filesystem/impl/local_filesystem.py:350-366 | the loop ends with the first candidate that is unused or the excluded name |
| DiskOps.TargetFree | backend/filesystem/impl/local_filesystem.py:109-113 | the chosen directory lies in the parent, is visible, and is new unless it is the excluded one |
| Disks.SubtreeIsPrefix | backend/filesystem/impl/local_filesystem.py:327-348 | on a placed disk a node's descendants are exactly the nodes stored below its directory |
| Disks.MoveKeepsPlaced | backend/filesystem/impl/local_filesystem.py:193-200 | renaming a directory into a container outside itself and rewriting the parent keeps ids unique and parents equal to enclosing nodes |
| Disks.RenameTree | backend/filesystem/impl/local_filesystem.py:133-136 | renaming a directory does not show in the forest and moves exactly the paths below it |
| Disks.WFIff | backend/filesystem/impl/local_filesystem.py:102-230 | a disk is well-formed exactly when it is placed and its forest is well-formed |
| DiskOps.CreateKeepsWF | backend/filesystem/impl/local_filesystem.py:102-126 | create keeps the disk well-formed and on the forest is add then attach; `WriteFacts.CreatePlain` says record by record what that is |
| DiskOps.RenameKeepsWF | backend/filesystem/impl/local_filesystem.py:128-140 | rename keeps the disk well-formed and on the forest changes one title |
| DiskOps.MoveKeepsWF | backend/filesystem/impl/local_filesystem.py:157-208 | move keeps the disk well-formed and on the forest is detach then insert_child at the same position, or detach alone to root; `WriteFacts.MovePlain` says record by record what that is |
| DiskOps.MoveIsDetachInsert | backend/filesystem/impl/local_filesystem.py:380-413 | the filesystem's own list surgery equals the tree's detach and insert_child |
| DiskOps.MovableIff | backend/filesystem/impl/local_filesystem.py:169-187 | a move is possible exactly when the node and the new parent exist and the new parent is outside the node's subtree |
| DiskOps.DeleteKeepsWF | backend/filesystem/impl/local_filesystem.py:210-228 | delete keeps the disk well-formed and on the forest removes exactly the subtree and its listing |
| WriteFacts.CreatePlain | backend/filesystem/impl/local_filesystem.py:102-126 | after a create the disk holds the node as given, title, type and metadata, without children and below the given parent; the parent lists it last; no other record changes |
| WriteFacts.RenamePlain | backend/filesystem/impl/local_filesystem.py:128-140 | after a rename one title differs and nothing else; after one refused for a blank title no record differs |
| WriteFacts.MovePlain | backend/filesystem/impl/local_filesystem.py:157-208 | after a move the node differs in its parent only, the old parent's list lacks it, the new parent's list is the others with the node first, between or last as the position says, and no other record changes |
| WriteFacts.DeletePlain | backend/filesystem/impl/local_filesystem.py:210-228 | after a delete exactly the nodes with the target among their ancestors or selves are gone, and the target's parent no longer lists it |
| WriteFacts.CreateDirectory | backend/filesystem/impl/local_filesystem.py:109-113 | the new directory lies in the parent's, under the first of slug, slug-2, slug-3, ... that no directory there has; no other directory moves |
| WriteFacts.RenameDirectory | backend/filesystem/impl/local_filesystem.py:130-138 | the directory stays in place under the first such name no other directory there has, its own name being free to it; directories below go along, no other moves |
| WriteFacts.MoveDirectory | backend/filesystem/impl/local_filesystem.py:193-196 | the directory goes below the new parent's under the first such name free there, its own old directory not excepted; directories below go along, no other moves |
| WriteFacts.DeleteDirectories | backend/filesystem/impl/local_filesystem.py:210-228 | no directory that stays moves |
| LocalFilesystems.LocalFilesystem.DescendantDirs | backend/filesystem/impl/local_filesystem.py:327-338 | exactly the directories below the base, in sorted pre-order |
| LocalFilesystems.LocalFilesystem.NodeDir | backend/filesystem/impl/local_filesystem.py:69-96 | finds the directory of an id, or nothing when no record has it |
| LocalFilesystems.LocalFilesystem.CollectDescendantIds | backend/filesystem/impl/local_filesystem.py:340-348 | exactly the ids stored strictly below the node's directory |
| LocalFilesystems.LocalFilesystem.CreateNode | backend/filesystem/impl/local_filesystem.py:102-126 | the sequence of writes ends in the disk function for create; the answer is the node as given, without children, below the given parent, and the disk holds that record; a missing parent changes nothing |
| LocalFilesystems.LocalFilesystem.RenameNode | backend/filesystem/impl/local_filesystem.py:128-140 | outcome and disk for a missing node, a blank title (directory renamed, record unchanged) and success, whose answer is the record the disk holds |
| DiskOps.ReslugUnchangedIff | backend/filesystem/impl/local_filesystem.py:130-138 | a rename refused for its blank title leaves the disk unchanged if and only if the directory would have kept its name |
| LocalFilesystems.LocalFilesystem.WriteNode | backend/filesystem/impl/local_filesystem.py:142-155 | rewrites one record in place, so that the disk holds it, or reports it missing |
| LocalFilesystems.LocalFilesystem.MoveNode | backend/filesystem/impl/local_filesystem.py:157-208 | which error in which order; success gives the disk function for move and answers the record the disk holds, refusal changes nothing |
| LocalFilesystems.LocalFilesystem.InsertChildToParent | backend/filesystem/impl/local_filesystem.py:400-413 | the parent's list becomes the others with the child first, between or last as the position says |
| LocalFilesystems.MoveOutcomePlain | backend/filesystem/impl/local_filesystem.py:157-208 | the answer case by case: itself or a node of its subtree as parent is invalid, a missing node or parent is named, else the node's record with the new parent and nothing else changed |
| LocalFilesystems.MoveOkIff | backend/filesystem/impl/local_filesystem.py:169-187 | of all its checks together: a move succeeds exactly when the node and parent exist and the parent is not in or below the node's directory |
| LocalFilesystems.LocalFilesystem.DeleteNode | backend/filesystem/impl/local_filesystem.py:210-228 | unlisting and removing directories top first leaves exactly the disk without the subtree |
| LocalFilesystems.TopFirst | backend/filesystem/impl/local_filesystem.py:222-228 | the first directory removed is the node's own, and nothing is left for the others |
| Reconstruction.RebuiltSafe | backend/repositories/impl/local_workspace_repository.py:387-402 | for any list of records: parents resolve without cycles, child ids resolve, and a record is kept exactly when it is the first kept with its id and its parent is none or kept before it |
| Reconstruction.RebuiltRecord | backend/repositories/impl/local_workspace_repository.py:387-402 | a record kept is as found, its listed ids that are not in the tree dropped and the others left in order |
| Reconstruction.RebuiltComplete | backend/repositories/impl/local_workspace_repository.py:358-433 | on a placed disk no record is dropped, and on a well-formed one the rebuilt tree is the disk's forest |
| Reconstruction.RebuiltOrderIndependent | backend/repositories/impl/local_workspace_repository.py:383-433 | directory names and visiting order do not matter: equal records under equal parents rebuild to the same forest |
| Reconstruction.BuildTree | backend/repositories/impl/local_workspace_repository.py:387-402 | the two loops compute that reconstruction for any list of records |
| Reconstruction.WalkRecords | backend/repositories/impl/local_workspace_repository.py:404-433 | the walk lists every record once, parents' directories first |
| Refinement.LoadFollowsTree | backend/repositories/impl/local_workspace_repository.py:358-551 | loading after any write gives the tree operation on what loading gave before, in whatever order directories are visited |
| Refinement.CachedWriteIsTreeOpIff | backend/repositories/impl/local_workspace_repository.py:437-551 | with a cache every write that reaches the disk is its tree operation, a metadata update exactly when the node is not cached or its cached child list is the one on disk, order included |
| Removal.LeafByLeaf | backend/repositories/impl/local_workspace_repository.py:547-551 | removing the nodes one at a time in reporting order never meets a node with children left and equals removing the subtree |
| Crashes.CrashInCreate | backend/filesystem/impl/local_filesystem.py:113-124 | stopped before the parent lists the new node, loading finds every node and the new one |
| Crashes.CrashInRename | backend/filesystem/impl/local_filesystem.py:136-139 | stopped before the record is rewritten, loading finds the forest as it was |
| Crashes.CrashAfterUnlist | backend/filesystem/impl/local_filesystem.py:189-223 | stopped right after a node left its parent's list, loading finds every node, that one unlisted |
| Crashes.CrashBeforeRewrite | backend/filesystem/impl/local_filesystem.py:196-200 | stopped between a move's directory rename and the rewritten record, loading keeps every node outside the moved subtree, and the subtree exactly when the node had no parent or the old parent's directory sorts before the new place |
| Crashes.CrashBeforeInsert | backend/filesystem/impl/local_filesystem.py:200-206 | stopped before the new parent lists the node, loading finds every node under its new parent |
| Caches.InMemoryWorkspaceCache.Populate | backend/workspace/cache.py:124-168 | loads dictionary and snapshot from any tree, once; a second call changes nothing |
| Caches.InMemoryWorkspaceCache.LoadNode | backend/workspace/cache.py:187-206 | answers exactly the entries of a loaded cache |
| Caches.InMemoryWorkspaceCache.InvalidateMany | backend/workspace/cache.py:269-281 | drops exactly the given ids and leaves the snapshot alone |
| Caches.InMemoryWorkspaceCache.SubtreeIds | backend/workspace/cache.py:283-296 | the snapshot's walk, or nothing when not loaded or unknown there |
| CacheRuns.ReadsStayFaithful | backend/repositories/impl/local_workspace_repository.py:300-338 | after populate from a disk whose child lists lead to every node from above and in no circles, a well-formed one in particular, and any run of writes, a cached read finds exactly the nodes on disk, equal in every field but the child list, although the snapshot never changes |
| CacheRuns.ReadsAcrossRestarts | backend/core/startup_subsystem.py:156-178 | the same over any number of restarts, each taking a new snapshot of such a disk, well-formed or not |
| CacheRuns.NextSafe | backend/repositories/impl/local_workspace_repository.py:437-551 | every write keeps the invariant: a cached node is on disk with the same fields except its child list and the same ancestor chain as in the snapshot |
| CacheRuns.CommitPending | backend/repositories/impl/local_workspace_repository.py:442-551 | between disk commit and invalidation only the ids about to be invalidated may disagree |
| CacheRuns.SnapshotCovers | backend/repositories/impl/local_workspace_repository.py:600-624 | the frozen snapshot's walk covers every cached node below the node on the current disk |
| CacheRuns.PopulateSafe | backend/workspace/cache.py:124-168 | a cache populated from a disk whose child lists lead to every node from above and in no circles satisfies the invariant |
| CacheRuns.PopulateWF | backend/workspace/cache.py:124-168 | every well-formed disk is one, and nothing of it is pruned |
| CacheReads.NextCurrent | backend/repositories/impl/local_workspace_repository.py:437-551 | from any snapshot, every write that comes back leaves no cached field but the child list wrong for a node that is on disk |
| CacheReads.NextReadsIff | backend/repositories/impl/local_workspace_repository.py:522-551 | from any snapshot, a write that comes back keeps every cached read right if and only if it is no delete, or the child lists it goes by lead to every cached node it deletes |
| CacheReads.RunReadsIff | backend/repositories/impl/local_workspace_repository.py:300-338 | the same condition decides whole runs, from any placed disk and whatever boot made of it |
| CacheFindings.UpdateKeepsWFIff | backend/repositories/impl/local_workspace_repository.py:465-493 | a metadata update keeps the disk well-formed exactly when the node is not cached or its cached list names its present children |
| CacheFindings.CachedWriteKeepsWFIff | backend/repositories/impl/local_workspace_repository.py:437-551 | of all writes with a cache exactly a metadata update from an outdated child list breaks a well-formed disk |
| CacheFindings.CachedRunKeepsWFIff | backend/repositories/impl/local_workspace_repository.py:437-551 | a run with a cache keeps the disk well-formed throughout exactly when every metadata update in it found a current list |
| CacheFindings.DeleteReportsExactlyIff | backend/repositories/impl/local_workspace_repository.py:522-598 | with any snapshot, every delete that reaches the disk reports exactly the nodes that leave it if and only if what its child lists lead to (the snapshot's if it knows the node, else the disk's) is the node's subtree on disk |
| CacheFindings.ExpectedSubtree | backend/repositories/impl/local_workspace_repository.py:566-572 | in a well-formed snapshot those lists lead to exactly the snapshot's subtree |
| CacheFindings.DeleteReportsOnce | backend/repositories/impl/local_workspace_repository.py:547-572 | going by a well-formed snapshot, no node is reported twice and the target comes last |
| CacheFindings.DeleteReportsLiveNode | backend/repositories/impl/local_workspace_repository.py:566-572 | over-reporting: a child moved out before its parent is deleted is reported and stays on disk |
| CacheFindings.DeleteMissesNewNode | backend/repositories/impl/local_workspace_repository.py:566-572 | under-reporting: a node created below the target after the snapshot leaves the disk unreported |
| CacheFindings.DeleteCommitsIff | backend/repositories/impl/local_workspace_repository.py:539-540 | with any snapshot, a delete reaches the disk if and only if the node exists and no loop is met below it in the lists it goes by, the snapshot's if it knows the node, else the disk's |
| CacheFindings.DeleteCanHang | backend/repositories/impl/local_workspace_repository.py:583-598 | for every parent and child a run of five writes after which that condition fails for a node on disk |
| CacheFindings.RestartCanHang | backend/repositories/impl/local_workspace_repository.py:566-624 | for every parent and child a run of three writes and a restart, after which deleting the parent never reaches the disk and moving it never returns |
| CacheFindings.RestartCanReadDeleted | backend/repositories/impl/local_workspace_repository.py:300-338 | a run of two writes, a restart and a delete after which the cache still holds a node that is gone |
| Repository.LocalWorkspaceRepository.LoadNode | backend/repositories/impl/local_workspace_repository.py:300-338 | cache first, then disk |
| Repository.LocalWorkspaceRepository.LoadTree | backend/repositories/impl/local_workspace_repository.py:358-402 | rebuilds from disk whatever the cache holds; on a well-formed disk exactly its forest |
| Repository.LocalWorkspaceRepository.PopulateCache | backend/core/startup_subsystem.py:267-322 | an unloaded cache takes dictionary and snapshot from the tree loaded from disk, a loaded one keeps its own |
| Repository.LocalWorkspaceRepository.WalkDisk | backend/repositories/impl/local_workspace_repository.py:583-598 | wherever no loop is met, the frontier loop ends and returns the walk below the node, itself left out |
| Repository.LocalWorkspaceRepository.CollectDescendantIds | backend/repositories/impl/local_workspace_repository.py:553-598 | the snapshot's walk if it knows the node, else the disk's, the node itself left out |
| Repository.LocalWorkspaceRepository.SaveNode | backend/repositories/impl/local_workspace_repository.py:437-450 | with any snapshot, disk, cache and calls after a create are the state machine's step; the cache invariant is kept if it held |
| Repository.LocalWorkspaceRepository.RenameNode | backend/repositories/impl/local_workspace_repository.py:452-463 | the same for rename, with its three outcomes |
| Repository.LocalWorkspaceRepository.UpdateMetadata | backend/repositories/impl/local_workspace_repository.py:465-493 | the same for a metadata update that starts from the cached node |
| Repository.LocalWorkspaceRepository.MoveNode | backend/repositories/impl/local_workspace_repository.py:495-520 | the same for move, with the ids invalidated after the commit |
| Repository.WalksAfterMoveIff | backend/repositories/impl/local_workspace_repository.py:583-624 | the walk on disk after a move ends if and only if, before the move and with the node off its parent's list, no loop and not the new parent is met below it |
| Repository.MoveReturnsIff | backend/repositories/impl/local_workspace_repository.py:600-624 | a move returns if and only if no loop is met: by the snapshot's lists if it knows the node, else by the lists on disk before the move |
| Repository.LocalWorkspaceRepository.DeleteNode | backend/repositories/impl/local_workspace_repository.py:522-551 | the same for delete, with one call per walked id, deepest first and the node last |
| Index.InMemoryIndexRepository.Upsert | backend/index/impl/in_memory_index_repository.py:75-93 | replaces one row, keeping its creation time |
| Index.InMemoryIndexRepository.DeleteMany | backend/index/impl/in_memory_index_repository.py:107-112 | drops the given rows and counts those that were there |
| Index.InMemoryIndexRepository.ReplaceAll | backend/index/impl/in_memory_index_repository.py:119-147 | the new rows only, old creation times kept, and their number |
| Index.ResolveStoryId | backend/index/sync.py:190-209 | on any acyclic tree and any node, present or not, the upward walk ends; it gives the node itself for a root, the root above its parent, or nothing when the parent is absent |
| Index.ProjectRecord | backend/index/sync.py:212-235 | the row of any node: its id, parent, title, type as a word, path, both times and empty text, and as story itself for a root, the ancestor without a parent above it, or nothing when its parent is absent |
| Index.RowAgreesIff | backend/index/sync.py:185-235 | a row agrees with a node, field by field with the type written out and the story the ancestor without a parent, exactly when it has the fields the projection computes |
| Index.RootIsOnly | backend/index/sync.py:190-209 | a node has exactly one such ancestor, so the story is determined |
| Index.ProjectionStored | backend/index/sync.py:185-235 | what is stored for a node agrees with it field by field, has path and time given, and keeps the creation time of the row there was |
| Sync.IncrementalIndexSynchronizer.OnNodeCreated | backend/index/sync.py:437-451 | one projected row, or one recorded failure and no change, whether or not the tree holds the node |
| Sync.IncrementalIndexSynchronizer.OnNodeRenamed | backend/index/sync.py:453-483 | the new title on the row, nothing for an absent row, a failure for an absent node |
| Sync.IncrementalIndexSynchronizer.OnNodeMoved | backend/index/sync.py:485-520 | all paths first, then rows in walk order as far as the index lets them, failures counted once |
| Sync.IncrementalIndexSynchronizer.OnNodeDeleted | backend/index/sync.py:522-524 | one row less, or one failure |
| Sync.CreateHookPlain | backend/index/sync.py:437-451 | field by field: the row of the created node and no other row, or one more failure and no row |
| Sync.RenameHookPlain | backend/index/sync.py:453-483 | title and update time of one row and nothing else, or nothing for an absent row, or one more failure and no row |
| Sync.MoveHookPlain | backend/index/sync.py:485-520 | the rows of a first part of the walk agree with the tree in every field, path and time, the others stay; no failure exactly when that part is the whole walk; a missing path changes no row |
| Sync.DeleteHookPlain | backend/index/sync.py:522-524 | one row less and the others untouched, or one more failure and no change |
| Sync.IncrementalIndexSynchronizer.ClearStaleness | backend/index/sync.py:267-275 | the failure count is zero |
| Sync.CreateInSync | backend/index/sync.py:396-451 | if an unflagged index was exact before a create it is exact after its hook, whatever failed |
| Sync.RenameInSync | backend/index/sync.py:396-483 | the same for a rename or metadata update |
| Sync.MoveInSync | backend/index/sync.py:396-520 | the same for a move, including an index that refuses rows midway |
| Sync.DeleteInSync | backend/index/sync.py:396-524 | the same for the deletions of a subtree |
| Reconciler.IndexReconciler.ProjectTree | backend/index/reconciler.py:325-376 | one record per node whose path is found, in ascending id order, and the exact number of the others |
| Reconciler.IndexReconciler.Rebuild | backend/index/reconciler.py:221-321 | all rows or none, none exactly without a tree, with a path missing or with the replacement refused; whether it reports success, and records_deleted equal to the number of old ids that are gone |
| Reconciler.RebuildExact | backend/index/reconciler.py:221-321 | after a published rebuild exactly the tree's nodes have rows, each with its node's parent, title, type as a word, path and the ancestor without a parent as story; old creation times are kept, all else is stamped with the time given |
| Reconciler.RebuildIdempotent | backend/index/reconciler.py:221-321 | rebuilding again changes nothing but update times |
| Reconciler.ErrorsMeanUntouchedIff | backend/index/reconciler.py:240-321 | of the rebuilds that report errors, the tree loaded or not, one leaves the given index unchanged if and only if it never got to publishing or every row already was what publishing writes |
| IndexRuns.NotStaleMeansExact | backend/index/sync.py:241-275 | without a cache, over every run of writes, rebuilds and failures of any kind: while no failure is on record the index has exactly the tree's ids and every row agrees with the tree |
| IndexRuns.NextConsistent | backend/index/sync.py:396-433 | without a cache every event keeps that invariant together with the well-formed disk |
| IndexRuns.IncrementalEqualsRebuild | backend/index/sync.py:437-524 | without a cache, after any run without failures the rows say what a rebuild from the current tree would say |
| IndexRuns.WriteKeepsWF | backend/repositories/impl/local_workspace_repository.py:437-551 | without a cache every write, refused ones included, keeps the disk well-formed |
| IndexRuns.FanOutExact | backend/repositories/impl/local_workspace_repository.py:522-551 | without a cache the ids a delete reports are exactly the nodes that leave the disk, each once, children before parents, the target last |
| IndexPaths.NotStaleMeansExactPaths | backend/index/sync.py:437-524 | without a cache, over every run whose renames keep the directory name, paths are exact too |
| IndexPaths.RenamePathsIff | backend/index/sync.py:453-483 | without a cache a successful rename leaves all paths exact if and only if the directory keeps its name; no failure is recorded either way |
| IndexRuns.JoinedParts | backend/core/path_providers.py:31-34 | a path is written as its names with one slash between any two |
| Dispatch.InvokeAll | backend/repositories/impl/local_workspace_repository.py:204-239 | delivering calls in order is the composition of their hooks |
| Dispatch.CallsAreHook | backend/repositories/impl/local_workspace_repository.py:437-551 | without a cache, the calls of a write delivered in order are exactly its hook in the state machine |
| Dispatch.PathsOnDisk | backend/core/path_providers.py:31-34 | every node's directory relative to the root |
| Dispatch.WriteAndIndex | backend/repositories/impl/local_workspace_repository.py:437-551 | without a cache, on a well-formed disk, end to end: disk, index and failure count after a write and its hooks are the state machine's next state |
| Service.WouldCycle | backend/services/workspace_service.py:331-365 | on any tree the search ends, and finds a cycle exactly when the new parent is the node or is listed somewhere below it |
| Service.FoundBelowIff | backend/services/workspace_service.py:350-365 | on a well-formed forest that search finds exactly the proper descendants |
| Service.CycleChecksAgree | backend/domain/tree.py:201-215 | the tree's upward walk and the service's downward search give the same verdict |
| Service.DiskCheckAgrees | backend/filesystem/impl/local_filesystem.py:169-187 | on a well-formed disk the filesystem refuses with an invalid parent exactly when those two find a cycle |
| Service.AlwaysCycle | backend/services/workspace_service.py:169-178 | on a well-formed disk an invalid parent is always classified as a cycle and never as a missing parent |
| Service.CycleAnswerIff | backend/services/workspace_service.py:160-178 | a move is answered with a cycle exactly when the new parent is the node or below it |
| Service.MoveAnswer | backend/services/workspace_service.py:141-178 | on a well-formed disk, the answer case by case: a cycle, the moved node named as missing, or its record with the new parent and nothing else changed |
| Service.MissingParentBlamesNode | backend/repositories/impl/local_workspace_repository.py:182-183 | a missing new parent is reported as the moved node not being found |
| Service.WorkspaceService.CreateNode | backend/services/workspace_service.py:90-118 | a blank title never reaches the repository; a missing parent is named as such; else the answer is the node as given, without children, below the given parent |
| Service.WorkspaceService.RenameNode | backend/services/workspace_service.py:122-137 | a blank title never reaches the repository, so no directory is renamed for it; else the renamed record or the missing node |
| Service.WorkspaceService.MoveNode | backend/services/workspace_service.py:141-178 | the state machine's step and the classified answer |
| Startup.NeedsRebuildPlain | backend/index/startup.py:550-582 | no rebuild exactly when the index can be reached, has a row, and either its flag cannot be read or no failure is on record |
| Startup.BootTable | backend/index/startup.py:437-517 | each outcome exactly when, in terms of the calls that went through, and the rows and failure count it leaves |
| Startup.RecoveringIsExact | backend/index/startup.py:501-517 | RECOVERING means the index is the projection of the loaded tree and, if the flag could be cleared, no failure is on record |
| Startup.HealthyIsUntouched | backend/index/startup.py:501-524 | HEALTHY means nothing was rebuilt, a reachable and non-empty index, and no failure on record unless the flag could not be read |
| Startup.ClearedOnlyRecovering | backend/index/startup.py:459-475 | the failure count changes only under RECOVERING |
| Startup.BootKeepsInSync | backend/index/startup.py:283-546 | a boot keeps an unflagged index exact, and makes it exact under RECOVERING |
| Startup.BootIsRebuildEvent | backend/index/startup.py:437-475 | a boot that needs a rebuild is the rebuild event of the index runs; it is no event if the rebuild raises, and keeps the failure count if the flag cannot be cleared |
| Startup.StartupCoordinator.Run | backend/index/startup.py:283-546 | outcome, rows and failure count for every combination of failures, a rebuild that raises included; DEGRADED only after a rebuild was attempted, so the branch without one is never taken |
| Startup.StartupCoordinator.ShouldRebuild | backend/index/startup.py:550-582 | a rebuild exactly when the index is unreachable, flagged or empty |
| Search.Validate | backend/search/service.py:140-176 | a request passes exactly when it is valid, and for each field exactly when it is the one blamed |
| Search.AnswerExact | backend/search/service.py:107-122 | the answer holds exactly the rows that match title or prefix and all filters, in the requested order; `Search.AnswerMembers` and `Search.AnswerOrder` spell out which and what order |
| Search.AnswerMembers | backend/search/service.py:188-232 | a row is found exactly when its title equals or starts with the text asked for, white space at the ends and case aside, and type, parent and story are the ones asked for |
| Search.AnswerOrder | backend/search/service.py:250-261 | of two hits the earlier has the later update time under the default sort, the earlier one, the smaller title or the larger title under the others; equal keys go by id, in the same direction |
| Search.StripPlain | backend/search/service.py:195-210 | only white space is taken off the text, at both ends, and none is left there |
| Order.LessByFirstDifference | backend/search/service.py:250-261 | strings compare by code points at their first difference, a proper prefix first |
| Search.SearchOrderIndependent | backend/search/service.py:180-186 | the order in which the index lists its ids shows in no result |
| Search.BeforeTotal | backend/search/service.py:250-261 | records with different ids are comparable by (key, node id) |
| Search.AscendingUnique | backend/search/service.py:250-261 | there is only one way to put given records in that order |
| Search.OppositeIsReversed | backend/search/service.py:250-261 | each descending order is its ascending one reversed |
| Search.PagesPartition | backend/search/service.py:124-136 | for any page size, pages 0, 1, 2, ... joined are the answer from its start, all of it once they reach its end |
| Search.OnExactlyOnePage | backend/search/service.py:124-136 | every matching record is on exactly one page |
| Search.PastTheEnd | backend/search/service.py:128-136 | a page is empty exactly when it lies past the end, and its offset is then the total |
| Search.PagePlain | backend/search/service.py:124-136 | total, limit and offset of a page, and its hits: the answer from page times size on, as many as the size and the end allow |

## Left out

- HTTP endpoints, schemas, settings, logging, migrations: plumbing around the modelled code.
- `SQLAlchemyIndexRepository`: database calls; rows follow the in-memory repository.
- JSON parsing, partial writes and temporary files: each `node.json` write is one step, and the class `LocalFilesystem` works on directories that all hold a readable record. Reconstruction alone is modelled for arbitrary lists of records.
- Directories without a record, and directories or files under a slug-like name that are not nodes: not part of the disk model.
- Canvas contents and the touch hook, cache statistics, the lock, and thread scheduling.
- Metadata key validation and the serialised form of a node.
- Freshness of cached child lists, `load_children` and the snapshot tree, and index exactness when the tree provider is the cache: the code does not provide them.
- The blank-title check of index rows: rows carry titles of nodes, which are checked there.
- Caches.InMemoryWorkspaceCache.SubtreeIds: takes a snapshot without a loop below the root asked for, because on any other the code does not return.
- Trees.Tree.Subtree: takes child lists without a loop below the start, because on any others the code does not return (`Walks.WalkEndsIff`).
- Repository.LocalWorkspaceRepository.WalkDisk: the same for the walk on disk.
- Repository.LocalWorkspaceRepository.CollectDescendantIds: the same, for the snapshot's lists or the disk's.
- Repository.LocalWorkspaceRepository.MoveNode: the same for the walk it starts after the commit, stated by the snapshot's lists or those on disk before the move (`Repository.MoveReturnsIff`); without a cache on a well-formed disk it always ends (`Dispatch.WellFormedWalks`).
- Repository.LocalWorkspaceRepository.DeleteNode: the same for the walk it starts with (`CacheFindings.DeleteCommitsIff`).
- Service.WorkspaceService.MoveNode: the same as the repository's move.
- Sync.IncrementalIndexSynchronizer.OnNodeMoved: the same for the walk below the moved node.
- Dispatch.WriteAndIndex: is about a repository without a cache; with one, deletes misreport exactly as `CacheFindings.DeleteReportsExactlyIff` says, so the index need not stay exact.
- LocalFilesystems.LocalFilesystem.DescendantDirs: works on disks where every directory holds a readable record and ids are unique.
- LocalFilesystems.LocalFilesystem.NodeDir: the same; the code skips directories it cannot read.
- Reconstruction.WalkRecords: the same; corrupt and duplicate records enter through `Reconstruction.RebuiltSafe`, which takes any list of records.
- Repository.LocalWorkspaceRepository.LoadTree: the same.
- Repository.LocalWorkspaceRepository.SaveNode: asks for an id not on disk, as below.
- LocalFilesystems.LocalFilesystem.CreateNode: asks for an id not on disk (the service draws a new random one), and for a root node without a parent of its own.
- Reconciler.IndexReconciler.Rebuild: warnings and elapsed time are left out of the report.
- Index.RowAgrees: leaves out times and search text; `Index.RowWritten` states them for rows as written.
- Searching full text: the index stores an empty text for every node.
