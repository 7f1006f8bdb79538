/** From repository calls to index rows: the hooks are delivered in order after each write. */
module Dispatch {
  import opened Domain
  import opened Forests
  import opened Walks
  import opened Trees
  import opened Disks
  import opened DiskOps
  import opened WriteFacts
  import opened LocalFilesystems
  import opened CacheRuns
  import opened Sync
  import opened IndexRuns
  import opened Repository

  /** What a call needs of the tree its hook will see. */
  ghost predicate Ready(call: HookCall, tree: Option<Forest>) {
    tree.Some? ==> Acyclic(tree.value) && (call.NodeMoved? ==> Walkable(tree.value, call.id))
  }

  ghost predicate AllReady(calls: seq<HookCall>, tree: Option<Forest>) {
    forall i :: 0 <= i < |calls| ==> Ready(calls[i], tree)
  }

  ghost function DeliverOne(sync: SyncState, call: HookCall, tree: Option<Forest>, env: Env): SyncState
    requires Ready(call, tree)
  {
    match call
    case NodeCreated(node) => CreateHook(sync, tree, node, env)
    case NodeRenamed(x, title) => RenameHook(sync, tree, x, title, env)
    case MetadataUpdated(x, title) => RenameHook(sync, tree, x, title, env)
    case NodeMoved(x) => MoveHook(sync, tree, x, env)
    case NodeDeleted(x) => DeleteHook(sync, x, env)
  }

  ghost function Delivered(sync: SyncState, calls: seq<HookCall>, tree: Option<Forest>, env: Env): SyncState
    requires AllReady(calls, tree)
  {
    if calls == [] then sync
    else DeliverOne(Delivered(sync, calls[..|calls| - 1], tree, env), calls[|calls| - 1], tree, env)
  }

  lemma DeliveredSingle(sync: SyncState, call: HookCall, tree: Option<Forest>, env: Env)
    requires Ready(call, tree)
    ensures Delivered(sync, [call], tree, env) == DeliverOne(sync, call, tree, env)
  {
    assert [call][..0] == [];
    assert Delivered(sync, [], tree, env) == sync;
  }

  lemma {:induction false} DeliveredDeletions(sync: SyncState, ids: seq<NodeId>, tree: Option<Forest>, env: Env)
    requires tree.Some? ==> Acyclic(tree.value)
    ensures AllReady(Deletions(ids), tree)
    ensures Delivered(sync, Deletions(ids), tree, env) == DeleteHooks(sync, ids, env)
  {
    if ids != [] {
      var k := |ids| - 1;
      DeliveredDeletions(sync, ids[..k], tree, env);
      assert Deletions(ids)[..k] == Deletions(ids[..k]);
    }
  }

  /** One hook. */
  method InvokeSync(sync: IncrementalIndexSynchronizer, call: HookCall, tree: Tree?, env: Env)
    requires tree != null ==> tree.Valid()
    requires Ready(call, View(tree))
    modifies sync, sync.index
    ensures sync.State() == DeliverOne(old(sync.State()), call, View(tree), env)
  {
    match call
    case NodeCreated(node) => sync.OnNodeCreated(node, tree, env);
    case NodeRenamed(x, title) => sync.OnNodeRenamed(x, title, tree, env);
    case MetadataUpdated(x, title) => sync.OnNodeRenamed(x, title, tree, env);
    case NodeMoved(x) => sync.OnNodeMoved(x, tree, env);
    case NodeDeleted(x) => sync.OnNodeDeleted(x, env);
  }

  method InvokeAll(sync: IncrementalIndexSynchronizer, calls: seq<HookCall>, tree: Tree?, env: Env)
    requires tree != null ==> tree.Valid()
    requires AllReady(calls, View(tree))
    modifies sync, sync.index
    ensures sync.State() == Delivered(old(sync.State()), calls, old(View(tree)), env)
  {
    for i := 0 to |calls|
      invariant tree != null ==> tree.Valid()
      invariant View(tree) == old(View(tree))
      invariant sync.State() == Delivered(old(sync.State()), calls[..i], View(tree), env)
    {
      assert calls[..i + 1][..i] == calls[..i];
      InvokeSync(sync, calls[i], tree, env);
    }
    assert calls[..|calls|] == calls;
  }

  // ---------- the calls of a write are its hook ----------

  /** The calls of a committed write without a cache; t is the forest before it. */
  ghost function PlainCalls(t: Forest, op: Op): seq<HookCall>
    requires op.Delete? ==> WalkEnds(t, op.n)
    requires op.UpdateMetadata? ==> op.n in t
  {
    match op
    case Create(node, parent) => [NodeCreated(node.(children := [], parent := parent))]
    case Rename(n, title) => if Blank(title) then [] else [NodeRenamed(n, title)]
    case UpdateMetadata(n, _) => [MetadataUpdated(n, t[n].title)]
    case Move(n, _, _) => [NodeMoved(n)]
    case Delete(n) => Deletions(FanOut(t, n))
  }

  lemma UncachedCalls(d: Disk, op: Op)
    requires Placed(d) && Goes(d, op)
    ensures (op.Delete? ==> WalkEnds(TreeOf(d), op.n)) && (op.UpdateMetadata? ==> op.n in TreeOf(d))
    ensures Calls(Uncached(d), op) == PlainCalls(TreeOf(d), op)
  {
    if op.Delete? { UncachedDeletions(d, op.n); }
  }

  lemma UncachedDeletions(d: Disk, n: NodeId)
    requires Placed(d) && Goes(d, Delete(n))
    ensures WalkEnds(TreeOf(d), n) && Calls(Uncached(d), Delete(n)) == Deletions(FanOut(TreeOf(d), n))
  {
    assert Walked(Uncached(d), n) == TreeOf(d);
  }

  lemma PlainCallsAreHook(t: Forest, u: Forest, op: Op, sync: SyncState, tree: Option<Forest>, env: Env)
    requires HookReady(t, u, op) && (tree.Some? ==> tree.value == u)
    requires op.Create? ==> u[op.node.id] == op.node.(children := [], parent := op.parent)
    ensures AllReady(PlainCalls(t, op), tree)
    ensures Delivered(sync, PlainCalls(t, op), tree, env) == Hook(t, u, sync, op, tree, env)
  {
    match op
    case Create(node, parent) => DeliveredSingle(sync, NodeCreated(node.(children := [], parent := parent)), tree, env);
    case Rename(n, title) =>
      if !Blank(title) { DeliveredSingle(sync, NodeRenamed(n, title), tree, env); }
    case UpdateMetadata(n, metadata) => DeliveredSingle(sync, MetadataUpdated(n, t[n].title), tree, env);
    case Move(n, _, _) =>
      WellFormedWalkable(u, n);
      DeliveredSingle(sync, NodeMoved(n), tree, env);
    case Delete(n) => DeliveredDeletions(sync, FanOut(t, n), tree, env);
  }

  /** Without a cache, delivering the calls of a write is exactly its hook. */
  lemma CallsAreHook(d: Disk, op: Op, u: Forest, sync: SyncState, tree: Option<Forest>, env: Env)
    requires Placed(d) && Goes(d, op) && HookReady(TreeOf(d), u, op) && (tree.Some? ==> tree.value == u)
    requires op.Create? ==> u[op.node.id] == op.node.(children := [], parent := op.parent)
    ensures AllReady(Calls(Uncached(d), op), tree)
    ensures Delivered(sync, Calls(Uncached(d), op), tree, env) == Hook(TreeOf(d), u, sync, op, tree, env)
  {
    UncachedCalls(d, op);
    PlainCallsAreHook(TreeOf(d), u, op, sync, tree, env);
  }

  lemma StepCreates(d: Disk, fold: string -> string, op: Op, e: Disk)
    requires Placed(d) && Steps(d, fold, op, e)
    ensures op.Create? ==> UniqueIds(e) && op.node.id in TreeOf(e)
    ensures op.Create? ==> TreeOf(e)[op.node.id] == op.node.(children := [], parent := op.parent)
  {
    if op.Create? { CreatedRecord(d, fold, op.node, op.parent); }
  }

  lemma CreatedRecord(d: Disk, fold: string -> string, node: Node, parent: Option<NodeId>)
    requires Placed(d) && Creatable(d, node, parent)
    ensures var e := Created(d, fold, node, parent);
            UniqueIds(e) && node.id in TreeOf(e) && TreeOf(e)[node.id] == node.(children := [], parent := parent)
  {
    CreatePlain(d, fold, node, parent);
  }

  // ---------- a whole write ----------

  /** The index agrees with what the machine of runs says, end to end: the write
      on disk, its calls, and the hooks they set off, with whatever fails. */
  method WriteAndIndex(repo: LocalWorkspaceRepository, sync: IncrementalIndexSynchronizer, op: Op, f: Faults)
    requires repo.Valid() && repo.cache == null && WF(repo.fs.dirs)
    requires op.Create? ==> op.node.id !in TreeOf(repo.fs.dirs) && (op.parent.None? ==> op.node.parent == None)
    modifies repo.fs, sync, sync.index
    ensures IndexedState(repo.fs.dirs, sync.State()) ==
              NextIndexed(IndexedState(old(repo.fs.dirs), old(sync.State())), repo.fs.fold, Write(op, f))
  {
    ghost var d := repo.fs.dirs;
    var calls := WriteOp(repo, op);
    IndexWrite(repo, sync, d, op, calls, f);
  }

  /** The second half: the hooks of a write that is on disk, on the tree as it is
      then, or without one, and with the paths as they are then. */
  method IndexWrite(repo: LocalWorkspaceRepository, sync: IncrementalIndexSynchronizer, ghost d: Disk, ghost op: Op,
                    calls: seq<HookCall>, f: Faults)
    requires WF(d) && calls == CallsOf(d, op)
    requires WF(repo.fs.dirs) && repo.fs.dirs == WriteTo(d, repo.fs.fold, op)
    modifies sync, sync.index
    ensures IndexedState(repo.fs.dirs, sync.State()) ==
              NextIndexed(IndexedState(d, old(sync.State())), repo.fs.fold, Write(op, f))
  {
    var env := Lookup(repo.fs, f);
    WriteOutcome(IndexedState(d, sync.State()), repo.fs.fold, op, f, env, repo.fs.dirs, calls);
    IndexCalls(repo, sync, calls, f, env);
  }

  method IndexCalls(repo: LocalWorkspaceRepository, sync: IncrementalIndexSynchronizer, calls: seq<HookCall>,
                    f: Faults, env: Env)
    requires WF(repo.fs.dirs) && AllReady(calls, TreeSeen(repo.fs.dirs, f))
    modifies sync, sync.index
    ensures sync.State() == Delivered(old(sync.State()), calls, old(TreeSeen(repo.fs.dirs, f)), env)
  {
    var tree: Tree? := null;
    if f.treeOk { tree := repo.LoadTree(); }
    InvokeAll(sync, calls, tree, env);
  }

  /** Every node's directory, relative to the root, except those that get lost. */
  method Lookup(fs: LocalFilesystem, f: Faults) returns (env: Env)
    requires Placed(fs.dirs)
    ensures env == EnvOf(fs.dirs, f)
  {
    var paths := PathsOnDisk(fs);
    env := Env(paths - f.lost, f.upserts, f.badDeletes, f.now);
  }

  method PathsOnDisk(fs: LocalFilesystem) returns (paths: map<NodeId, string>)
    requires Placed(fs.dirs)
    ensures paths == PathStrings(fs.dirs)
  {
    var ps := fs.DescendantDirs([]);
    AllBelowRoot(fs.dirs);
    paths := map[];
    for i := 0 to |ps|
      invariant SomePaths(fs.dirs, paths)
      invariant forall j :: 0 <= j < i ==> ps[j] in fs.dirs && fs.dirs[ps[j]].id in paths
    {
      assert ps[i] in ps;
      MorePaths(fs.dirs, paths, ps[i]);
      paths := paths[fs.dirs[ps[i]].id := Joined(ps[i])];
    }
    forall x | x in TreeOf(fs.dirs) ensures x in paths {
      assert PathOf(fs.dirs, x) in ps;
    }
    AllPaths(fs.dirs, paths);
  }

  ghost predicate SomePaths(d: Disk, paths: map<NodeId, string>)
    requires UniqueIds(d)
  {
    forall x :: x in paths ==> x in TreeOf(d) && paths[x] == Joined(PathOf(d, x))
  }

  lemma MorePaths(d: Disk, paths: map<NodeId, string>, p: Path)
    requires UniqueIds(d) && SomePaths(d, paths) && p in d
    ensures SomePaths(d, paths[d[p].id := Joined(p)])
  {
    PathOfIs(d, p);
  }

  lemma AllPaths(d: Disk, paths: map<NodeId, string>)
    requires UniqueIds(d) && SomePaths(d, paths) && forall x :: x in TreeOf(d) ==> x in paths
    ensures paths == PathStrings(d)
  {
  }

  lemma WrittenDisk(d: Disk, fold: string -> string, op: Op)
    requires WF(d)
    ensures Next(Uncached(d), fold, op).disk == WriteTo(d, fold, op) && WF(WriteTo(d, fold, op))
    ensures !Goes(d, op) ==> WriteTo(d, fold, op) == d && Calls(Uncached(d), op) == []
  {
    WriteKeepsWF(d, fold, op);
  }

  lemma HookOfWrite(s: IndexedState, fold: string -> string, op: Op, f: Faults, env: Env, tree: Option<Forest>)
    requires WF(s.disk) && Goes(s.disk, op)
    requires var e := WriteTo(s.disk, fold, op); UniqueIds(e) && tree == TreeSeen(e, f) && env == EnvOf(e, f)
    ensures AllReady(Calls(Uncached(s.disk), op), tree)
    ensures NextIndexed(s, fold, Write(op, f)) ==
              IndexedState(WriteTo(s.disk, fold, op), Delivered(s.sync, Calls(Uncached(s.disk), op), tree, env))
  {
    var e, seen, env' := NextWrite(s, fold, op, f);
    StepCreates(s.disk, fold, op, e);
    CallsAreHook(s.disk, op, TreeOf(e), s.sync, tree, env);
  }

  ghost function CallsOf(d: Disk, op: Op): seq<HookCall>
    requires Placed(d)
  {
    Calls(Uncached(d), op)
  }

  lemma WriteOutcome(s: IndexedState, fold: string -> string, op: Op, f: Faults, env: Env, e: Disk,
                     calls: seq<HookCall>)
    requires WF(s.disk) && e == WriteTo(s.disk, fold, op) && calls == CallsOf(s.disk, op)
    requires UniqueIds(e) && env == EnvOf(e, f)
    ensures AllReady(calls, TreeSeen(e, f))
    ensures NextIndexed(s, fold, Write(op, f)) == IndexedState(e, Delivered(s.sync, calls, TreeSeen(e, f), env))
  {
    if Goes(s.disk, op) { HookOfWrite(s, fold, op, f, env, TreeSeen(e, f)); } else { WrittenDisk(s.disk, fold, op); }
  }

  /** Any of the repository's writes. */
  method WriteOp(repo: LocalWorkspaceRepository, op: Op) returns (calls: seq<HookCall>)
    requires repo.Valid() && repo.cache == null && WF(repo.fs.dirs)
    requires op.Create? ==> op.node.id !in TreeOf(repo.fs.dirs) && (op.parent.None? ==> op.node.parent == None)
    modifies repo.fs
    ensures WF(repo.fs.dirs) && repo.fs.dirs == WriteTo(old(repo.fs.dirs), repo.fs.fold, op)
    ensures calls == CallsOf(old(repo.fs.dirs), op)
  {
    WellFormedWalks(repo.fs.dirs, repo.fs.fold, op);
    WrittenDisk(repo.fs.dirs, repo.fs.fold, op);
    var node, gone;
    match op
    case Create(n, parent) => node, calls := repo.SaveNode(n, parent);
    case Rename(n, title) => node, calls := repo.RenameNode(n, title);
    case UpdateMetadata(n, metadata) => node, calls := repo.UpdateMetadata(n, metadata);
    case Move(n, parent, position) => node, calls := repo.MoveNode(n, parent, position);
    case Delete(n) => gone, calls := repo.DeleteNode(n);
  }

  /** On a well-formed disk without a cache every walk ends. */
  lemma WellFormedWalks(d: Disk, fold: string -> string, op: Op)
    requires WF(d)
    ensures op.Delete? && op.n in TreeOf(d) ==> LoopFree(TreeOf(d), op.n)
    ensures op.Move? && Movable(d, op.n, op.newParent) ==> WalksAfterMove(d, op.n, op.newParent)
  {
    WFIff(d);
    if op.Delete? && op.n in TreeOf(d) {
      WellFormedWalkEnds(TreeOf(d), op.n);
      WalkEndsIff(TreeOf(d), op.n);
    }
    if op.Move? && Movable(d, op.n, op.newParent) {
      MoveKeepsWF(d, fold, op.n, op.newParent, op.position);
      WalksAfterMoveIff(d, fold, op.n, op.newParent, op.position);
      var e := MovedDisk(d, fold, op.n, op.newParent, op.position);
      WFIff(e);
      WellFormedWalkEnds(TreeOf(e), op.n);
    }
  }
}
