/** The repository's writes with an index and no cache, as a state machine with failures, and what every run keeps. */
module IndexRuns {
  import opened Domain
  import opened Seqs
  import opened Forests
  import opened Walks
  import opened Trees
  import opened Disks
  import opened DiskOps
  import opened CacheRuns
  import opened Index
  import opened Sync
  import opened Reconciler

  /** The relative path of a directory, as the path provider renders it. */
  function Joined(p: Path): string {
    if p == [] then ""
    else if |p| == 1 then p[0]
    else Joined(Up(p)) + "/" + Name(p)
  }

  /** A slash between any two parts, and the names themselves. */
  lemma {:induction false} JoinedParts(p: Path, q: Path)
    requires p != [] && q != []
    ensures Joined(p + q) == Joined(p) + "/" + Joined(q)
    ensures |p| == 1 ==> Joined(p) == p[0]
    decreases |q|
  {
    assert Up(p + q) == p + Up(q) && Name(p + q) == Name(q);
    if |q| == 1 {
      assert p + Up(q) == p;
    } else {
      JoinedParts(p, Up(q));
    }
  }

  ghost function PathStrings(d: Disk): map<NodeId, string>
    requires UniqueIds(d)
  {
    map x | x in TreeOf(d) :: Joined(PathOf(d, x))
  }

  /** The disk, the rows, and the count of recorded failures. */
  datatype IndexedState = IndexedState(disk: Disk, sync: SyncState)

  /** What fails during one event: the tree or id listing, some path lookups,
      upserts from some point on, some deletes, the final replacement. */
  datatype Faults = Faults(
    treeOk: bool, lost: set<NodeId>, upserts: nat, badDeletes: set<NodeId>,
    listOk: bool, replaceOk: bool, now: Time)

  datatype Event = Write(op: Op, faults: Faults) | Rebuild(faults: Faults)

  /** The repository without a cache. */
  ghost function Uncached(d: Disk): CacheRuns.State {
    CacheRuns.State(d, map[], map[])
  }

  ghost function WriteTo(d: Disk, fold: string -> string, op: Op): Disk
    requires Placed(d)
  {
    DiskAfter(Uncached(d), fold, op)
  }

  ghost predicate Goes(d: Disk, op: Op)
    requires Placed(d)
  {
    Commits(Uncached(d), op)
  }

  /** Every write keeps the disk well-formed. */
  lemma WriteKeepsWF(d: Disk, fold: string -> string, op: Op)
    requires WF(d)
    ensures WF(WriteTo(d, fold, op))
  {
    if Goes(d, op) {
      CommittedAfter(Uncached(d), fold, op);
      match op
      case Create(node, parent) => CreateKeepsWF(d, fold, node, parent);
      case Rename(n, title) =>
        if Blank(title) { ReslugKeepsWF(d, fold, n, title); } else { RenameKeepsWF(d, fold, n, title); }
      case UpdateMetadata(n, metadata) => MetadataKeepsWF(d, TreeOf(d)[n].(id := n, metadata := metadata));
      case Move(n, parent, position) => MoveKeepsWF(d, fold, n, parent, position);
      case Delete(n) => DeleteKeepsWF(d, n);
    }
  }

  lemma MetadataKeepsWF(d: Disk, node: Node)
    requires WF(d) && node.id in TreeOf(d)
    requires node.parent == TreeOf(d)[node.id].parent && node.children == TreeOf(d)[node.id].children
    ensures WF(Written(d, node))
  {
    WFIff(d);
    WrittenTree(d, node);
    RewriteKeeps(TreeOf(d), node);
    WFIff(Written(d, node));
  }

  // ---------- one event ----------

  /** The ids reported deleted, in order: the walk below n backwards, n last. */
  ghost function FanOut(t: Forest, n: NodeId): seq<NodeId>
    requires WalkEnds(t, n)
  {
    Reversed(WalkIds(t, n))
  }

  ghost function EnvOf(d: Disk, f: Faults): Env
    requires UniqueIds(d)
  {
    Env(PathStrings(d) - f.lost, f.upserts, f.badDeletes, f.now)
  }

  ghost function TreeSeen(d: Disk, f: Faults): Option<Forest>
    requires UniqueIds(d)
  {
    if f.treeOk then Some(TreeOf(d)) else None
  }

  /** What a hook needs from the forests before and after the write. */
  ghost predicate HookReady(t: Forest, u: Forest, op: Op) {
    WellFormed(u) &&
    match op
    case Create(node, _) => node.id in u
    case Rename(_, _) => true
    case UpdateMetadata(n, _) => n in t
    case Move(_, _, _) => true
    case Delete(n) => WalkEnds(t, n)
  }

  lemma WellFormedWalkable(u: Forest, n: NodeId)
    requires WellFormed(u)
    ensures Walkable(u, n)
  {
    if n in u { WellFormedLoopFree(u, n); }
  }

  /** The hook that follows a committed write; t and u are the forests before
      and after it, `tree` is u or missing. */
  ghost function Hook(t: Forest, u: Forest, sync: SyncState, op: Op, tree: Option<Forest>, env: Env): SyncState
    requires HookReady(t, u, op) && (tree.Some? ==> tree.value == u)
  {
    match op
    case Create(node, _) => CreateHook(sync, tree, u[node.id], env)
    case Rename(n, title) => if Blank(title) then sync else RenameHook(sync, tree, n, title, env)
    case UpdateMetadata(n, _) => RenameHook(sync, tree, n, t[n].title, env)
    case Move(n, _, _) =>
      WellFormedWalkable(u, n);
      MoveHook(sync, tree, n, env)
    case Delete(n) => DeleteHooks(sync, FanOut(t, n), env)
  }

  lemma WriteReady(d: Disk, fold: string -> string, op: Op)
    requires WF(d) && Goes(d, op)
    ensures WF(WriteTo(d, fold, op)) && HookReady(TreeOf(d), TreeOf(WriteTo(d, fold, op)), op)
  {
    WriteKeepsWF(d, fold, op);
    WFIff(WriteTo(d, fold, op));
    if op.Create? {
      CommittedAfter(Uncached(d), fold, op);
      CreateRefines(d, fold, op.node, op.parent);
    }
  }

  ghost function NextIndexed(s: IndexedState, fold: string -> string, event: Event): IndexedState
    requires WF(s.disk)
  {
    match event
    case Write(op, f) =>
      if !Goes(s.disk, op) then s
      else
        WriteReady(s.disk, fold, op);
        var e := WriteTo(s.disk, fold, op);
        IndexedState(e, Hook(TreeOf(s.disk), TreeOf(e), s.sync, op, TreeSeen(e, f), EnvOf(e, f)))
    case Rebuild(f) =>
      WFIff(s.disk);
      s.(sync := AfterRebuild(s.disk, s.sync, f))
  }

  /** A rebuild clears the failure count only when it reports success. */
  ghost function AfterRebuild(d: Disk, sync: SyncState, f: Faults): SyncState
    requires UniqueIds(d) && Acyclic(TreeOf(d))
  {
    var env := RebuildEnv(PathStrings(d) - f.lost, f.listOk, f.replaceOk, f.now);
    SyncState(
      RowsAfter(sync.rows, TreeSeen(d, f), env),
      if Publishes(TreeSeen(d, f), env) && f.listOk then 0 else sync.stale)
  }

  // ---------- the invariant ----------

  ghost predicate Consistent(s: IndexedState) {
    WF(s.disk) && (WFIff(s.disk); InSync(s.sync, TreeOf(s.disk)))
  }

  /** Paths too. */
  ghost predicate FullyConsistent(s: IndexedState) {
    Consistent(s) && PathsInSync(s.sync, PathStrings(s.disk))
  }

  lemma TouchesSameRows(t: Forest, u: Forest, pending: set<NodeId>)
    requires OnlyTouches(t, u, pending)
    ensures SameRows(t, u, pending)
  {
    forall x | x in t && x !in pending ensures SameRow(t, u, x) {
      assert Untouched(t, u, x);
    }
  }

  lemma CreateConsistent(t: Forest, u: Forest, sync: SyncState, node: Node, parent: Option<NodeId>,
                         tree: Option<Forest>, env: Env)
    requires Acyclic(t) && Acyclic(u) && InSync(sync, t)
    requires node.id !in t && (parent.Some? ==> parent.value in t) && u == CreatedTree(t, node, parent)
    requires tree.Some? ==> tree.value == u
    ensures InSync(CreateHook(sync, tree, u[node.id], env), u)
  {
    CreateUntouched(t, u, node, parent);
    TouchesSameRows(t, u, {});
    AddThenAttach(t, node, parent);
    CreateInSync(sync, t, u, u[node.id], tree, env);
  }

  lemma RetitleRows(t: Forest, u: Forest, node: Node)
    requires Acyclic(t) && Acyclic(u) && node.id in t && u == t[node.id := node]
    requires node.parent == t[node.id].parent
    ensures SameRows(t, u, {node.id}) && Root(u, node.id) == Root(t, node.id)
  {
    SameParentsUntouched(t, u, {node.id});
    TouchesSameRows(t, u, {node.id});
    ChainCongruence(t, u, node.id);
  }

  /** A rewritten record with the same parent and type. */
  lemma RetitleConsistent(t: Forest, u: Forest, sync: SyncState, node: Node, tree: Option<Forest>, env: Env)
    requires Acyclic(t) && Acyclic(u) && InSync(sync, t)
    requires node.id in t && u == t[node.id := node]
    requires node.parent == t[node.id].parent && node.kind == t[node.id].kind
    requires tree.Some? ==> tree.value == u
    ensures InSync(RenameHook(sync, tree, node.id, node.title, env), u)
  {
    RetitleRows(t, u, node);
    RenameInSync(sync, t, u, node.id, node.title, tree, env);
  }

  lemma MoveConsistent(t: Forest, u: Forest, sync: SyncState, n: NodeId, parent: Option<NodeId>, position: Option<int>,
                       tree: Option<Forest>, env: Env)
    requires Acyclic(t) && WellFormed(u) && InSync(sync, t)
    requires n in t && (t[n].parent.Some? ==> t[n].parent.value in t)
    requires parent.Some? ==> parent.value in t && !InSubtree(t, n, parent.value)
    requires u == MovedTree(t, n, parent, position)
    requires tree.Some? ==> tree.value == u
    ensures Walkable(u, n) && InSync(MoveHook(sync, tree, n, env), u)
  {
    MoveUntouched(t, u, n, parent, position);
    MoveReparents(t, u, n, parent, position);
    SameSubtree(t, u, n, parent);
    TouchesSameRows(t, u, SubtreeOf(t, n));
    MoveInSync(sync, t, u, n, tree, env);
  }

  lemma SameSubtree(t: Forest, u: Forest, n: NodeId, parent: Option<NodeId>)
    requires Acyclic(t) && Acyclic(u) && Reparented(t, u, n, parent)
    requires parent.Some? ==> parent.value in t && !InSubtree(t, n, parent.value)
    ensures SubtreeOf(u, n) == SubtreeOf(t, n)
  {
    forall x ensures x in SubtreeOf(u, n) <==> x in SubtreeOf(t, n) {
      if x in t { ReparentRoots(t, u, n, parent, x); }
    }
  }

  /** Delete reports every removed node once, children before parents, n last. */
  lemma FanOutExact(d: Disk, n: NodeId)
    requires WF(d) && n in TreeOf(d)
    ensures WalkEnds(TreeOf(d), n) && UniqueIds(Deleted(d, n))
    ensures var ids, t := FanOut(TreeOf(d), n), TreeOf(d);
            && NoDup(ids) && |ids| > 0 && ids[|ids| - 1] == n
            && ToSet(ids) == t.Keys - TreeOf(Deleted(d, n)).Keys
            && LeavesFirst(t, ids)
  {
    WFIff(d);
    DeleteRefines(d, n);
    FanOutOf(TreeOf(d), n);
    RemovedKeys(TreeOf(d), n);
  }

  ghost predicate LeavesFirst(t: Forest, ids: seq<NodeId>) {
    forall i, j :: 0 <= i < |ids| && 0 <= j < |ids| && ids[i] in t && t[ids[i]].parent == Some(ids[j]) ==> i < j
  }

  lemma FanOutOf(t: Forest, n: NodeId)
    requires WellFormed(t) && n in t
    ensures WalkEnds(t, n)
    ensures var ids := FanOut(t, n);
            NoDup(ids) && |ids| > 0 && ids[|ids| - 1] == n && ToSet(ids) == SubtreeOf(t, n) && LeavesFirst(t, ids)
  {
    WalkExact(t, n);
    ReversedWalk(t, n, WalkIds(t, n));
  }

  lemma RemovedKeys(t: Forest, n: NodeId)
    requires Acyclic(t) && n in t
    ensures SubtreeRemoved(t, n).Keys == t.Keys - SubtreeOf(t, n)
    ensures t.Keys - SubtreeRemoved(t, n).Keys == SubtreeOf(t, n)
  {
  }

  lemma ReversedWalk(t: Forest, n: NodeId, walk: seq<NodeId>)
    requires Acyclic(t) && NoDup(walk) && DepthOrdered(t, walk) && |walk| > 0 && walk[0] == n
    requires forall x :: x in walk <==> InSubtree(t, n, x)
    ensures var ids := Reversed(walk);
            NoDup(ids) && ids[|ids| - 1] == n && ToSet(ids) == SubtreeOf(t, n) && LeavesFirst(t, ids)
  {
    ReversedSame(walk);
    BackwardsLeavesFirst(t, walk);
  }

  lemma BackwardsLeavesFirst(t: Forest, walk: seq<NodeId>)
    requires Acyclic(t) && DepthOrdered(t, walk) && forall x :: x in walk ==> x in t
    ensures LeavesFirst(t, Reversed(walk))
  {
    var ids := Reversed(walk);
    forall i, j | 0 <= i < |ids| && 0 <= j < |ids| && ids[i] in t && t[ids[i]].parent == Some(ids[j]) ensures i < j {
      ParentsFirst(t, walk, |walk| - 1 - j, |walk| - 1 - i);
    }
  }

  lemma DeleteConsistent(t: Forest, u: Forest, sync: SyncState, n: NodeId, env: Env)
    requires WellFormed(t) && Acyclic(u) && n in t && u == SubtreeRemoved(t, n) && InSync(sync, t)
    ensures WalkEnds(t, n) && InSync(DeleteHooks(sync, FanOut(t, n), env), u)
  {
    FanOutOf(t, n);
    RemovedKeys(t, n);
    DeleteUntouched(t, u, n);
    TouchesSameRows(t, u, SubtreeOf(t, n));
    DeleteInSync(sync, t, u, FanOut(t, n), env);
  }

  lemma RebuildConsistent(d: Disk, sync: SyncState, f: Faults)
    requires UniqueIds(d) && Acyclic(TreeOf(d)) && InSync(sync, TreeOf(d))
    ensures InSync(AfterRebuild(d, sync, f), TreeOf(d))
    ensures PathsInSync(sync, PathStrings(d)) ==> PathsInSync(AfterRebuild(d, sync, f), PathStrings(d))
  {
    var env := RebuildEnv(PathStrings(d) - f.lost, f.listOk, f.replaceOk, f.now);
    if Publishes(TreeSeen(d, f), env) {
      var rebuilt := RebuildExact(sync.rows, TreeOf(d), env);
      LostPaths(rebuilt, PathStrings(d), f.lost);
    }
  }

  lemma LostPaths(rows: Records, paths: map<NodeId, string>, lost: set<NodeId>)
    requires PathsAgree(rows, paths - lost)
    ensures PathsAgree(rows, paths)
  {
  }

  /** Whatever fails along the way, the index agrees with the disk's tree in
      every state in which no failure is on record. */
  lemma NextConsistent(s: IndexedState, fold: string -> string, event: Event)
    requires Consistent(s)
    ensures Consistent(NextIndexed(s, fold, event))
  {
    WFIff(s.disk);
    match event
    case Rebuild(f) => RebuildConsistent(s.disk, s.sync, f);
    case Write(op, f) => if Goes(s.disk, op) { WriteConsistent(s, fold, op, f); }
  }

  lemma WriteConsistent(s: IndexedState, fold: string -> string, op: Op, f: Faults)
    requires Consistent(s) && Goes(s.disk, op)
    ensures Consistent(NextIndexed(s, fold, Write(op, f)))
  {
    ConsistentIff(s);
    var e, tree, env := NextWrite(s, fold, op, f);
    HookConsistent(s.disk, fold, s.sync, op, e, tree, env);
    ConsistentIff(NextIndexed(s, fold, Write(op, f)));
  }

  lemma ConsistentIff(s: IndexedState)
    ensures Consistent(s) <==> WF(s.disk) && WellFormed(TreeOf(s.disk)) && InSync(s.sync, TreeOf(s.disk))
  {
    WFIff(s.disk);
  }

  lemma NextWrite(s: IndexedState, fold: string -> string, op: Op, f: Faults)
    returns (e: Disk, tree: Option<Forest>, env: Env)
    requires WF(s.disk) && Goes(s.disk, op)
    ensures WF(e) && WellFormed(TreeOf(e)) && Steps(s.disk, fold, op, e)
    ensures HookReady(TreeOf(s.disk), TreeOf(e), op) && tree == TreeSeen(e, f) && env == EnvOf(e, f) && Sees(tree, e)
    ensures NextIndexed(s, fold, Write(op, f)) ==
              IndexedState(e, Hook(TreeOf(s.disk), TreeOf(e), s.sync, op, tree, env))
  {
    e := WriteTo(s.disk, fold, op);
    WriteReady(s.disk, fold, op);
    WFIff(e);
    AfterCommit(s.disk, fold, op);
    SeenTree(e, f);
    tree, env := TreeSeen(e, f), EnvOf(e, f);
  }

  lemma SeenTree(e: Disk, f: Faults)
    requires UniqueIds(e)
    ensures Sees(TreeSeen(e, f), e)
  {
  }

  /** A committed write without a cache, spelled out. */
  ghost predicate Steps(d: Disk, fold: string -> string, op: Op, e: Disk)
    requires Placed(d)
  {
    match op
    case Create(node, parent) => Creatable(d, node, parent) && e == Created(d, fold, node, parent)
    case Rename(n, title) =>
      n in TreeOf(d) && e == if Blank(title) then Reslugged(d, fold, n, title) else Retitled(d, fold, n, title)
    case UpdateMetadata(n, metadata) => n in TreeOf(d) && e == Written(d, TreeOf(d)[n].(id := n, metadata := metadata))
    case Move(n, parent, position) => Movable(d, n, parent) && e == MovedDisk(d, fold, n, parent, position)
    case Delete(n) => n in TreeOf(d) && e == Deleted(d, n)
  }

  lemma AfterCommit(d: Disk, fold: string -> string, op: Op)
    requires Placed(d) && Goes(d, op)
    ensures Steps(d, fold, op, WriteTo(d, fold, op))
  {
    CommittedAfter(Uncached(d), fold, op);
  }

  /** One hook at a time, for whatever tree access and environment it meets. */
  ghost predicate Sees(tree: Option<Forest>, e: Disk)
    requires UniqueIds(e)
  {
    tree.Some? ==> tree.value == TreeOf(e)
  }

  lemma HookOnCreate(d: Disk, e: Disk, fold: string -> string, sync: SyncState, node: Node, parent: Option<NodeId>,
                     tree: Option<Forest>, env: Env)
    requires Placed(d) && Creatable(d, node, parent) && e == Created(d, fold, node, parent)
    requires UniqueIds(e) && Acyclic(TreeOf(d)) && Acyclic(TreeOf(e)) && node.id in TreeOf(e)
    requires InSync(sync, TreeOf(d)) && Sees(tree, e)
    ensures InSync(CreateHook(sync, tree, TreeOf(e)[node.id], env), TreeOf(e))
  {
    CreateRefines(d, fold, node, parent);
    CreateConsistent(TreeOf(d), TreeOf(e), sync, node, parent, tree, env);
  }

  lemma HookOnRename(d: Disk, e: Disk, fold: string -> string, sync: SyncState, n: NodeId, title: string,
                     tree: Option<Forest>, env: Env)
    requires Placed(d) && n in TreeOf(d) && e == Retitled(d, fold, n, title)
    requires UniqueIds(e) && Acyclic(TreeOf(d)) && Acyclic(TreeOf(e))
    requires InSync(sync, TreeOf(d)) && Sees(tree, e)
    ensures InSync(RenameHook(sync, tree, n, title, env), TreeOf(e))
  {
    TreeKeyed(d);
    RenameRefines(d, fold, n, title);
    RetitleConsistent(TreeOf(d), TreeOf(e), sync, TreeOf(d)[n].(title := title), tree, env);
  }

  lemma HookOnUpdate(d: Disk, e: Disk, sync: SyncState, n: NodeId, metadata: Metadata, tree: Option<Forest>, env: Env)
    requires Placed(d) && n in TreeOf(d) && e == Written(d, TreeOf(d)[n].(id := n, metadata := metadata))
    requires UniqueIds(e) && Acyclic(TreeOf(d)) && Acyclic(TreeOf(e))
    requires InSync(sync, TreeOf(d)) && Sees(tree, e)
    ensures InSync(RenameHook(sync, tree, n, TreeOf(d)[n].title, env), TreeOf(e))
  {
    var node := TreeOf(d)[n].(id := n, metadata := metadata);
    WrittenTree(d, node);
    RetitleConsistent(TreeOf(d), TreeOf(e), sync, node, tree, env);
  }

  lemma HookOnMove(d: Disk, e: Disk, fold: string -> string, sync: SyncState, n: NodeId, parent: Option<NodeId>,
                   position: Option<int>, tree: Option<Forest>, env: Env)
    requires Placed(d) && Movable(d, n, parent) && e == MovedDisk(d, fold, n, parent, position)
    requires UniqueIds(e) && Acyclic(TreeOf(d)) && WellFormed(TreeOf(e))
    requires InSync(sync, TreeOf(d)) && Sees(tree, e)
    ensures Walkable(TreeOf(e), n) && InSync(MoveHook(sync, tree, n, env), TreeOf(e))
  {
    MoveRefines(d, fold, n, parent, position);
    MovableIff(d, n, parent);
    MoveConsistent(TreeOf(d), TreeOf(e), sync, n, parent, position, tree, env);
  }

  lemma HookOnDelete(d: Disk, e: Disk, sync: SyncState, n: NodeId, env: Env)
    requires Placed(d) && n in TreeOf(d) && e == Deleted(d, n)
    requires UniqueIds(e) && WellFormed(TreeOf(d)) && Acyclic(TreeOf(e))
    requires InSync(sync, TreeOf(d))
    ensures WalkEnds(TreeOf(d), n) && InSync(DeleteHooks(sync, FanOut(TreeOf(d), n), env), TreeOf(e))
  {
    DeleteRefines(d, n);
    DeleteConsistent(TreeOf(d), TreeOf(e), sync, n, env);
  }

  lemma HookOnAnyRename(d: Disk, e: Disk, fold: string -> string, sync: SyncState, n: NodeId, title: string,
                        tree: Option<Forest>, env: Env)
    requires Placed(d) && WellFormed(TreeOf(d)) && InSync(sync, TreeOf(d)) && Steps(d, fold, Rename(n, title), e)
    requires UniqueIds(e) && WellFormed(TreeOf(e)) && Sees(tree, e)
    ensures InSync(Hook(TreeOf(d), TreeOf(e), sync, Rename(n, title), tree, env), TreeOf(e))
  {
    if Blank(title) { ReslugRefines(d, fold, n, title); }
    else { HookOnRename(d, e, fold, sync, n, title, tree, env); }
  }

  lemma HookOnRecord(d: Disk, e: Disk, fold: string -> string, sync: SyncState, n: NodeId, metadata: Metadata,
                     tree: Option<Forest>, env: Env)
    requires Placed(d) && WellFormed(TreeOf(d)) && InSync(sync, TreeOf(d))
    requires Steps(d, fold, UpdateMetadata(n, metadata), e)
    requires UniqueIds(e) && WellFormed(TreeOf(e)) && Sees(tree, e)
    ensures n in TreeOf(d)
    ensures InSync(Hook(TreeOf(d), TreeOf(e), sync, UpdateMetadata(n, metadata), tree, env), TreeOf(e))
  {
    HookOnUpdate(d, e, sync, n, metadata, tree, env);
  }

  lemma HookOnShape(d: Disk, fold: string -> string, sync: SyncState, op: Op, e: Disk, tree: Option<Forest>, env: Env)
    requires Placed(d) && WellFormed(TreeOf(d)) && InSync(sync, TreeOf(d)) && Steps(d, fold, op, e)
    requires UniqueIds(e) && HookReady(TreeOf(d), TreeOf(e), op) && Sees(tree, e)
    requires op.Create? || op.Move? || op.Delete?
    ensures InSync(Hook(TreeOf(d), TreeOf(e), sync, op, tree, env), TreeOf(e))
  {
    match op
    case Create(node, parent) => HookOnCreate(d, e, fold, sync, node, parent, tree, env);
    case Move(n, parent, position) => HookOnMove(d, e, fold, sync, n, parent, position, tree, env);
    case Delete(n) => HookOnDelete(d, e, sync, n, env);
  }

  lemma HookConsistent(d: Disk, fold: string -> string, sync: SyncState, op: Op, e: Disk, tree: Option<Forest>,
                       env: Env)
    requires Placed(d) && WellFormed(TreeOf(d)) && InSync(sync, TreeOf(d)) && Steps(d, fold, op, e)
    requires UniqueIds(e) && HookReady(TreeOf(d), TreeOf(e), op) && Sees(tree, e)
    ensures InSync(Hook(TreeOf(d), TreeOf(e), sync, op, tree, env), TreeOf(e))
  {
    match op
    case Rename(n, title) => HookOnAnyRename(d, e, fold, sync, n, title, tree, env);
    case UpdateMetadata(n, metadata) => HookOnRecord(d, e, fold, sync, n, metadata, tree, env);
    case _ => HookOnShape(d, fold, sync, op, e, tree, env);
  }

  // ---------- runs ----------

  ghost function RunIndexed(s: IndexedState, fold: string -> string, events: seq<Event>): (r: IndexedState)
    requires Consistent(s)
    ensures Consistent(r)
    decreases |events|
  {
    if events == [] then s
    else
      NextConsistent(s, fold, events[0]);
      RunIndexed(NextIndexed(s, fold, events[0]), fold, events[1..])
  }

  /** From a consistent start, in every state any run of writes, failures and
      rebuilds reaches: no recorded failure means the index is exact. */
  lemma NotStaleMeansExact(d: Disk, start: SyncState, fold: string -> string, events: seq<Event>)
    requires WF(d) && Acyclic(TreeOf(d)) && (start.stale > 0 || Agrees(start.rows, TreeOf(d)))
    ensures Consistent(IndexedState(d, start))
    ensures var r := RunIndexed(IndexedState(d, start), fold, events);
            WF(r.disk) && Acyclic(TreeOf(r.disk)) && (r.sync.stale == 0 ==> Agrees(r.sync.rows, TreeOf(r.disk)))
  {
    var r := RunIndexed(IndexedState(d, start), fold, events);
    WFIff(r.disk);
  }

  ghost function NodesAfter(d: Disk, fold: string -> string, op: Op): nat
    requires WF(d)
  {
    WriteKeepsWF(d, fold, op);
    |TreeOf(WriteTo(d, fold, op)).Keys|
  }

  /** Nothing fails while the hook of this event runs. */
  ghost predicate Calm(s: IndexedState, fold: string -> string, event: Event)
    requires WF(s.disk)
  {
    event.Write? ==>
      && event.faults.treeOk && event.faults.lost == {} && event.faults.badDeletes == {}
      && event.faults.upserts >= NodesAfter(s.disk, fold, event.op)
  }

  ghost predicate AllCalm(s: IndexedState, fold: string -> string, events: seq<Event>)
    requires Consistent(s)
    decreases |events|
  {
    events == [] ||
    (Calm(s, fold, events[0]) &&
     (NextConsistent(s, fold, events[0]);
      AllCalm(NextIndexed(s, fold, events[0]), fold, events[1..])))
  }

  lemma {:induction false} CalmDeletes(sync: SyncState, ids: seq<NodeId>, env: Env)
    requires env.badDeletes == {}
    ensures DeleteHooks(sync, ids, env).stale == sync.stale
  {
    if ids != [] { CalmDeletes(sync, ids[..|ids| - 1], env); }
  }

  lemma WalkSize(t: Forest, n: NodeId)
    requires WellFormed(t) && n in t
    ensures WalkEnds(t, n) && |WalkIds(t, n)| <= |t.Keys|
    ensures forall y :: y in WalkIds(t, n) ==> y in t
  {
    WalkExact(t, n);
    NoDupBound(WalkIds(t, n), t.Keys);
  }

  lemma CalmMove(sync: SyncState, u: Forest, n: NodeId, env: Env)
    requires WellFormed(u) && n in u && u.Keys <= env.paths.Keys && env.upserts >= |u.Keys|
    ensures Walkable(u, n) && MoveHook(sync, Some(u), n, env).stale == sync.stale
  {
    WellFormedWalkable(u, n);
    WalkSize(u, n);
    MoveHookCases(sync, u, n, env);
  }

  lemma SomeNode(u: Forest, n: NodeId)
    requires n in u
    ensures |u.Keys| > 0
  {
  }

  lemma CalmHook(t: Forest, u: Forest, sync: SyncState, op: Op, env: Env)
    requires HookReady(t, u, op) && (op.Rename? || op.UpdateMetadata? || op.Move? ==> op.n in u)
    requires u.Keys <= env.paths.Keys && env.upserts >= |u.Keys| && env.badDeletes == {}
    ensures Hook(t, u, sync, op, Some(u), env).stale == sync.stale
  {
    match op
    case Create(node, _) => SomeNode(u, node.id);
    case Rename(n, _) => SomeNode(u, n);
    case UpdateMetadata(n, _) => SomeNode(u, n);
    case Move(n, _, _) => CalmMove(sync, u, n, env);
    case Delete(n) => CalmDeletes(sync, FanOut(t, n), env);
  }

  lemma StepsKeepNode(d: Disk, fold: string -> string, op: Op, e: Disk)
    requires Placed(d) && Steps(d, fold, op, e) && (op.Rename? || op.UpdateMetadata? || op.Move?)
    ensures UniqueIds(e) && op.n in TreeOf(e)
  {
    match op
    case Rename(n, title) =>
      ReslugRefines(d, fold, n, title);
      RenameRefines(d, fold, n, title);
    case UpdateMetadata(n, metadata) => WrittenTree(d, TreeOf(d)[n].(id := n, metadata := metadata));
    case Move(n, parent, position) => MoveRefines(d, fold, n, parent, position);
  }

  lemma CalmEnv(e: Disk, f: Faults)
    requires UniqueIds(e) && f.lost == {}
    ensures EnvOf(e, f).paths == PathStrings(e) && PathStrings(e).Keys == TreeOf(e).Keys
  {
  }

  lemma CalmStays(s: IndexedState, fold: string -> string, event: Event)
    requires Consistent(s) && Calm(s, fold, event) && s.sync.stale == 0
    ensures NextIndexed(s, fold, event).sync.stale == 0
  {
    if event.Write? && Goes(s.disk, event.op) {
      var e, tree, env := NextWrite(s, fold, event.op, event.faults);
      if event.op.Rename? || event.op.UpdateMetadata? || event.op.Move? { StepsKeepNode(s.disk, fold, event.op, e); }
      CalmEnv(e, event.faults);
      CalmHook(TreeOf(s.disk), TreeOf(e), s.sync, event.op, env);
    }
  }

  /** What a row says, times and path aside. */
  function Facts(row: IndexRecord): (NodeId, Option<NodeId>, Option<NodeId>, string, string) {
    (row.nodeId, row.parentId, row.storyId, row.title, row.nodeType)
  }

  /** Incremental equals rebuild: after any run without failures the rows say
      what a rebuild from the current tree would say. */
  lemma {:induction false} IncrementalEqualsRebuild(s: IndexedState, fold: string -> string, events: seq<Event>,
                                                    env: RebuildEnv)
    requires Consistent(s) && s.sync.stale == 0 && AllCalm(s, fold, events)
    requires var r := RunIndexed(s, fold, events); Acyclic(TreeOf(r.disk)) && Publishes(Some(TreeOf(r.disk)), env)
    ensures var r := RunIndexed(s, fold, events);
            var rebuilt := RowsAfter(map[], Some(TreeOf(r.disk)), env);
            && r.sync.stale == 0 && r.sync.rows.Keys == rebuilt.Keys
            && forall x :: x in rebuilt ==> Facts(r.sync.rows[x]) == Facts(rebuilt[x])
    decreases |events|
  {
    if events == [] {
      AgreeingRows(s.sync.rows, TreeOf(s.disk), env);
    } else {
      NextConsistent(s, fold, events[0]);
      CalmStays(s, fold, events[0]);
      IncrementalEqualsRebuild(NextIndexed(s, fold, events[0]), fold, events[1..], env);
    }
  }

  lemma AgreeingRows(rows: Records, t: Forest, env: RebuildEnv)
    requires Acyclic(t) && Agrees(rows, t) && Publishes(Some(t), env)
    ensures var rebuilt := RowsAfter(map[], Some(t), env);
            rows.Keys == rebuilt.Keys && forall x :: x in rebuilt ==> Facts(rows[x]) == Facts(rebuilt[x])
  {
    var rebuilt := RebuildExact(map[], t, env);
    forall x | x in rebuilt ensures Facts(rows[x]) == Facts(rebuilt[x]) {
      assert RowAgrees(t, x, rows[x]) && RowAgrees(t, x, rebuilt[x]);
      RowAgreesIff(t, x, rows[x]);
      RowAgreesIff(t, x, rebuilt[x]);
    }
  }
}
