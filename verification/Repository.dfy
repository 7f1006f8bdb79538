/** The repository: every write goes to the disk, then drops cache entries, then reports to the index. */
module Repository {
  import opened Domain
  import opened Seqs
  import opened Forests
  import opened Walks
  import opened Trees
  import opened Disks
  import opened DiskOps
  import opened LocalFilesystems
  import opened Reconstruction
  import opened Caches
  import opened CacheRuns
  import opened CacheReads

  /** A call on the synchroniser. */
  datatype HookCall =
    | NodeCreated(node: Node)
    | NodeRenamed(id: NodeId, title: string)
    | MetadataUpdated(id: NodeId, title: string)
    | NodeMoved(id: NodeId)
    | NodeDeleted(id: NodeId)

  function Deletions(ids: seq<NodeId>): (calls: seq<HookCall>)
    ensures |calls| == |ids| && forall i :: 0 <= i < |ids| ==> calls[i] == NodeDeleted(ids[i])
  {
    seq(|ids|, i requires 0 <= i < |ids| => NodeDeleted(ids[i]))
  }

  /** What a write reports, in order. */
  ghost function Calls(s: State, op: Op): seq<HookCall>
    requires Placed(s.disk)
  {
    if !Commits(s, op) then [] else
    match op
    case Create(node, parent) => [NodeCreated(node.(children := [], parent := parent))]
    case Rename(n, title) => if Blank(title) then [] else [NodeRenamed(n, title)]
    case UpdateMetadata(n, _) => [MetadataUpdated(n, StartingNode(s, n).title)]
    case Move(n, _, _) => [NodeMoved(n)]
    case Delete(n) => Deletions(Reversed(WalkIds(Walked(s, n), n)))
  }

  /** Errors of the filesystem name the node the caller asked about. */
  function Translated<T>(r: Result<T>, nodeId: NodeId): Result<T> {
    if r.Err? && r.error.NodeNotFound? then Err(NodeNotFound(nodeId)) else r
  }

  class LocalWorkspaceRepository {
    const fs: LocalFilesystem
    const cache: InMemoryWorkspaceCache?

    ghost function Snapshot(): Forest
      reads cache, if cache == null then {} else {cache.tree}
    {
      if cache != null && cache.tree != null then cache.tree.nodes else map[]
    }

    ghost function State(): State
      reads fs, cache, if cache == null then {} else {cache.tree}
    {
      CacheRuns.State(fs.dirs, if cache == null then map[] else cache.nodes, Snapshot())
    }

    ghost predicate Valid()
      reads fs, cache, if cache == null then {} else {cache.tree}
    {
      (cache != null ==> cache.Valid()) && CurrentFields(State())
    }

    constructor (filesystem: LocalFilesystem, workspaceCache: InMemoryWorkspaceCache?)
      requires Placed(filesystem.dirs) && (workspaceCache != null ==> workspaceCache.Valid() && !workspaceCache.loaded)
      ensures fs == filesystem && cache == workspaceCache && Valid()
    {
      fs := filesystem;
      cache := workspaceCache;
    }

    /** What boot does: the tree loaded from disk becomes dictionary and snapshot,
        unless the cache is loaded already. */
    method PopulateCache()
      requires Valid()
      modifies cache
      ensures Valid()
      ensures cache != null && !old(cache.loaded) ==> State() == Populated(fs.dirs)
      ensures cache == null || old(cache.loaded) ==> State() == old(State())
    {
      if cache == null || cache.loaded { return; }
      var tree := LoadTree();
      cache.Populate(tree);
    }

    /** Cache first; anything the cache cannot answer is read from disk. */
    method LoadNode(nodeId: NodeId) returns (r: Result<Node>)
      requires Valid()
      ensures r == match Read(State(), nodeId)
                   case Some(node) => Ok(node)
                   case None => Err(NodeNotFound(nodeId))
    {
      if cache != null && cache.loaded {
        var hit := cache.LoadNode(nodeId);
        if hit.Some? { return Ok(hit.value); }
      }
      r := fs.LoadNode(nodeId);
    }

    /** Rebuilds the tree from disk, whatever the cache holds. */
    method LoadTree() returns (tree: Tree)
      requires Placed(fs.dirs)
      ensures fresh(tree) && tree.Valid() && tree.nodes == Pruned(TreeOf(fs.dirs))
      ensures WF(fs.dirs) ==> tree.nodes == TreeOf(fs.dirs)
    {
      var nodes, ps := WalkRecords(fs);
      RebuiltComplete(fs.dirs, ps);
      tree := BuildTree(nodes);
    }

    /** One round of the walk over child lists on disk. */
    method VisitLevelOnDisk(frontier: seq<NodeId>) returns (found: seq<NodeId>, nextFrontier: seq<NodeId>)
      requires Placed(fs.dirs)
      ensures found == Present(TreeOf(fs.dirs), frontier)
      ensures nextFrontier == Kids(TreeOf(fs.dirs), Present(TreeOf(fs.dirs), frontier))
    {
      ghost var t := TreeOf(fs.dirs);
      found, nextFrontier := [], [];
      for i := 0 to |frontier|
        invariant found == Present(t, frontier[..i])
        invariant nextFrontier == Kids(t, Present(t, frontier[..i]))
      {
        var cid := frontier[i];
        FrontierStep(t, frontier, i);
        var child := fs.LoadNode(cid);
        if child.Ok? {
          found := found + [cid];
          nextFrontier := nextFrontier + child.value.children;
        }
      }
      assert frontier[..|frontier|] == frontier;
    }

    /** The walk over child lists on disk, below the node. No visited set: child
        lists that lead back up would keep it going for ever. */
    method WalkDisk(nodeId: NodeId) returns (r: Result<seq<NodeId>>)
      requires Placed(fs.dirs)
      requires nodeId in TreeOf(fs.dirs) ==> LoopFree(TreeOf(fs.dirs), nodeId)
      ensures nodeId !in TreeOf(fs.dirs) ==> r == Err(NodeNotFound(nodeId))
      ensures nodeId in TreeOf(fs.dirs) ==> r.Ok? && WalkEnds(TreeOf(fs.dirs), nodeId)
      ensures nodeId in TreeOf(fs.dirs) ==> [nodeId] + r.value == WalkIds(TreeOf(fs.dirs), nodeId)
    {
      ghost var t := TreeOf(fs.dirs);
      if nodeId in t { WalkEndsIff(t, nodeId); }
      var start := fs.LoadNode(nodeId);
      if start.Err? { return Err(NodeNotFound(nodeId)); }
      var ids: seq<NodeId>, frontier := [], start.value.children;
      ghost var last: nat :| Level(t, nodeId, last) == [];
      ghost var k := 0;
      StartBelow(t, nodeId);
      while frontier != []
        invariant k <= last && WalkAt(t, nodeId, k, frontier, [nodeId] + ids)
        decreases last - k
      {
        var found, nextFrontier := VisitLevelOnDisk(frontier);
        RoundBelow(t, nodeId, last, k, frontier, ids);
        ids, frontier, k := ids + found, nextFrontier, k + 1;
      }
      WalkDone(t, nodeId, k, [nodeId] + ids);
      return Ok(ids);
    }

    /** Whichever walk is used, it comes to an end. */
    ghost predicate WalkTerminates(nodeId: NodeId)
      requires UniqueIds(fs.dirs)
      reads fs, cache, if cache == null then {} else {cache.tree}
    {
      nodeId in Walked(State(), nodeId) ==> LoopFree(Walked(State(), nodeId), nodeId)
    }

    /** The ids below a node, itself excluded: from the snapshot, else from disk. */
    method CollectDescendantIds(nodeId: NodeId) returns (r: Result<seq<NodeId>>)
      requires Placed(fs.dirs) && (cache != null ==> cache.Valid()) && WalkTerminates(nodeId)
      ensures r.Err? ==> r == Err(NodeNotFound(nodeId))
      ensures r.Ok? <==> nodeId in Walked(State(), nodeId)
      ensures r.Ok? ==> WalkEnds(Walked(State(), nodeId), nodeId)
      ensures r.Ok? ==> [nodeId] + r.value == WalkIds(Walked(State(), nodeId), nodeId)
    {
      if cache != null && cache.loaded {
        var ids := cache.SubtreeIds(nodeId);
        if ids.Some? {
          StartOnce(Snapshot(), nodeId);
          DropFirst(ids.value);
          return Ok(Without(ids.value, nodeId));
        }
      }
      r := WalkDisk(nodeId);
    }

    /** The node and the ids below it: what a move invalidates. */
    method MovedSubtreeIds(nodeId: NodeId) returns (ids: seq<NodeId>)
      requires Placed(fs.dirs) && (cache != null ==> cache.Valid()) && WalkTerminates(nodeId)
      requires nodeId in TreeOf(fs.dirs)
      ensures WalkEnds(Walked(State(), nodeId), nodeId) && ids == WalkIds(Walked(State(), nodeId), nodeId)
    {
      if cache != null && cache.loaded {
        var known := cache.SubtreeIds(nodeId);
        if known.Some? { return known.value; }
      }
      var below := CollectDescendantIds(nodeId);
      return [nodeId] + below.value;
    }

    /** A write to disk leaves the cache as it is. */
    twostate lemma OnlyDiskChanged()
      requires old(cache != null ==> cache.Valid())
      requires cache != null ==> unchanged(cache) && (cache.tree != null ==> unchanged(cache.tree))
      ensures cache != null ==> cache.Valid()
      ensures State() == old(State()).(disk := fs.dirs)
    {
    }

    twostate lemma NothingChanged()
      requires old(Valid()) && unchanged(fs)
      requires cache != null ==> unchanged(cache) && (cache.tree != null ==> unchanged(cache.tree))
      ensures Valid() && State() == old(State())
    {
    }

    method InvalidateCache(ids: seq<NodeId>)
      requires cache != null ==> cache.Valid()
      modifies cache
      ensures cache != null ==> cache.Valid()
      ensures State() == old(State()).(nodes := old(State()).nodes - ToSet(ids))
    {
      if cache != null { cache.InvalidateMany(ids); }
    }

    // ---------- writes ----------

    method SaveNode(node: Node, parentId: Option<NodeId>) returns (r: Result<Node>, calls: seq<HookCall>)
      requires Valid() && node.id !in TreeOf(fs.dirs) && (parentId.None? ==> node.parent == None)
      modifies fs, cache
      ensures Valid() && State() == Next(old(State()), fs.fold, Create(node, parentId))
      ensures Safe(old(State())) ==> Safe(State())
      ensures r == if Commits(old(State()), Create(node, parentId)) then Ok(node.(children := [], parent := parentId))
                   else Err(NodeNotFound(node.id))
      ensures calls == Calls(old(State()), Create(node, parentId))
    {
      ghost var s := State();
      r := fs.CreateNode(node, parentId);
      OnlyDiskChanged();
      if r.Err? {
        SaveEffect(s, fs.fold, node, parentId, State());
        return Translated(r, node.id), [];
      }
      InvalidateCache([node.id]);
      SaveEffect(s, fs.fold, node, parentId, State());
      calls := [NodeCreated(r.value)];
    }

    method RenameNode(nodeId: NodeId, newTitle: string) returns (r: Result<Node>, calls: seq<HookCall>)
      requires Valid()
      modifies fs, cache
      ensures Valid() && State() == Next(old(State()), fs.fold, Rename(nodeId, newTitle))
      ensures Safe(old(State())) ==> Safe(State())
      ensures nodeId !in TreeOf(old(fs.dirs)) ==> r == Err(NodeNotFound(nodeId))
      ensures nodeId in TreeOf(old(fs.dirs)) && Blank(newTitle) ==> r == Err(BlankTitle)
      ensures nodeId in TreeOf(old(fs.dirs)) && !Blank(newTitle) ==>
                r == Ok(TreeOf(old(fs.dirs))[nodeId].(title := newTitle))
      ensures calls == Calls(old(State()), Rename(nodeId, newTitle))
    {
      ghost var s := State();
      r := fs.RenameNode(nodeId, newTitle);
      OnlyDiskChanged();
      if r.Err? {
        RefusedEffect(s, fs.fold, nodeId, newTitle, State());
        return r, [];
      }
      InvalidateCache([nodeId]);
      TitledEffect(s, fs.fold, nodeId, newTitle, State());
      calls := [NodeRenamed(nodeId, newTitle)];
    }

    /** Starts from the cached node when there is one, and rewrites all of it. */
    method UpdateMetadata(nodeId: NodeId, metadata: Metadata) returns (r: Result<Node>, calls: seq<HookCall>)
      requires Valid()
      modifies fs, cache
      ensures Valid() && State() == Next(old(State()), fs.fold, CacheRuns.UpdateMetadata(nodeId, metadata))
      ensures Safe(old(State())) ==> Safe(State())
      ensures r == if nodeId in TreeOf(old(fs.dirs)) then Ok(StartingNode(old(State()), nodeId).(metadata := metadata))
                   else Err(NodeNotFound(nodeId))
      ensures calls == Calls(old(State()), CacheRuns.UpdateMetadata(nodeId, metadata))
    {
      ghost var s := State();
      StartsFromItself(s, nodeId);
      var current := LoadNode(nodeId);
      if current.Err? {
        MetadataEffect(s, fs.fold, nodeId, metadata, State());
        return current, [];
      }
      r := fs.WriteNode(current.value.(metadata := metadata));
      OnlyDiskChanged();
      if r.Err? {
        MetadataEffect(s, fs.fold, nodeId, metadata, State());
        return r, [];
      }
      InvalidateCache([nodeId]);
      MetadataEffect(s, fs.fold, nodeId, metadata, State());
      calls := [MetadataUpdated(nodeId, r.value.title)];
    }

    method MoveNode(nodeId: NodeId, newParentId: Option<NodeId>, position: Option<int>)
      returns (r: Result<Node>, calls: seq<HookCall>)
      requires Valid()
      requires Movable(fs.dirs, nodeId, newParentId) ==> MoveReturns(State(), nodeId, newParentId)
      modifies fs, cache
      ensures Valid() && State() == Next(old(State()), fs.fold, Move(nodeId, newParentId, position))
      ensures Safe(old(State())) ==> Safe(State())
      ensures r == Translated(MoveOutcome(old(fs.dirs), nodeId, newParentId), nodeId)
      ensures calls == Calls(old(State()), Move(nodeId, newParentId, position))
    {
      ghost var s := State();
      MoveOkIff(fs.dirs, nodeId, newParentId);
      r := fs.MoveNode(nodeId, newParentId, position);
      OnlyDiskChanged();
      if r.Err? {
        MoveEffect(s, fs.fold, nodeId, newParentId, position, State());
        return Translated(r, nodeId), [];
      }
      MoveWalks(s, fs.fold, nodeId, newParentId, position);
      var ids := MovedSubtreeIds(nodeId);
      InvalidateCache(ids);
      MoveEffect(s, fs.fold, nodeId, newParentId, position, State());
      calls := [NodeMoved(nodeId)];
    }

    method DeleteNode(nodeId: NodeId) returns (r: Result<()>, calls: seq<HookCall>)
      requires Valid() && WalkTerminates(nodeId)
      modifies fs, cache
      ensures Valid() && State() == Next(old(State()), fs.fold, Delete(nodeId))
      ensures Safe(old(State())) ==> Safe(State())
      ensures r == if nodeId in TreeOf(old(fs.dirs)) then Ok(()) else Err(NodeNotFound(nodeId))
      ensures calls == Calls(old(State()), Delete(nodeId))
    {
      ghost var s := State();
      var below := CollectDescendantIds(nodeId);
      if below.Err? {
        DeleteEffect(s, fs.fold, nodeId, [], State());
        return Err(NodeNotFound(nodeId)), [];
      }
      var ids := below.value;
      r := fs.DeleteNode(nodeId);
      OnlyDiskChanged();
      if r.Err? {
        DeleteEffect(s, fs.fold, nodeId, ids, State());
        return Translated(r, nodeId), [];
      }
      InvalidateCache([nodeId] + ids);
      DeleteEffect(s, fs.fold, nodeId, ids, State());
      calls := Deletions(Reversed(ids) + [nodeId]);
    }
  }

  lemma StartBelow(t: Forest, n: NodeId)
    requires n in t
    ensures WalkAt(t, n, 0, t[n].children, [n] + [])
  {
    WalkStart(t, n);
    assert [n] + [] == [n];
  }

  lemma RoundBelow(t: Forest, n: NodeId, last: nat, k: nat, frontier: seq<NodeId>, ids: seq<NodeId>)
    requires frontier != [] && Level(t, n, last) == [] && WalkAt(t, n, k, frontier, [n] + ids)
    ensures k < last
    ensures WalkAt(t, n, k + 1, Kids(t, Present(t, frontier)), [n] + (ids + Present(t, frontier)))
  {
    WalkOver(t, n, last, k, frontier, [n] + ids);
    WalkOn(t, n, k, frontier, [n] + ids);
    Regroup([n], ids, Present(t, frontier));
  }

  lemma Regroup<T>(a: seq<T>, b: seq<T>, c: seq<T>)
    ensures a + b + c == a + (b + c)
  {
  }

  // ---------- each write's outcome, spelled out ----------

  lemma IdleStep(s: State, fold: string -> string, op: Op)
    requires Placed(s.disk) && !Commits(s, op)
    ensures Next(s, fold, op) == s && Calls(s, op) == []
  {
    NothingGone(s, fold, op);
    RemoveNothing(s.nodes);
  }

  lemma NothingGone(s: State, fold: string -> string, op: Op)
    requires Placed(s.disk) && !Commits(s, op)
    ensures Gone(s, fold, op) == {} && DiskAfter(s, fold, op) == s.disk && Calls(s, op) == []
  {
  }

  lemma Singleton(n: NodeId)
    ensures ToSet([n]) == {n}
  {
  }

  lemma RemoveNothing(nodes: map<NodeId, Node>)
    ensures nodes - {} == nodes
  {
  }

  lemma NextIs(s: State, fold: string -> string, op: Op)
    requires Placed(s.disk) && Commits(s, op)
    ensures Next(s, fold, op) == State(Committed(s, fold, op), s.nodes - Gone(s, fold, op), s.snapshot)
  {
    CommittedAfter(s, fold, op);
  }

  lemma SaveEffect(s: State, fold: string -> string, node: Node, parent: Option<NodeId>, after: State)
    requires CurrentFields(s)
    requires !Creatable(s.disk, node, parent) ==> after == s
    requires Creatable(s.disk, node, parent) ==>
               after == State(Created(s.disk, fold, node, parent), s.nodes - ToSet([node.id]), s.snapshot)
    ensures CurrentFields(after) && (Safe(s) ==> Safe(after)) && after == Next(s, fold, Create(node, parent))
    ensures Calls(s, Create(node, parent)) ==
              if Creatable(s.disk, node, parent) then [NodeCreated(node.(children := [], parent := parent))] else []
  {
    NextCurrent(s, fold, Create(node, parent));
    if Safe(s) { NextSafe(s, fold, Create(node, parent)); }
    if Creatable(s.disk, node, parent) {
      NextIs(s, fold, Create(node, parent));
      Singleton(node.id);
    } else {
      IdleStep(s, fold, Create(node, parent));
    }
  }

  /** A blank title leaves the directory renamed, the cache alone, and reports nothing. */
  lemma BlankEffect(s: State, fold: string -> string, n: NodeId, title: string, after: State)
    requires CurrentFields(s) && n in TreeOf(s.disk) && Blank(title)
    requires after == s.(disk := Reslugged(s.disk, fold, n, title))
    ensures CurrentFields(after) && (Safe(s) ==> Safe(after))
    ensures after == Next(s, fold, Rename(n, title)) && Calls(s, Rename(n, title)) == []
  {
    NextCurrent(s, fold, Rename(n, title));
    if Safe(s) { NextSafe(s, fold, Rename(n, title)); }
    NextIs(s, fold, Rename(n, title));
    RemoveNothing(s.nodes);
  }

  lemma RefusedEffect(s: State, fold: string -> string, n: NodeId, title: string, after: State)
    requires CurrentFields(s)
    requires n !in TreeOf(s.disk) ==> after == s
    requires n in TreeOf(s.disk) ==> Blank(title) && after == s.(disk := Reslugged(s.disk, fold, n, title))
    ensures CurrentFields(after) && (Safe(s) ==> Safe(after))
    ensures after == Next(s, fold, Rename(n, title)) && Calls(s, Rename(n, title)) == []
  {
    if n in TreeOf(s.disk) { BlankEffect(s, fold, n, title, after); } else { IdleStep(s, fold, Rename(n, title)); }
  }

  lemma TitledEffect(s: State, fold: string -> string, n: NodeId, title: string, after: State)
    requires CurrentFields(s) && n in TreeOf(s.disk) && !Blank(title)
    requires after == State(Retitled(s.disk, fold, n, title), s.nodes - ToSet([n]), s.snapshot)
    ensures CurrentFields(after) && (Safe(s) ==> Safe(after)) && after == Next(s, fold, Rename(n, title))
    ensures Calls(s, Rename(n, title)) == [NodeRenamed(n, title)]
  {
    NextCurrent(s, fold, Rename(n, title));
    if Safe(s) { NextSafe(s, fold, Rename(n, title)); }
    NextIs(s, fold, Rename(n, title));
    Singleton(n);
  }

  lemma MetadataEffect(s: State, fold: string -> string, n: NodeId, metadata: Metadata, after: State)
    requires CurrentFields(s)
    requires n !in TreeOf(s.disk) ==> after == s
    requires n in TreeOf(s.disk) ==> StartingNode(s, n).id == n
    requires n in TreeOf(s.disk) ==>
               var e := Written(s.disk, StartingNode(s, n).(metadata := metadata));
               after == State(e, s.nodes - ToSet([n]), s.snapshot)
    ensures CurrentFields(after) && (Safe(s) ==> Safe(after)) && after == Next(s, fold, UpdateMetadata(n, metadata))
    ensures Calls(s, UpdateMetadata(n, metadata)) ==
              if n in TreeOf(s.disk) then [MetadataUpdated(n, StartingNode(s, n).title)] else []
  {
    NextCurrent(s, fold, UpdateMetadata(n, metadata));
    if Safe(s) { NextSafe(s, fold, UpdateMetadata(n, metadata)); }
    if n in TreeOf(s.disk) {
      NextIs(s, fold, UpdateMetadata(n, metadata));
      Singleton(n);
    } else {
      IdleStep(s, fold, UpdateMetadata(n, metadata));
    }
  }

  /** The walk a move starts after its disk commit comes to an end. */
  lemma MoveWalks(s: State, fold: string -> string, n: NodeId, parent: Option<NodeId>, position: Option<int>)
    requires Placed(s.disk) && Movable(s.disk, n, parent)
    requires MoveReturns(s, n, parent)
    ensures var after := s.(disk := MovedDisk(s.disk, fold, n, parent, position));
            && Placed(after.disk) && n in TreeOf(after.disk) && WalkEnds(Walked(after, n), n)
            && LoopFree(Walked(after, n), n)
  {
    MoveRefines(s.disk, fold, n, parent, position);
    MoveGone(s, fold, n, parent, position);
    WalkEndsIff(Walked(s.(disk := MovedDisk(s.disk, fold, n, parent, position)), n), n);
  }

  lemma MoveEffect(s: State, fold: string -> string, n: NodeId, parent: Option<NodeId>, position: Option<int>,
                   after: State)
    requires CurrentFields(s)
    requires !Movable(s.disk, n, parent) ==> after == s
    requires Movable(s.disk, n, parent) ==> MoveReturns(s, n, parent)
    requires Movable(s.disk, n, parent) ==>
               (MoveWalks(s, fold, n, parent, position);
                var moved := s.(disk := MovedDisk(s.disk, fold, n, parent, position));
                after == moved.(nodes := s.nodes - ToSet(WalkIds(Walked(moved, n), n))))
    ensures CurrentFields(after) && (Safe(s) ==> Safe(after)) && after == Next(s, fold, Move(n, parent, position))
    ensures Calls(s, Move(n, parent, position)) == if Movable(s.disk, n, parent) then [NodeMoved(n)] else []
  {
    if Movable(s.disk, n, parent) { MoveReturnsIff(s, fold, n, parent, position); }
    NextCurrent(s, fold, Move(n, parent, position));
    if Safe(s) { NextSafe(s, fold, Move(n, parent, position)); }
    if Movable(s.disk, n, parent) {
      MoveGone(s, fold, n, parent, position);
      NextIs(s, fold, Move(n, parent, position));
      MoveAfter(s, fold, n, parent, position);
    } else {
      IdleStep(s, fold, Move(n, parent, position));
    }
  }

  lemma MoveGone(s: State, fold: string -> string, n: NodeId, parent: Option<NodeId>, position: Option<int>)
    requires Placed(s.disk) && Movable(s.disk, n, parent)
    requires MoveReturns(s, n, parent)
    ensures var e := MovedDisk(s.disk, fold, n, parent, position);
            && Placed(e) && WalkEnds(Walked(s.(disk := e), n), n)
            && Gone(s, fold, Move(n, parent, position)) == ToSet(WalkIds(Walked(s.(disk := e), n), n))
  {
    var e := MovedDisk(s.disk, fold, n, parent, position);
    MoveRefines(s.disk, fold, n, parent, position);
    MoveReturnsIff(s, fold, n, parent, position);
    InvalidatedIs(s.(disk := e), n);
    MoveGoneIs(s, fold, n, parent, position, e);
  }

  lemma InvalidatedIs(s: State, n: NodeId)
    requires Placed(s.disk) && WalkEnds(Walked(s, n), n)
    ensures Invalidated(s, n) == ToSet(WalkIds(Walked(s, n), n))
  {
  }

  lemma MoveGoneIs(s: State, fold: string -> string, n: NodeId, parent: Option<NodeId>, position: Option<int>, e: Disk)
    requires Placed(s.disk) && Movable(s.disk, n, parent)
    requires e == MovedDisk(s.disk, fold, n, parent, position) && Placed(e)
    ensures Gone(s, fold, Move(n, parent, position)) == Invalidated(s.(disk := e), n)
  {
    CommittedAfter(s, fold, Move(n, parent, position));
    MoveAfter(s, fold, n, parent, position);
  }

  lemma DeleteEffect(s: State, fold: string -> string, n: NodeId, ids: seq<NodeId>, after: State)
    requires CurrentFields(s)
    requires n !in TreeOf(s.disk) ==> after == s
    requires n in TreeOf(s.disk) ==> WalkEnds(Walked(s, n), n) && [n] + ids == WalkIds(Walked(s, n), n)
    requires n in TreeOf(s.disk) ==> after == State(Deleted(s.disk, n), s.nodes - ToSet([n] + ids), s.snapshot)
    ensures CurrentFields(after) && (Safe(s) ==> Safe(after)) && after == Next(s, fold, Delete(n))
    ensures Calls(s, Delete(n)) == if n in TreeOf(s.disk) then Deletions(Reversed(ids) + [n]) else []
  {
    NextCurrent(s, fold, Delete(n));
    if Safe(s) { NextSafe(s, fold, Delete(n)); }
    if n in TreeOf(s.disk) {
      DeleteInvalidates(s, n, ids);
      NextIs(s, fold, Delete(n));
    } else {
      IdleStep(s, fold, Delete(n));
    }
  }

  lemma DeleteInvalidates(s: State, n: NodeId, ids: seq<NodeId>)
    requires Placed(s.disk) && n in TreeOf(s.disk) && WalkEnds(Walked(s, n), n) && [n] + ids == WalkIds(Walked(s, n), n)
    ensures Invalidated(s, n) == ToSet([n] + ids)
    ensures Commits(s, Delete(n)) && Calls(s, Delete(n)) == Deletions(Reversed(ids) + [n])
  {
    ReversedSplit(n, ids);
  }

  /** The walk along child lists that follows a move ends, by the lists before
      the move: with n off its parent's list no loop is met below it, nor the
      new parent. */
  ghost predicate WalksAfterMove(d: Disk, n: NodeId, parent: Option<NodeId>)
    requires Placed(d) && Movable(d, n, parent)
  {
    ParentOnDisk(d, n);
    var t := Unlisted(TreeOf(d), n);
    LoopFree(t, n) && !Meets(t, n, parent)
  }

  /** Exactly under this condition the walk on the disk after the move ends. */
  lemma WalksAfterMoveIff(d: Disk, fold: string -> string, n: NodeId, parent: Option<NodeId>, position: Option<int>)
    requires Placed(d) && Movable(d, n, parent)
    ensures var e := MovedDisk(d, fold, n, parent, position);
            UniqueIds(e) && n in TreeOf(e) && (WalkEnds(TreeOf(e), n) <==> WalksAfterMove(d, n, parent))
  {
    MoveRefines(d, fold, n, parent, position);
    NotOwnParent(d, n);
    var u := MovedTree(TreeOf(d), n, parent, position);
    MovedHung(TreeOf(d), n, parent, position);
    HangLoopFreeIff(Unlisted(TreeOf(d), n), u, parent, n);
    WalkEndsIff(u, n);
  }

  /** The walk a move starts after its commit, in the snapshot or on disk. */
  ghost predicate MoveReturns(s: State, n: NodeId, parent: Option<NodeId>)
    requires Placed(s.disk) && Movable(s.disk, n, parent)
  {
    if n in s.snapshot then LoopFree(s.snapshot, n) else WalksAfterMove(s.disk, n, parent)
  }

  /** A move returns exactly when no loop is met: by the snapshot's lists if it
      knows the node, else by the lists on disk before the move. */
  lemma MoveReturnsIff(s: State, fold: string -> string, n: NodeId, parent: Option<NodeId>, position: Option<int>)
    requires Placed(s.disk) && Movable(s.disk, n, parent)
    ensures var after := s.(disk := MovedDisk(s.disk, fold, n, parent, position));
            && UniqueIds(after.disk) && n in Walked(after, n)
            && (WalkEnds(Walked(after, n), n) <==> MoveReturns(s, n, parent))
  {
    WalksAfterMoveIff(s.disk, fold, n, parent, position);
    if n in s.snapshot { WalkEndsIff(s.snapshot, n); }
  }

  lemma MovedHung(t: Forest, n: NodeId, parent: Option<NodeId>, position: Option<int>)
    requires n in t && (t[n].parent.Some? ==> t[n].parent.value in t)
    requires parent.Some? ==> parent.value in t
    ensures Hung(Unlisted(t, n), MovedTree(t, n, parent, position), parent, n)
  {
  }

  lemma StartsFromItself(s: State, n: NodeId)
    requires UniqueIds(s.disk) && (n in s.nodes ==> s.nodes[n].id == n)
    ensures n in TreeOf(s.disk) ==> StartingNode(s, n).id == n
  {
    TreeKeyed(s.disk);
  }

  lemma DropFirst<T(!new)>(ids: seq<T>)
    requires |ids| > 0 && ids[0] !in ids[1..]
    ensures [ids[0]] + Without(ids, ids[0]) == ids
  {
  }

  lemma ReversedSplit<T>(x: T, ids: seq<T>)
    ensures Reversed([x] + ids) == Reversed(ids) + [x]
  {
  }
}
