/** The disk refines the tree: loading after a write gives the tree operation on what loading gave before. */
module Refinement {
  import opened Domain
  import opened Forests
  import opened Trees
  import opened Disks
  import opened DiskOps
  import opened Reconstruction
  import opened CacheRuns
  import opened CacheReads
  import opened IndexRuns

  /** The tree operations of each write, on the forest. */
  ghost predicate TreeOpReady(t: Forest, op: Op)
    requires WellFormed(t)
  {
    match op
    case Create(node, parent) => node.id !in t && (parent.Some? ==> parent.value in t)
    case Rename(n, _) => n in t
    case UpdateMetadata(n, _) => n in t
    case Move(n, parent, _) => n in t && (parent.Some? ==> parent.value in t && !InSubtree(t, n, parent.value))
    case Delete(n) => n in t
  }

  /** Create is add then attach, move is detach then insert at the same position
      or detach alone, delete drops the subtree, the others rewrite one record. */
  ghost function TreeOp(t: Forest, op: Op): Forest
    requires WellFormed(t) && TreeOpReady(t, op)
  {
    match op
    case Create(node, parent) => CreatedTree(t, node, parent)
    case Rename(n, title) => if Blank(title) then t else t[n := t[n].(title := title)]
    case UpdateMetadata(n, metadata) => t[n := t[n].(metadata := metadata)]
    case Move(n, parent, position) => MoveOp(t, n, parent, position)
    case Delete(n) => SubtreeRemoved(t, n)
  }

  lemma GoesReady(d: Disk, op: Op)
    requires WF(d) && Goes(d, op)
    ensures WellFormed(TreeOf(d)) && TreeOpReady(TreeOf(d), op)
  {
    WFIff(d);
    if op.Move? { MovableIff(d, op.n, op.newParent); }
  }

  lemma StepIsTreeOp(d: Disk, fold: string -> string, op: Op, e: Disk)
    requires WF(d) && WellFormed(TreeOf(d)) && TreeOpReady(TreeOf(d), op) && Steps(d, fold, op, e)
    ensures UniqueIds(e) && TreeOf(e) == TreeOp(TreeOf(d), op)
  {
    if op.Rename? {
      AnyRenameTree(d, fold, op.n, op.title, e);
    } else if op.UpdateMetadata? {
      MetadataStep(d, fold, op.n, op.metadata, e);
    } else {
      ShapeStep(d, fold, op, e);
    }
  }

  lemma ShapeStep(d: Disk, fold: string -> string, op: Op, e: Disk)
    requires WF(d) && WellFormed(TreeOf(d)) && TreeOpReady(TreeOf(d), op) && Steps(d, fold, op, e)
    requires op.Create? || op.Move? || op.Delete?
    ensures UniqueIds(e) && TreeOf(e) == TreeOp(TreeOf(d), op)
  {
    match op
    case Create(node, parent) => CreateRefines(d, fold, node, parent);
    case Move(n, parent, position) => MoveKeepsWF(d, fold, n, parent, position);
    case Delete(n) => DeleteRefines(d, n);
  }

  lemma MetadataTree(d: Disk, n: NodeId, metadata: Metadata, e: Disk)
    requires Placed(d) && n in TreeOf(d) && e == Written(d, TreeOf(d)[n].(id := n, metadata := metadata))
    ensures UniqueIds(e) && TreeOf(e) == TreeOf(d)[n := TreeOf(d)[n].(metadata := metadata)]
  {
    TreeKeyed(d);
    WrittenTree(d, TreeOf(d)[n].(id := n, metadata := metadata));
  }

  lemma MetadataStep(d: Disk, fold: string -> string, n: NodeId, metadata: Metadata, e: Disk)
    requires Placed(d) && WellFormed(TreeOf(d)) && n in TreeOf(d) && Steps(d, fold, UpdateMetadata(n, metadata), e)
    ensures UniqueIds(e) && TreeOf(e) == TreeOp(TreeOf(d), UpdateMetadata(n, metadata))
  {
    MetadataTree(d, n, metadata, e);
  }

  lemma AnyRenameTree(d: Disk, fold: string -> string, n: NodeId, title: string, e: Disk)
    requires Placed(d) && WellFormed(TreeOf(d)) && n in TreeOf(d) && Steps(d, fold, Rename(n, title), e)
    ensures UniqueIds(e) && TreeOf(e) == TreeOp(TreeOf(d), Rename(n, title))
  {
    BothRenames(d, fold, n, title);
  }

  lemma BothRenames(d: Disk, fold: string -> string, n: NodeId, title: string)
    requires Placed(d) && n in TreeOf(d)
    ensures UniqueIds(Reslugged(d, fold, n, title)) && TreeOf(Reslugged(d, fold, n, title)) == TreeOf(d)
    ensures UniqueIds(Retitled(d, fold, n, title))
    ensures TreeOf(Retitled(d, fold, n, title)) == TreeOf(d)[n := TreeOf(d)[n].(title := title)]
  {
    ReslugRefines(d, fold, n, title);
    RenameRefines(d, fold, n, title);
  }

  /** Whatever order the directories are visited in, before and after. */
  lemma LoadFollowsTree(d: Disk, fold: string -> string, op: Op, ps: seq<Path>, qs: seq<Path>)
    requires WF(d) && Goes(d, op) && Listing(d, ps) && Listing(WriteTo(d, fold, op), qs)
    ensures var before, after := Rebuilt(Records(d, ps)), Rebuilt(Records(WriteTo(d, fold, op), qs));
            WellFormed(before) && TreeOpReady(before, op) && after == TreeOp(before, op)
  {
    GoesReady(d, op);
    AfterCommit(d, fold, op);
    WriteKeepsWF(d, fold, op);
    StepIsTreeOp(d, fold, op, WriteTo(d, fold, op));
    RebuiltComplete(d, ps);
    RebuiltComplete(WriteTo(d, fold, op), qs);
  }

  // ---------- with a cache ----------

  /** The cached child list is the one on disk, order included. */
  ghost predicate ListExact(s: CacheRuns.State, op: Op)
    requires UniqueIds(s.disk)
  {
    op.UpdateMetadata? && op.n in TreeOf(s.disk) && op.n in s.nodes ==>
      s.nodes[op.n].children == TreeOf(s.disk)[op.n].children
  }

  /** With a cache every write that gets to the disk is its tree operation, but
      for a metadata update: that is so exactly when the node is not cached or
      its cached child list is the one on disk, in the same order. */
  lemma CachedWriteIsTreeOpIff(s: CacheRuns.State, fold: string -> string, op: Op)
    requires CurrentFields(s) && WF(s.disk) && Commits(s, op)
    ensures WellFormed(TreeOf(s.disk)) && TreeOpReady(TreeOf(s.disk), op) && UniqueIds(DiskAfter(s, fold, op))
    ensures TreeOf(DiskAfter(s, fold, op)) == TreeOp(TreeOf(s.disk), op) <==> ListExact(s, op)
  {
    CommitsReady(s, op);
    CommittedAfter(s, fold, op);
    if op.UpdateMetadata? {
      CachedUpdateTree(s, op.n, op.metadata);
    } else {
      StepIsTreeOp(s.disk, fold, op, Committed(s, fold, op));
    }
  }

  lemma CommitsReady(s: CacheRuns.State, op: Op)
    requires WF(s.disk) && Commits(s, op)
    ensures WellFormed(TreeOf(s.disk)) && TreeOpReady(TreeOf(s.disk), op)
  {
    WFIff(s.disk);
    if op.Move? { MovableIff(s.disk, op.n, op.newParent); }
  }

  lemma CachedUpdateTree(s: CacheRuns.State, n: NodeId, metadata: Metadata)
    requires CurrentFields(s) && n in TreeOf(s.disk)
    ensures var e := Written(s.disk, StartingNode(s, n).(id := n, metadata := metadata));
            && UniqueIds(e)
            && (TreeOf(e) == TreeOf(s.disk)[n := TreeOf(s.disk)[n].(metadata := metadata)] <==>
                  ListExact(s, UpdateMetadata(n, metadata)))
  {
    var t, node := TreeOf(s.disk), StartingNode(s, n).(id := n, metadata := metadata);
    TreeKeyed(s.disk);
    WrittenTree(s.disk, node);
    SameEntryIff(t, n, node, t[n].(metadata := metadata));
  }

  lemma SameEntryIff(t: Forest, n: NodeId, a: Node, b: Node)
    requires n in t
    ensures t[n := a] == t[n := b] <==> a == b
  {
    assert t[n := a][n] == a && t[n := b][n] == b;
  }
}
