/** Where a loaded cache lets the repository down: exact conditions and witnesses. */
module CacheFindings {
  import opened Domain
  import opened Seqs
  import opened Forests
  import opened Walks
  import opened Trees
  import opened Disks
  import opened DiskOps
  import opened Reconstruction
  import opened CacheRuns
  import opened CacheReads
  import opened Repository

  /** The list names exactly these children, none twice; their order is free. */
  ghost predicate SameChildren(list: seq<NodeId>, children: seq<NodeId>) {
    NoDup(list) && forall c :: c in list <==> c in children
  }

  /** A metadata update puts the cached child list back on disk: it keeps a
      well-formed disk well-formed exactly when the node is not cached or its
      cached list names the children it has now. */
  lemma UpdateKeepsWFIff(s: State, fold: string -> string, n: NodeId, metadata: Metadata)
    requires CurrentFields(s) && WF(s.disk) && n in TreeOf(s.disk)
    ensures WF(DiskAfter(s, fold, UpdateMetadata(n, metadata)))
       <==> (n in s.nodes ==> SameChildren(s.nodes[n].children, TreeOf(s.disk)[n].children))
  {
    UpdateAfter(s, fold, n, metadata);
    WFIff(s.disk);
    WriteKeepsWFIff(s.disk, StartingNode(s, n).(id := n, metadata := metadata));
  }

  lemma WriteKeepsWFIff(d: Disk, node: Node)
    requires WF(d) && node.id in TreeOf(d) && node.parent == TreeOf(d)[node.id].parent
    ensures WF(Written(d, node)) <==> SameChildren(node.children, TreeOf(d)[node.id].children)
  {
    WrittenTree(d, node);
    WFIff(d);
    WFIff(Written(d, node));
    RewriteKeepsIff(TreeOf(d), node);
  }

  lemma RewriteKeepsIff(t: Forest, node: Node)
    requires WellFormed(t) && node.id in t && node.parent == t[node.id].parent
    ensures WellFormed(t[node.id := node]) <==> SameChildren(node.children, t[node.id].children)
  {
    var u, n := t[node.id := node], node.id;
    AcyclicCongruence(t, u);
    if SameChildren(node.children, t[n].children) {
      assert TwoWay(u);
    }
    if TwoWay(u) {
      assert u[n].children == node.children;
      forall c ensures c in node.children <==> c in t[n].children {
        assert c in u[n].children <==> c in u && u[c].parent == Some(n);
      }
    }
  }

  // ---------- well-formedness over cached runs ----------

  /** A metadata update of a cached node finds the children it has now on the cached list. */
  ghost predicate ListCurrent(s: State, op: Op)
    requires UniqueIds(s.disk)
  {
    op.UpdateMetadata? && op.n in TreeOf(s.disk) && op.n in s.nodes ==>
      SameChildren(s.nodes[op.n].children, TreeOf(s.disk)[op.n].children)
  }

  /** Of all writes with a cache, only a metadata update from an outdated list
      breaks a well-formed disk. */
  lemma CachedWriteKeepsWFIff(s: State, fold: string -> string, op: Op)
    requires CurrentFields(s) && WF(s.disk)
    ensures WF(DiskAfter(s, fold, op)) <==> ListCurrent(s, op)
  {
    if Commits(s, op) {
      if op.UpdateMetadata? {
        UpdateKeepsWFIff(s, fold, op.n, op.metadata);
      } else {
        CommittedAfter(s, fold, op);
        CommitKeepsWF(s, fold, op);
      }
    }
  }

  lemma CommitKeepsWF(s: State, fold: string -> string, op: Op)
    requires WF(s.disk) && Commits(s, op) && !op.UpdateMetadata?
    ensures WF(Committed(s, fold, op))
  {
    match op
    case Create(node, parent) => CreateKeepsWF(s.disk, fold, node, parent);
    case Rename(n, title) =>
      RenameKeepsWF(s.disk, fold, n, title);
      ReslugKeepsWF(s.disk, fold, n, title);
    case Move(n, parent, position) => MoveKeepsWF(s.disk, fold, n, parent, position);
    case Delete(n) => DeleteKeepsWF(s.disk, n);
  }

  /** The disk is well-formed before, between and after the writes of a run. */
  ghost predicate WFThroughout(s: State, fold: string -> string, ops: seq<Op>)
    requires Safe(s)
    decreases |ops|
  {
    WF(s.disk) && (ops != [] ==> WFThroughout(Step(s, fold, ops[0]), fold, ops[1..]))
  }

  ghost predicate ListsCurrentThroughout(s: State, fold: string -> string, ops: seq<Op>)
    requires Safe(s)
    decreases |ops|
  {
    ops != [] ==> ListCurrent(s, ops[0]) && ListsCurrentThroughout(Step(s, fold, ops[0]), fold, ops[1..])
  }

  /** Over a whole run with a cache the disk stays well-formed exactly when every
      metadata update on the way found a current list. */
  lemma {:induction false} CachedRunKeepsWFIff(s: State, fold: string -> string, ops: seq<Op>)
    requires Safe(s) && WF(s.disk)
    ensures WFThroughout(s, fold, ops) <==> ListsCurrentThroughout(s, fold, ops)
    decreases |ops|
  {
    if ops != [] {
      var r := Step(s, fold, ops[0]);
      StepDisk(s, fold, ops[0]);
      SafeReads(s);
      CachedWriteKeepsWFIff(s, fold, ops[0]);
      if WF(r.disk) { CachedRunKeepsWFIff(r, fold, ops[1..]); }
    }
  }

  // ---------- what a delete reports ----------

  /** A delete that gets to the disk reports x, and x leaves the disk. */
  ghost predicate Reports(s: State, n: NodeId, x: NodeId)
    requires Placed(s.disk)
  {
    NodeDeleted(x) in Calls(s, Delete(n))
  }

  ghost predicate Leaves(s: State, fold: string -> string, n: NodeId, x: NodeId)
    requires Placed(s.disk) && Commits(s, Delete(n))
  {
    DeleteAfter(s, fold, n);
    x in TreeOf(s.disk) && x !in TreeOf(Next(s, fold, Delete(n)).disk)
  }

  /** In a well-formed snapshot that is the subtree. */
  lemma ExpectedSubtree(s: State, n: NodeId, x: NodeId)
    requires UniqueIds(s.disk) && WellFormed(s.snapshot) && n in s.snapshot
    ensures Expected(s, n, x) <==> InSubtree(s.snapshot, n, x)
  {
    WalkExact(s.snapshot, n);
    WalkIdsReached(s.snapshot, n, x);
  }

  /** A delete gets to the disk exactly when the node exists and the lists it
      goes by, the snapshot's or the disk's, hold no loop below it. */
  lemma DeleteCommitsIff(s: State, n: NodeId)
    requires Placed(s.disk)
    ensures Commits(s, Delete(n)) <==> n in TreeOf(s.disk) && LoopFree(Walked(s, n), n)
  {
    if n in TreeOf(s.disk) { WalkEndsIff(Walked(s, n), n); }
  }

  lemma ReportsIff(s: State, n: NodeId, x: NodeId)
    requires Placed(s.disk) && Commits(s, Delete(n))
    ensures Reports(s, n, x) <==> Expected(s, n, x)
  {
    var walk := WalkIds(Walked(s, n), n);
    InDeletions(Reversed(walk), x);
    ReversedSame(walk);
    WalkIdsReached(Walked(s, n), n, x);
  }

  lemma InDeletions(ids: seq<NodeId>, x: NodeId)
    ensures NodeDeleted(x) in Deletions(ids) <==> x in ids
  {
    if x in ids {
      var i :| 0 <= i < |ids| && ids[i] == x;
      assert Deletions(ids)[i] == NodeDeleted(x);
    }
  }

  lemma DeleteAfter(s: State, fold: string -> string, n: NodeId)
    requires Placed(s.disk) && Commits(s, Delete(n))
    ensures Next(s, fold, Delete(n)).disk == Deleted(s.disk, n) && Placed(Deleted(s.disk, n))
  {
    CommittedAfter(s, fold, Delete(n));
    DeleteRefines(s.disk, n);
  }

  lemma LeavesIff(s: State, fold: string -> string, n: NodeId, x: NodeId)
    requires Placed(s.disk) && Commits(s, Delete(n))
    ensures Acyclic(TreeOf(s.disk)) && (Leaves(s, fold, n, x) <==> InSubtree(TreeOf(s.disk), n, x))
  {
    DeleteAfter(s, fold, n);
    DeleteRefines(s.disk, n);
    SubtreeRemovedAt(TreeOf(s.disk), n, x);
  }

  /** Whatever snapshot was loaded, a delete reports exactly the nodes that leave
      the disk if and only if what it goes by is the node's subtree on disk. */
  lemma DeleteReportsExactlyIff(s: State, fold: string -> string, n: NodeId)
    requires Placed(s.disk) && Commits(s, Delete(n))
    ensures Acyclic(TreeOf(s.disk))
    ensures (forall x :: Reports(s, n, x) <==> Leaves(s, fold, n, x))
       <==> (forall x :: Expected(s, n, x) <==> InSubtree(TreeOf(s.disk), n, x))
  {
    DiskAcyclic(s.disk);
    forall x
      ensures Reports(s, n, x) <==> Expected(s, n, x)
      ensures Leaves(s, fold, n, x) <==> InSubtree(TreeOf(s.disk), n, x)
    {
      ReportsIff(s, n, x);
      LeavesIff(s, fold, n, x);
    }
  }

  /** Going by a well-formed snapshot, a delete reports no node twice, and its target last. */
  lemma DeleteReportsOnce(s: State, n: NodeId)
    requires Placed(s.disk) && WellFormed(s.snapshot) && Commits(s, Delete(n)) && n in s.snapshot
    ensures var calls := Calls(s, Delete(n));
            NoDup(calls) && calls != [] && calls[|calls| - 1] == NodeDeleted(n)
  {
    WalkExact(s.snapshot, n);
    ReversedSame(WalkIds(s.snapshot, n));
    DeletionsOnce(Reversed(WalkIds(s.snapshot, n)));
  }

  lemma DeletionsOnce(ids: seq<NodeId>)
    requires NoDup(ids)
    ensures NoDup(Deletions(ids))
  {
    forall i, j | 0 <= i < j < |ids| ensures Deletions(ids)[i] != Deletions(ids)[j] {
      assert ids[i] != ids[j];
    }
  }

  /** Reported though it stays: b was moved out of a before a was deleted. */
  lemma DeleteReportsLiveNode(d: Disk, fold: string -> string, a: NodeId, b: NodeId)
    requires WF(d) && b in TreeOf(d) && TreeOf(d)[b].parent == Some(a)
    ensures Safe(Populated(d))
    ensures var s := Run(Populated(d), fold, [Move(b, None, None)]);
            && a in TreeOf(s.disk) && Commits(s, Delete(a)) && b in TreeOf(Step(s, fold, Delete(a)).disk)
            && Reports(s, a, b) && !Leaves(s, fold, a, b)
  {
    PopulateWF(d);
    PopulateSafe(d);
    var s0 := Populated(d);
    RunOne(s0, fold, Move(b, None, None));
    var s := Step(s0, fold, Move(b, None, None));
    FirstMove(d, fold, a, b);
    ParentAboveChild(d, a, b);
    WellFormedWalkEnds(TreeOf(d), a);
    StaleDelete(s, fold, a, b);
    ExpectedSubtree(s, a, b);
    ReportsIff(s, a, b);
  }

  /** Not reported though it goes: c was created below a after the snapshot was taken. */
  lemma DeleteMissesNewNode(d: Disk, fold: string -> string, a: NodeId, c: Node)
    requires WF(d) && a in TreeOf(d) && c.id !in TreeOf(d)
    ensures Safe(Populated(d))
    ensures var s := Run(Populated(d), fold, [Create(c, Some(a))]);
            && a in TreeOf(s.disk) && c.id in TreeOf(s.disk) && Commits(s, Delete(a))
            && !Reports(s, a, c.id) && Leaves(s, fold, a, c.id)
  {
    PopulateWF(d);
    PopulateSafe(d);
    var s0 := Populated(d);
    RunOne(s0, fold, Create(c, Some(a)));
    var s := Step(s0, fold, Create(c, Some(a)));
    CreateStep(s0, fold, c, Some(a));
    DiskAcyclic(s.disk);
    NewChildBelow(TreeOf(d), TreeOf(s.disk), c, a);
    WellFormedWalkEnds(TreeOf(d), a);
    ExpectedSubtree(s, a, c.id);
    ReportsIff(s, a, c.id);
    LeavesIff(s, fold, a, c.id);
  }

  lemma NewChildBelow(t: Forest, u: Forest, c: Node, a: NodeId)
    requires c.id !in t && a in t && u == CreatedTree(t, c, Some(a)) && Acyclic(u)
    ensures a in u && c.id in u && InSubtree(u, a, c.id)
  {
    assert u[c.id].parent == Some(a);
    assert Chain(u, c.id) == [c.id] + Chain(u, a);
  }

  /** A root other than a outlives the deletion of a. */
  lemma StaleDelete(s: State, fold: string -> string, a: NodeId, b: NodeId)
    requires Stale(s, a, b) && Commits(s, Delete(a))
    ensures b in TreeOf(Step(s, fold, Delete(a)).disk) && !Leaves(s, fold, a, b)
  {
    DeleteAfter(s, fold, a);
    DeleteRefines(s.disk, a);
    RootOutlives(TreeOf(s.disk), a, b);
  }

  lemma RootOutlives(t: Forest, a: NodeId, b: NodeId)
    requires Acyclic(t) && a in t && b in t && a != b && t[b].parent == None
    ensures b in SubtreeRemoved(t, a)
  {
    assert Chain(t, b) == [b];
  }

  lemma ParentAboveChild(d: Disk, a: NodeId, b: NodeId)
    requires WF(d) && b in TreeOf(d) && TreeOf(d)[b].parent == Some(a)
    ensures WellFormed(TreeOf(d)) && a in TreeOf(d) && a != b
    ensures InSubtree(TreeOf(d), a, b) && !InSubtree(TreeOf(d), b, a)
    ensures b in TreeOf(d)[a].children
  {
    WFIff(d);
    var t := TreeOf(d);
    assert Chain(t, b) == [b] + Chain(t, a);
    ChainNoDup(t, b);
  }

  // ---------- a walk that never ends ----------

  /** Two nodes listing each other. */
  ghost predicate Mutual(t: Forest, a: NodeId, b: NodeId) {
    a in t && b in t && a in t[b].children && b in t[a].children
  }

  lemma MutualLoops(t: Forest, a: NodeId, b: NodeId)
    requires Mutual(t, a, b)
    ensures !LoopFree(t, a)
  {
    assert Leads(t, a, [a], a);
    assert Round(t, a, [a, b, a]);
    LoopOfRound(t, a, [a], a, [a, b, a]);
  }

  lemma MutualBelow(t: Forest, n: NodeId, a: NodeId, b: NodeId)
    requires Mutual(t, a, b) && n in t && b in t[n].children
    ensures !LoopFree(t, n)
  {
    assert Leads(t, n, [n, b], b);
    assert Round(t, b, [b, a, b]);
    LoopOfRound(t, n, [n, b], b, [b, a, b]);
  }

  /** Five writes: after the third, a and its former child b list each other;
      the last two put b below a node the snapshot does not know. */
  function StaleSwap(a: NodeId, b: NodeId, metadata: Metadata, c: Node): seq<Op> {
    [Move(b, None, None)] + (Swap(a, b, metadata) + Hang(b, c))
  }

  function Swap(a: NodeId, b: NodeId, metadata: Metadata): seq<Op> {
    [UpdateMetadata(a, metadata)] + [Move(a, Some(b), None)]
  }

  function Hang(b: NodeId, c: Node): seq<Op> {
    [Create(c, None)] + [Move(b, Some(c.id), None)]
  }

  /** For every parent and child in a workspace there is a run after which
      deleting a node on disk never gets to the disk: the walk along child lists,
      which keeps no visited set, does not end. */
  lemma DeleteCanHang(d: Disk, fold: string -> string, a: NodeId, b: NodeId, metadata: Metadata, c: Node)
    requires WF(d) && b in TreeOf(d) && TreeOf(d)[b].parent == Some(a)
    requires c.id !in TreeOf(d) && c.parent == None
    ensures Safe(Populated(d))
    ensures var s := Run(Populated(d), fold, StaleSwap(a, b, metadata, c));
            && c.id in TreeOf(s.disk) && c.id !in s.snapshot && !LoopFree(TreeOf(s.disk), c.id)
            && !Commits(s, Delete(c.id))
  {
    PopulateWF(d);
    PopulateSafe(d);
    FirstMove(d, fold, a, b);
    var s0 := Populated(d);
    var s1 := Step(s0, fold, Move(b, None, None));
    var s5 := HangFrom(s1, fold, a, b, metadata, c);
    RunCons(s0, fold, Move(b, None, None), Swap(a, b, metadata) + Hang(b, c));
    SnapshotFrozen(s0, fold, StaleSwap(a, b, metadata, c));
    DeleteCommitsIff(s5, c.id);
  }

  lemma HangFrom(s1: State, fold: string -> string, a: NodeId, b: NodeId, metadata: Metadata, c: Node)
    returns (s5: State)
    requires Stale(s1, a, b)
    requires c.id !in TreeOf(s1.disk) && c.id !in s1.snapshot && c.parent == None
    ensures s5 == Run(s1, fold, Swap(a, b, metadata) + Hang(b, c))
    ensures c.id in TreeOf(s5.disk) && !Commits(s5, Delete(c.id))
  {
    var s3 := SwapSteps(s1, fold, a, b, metadata);
    s5 := HangSteps(s3, fold, a, b, c);
    RunConcat(s1, fold, Swap(a, b, metadata), Hang(b, c));
  }

  lemma SwapSteps(s1: State, fold: string -> string, a: NodeId, b: NodeId, metadata: Metadata) returns (s3: State)
    requires Stale(s1, a, b)
    ensures s3 == Run(s1, fold, Swap(a, b, metadata)) && s3.snapshot == s1.snapshot
    ensures Mutual(TreeOf(s3.disk), a, b) && TreeOf(s3.disk)[b].parent == None
    ensures TreeOf(s3.disk).Keys == TreeOf(s1.disk).Keys
  {
    var s2 := Step(s1, fold, UpdateMetadata(a, metadata));
    s3 := Step(s2, fold, Move(a, Some(b), None));
    StaleUpdate(s1, fold, a, b, metadata);
    SwapMove(s2, fold, a, b);
    RunCons(s1, fold, UpdateMetadata(a, metadata), [Move(a, Some(b), None)]);
    RunOne(s2, fold, Move(a, Some(b), None));
  }

  lemma HangSteps(s3: State, fold: string -> string, a: NodeId, b: NodeId, c: Node) returns (s5: State)
    requires Safe(s3) && Mutual(TreeOf(s3.disk), a, b) && TreeOf(s3.disk)[b].parent == None
    requires c.id !in TreeOf(s3.disk) && c.id !in s3.snapshot && c.parent == None
    ensures s5 == Run(s3, fold, Hang(b, c))
    ensures c.id in TreeOf(s5.disk) && !Commits(s5, Delete(c.id))
  {
    var s4 := Step(s3, fold, Create(c, None));
    s5 := Step(s4, fold, Move(b, Some(c.id), None));
    NewRoot(s3, fold, a, b, c);
    LastMove(s4, fold, a, b, c.id);
    RunCons(s3, fold, Create(c, None), [Move(b, Some(c.id), None)]);
    RunOne(s4, fold, Move(b, Some(c.id), None));
    NoCommit(s5, c.id);
  }

  lemma NoCommit(s: State, n: NodeId)
    requires Placed(s.disk) && n !in s.snapshot && n in TreeOf(s.disk) && !LoopFree(TreeOf(s.disk), n)
    ensures !Commits(s, Delete(n))
  {
    DeleteCommitsIff(s, n);
  }

  /** a on disk and cached, its cached list naming b, which is a root now. */
  ghost predicate Stale(s: State, a: NodeId, b: NodeId) {
    && Safe(s) && a != b && a in TreeOf(s.disk) && b in TreeOf(s.disk)
    && TreeOf(s.disk)[b].parent == None
    && a in s.nodes && b in s.nodes[a].children
  }

  lemma FirstMove(d: Disk, fold: string -> string, a: NodeId, b: NodeId)
    requires WF(d) && b in TreeOf(d) && TreeOf(d)[b].parent == Some(a)
    ensures Safe(Populated(d))
    ensures var r := Step(Populated(d), fold, Move(b, None, None));
            Stale(r, a, b) && TreeOf(r.disk).Keys == TreeOf(d).Keys
  {
    PopulateWF(d);
    PopulateSafe(d);
    ParentAboveChild(d, a, b);
    var t := TreeOf(d);
    MoveStep(Populated(d), fold, b, None, None);
    MoveStepNodes(Populated(d), fold, b, None, None);
    MovedKeys(t, b, None, None);
    WalkExact(t, b);
  }

  lemma StaleUpdate(s: State, fold: string -> string, a: NodeId, b: NodeId, metadata: Metadata)
    requires Stale(s, a, b)
    ensures var r := Step(s, fold, UpdateMetadata(a, metadata));
            && a != b && a in TreeOf(r.disk) && b in TreeOf(r.disk)
            && TreeOf(r.disk)[b].parent == None && b in TreeOf(r.disk)[a].children
            && TreeOf(r.disk).Keys == TreeOf(s.disk).Keys
  {
    UpdateStep(s, fold, a, metadata);
  }

  lemma SwapMove(s: State, fold: string -> string, a: NodeId, b: NodeId)
    requires Safe(s) && a != b && a in TreeOf(s.disk) && b in TreeOf(s.disk)
    requires TreeOf(s.disk)[b].parent == None && b in TreeOf(s.disk)[a].children
    ensures var t := TreeOf(Step(s, fold, Move(a, Some(b), None)).disk);
            Mutual(t, a, b) && t[b].parent == None && t.Keys == TreeOf(s.disk).Keys
  {
    MovableIff(s.disk, a, Some(b));
    var t := TreeOf(s.disk);
    assert Chain(t, b) == [b];
    MoveStep(s, fold, a, Some(b), None);
    NotOwnParent(s.disk, a);
    MovedKeys(t, a, Some(b), None);
    SwapLists(t, a, b);
  }

  lemma SwapLists(t: Forest, a: NodeId, b: NodeId)
    requires a in t && b in t && a != b && b in t[a].children && t[b].parent == None
    requires t[a].parent.Some? ==> t[a].parent.value in t && t[a].parent.value != a
    ensures Mutual(MovedTree(t, a, Some(b), None), a, b)
    ensures MovedTree(t, a, Some(b), None)[b].parent == None
  {
    var v := Unlisted(t, a);
    assert v[a] == t[a] && v[b].parent == None;
  }

  lemma MovedKeys(t: Forest, n: NodeId, parent: Option<NodeId>, position: Option<int>)
    requires n in t && (t[n].parent.Some? ==> t[n].parent.value in t)
    requires parent.Some? ==> parent.value in t
    ensures MovedTree(t, n, parent, position).Keys == t.Keys
  {
    assert Unlisted(t, n).Keys == t.Keys;
  }

  lemma NewRoot(s: State, fold: string -> string, a: NodeId, b: NodeId, c: Node)
    requires Safe(s) && Mutual(TreeOf(s.disk), a, b) && TreeOf(s.disk)[b].parent == None
    requires c.id !in TreeOf(s.disk) && c.parent == None
    ensures var r := Step(s, fold, Create(c, None));
            && Mutual(TreeOf(r.disk), a, b) && TreeOf(r.disk)[b].parent == None
            && c.id in TreeOf(r.disk) && TreeOf(r.disk)[c.id].parent == None && c.id != b && c.id != a
  {
    CreateStep(s, fold, c, None);
  }

  lemma LastMove(s: State, fold: string -> string, a: NodeId, b: NodeId, c: NodeId)
    requires Safe(s) && Mutual(TreeOf(s.disk), a, b) && TreeOf(s.disk)[b].parent == None
    requires c in TreeOf(s.disk) && TreeOf(s.disk)[c].parent == None && c != b && c != a
    ensures var t := TreeOf(Step(s, fold, Move(b, Some(c), None)).disk);
            c in t && !LoopFree(t, c)
  {
    MovableIff(s.disk, b, Some(c));
    var t := TreeOf(s.disk);
    assert Chain(t, c) == [c];
    MoveStep(s, fold, b, Some(c), None);
    LastLists(t, a, b, c);
    MutualBelow(MovedTree(t, b, Some(c), None), c, a, b);
  }

  lemma LastLists(t: Forest, a: NodeId, b: NodeId, c: NodeId)
    requires Mutual(t, a, b) && t[b].parent == None && c in t && c != b && c != a
    ensures var u := MovedTree(t, b, Some(c), None);
            c in u && Mutual(u, a, b) && b in u[c].children
  {
    var u := MovedTree(t, b, Some(c), None);
    assert u[a].children == t[a].children && u[b].children == t[b].children;
  }

  // ---------- what a restart makes of such a disk ----------

  /** Boot takes its snapshot of whatever the disk holds by then. After a former
      child b and its parent a have come to list each other, that snapshot loops:
      deleting a never gets to the disk, and moving a, which does, never returns. */
  lemma RestartCanHang(d: Disk, fold: string -> string, a: NodeId, b: NodeId, metadata: Metadata)
    requires WF(d) && b in TreeOf(d) && TreeOf(d)[b].parent == Some(a)
    ensures Safe(Populated(d))
    ensures var r := Populated(Run(Populated(d), fold, [Move(b, None, None)] + Swap(a, b, metadata)).disk);
            && Placed(r.disk) && a in TreeOf(r.disk) && a in r.snapshot && !LoopFree(r.snapshot, a)
            && !Commits(r, Delete(a))
            && Movable(r.disk, a, None) && !MoveReturns(r, a, None)
  {
    PopulateWF(d);
    PopulateSafe(d);
    FirstMove(d, fold, a, b);
    var s1 := Step(Populated(d), fold, Move(b, None, None));
    var s3 := SwapSteps(s1, fold, a, b, metadata);
    RunCons(Populated(d), fold, Move(b, None, None), Swap(a, b, metadata));
    MutualPruned(TreeOf(s3.disk), a, b);
    MutualLoops(Pruned(TreeOf(s3.disk)), a, b);
    DeleteCommitsIff(Populated(s3.disk), a);
  }

  lemma MutualPruned(t: Forest, a: NodeId, b: NodeId)
    requires Mutual(t, a, b)
    ensures Mutual(Pruned(t), a, b)
  {
  }

  /** A child list that misses an entry is the other half. After c was created
      below the childless a and a's metadata updated from the cache, a's list on
      disk is empty again; after a restart, deleting a leaves c in the cache, and
      reading c returns a node that is gone. */
  lemma RestartCanReadDeleted(d: Disk, fold: string -> string, a: NodeId, metadata: Metadata, c: Node)
    requires WF(d) && a in TreeOf(d) && TreeOf(d)[a].children == [] && c.id !in TreeOf(d)
    ensures Safe(Populated(d))
    ensures var r := Populated(Run(Populated(d), fold, [Create(c, Some(a))] + [UpdateMetadata(a, metadata)]).disk);
            && Placed(r.disk) && Commits(r, Delete(a)) && !Covers(r, Delete(a))
            && var after := Next(r, fold, Delete(a));
               UniqueIds(after.disk) && c.id !in TreeOf(after.disk) && c.id in after.nodes
  {
    PopulateWF(d);
    PopulateSafe(d);
    var s0 := Populated(d);
    var s1 := Step(s0, fold, Create(c, Some(a)));
    var s2 := Step(s1, fold, UpdateMetadata(a, metadata));
    RunCons(s0, fold, Create(c, Some(a)), [UpdateMetadata(a, metadata)]);
    RunOne(s1, fold, UpdateMetadata(a, metadata));
    UnlistedChild(s0, fold, a, metadata, c);
    HiddenChild(s2.disk, fold, a, c.id);
  }

  lemma UnlistedChild(s0: State, fold: string -> string, a: NodeId, metadata: Metadata, c: Node)
    requires Safe(s0) && a in TreeOf(s0.disk) && c.id !in TreeOf(s0.disk) && a in s0.nodes && s0.nodes[a].children == []
    ensures var t := TreeOf(Step(Step(s0, fold, Create(c, Some(a))), fold, UpdateMetadata(a, metadata)).disk);
            a in t && c.id in t && t[a].children == [] && t[c.id].parent == Some(a)
  {
    var s1 := Step(s0, fold, Create(c, Some(a)));
    CreateStep(s0, fold, c, Some(a));
    StepDisk(s0, fold, Create(c, Some(a)));
    UpdateStep(s1, fold, a, metadata);
  }

  lemma HiddenChild(d: Disk, fold: string -> string, a: NodeId, c: NodeId)
    requires Placed(d) && a in TreeOf(d) && c in TreeOf(d) && a != c
    requires TreeOf(d)[a].children == [] && TreeOf(d)[c].parent == Some(a)
    ensures var r := Populated(d);
            && Commits(r, Delete(a)) && !Covers(r, Delete(a))
            && var after := Next(r, fold, Delete(a));
               UniqueIds(after.disk) && c !in TreeOf(after.disk) && c in after.nodes
  {
    var r := Populated(d);
    DiskAcyclic(d);
    assert Chain(TreeOf(d), c) == [c] + Chain(TreeOf(d), a);
    ChildlessWalk(r.snapshot, a);
    WalkIdsReached(r.snapshot, a, c);
    DeleteAfter(r, fold, a);
    DeleteOthers(d, a);
  }

  lemma ChildlessWalk(t: Forest, a: NodeId)
    requires a in t && t[a].children == []
    ensures WalkEnds(t, a) && WalkIds(t, a) == [a]
  {
    WalkStart(t, a);
    WalkDone(t, a, 0, [a]);
  }
}
