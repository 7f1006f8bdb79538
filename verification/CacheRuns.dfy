/** The repository's writes with a loaded cache, as a state machine, and what every run keeps. */
module CacheRuns {
  import opened Domain
  import opened Seqs
  import opened Forests
  import opened Walks
  import opened Trees
  import opened Disks
  import opened DiskOps
  import opened Reconstruction

  /** The disk, the cache dictionary, and the snapshot taken at populate time. */
  datatype State = State(disk: Disk, nodes: map<NodeId, Node>, snapshot: Forest)

  datatype Op =
    | Create(node: Node, parent: Option<NodeId>)
    | Rename(n: NodeId, title: string)
    | UpdateMetadata(n: NodeId, metadata: Metadata)
    | Move(n: NodeId, newParent: Option<NodeId>, position: Option<int>)
    | Delete(n: NodeId)

  /** The forest a move or delete of n walks along child lists: the snapshot if
      it knows the node, else the disk. */
  ghost function Walked(s: State, n: NodeId): Forest
    requires UniqueIds(s.disk)
  {
    if n in s.snapshot then s.snapshot else TreeOf(s.disk)
  }

  /** What the child lists of that forest lead to below n. */
  ghost predicate Expected(s: State, n: NodeId, x: NodeId)
    requires UniqueIds(s.disk)
  {
    Reached(Walked(s, n), n, x)
  }

  /** The ids a move or delete of n invalidates: what that walk meets, if it ends. */
  ghost function Invalidated(s: State, n: NodeId): set<NodeId>
    requires UniqueIds(s.disk)
  {
    if WalkEnds(Walked(s, n), n) then ToSet(WalkIds(Walked(s, n), n)) else {}
  }

  /** The node `update_metadata` starts from: the cached one when there is one. */
  ghost function StartingNode(s: State, n: NodeId): Node
    requires UniqueIds(s.disk) && (n in s.nodes || n in TreeOf(s.disk))
  {
    if n in s.nodes then s.nodes[n] else TreeOf(s.disk)[n]
  }

  /** The write gets as far as the disk: its target exists, and a walk it needs
      first comes to an end. */
  ghost predicate Commits(s: State, op: Op)
    requires Placed(s.disk)
  {
    match op
    case Create(node, parent) => Creatable(s.disk, node, parent)
    case Rename(n, _) => n in TreeOf(s.disk)
    case UpdateMetadata(n, _) => n in TreeOf(s.disk)
    case Move(n, parent, _) => Movable(s.disk, n, parent)
    case Delete(n) => n in TreeOf(s.disk) && WalkEnds(Walked(s, n), n)
  }

  /** The disk after a write. */
  ghost function DiskAfter(s: State, fold: string -> string, op: Op): Disk
    requires Placed(s.disk)
  {
    if Commits(s, op) then Committed(s, fold, op) else s.disk
  }

  ghost function Committed(s: State, fold: string -> string, op: Op): Disk
    requires Placed(s.disk) && Commits(s, op)
  {
    match op
    case Create(node, parent) => Created(s.disk, fold, node, parent)
    case Rename(n, title) =>
      if Blank(title) then Reslugged(s.disk, fold, n, title) else Retitled(s.disk, fold, n, title)
    case UpdateMetadata(n, metadata) => Written(s.disk, StartingNode(s, n).(id := n, metadata := metadata))
    case Move(n, parent, position) => MovedDisk(s.disk, fold, n, parent, position)
    case Delete(n) => Deleted(s.disk, n)
  }

  /** The ids a write takes out of the cache, after its disk commit. */
  ghost function Gone(s: State, fold: string -> string, op: Op): set<NodeId>
    requires Placed(s.disk)
  {
    if !Commits(s, op) then {} else
    match op
    case Create(node, _) => {node.id}
    case Rename(n, title) => if Blank(title) then {} else {n}
    case UpdateMetadata(n, _) => {n}
    case Move(n, parent, position) =>
      MoveRefines(s.disk, fold, n, parent, position);
      Invalidated(s.(disk := DiskAfter(s, fold, op)), n)
    case Delete(n) => Invalidated(s, n)
  }

  /** One repository write: the disk, then the cache; the snapshot stays. */
  ghost function Next(s: State, fold: string -> string, op: Op): State
    requires Placed(s.disk)
  {
    State(DiskAfter(s, fold, op), s.nodes - Gone(s, fold, op), s.snapshot)
  }

  // ---------- the invariant ----------

  /** A cached node is on disk with the same fields except the child list, below
      the same ancestors as in the snapshot. */
  ghost predicate Faithful(s: State, x: NodeId)
    requires Placed(s.disk) && Acyclic(s.snapshot) && x in s.nodes
  {
    DiskAcyclic(s.disk);
    && x in s.snapshot && s.nodes[x] == s.snapshot[x]
    && x in TreeOf(s.disk)
    && SameButChildren(s.nodes[x], TreeOf(s.disk)[x])
    && Chain(TreeOf(s.disk), x) == Chain(s.snapshot, x)
  }

  /** Every cached node outside the pending ids is faithful. */
  ghost predicate SafeExcept(s: State, pending: set<NodeId>) {
    && Placed(s.disk) && Covering(s.snapshot)
    && forall x :: x in s.nodes && x !in pending ==> Faithful(s, x)
  }

  ghost predicate Safe(s: State) {
    SafeExcept(s, {})
  }

  /** The cache as boot populates it: from the tree loaded, pruned of child ids
      that do not resolve. */
  ghost function Populated(d: Disk): State
    requires UniqueIds(d)
  {
    State(d, Pruned(TreeOf(d)), Pruned(TreeOf(d)))
  }

  /** The child lists on disk lead to every node from above, and in no circles. */
  ghost predicate Bootable(d: Disk) {
    Placed(d) && Covering(Pruned(TreeOf(d)))
  }

  /** A freshly populated cache is safe. */
  lemma PopulateSafe(d: Disk)
    requires Bootable(d)
    ensures Safe(Populated(d))
  {
    DiskAcyclic(d);
    var t, u := TreeOf(d), Pruned(TreeOf(d));
    forall x | x in u ensures Faithful(Populated(d), x) {
      ChainCongruence(t, u, x);
    }
  }

  /** In particular from a well-formed disk, where nothing is pruned. */
  lemma PopulateWF(d: Disk)
    requires WF(d)
    ensures Bootable(d) && Populated(d) == State(d, TreeOf(d), TreeOf(d)) && WellFormed(TreeOf(d))
  {
    WFIff(d);
    PruneNothing(TreeOf(d));
    WellFormedCovering(TreeOf(d));
  }

  /** What a disk change must leave alone for the entries outside `pending`. */
  ghost predicate Untouched(t: Forest, u: Forest, x: NodeId)
    requires Acyclic(t) && Acyclic(u)
  {
    x in t ==> x in u && SameButChildren(t[x], u[x]) && Chain(t, x) == Chain(u, x)
  }

  lemma StepKeeps(s: State, e: Disk, pending: set<NodeId>)
    requires Safe(s) && Placed(e)
    requires OnlyTouches(TreeOf(s.disk), TreeOf(e), pending)
    ensures SafeExcept(s.(disk := e), pending)
  {
    forall x | x in s.nodes && x !in pending ensures Faithful(s.(disk := e), x) {
      assert Faithful(s, x) && Untouched(TreeOf(s.disk), TreeOf(e), x);
    }
  }

  /** Only the cached ones among the pending ids matter. */
  lemma Widen(s: State, pending: set<NodeId>, gone: set<NodeId>)
    requires SafeExcept(s, pending)
    requires forall x :: x in s.nodes && x in pending ==> x in gone
    ensures SafeExcept(s, gone)
  {
  }

  /** Invalidating the pending ids makes the cache safe again. */
  lemma InvalidateKeeps(s: State, gone: set<NodeId>)
    requires SafeExcept(s, gone)
    ensures Safe(s.(nodes := s.nodes - gone))
  {
    var after := s.(nodes := s.nodes - gone);
    forall x | x in after.nodes ensures Faithful(after, x) {
      assert Faithful(s, x);
    }
  }

  /** The snapshot never moves, yet its subtree of n covers every cached node
      that lies below n on the current disk. */
  lemma SnapshotCovers(s: State, n: NodeId, x: NodeId)
    requires Safe(s) && x in s.nodes
    ensures Acyclic(TreeOf(s.disk))
    ensures InSubtree(TreeOf(s.disk), n, x) ==>
              n in s.snapshot && WalkEnds(s.snapshot, n) && x in WalkIds(s.snapshot, n)
  {
    DiskAcyclic(s.disk);
    assert Faithful(s, x);
    if InSubtree(TreeOf(s.disk), n, x) {
      assert n in Chain(s.snapshot, x);
      assert n in s.snapshot;
      CoveringWalk(s.snapshot, n, x);
    }
  }

  // ---------- each write, between the disk commit and the invalidation ----------

  /** Untouched as a whole: nothing outside `pending` changes but child lists. */
  ghost predicate OnlyTouches(t: Forest, u: Forest, pending: set<NodeId>) {
    Acyclic(t) && Acyclic(u) && forall x :: x !in pending ==> Untouched(t, u, x)
  }

  lemma SameParentsUntouched(t: Forest, u: Forest, pending: set<NodeId>)
    requires Acyclic(t) && Acyclic(u)
    requires forall x :: x in t ==> x in u && u[x].parent == t[x].parent
    requires forall x :: x in t && x !in pending ==> SameButChildren(t[x], u[x])
    ensures OnlyTouches(t, u, pending)
  {
    forall x | x !in pending ensures Untouched(t, u, x) {
      if x in t { ChainCongruence(t, u, x); }
    }
  }

  lemma CreateUntouched(t: Forest, u: Forest, node: Node, parent: Option<NodeId>)
    requires Acyclic(t) && Acyclic(u) && node.id !in t && (parent.Some? ==> parent.value in t)
    requires u == CreatedTree(t, node, parent)
    ensures OnlyTouches(t, u, {})
  {
    SameParentsUntouched(t, u, {});
  }

  lemma MoveUntouched(t: Forest, u: Forest, n: NodeId, parent: Option<NodeId>, position: Option<int>)
    requires Acyclic(t) && Acyclic(u) && n in t && (t[n].parent.Some? ==> t[n].parent.value in t)
    requires parent.Some? ==> parent.value in t
    requires u == MovedTree(t, n, parent, position)
    ensures OnlyTouches(t, u, SubtreeOf(t, n))
  {
    MoveReparents(t, u, n, parent, position);
    forall x | x !in SubtreeOf(t, n) ensures Untouched(t, u, x) {
      if x in t { ReparentOutside(t, u, n, parent, x); }
    }
  }

  lemma MoveReparents(t: Forest, u: Forest, n: NodeId, parent: Option<NodeId>, position: Option<int>)
    requires n in t && (t[n].parent.Some? ==> t[n].parent.value in t)
    requires parent.Some? ==> parent.value in t
    requires u == MovedTree(t, n, parent, position)
    ensures Reparented(t, u, n, parent)
    ensures forall x :: x in t && x != n ==> SameButChildren(t[x], u[x])
  {
    var v := Unlisted(t, n);
    UnlistedFields(t, n);
    var w := SetParent(v, n, parent);
    assert Reparented(t, w, n, parent);
    assert forall x :: x in t && x != n ==> SameButChildren(t[x], w[x]);
  }

  lemma UnlistedFields(t: Forest, n: NodeId)
    requires n in t && (t[n].parent.Some? ==> t[n].parent.value in t)
    ensures Unlisted(t, n).Keys == t.Keys
    ensures forall x :: x in t ==> SameButChildren(t[x], Unlisted(t, n)[x])
  {
  }

  lemma DeleteUntouched(t: Forest, u: Forest, n: NodeId)
    requires Acyclic(t) && Acyclic(u) && n in t && u == SubtreeRemoved(t, n)
    ensures OnlyTouches(t, u, SubtreeOf(t, n))
  {
    forall x | x !in SubtreeOf(t, n) ensures Untouched(t, u, x) {
      if x in t { OutsideChainSurvives(t, u, n, x); }
    }
  }

  lemma OutsideChainSurvives(t: Forest, u: Forest, n: NodeId, x: NodeId)
    requires Acyclic(t) && Acyclic(u) && n in t && u == SubtreeRemoved(t, n)
    requires x in t && !InSubtree(t, n, x)
    ensures Untouched(t, u, x)
  {
    forall y | y in Chain(t, x) ensures y in u && u[y].parent == t[y].parent {
      if InSubtree(t, n, y) { SubtreeTransitive(t, n, y, x); }
    }
    ChainCongruence(t, u, x);
  }

  lemma CreatePending(s: State, fold: string -> string, node: Node, parent: Option<NodeId>)
    requires Safe(s) && Creatable(s.disk, node, parent)
    ensures SafeExcept(s.(disk := Created(s.disk, fold, node, parent)), {})
  {
    var e := Created(s.disk, fold, node, parent);
    CreateRefines(s.disk, fold, node, parent);
    DiskAcyclic(s.disk);
    DiskAcyclic(e);
    CreateUntouched(TreeOf(s.disk), TreeOf(e), node, parent);
    StepKeeps(s, e, {});
  }

  /** Any rewrite that keeps every parent leaves all other nodes untouched. */
  lemma RewritePending(s: State, e: Disk, node: Node)
    requires Safe(s) && Placed(e) && node.id in TreeOf(s.disk)
    requires TreeOf(e) == TreeOf(s.disk)[node.id := node] && node.parent == TreeOf(s.disk)[node.id].parent
    ensures SafeExcept(s.(disk := e), {node.id})
  {
    DiskAcyclic(s.disk);
    DiskAcyclic(e);
    SameParentsUntouched(TreeOf(s.disk), TreeOf(e), {node.id});
    StepKeeps(s, e, {node.id});
  }

  lemma MovePending(s: State, fold: string -> string, n: NodeId, parent: Option<NodeId>, position: Option<int>)
    requires Safe(s) && Movable(s.disk, n, parent)
    ensures Acyclic(TreeOf(s.disk))
    ensures SafeExcept(s.(disk := MovedDisk(s.disk, fold, n, parent, position)), SubtreeOf(TreeOf(s.disk), n))
  {
    var e := MovedDisk(s.disk, fold, n, parent, position);
    MoveRefines(s.disk, fold, n, parent, position);
    DiskAcyclic(s.disk);
    DiskAcyclic(e);
    MoveUntouched(TreeOf(s.disk), TreeOf(e), n, parent, position);
    StepKeeps(s, e, SubtreeOf(TreeOf(s.disk), n));
  }

  lemma DeletePending(s: State, n: NodeId)
    requires Safe(s) && n in TreeOf(s.disk)
    ensures Acyclic(TreeOf(s.disk))
    ensures SafeExcept(s.(disk := Deleted(s.disk, n)), SubtreeOf(TreeOf(s.disk), n))
  {
    var e := Deleted(s.disk, n);
    DeleteRefines(s.disk, n);
    DiskAcyclic(e);
    DeleteUntouched(TreeOf(s.disk), TreeOf(e), n);
    StepKeeps(s, e, SubtreeOf(TreeOf(s.disk), n));
  }

  lemma SubtreePending(s: State, e: Disk, walked: State, n: NodeId)
    requires Safe(s) && Acyclic(TreeOf(s.disk)) && UniqueIds(walked.disk) && walked.snapshot == s.snapshot
    requires SafeExcept(s.(disk := e), SubtreeOf(TreeOf(s.disk), n))
    ensures SafeExcept(s.(disk := e), Invalidated(walked, n))
  {
    var gone := Invalidated(walked, n);
    forall x | x in s.nodes && x in SubtreeOf(TreeOf(s.disk), n) ensures x in gone {
      SnapshotCovers(s, n, x);
    }
    Widen(s.(disk := e), SubtreeOf(TreeOf(s.disk), n), gone);
  }

  lemma ReslugPending(s: State, e: Disk)
    requires Safe(s) && Placed(e) && TreeOf(e) == TreeOf(s.disk)
    ensures Safe(s.(disk := e))
  {
    forall x | x in s.nodes ensures Faithful(s.(disk := e), x) {
      assert Faithful(s, x);
    }
  }

  lemma UpdatePending(s: State, n: NodeId, metadata: Metadata)
    requires Safe(s) && n in TreeOf(s.disk)
    ensures SafeExcept(s.(disk := Written(s.disk, StartingNode(s, n).(id := n, metadata := metadata))), {n})
  {
    var node := StartingNode(s, n).(id := n, metadata := metadata);
    assert n in s.nodes ==> Faithful(s, n);
    WrittenTree(s.disk, node);
    RewritePending(s, Written(s.disk, node), node);
  }

  lemma RenamePending(s: State, fold: string -> string, n: NodeId, title: string)
    requires Safe(s) && n in TreeOf(s.disk)
    ensures SafeExcept(s.(disk := Retitled(s.disk, fold, n, title)), {n})
  {
    TreeKeyed(s.disk);
    RenameRefines(s.disk, fold, n, title);
    RewritePending(s, Retitled(s.disk, fold, n, title), TreeOf(s.disk)[n].(title := title));
  }

  /** Between a write's disk commit and its invalidation, only the ids about to
      be invalidated may disagree with the disk. */
  lemma CommitPending(s: State, fold: string -> string, op: Op)
    requires Safe(s)
    ensures SafeExcept(s.(disk := DiskAfter(s, fold, op)), Gone(s, fold, op))
  {
    if Commits(s, op) {
      match op
      case Create(node, parent) =>
        CreatePending(s, fold, node, parent);
        Widen(s.(disk := Created(s.disk, fold, node, parent)), {}, {node.id});
      case Rename(n, title) =>
        if Blank(title) {
          ReslugRefines(s.disk, fold, n, title);
          ReslugPending(s, Reslugged(s.disk, fold, n, title));
        } else {
          RenamePending(s, fold, n, title);
        }
      case UpdateMetadata(n, metadata) => UpdatePending(s, n, metadata);
      case Move(n, parent, position) =>
        MovePending(s, fold, n, parent, position);
        MoveRefines(s.disk, fold, n, parent, position);
        var e := MovedDisk(s.disk, fold, n, parent, position);
        SubtreePending(s, e, s.(disk := e), n);
      case Delete(n) =>
        DeletePending(s, n);
        SubtreePending(s, Deleted(s.disk, n), s, n);
    }
  }

  /** Every write keeps the cache safe. */
  lemma NextSafe(s: State, fold: string -> string, op: Op)
    requires Safe(s)
    ensures Safe(Next(s, fold, op))
  {
    CommitPending(s, fold, op);
    InvalidateKeeps(s.(disk := DiskAfter(s, fold, op)), Gone(s, fold, op));
  }

  // ---------- runs ----------

  ghost function Run(s: State, fold: string -> string, ops: seq<Op>): (r: State)
    requires Safe(s)
    ensures Safe(r)
    decreases |ops|
  {
    if ops == [] then s
    else Run(Step(s, fold, ops[0]), fold, ops[1..])
  }

  ghost function Step(s: State, fold: string -> string, op: Op): (r: State)
    requires Safe(s)
    ensures Safe(r) && r.snapshot == s.snapshot
  {
    NextSafe(s, fold, op);
    Next(s, fold, op)
  }

  lemma RunOne(s: State, fold: string -> string, op: Op)
    requires Safe(s)
    ensures Run(s, fold, [op]) == Step(s, fold, op)
  {
    var r := Step(s, fold, op);
    assert [op][1..] == [];
    assert Run(r, fold, []) == r;
  }

  lemma RunCons(s: State, fold: string -> string, op: Op, ops: seq<Op>)
    requires Safe(s)
    ensures Run(s, fold, [op] + ops) == Run(Step(s, fold, op), fold, ops)
  {
    assert ([op] + ops)[1..] == ops;
  }

  lemma {:induction false} RunConcat(s: State, fold: string -> string, a: seq<Op>, b: seq<Op>)
    requires Safe(s)
    ensures Run(s, fold, a + b) == Run(Run(s, fold, a), fold, b)
    decreases |a|
  {
    if a == [] {
      assert a + b == b;
    } else {
      assert (a + b)[1..] == a[1..] + b;
      RunConcat(Step(s, fold, a[0]), fold, a[1..], b);
    }
  }

  lemma StepDisk(s: State, fold: string -> string, op: Op)
    requires Safe(s)
    ensures Step(s, fold, op).disk == DiskAfter(s, fold, op)
    ensures Step(s, fold, op).nodes == s.nodes - Gone(s, fold, op)
  {
  }

  lemma CommittedAfter(s: State, fold: string -> string, op: Op)
    requires Placed(s.disk) && Commits(s, op)
    ensures DiskAfter(s, fold, op) == Committed(s, fold, op)
  {
  }

  lemma MoveAfter(s: State, fold: string -> string, n: NodeId, parent: Option<NodeId>, position: Option<int>)
    requires Placed(s.disk) && Commits(s, Move(n, parent, position))
    ensures Committed(s, fold, Move(n, parent, position)) == MovedDisk(s.disk, fold, n, parent, position)
  {
    MoveCommitted(s, fold, Move(n, parent, position));
  }

  lemma MoveCommitted(s: State, fold: string -> string, op: Op)
    requires Placed(s.disk) && Commits(s, op) && op.Move?
    ensures Committed(s, fold, op) == MovedDisk(s.disk, fold, op.n, op.newParent, op.position)
  {
  }

  lemma MoveStep(s: State, fold: string -> string, n: NodeId, parent: Option<NodeId>, position: Option<int>)
    requires Safe(s) && Movable(s.disk, n, parent)
    ensures TreeOf(s.disk)[n].parent.Some? ==> TreeOf(s.disk)[n].parent.value in TreeOf(s.disk)
    ensures TreeOf(Step(s, fold, Move(n, parent, position)).disk) == MovedTree(TreeOf(s.disk), n, parent, position)
  {
    StepDisk(s, fold, Move(n, parent, position));
    CommittedAfter(s, fold, Move(n, parent, position));
    MoveAfter(s, fold, n, parent, position);
    MoveRefines(s.disk, fold, n, parent, position);
  }

  /** A node outside the snapshot's subtree of the moved node stays cached. */
  lemma MoveStepNodes(s: State, fold: string -> string, n: NodeId, parent: Option<NodeId>, position: Option<int>)
    requires Safe(s) && Movable(s.disk, n, parent) && n in s.snapshot
    ensures WalkEnds(s.snapshot, n)
    ensures Step(s, fold, Move(n, parent, position)).nodes == s.nodes - ToSet(WalkIds(s.snapshot, n))
  {
    StepDisk(s, fold, Move(n, parent, position));
    CoveringWalk(s.snapshot, n, n);
  }

  lemma CreateStep(s: State, fold: string -> string, node: Node, parent: Option<NodeId>)
    requires Safe(s) && Creatable(s.disk, node, parent)
    ensures TreeOf(Step(s, fold, Create(node, parent)).disk) == CreatedTree(TreeOf(s.disk), node, parent)
  {
    StepDisk(s, fold, Create(node, parent));
    CommittedAfter(s, fold, Create(node, parent));
    CreateRefines(s.disk, fold, node, parent);
  }

  lemma UpdateAfter(s: State, fold: string -> string, n: NodeId, metadata: Metadata)
    requires Placed(s.disk) && n in TreeOf(s.disk)
    ensures DiskAfter(s, fold, UpdateMetadata(n, metadata)) ==
              Written(s.disk, StartingNode(s, n).(id := n, metadata := metadata))
  {
  }

  lemma UpdateStep(s: State, fold: string -> string, n: NodeId, metadata: Metadata)
    requires Safe(s) && n in TreeOf(s.disk)
    ensures TreeOf(Step(s, fold, UpdateMetadata(n, metadata)).disk) ==
              TreeOf(s.disk)[n := StartingNode(s, n).(id := n, metadata := metadata)]
  {
    StepDisk(s, fold, UpdateMetadata(n, metadata));
    UpdateAfter(s, fold, n, metadata);
    assert n in s.nodes ==> Faithful(s, n);
    WrittenTree(s.disk, StartingNode(s, n).(id := n, metadata := metadata));
  }

  /** What a cached read can return after any run: exactly the nodes on disk
      are found, and a node found differs from the disk in its child list at most. */
  ghost function Read(s: State, x: NodeId): Option<Node>
    requires Placed(s.disk)
  {
    if x in s.nodes then Some(s.nodes[x])
    else if x in TreeOf(s.disk) then Some(TreeOf(s.disk)[x]) else None
  }

  lemma ReadsStayFaithful(d: Disk, fold: string -> string, ops: seq<Op>, x: NodeId)
    requires Bootable(d)
    ensures Safe(Populated(d))
    ensures var s := Run(Populated(d), fold, ops);
            && (Read(s, x).Some? <==> x in TreeOf(s.disk))
            && (Read(s, x).Some? ==> Read(s, x).value == TreeOf(s.disk)[x].(children := Read(s, x).value.children))
            && s.snapshot == Pruned(TreeOf(d))
  {
    PopulateSafe(d);
    var s := Run(Populated(d), fold, ops);
    assert x in s.nodes ==> Faithful(s, x);
    SnapshotFrozen(Populated(d), fold, ops);
  }

  lemma {:induction false} SnapshotFrozen(s: State, fold: string -> string, ops: seq<Op>)
    requires Safe(s)
    ensures Run(s, fold, ops).snapshot == s.snapshot
    decreases |ops|
  {
    if ops != [] {
      SnapshotFrozen(Step(s, fold, ops[0]), fold, ops[1..]);
    }
  }

  // ---------- across restarts ----------

  /** One life per boot: every boot finds child lists that lead to every node
      from above, and in no circles. */
  ghost predicate BootsCover(d: Disk, fold: string -> string, lives: seq<seq<Op>>)
    decreases |lives|
  {
    lives != [] ==>
      && Bootable(d)
      && (PopulateSafe(d);
          BootsCover(Run(Populated(d), fold, lives[0]).disk, fold, lives[1..]))
  }

  /** The state after the last of some lives. */
  ghost function Lived(d: Disk, fold: string -> string, lives: seq<seq<Op>>): (r: State)
    requires lives != [] && BootsCover(d, fold, lives)
    ensures Safe(r)
    decreases |lives|
  {
    PopulateSafe(d);
    var r := Run(Populated(d), fold, lives[0]);
    if |lives| == 1 then r else Lived(r.disk, fold, lives[1..])
  }

  /** Cached reads stay faithful over any number of restarts, well-formed disk or not. */
  lemma ReadsAcrossRestarts(d: Disk, fold: string -> string, lives: seq<seq<Op>>, x: NodeId)
    requires lives != [] && BootsCover(d, fold, lives)
    ensures var s := Lived(d, fold, lives);
            && Safe(s) && (Read(s, x).Some? <==> x in TreeOf(s.disk))
            && (Read(s, x).Some? ==> Read(s, x).value == TreeOf(s.disk)[x].(children := Read(s, x).value.children))
  {
    var s := Lived(d, fold, lives);
    assert x in s.nodes ==> Faithful(s, x);
  }
}
