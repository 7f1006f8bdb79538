/** Cached reads from any snapshot at all: which writes keep them right, and exactly when a delete does. */
module CacheReads {
  import opened Domain
  import opened Forests
  import opened Walks
  import opened Trees
  import opened Disks
  import opened DiskOps
  import opened CacheRuns

  /** Cached nodes that are on disk have there the same fields except the child list. */
  ghost predicate CurrentFields(s: State) {
    && Placed(s.disk)
    && forall x :: x in s.nodes && x in TreeOf(s.disk) ==> SameButChildren(s.nodes[x], TreeOf(s.disk)[x])
  }

  /** And all of them are on disk. */
  ghost predicate ReadsFaithful(s: State) {
    CurrentFields(s) && forall x :: x in s.nodes ==> x in TreeOf(s.disk)
  }

  /** The write comes back: the walk a move starts after its commit ends. A
      delete that does not come back never gets to the disk. */
  ghost predicate Returns(s: State, fold: string -> string, op: Op)
    requires Placed(s.disk)
  {
    op.Move? && Movable(s.disk, op.n, op.newParent) ==>
      (MoveRefines(s.disk, fold, op.n, op.newParent, op.position);
       var after := s.(disk := MovedDisk(s.disk, fold, op.n, op.newParent, op.position));
       WalkEnds(Walked(after, op.n), op.n))
  }

  lemma SafeReads(s: State)
    requires Safe(s)
    ensures ReadsFaithful(s)
  {
    forall x | x in s.nodes ensures x in TreeOf(s.disk) && SameButChildren(s.nodes[x], TreeOf(s.disk)[x]) {
      assert Faithful(s, x);
    }
  }

  /** Boot gives right reads from any placed disk, whatever its child lists say. */
  lemma PopulatedReads(d: Disk)
    requires Placed(d)
    ensures ReadsFaithful(Populated(d))
  {
  }

  // ---------- what a write does to the fields of other nodes ----------

  /** The node whose record the write is about. */
  function Target(op: Op): NodeId {
    if op.Create? then op.node.id else op.n
  }

  /** x, if it stays, keeps all but its child list. */
  ghost predicate KeepsFields(t: Forest, u: Forest, x: NodeId) {
    x in u ==> x in t && SameButChildren(t[x], u[x])
  }

  ghost predicate OthersKept(t: Forest, u: Forest, target: NodeId) {
    forall x :: x != target ==> KeepsFields(t, u, x)
  }

  lemma CreateOthers(d: Disk, fold: string -> string, node: Node, parent: Option<NodeId>)
    requires Placed(d) && Creatable(d, node, parent)
    ensures var e := Created(d, fold, node, parent);
            Placed(e) && OthersKept(TreeOf(d), TreeOf(e), node.id) && TreeOf(d).Keys <= TreeOf(e).Keys
  {
    CreateRefines(d, fold, node, parent);
    AddThenAttach(TreeOf(d), node, parent);
  }

  lemma RewriteOthers(t: Forest, u: Forest, n: NodeId, node: Node)
    requires n in t && u == t[n := node]
    ensures OthersKept(t, u, n) && u.Keys == t.Keys
  {
  }

  lemma RenameOthers(d: Disk, fold: string -> string, n: NodeId, title: string)
    requires Placed(d) && n in TreeOf(d)
    ensures var e := Retitled(d, fold, n, title);
            Placed(e) && OthersKept(TreeOf(d), TreeOf(e), n) && TreeOf(e).Keys == TreeOf(d).Keys
  {
    RenameRefines(d, fold, n, title);
    RewriteOthers(TreeOf(d), TreeOf(Retitled(d, fold, n, title)), n, TreeOf(d)[n].(title := title));
  }

  lemma AnyRenameOthers(s: State, fold: string -> string, n: NodeId, title: string)
    requires Placed(s.disk) && n in TreeOf(s.disk)
    ensures var e := Committed(s, fold, Rename(n, title));
            && Placed(e) && OthersKept(TreeOf(s.disk), TreeOf(e), n) && TreeOf(e).Keys == TreeOf(s.disk).Keys
            && (Blank(title) ==> TreeOf(e) == TreeOf(s.disk))
  {
    if Blank(title) { BlankOthers(s, fold, n, title); } else { TitledOthers(s, fold, n, title); }
  }

  lemma BlankOthers(s: State, fold: string -> string, n: NodeId, title: string)
    requires Placed(s.disk) && n in TreeOf(s.disk) && Blank(title)
    ensures Placed(Committed(s, fold, Rename(n, title)))
    ensures TreeOf(Committed(s, fold, Rename(n, title))) == TreeOf(s.disk)
  {
    ReslugRefines(s.disk, fold, n, title);
  }

  lemma TitledOthers(s: State, fold: string -> string, n: NodeId, title: string)
    requires Placed(s.disk) && n in TreeOf(s.disk) && !Blank(title)
    ensures var e := Committed(s, fold, Rename(n, title));
            Placed(e) && OthersKept(TreeOf(s.disk), TreeOf(e), n) && TreeOf(e).Keys == TreeOf(s.disk).Keys
  {
    RenameOthers(s.disk, fold, n, title);
  }

  lemma UpdateOthers(s: State, n: NodeId, metadata: Metadata)
    requires CurrentFields(s) && n in TreeOf(s.disk)
    ensures var e := Written(s.disk, StartingNode(s, n).(id := n, metadata := metadata));
            Placed(e) && OthersKept(TreeOf(s.disk), TreeOf(e), n) && TreeOf(e).Keys == TreeOf(s.disk).Keys
  {
    WrittenTree(s.disk, StartingNode(s, n).(id := n, metadata := metadata));
  }

  lemma MoveOthers(d: Disk, fold: string -> string, n: NodeId, parent: Option<NodeId>, position: Option<int>)
    requires Placed(d) && Movable(d, n, parent)
    ensures var e := MovedDisk(d, fold, n, parent, position);
            && Placed(e) && TreeOf(e).Keys == TreeOf(d).Keys && OthersKept(TreeOf(d), TreeOf(e), n)
  {
    MoveRefines(d, fold, n, parent, position);
    MoveReparents(TreeOf(d), TreeOf(MovedDisk(d, fold, n, parent, position)), n, parent, position);
  }

  lemma DeleteOthers(d: Disk, n: NodeId)
    requires Placed(d) && n in TreeOf(d)
    ensures Acyclic(TreeOf(d)) && Placed(Deleted(d, n))
    ensures OthersKept(TreeOf(d), TreeOf(Deleted(d, n)), n)
    ensures forall x :: x in TreeOf(d) && x !in TreeOf(Deleted(d, n)) <==> InSubtree(TreeOf(d), n, x)
  {
    DeleteRefines(d, n);
    forall x ensures x in TreeOf(d) && x !in TreeOf(Deleted(d, n)) <==> InSubtree(TreeOf(d), n, x) {
      SubtreeRemovedAt(TreeOf(d), n, x);
    }
    UnlistedFields(TreeOf(d), n);
  }

  lemma SubtreeRemovedAt(t: Forest, n: NodeId, x: NodeId)
    requires Acyclic(t) && n in t && (t[n].parent.Some? ==> t[n].parent.value in t)
    ensures x in t && x !in SubtreeRemoved(t, n) <==> InSubtree(t, n, x)
  {
    assert Unlisted(t, n).Keys == t.Keys;
  }

  lemma WriteOthers(s: State, fold: string -> string, op: Op)
    requires CurrentFields(s) && Commits(s, op)
    ensures Placed(Committed(s, fold, op))
    ensures OthersKept(TreeOf(s.disk), TreeOf(Committed(s, fold, op)), Target(op))
    ensures op.Rename? && Blank(op.title) ==> TreeOf(Committed(s, fold, op)) == TreeOf(s.disk)
    ensures !op.Delete? ==> TreeOf(s.disk).Keys <= TreeOf(Committed(s, fold, op)).Keys
  {
    match op
    case Create(node, parent) => CreateOthers(s.disk, fold, node, parent);
    case Rename(n, title) => AnyRenameOthers(s, fold, n, title);
    case UpdateMetadata(n, metadata) => UpdateOthers(s, n, metadata);
    case Move(n, parent, position) => MoveOthers(s.disk, fold, n, parent, position);
    case Delete(n) => DeleteOthers(s.disk, n);
  }

  /** The target itself is taken out of the cache, unless its record stays as it is. */
  lemma TargetGone(s: State, fold: string -> string, op: Op)
    requires Placed(s.disk) && Commits(s, op) && Returns(s, fold, op)
    ensures (op.Rename? && Blank(op.title)) || Target(op) in Gone(s, fold, op)
  {
    if op.Move? {
      CommittedAfter(s, fold, op);
      MoveAfter(s, fold, op.n, op.newParent, op.position);
      MoveRefines(s.disk, fold, op.n, op.newParent, op.position);
      StartMet(s.(disk := MovedDisk(s.disk, fold, op.n, op.newParent, op.position)), op.n);
    }
    if op.Delete? { StartMet(s, op.n); }
  }

  lemma StartMet(s: State, n: NodeId)
    requires Placed(s.disk) && n in TreeOf(s.disk) && WalkEnds(Walked(s, n), n)
    ensures n in Invalidated(s, n)
  {
    WalkEndsIff(Walked(s, n), n);
    StartOnce(Walked(s, n), n);
  }

  /** From any snapshot, every write that comes back leaves no cached field wrong
      for a node that is on disk. */
  lemma NextCurrent(s: State, fold: string -> string, op: Op)
    requires CurrentFields(s) && Returns(s, fold, op)
    ensures CurrentFields(Next(s, fold, op))
  {
    if Commits(s, op) {
      CommittedAfter(s, fold, op);
      WriteOthers(s, fold, op);
      TargetGone(s, fold, op);
      OthersCurrent(s, Committed(s, fold, op), Target(op), Gone(s, fold, op), op.Rename? && Blank(op.title));
    }
  }

  lemma OthersCurrent(s: State, e: Disk, target: NodeId, gone: set<NodeId>, same: bool)
    requires CurrentFields(s) && Placed(e) && OthersKept(TreeOf(s.disk), TreeOf(e), target)
    requires if same then TreeOf(e) == TreeOf(s.disk) else target in gone
    ensures CurrentFields(State(e, s.nodes - gone, s.snapshot))
  {
    forall x | x in s.nodes && x !in gone && x in TreeOf(e) ensures SameButChildren(s.nodes[x], TreeOf(e)[x]) {
      if x != target { assert KeepsFields(TreeOf(s.disk), TreeOf(e), x); }
    }
  }

  // ---------- exactly when a delete leaves a deleted node in the cache ----------

  /** Every cached node below the one deleted is on the lists the delete goes by. */
  ghost predicate Covers(s: State, op: Op)
    requires Placed(s.disk)
  {
    op.Delete? && Commits(s, op) ==>
      (DiskAcyclic(s.disk);
       forall x :: x in s.nodes && InSubtree(TreeOf(s.disk), op.n, x) ==> Expected(s, op.n, x))
  }

  /** A write that comes back keeps every cached read right if and only if it is
      no delete, or one whose lists lead to every cached node it deletes. */
  lemma NextReadsIff(s: State, fold: string -> string, op: Op)
    requires ReadsFaithful(s) && Returns(s, fold, op)
    ensures ReadsFaithful(Next(s, fold, op)) <==> Covers(s, op)
  {
    NextCurrent(s, fold, op);
    if Commits(s, op) {
      CommittedAfter(s, fold, op);
      WriteOthers(s, fold, op);
      if op.Delete? { DeleteReadsIff(s, fold, op.n); }
    }
  }

  lemma DeleteReadsIff(s: State, fold: string -> string, n: NodeId)
    requires ReadsFaithful(s) && Commits(s, Delete(n)) && CurrentFields(Next(s, fold, Delete(n)))
    ensures ReadsFaithful(Next(s, fold, Delete(n))) <==> Covers(s, Delete(n))
  {
    CommittedAfter(s, fold, Delete(n));
    DeleteOthers(s.disk, n);
    forall x ensures x in Invalidated(s, n) <==> Expected(s, n, x) {
      WalkIdsReached(Walked(s, n), n, x);
    }
  }

  // ---------- over runs ----------

  ghost predicate ReturnsThroughout(s: State, fold: string -> string, ops: seq<Op>)
    requires CurrentFields(s)
    decreases |ops|
  {
    ops != [] ==>
      && Returns(s, fold, ops[0])
      && (NextCurrent(s, fold, ops[0]);
          ReturnsThroughout(Next(s, fold, ops[0]), fold, ops[1..]))
  }

  ghost predicate CoversThroughout(s: State, fold: string -> string, ops: seq<Op>)
    requires CurrentFields(s) && ReturnsThroughout(s, fold, ops)
    decreases |ops|
  {
    ops != [] ==>
      && Covers(s, ops[0])
      && (NextCurrent(s, fold, ops[0]);
          CoversThroughout(Next(s, fold, ops[0]), fold, ops[1..]))
  }

  ghost predicate ReadsThroughout(s: State, fold: string -> string, ops: seq<Op>)
    requires CurrentFields(s) && ReturnsThroughout(s, fold, ops)
    decreases |ops|
  {
    && ReadsFaithful(s)
    && (ops != [] ==>
          (NextCurrent(s, fold, ops[0]);
           ReadsThroughout(Next(s, fold, ops[0]), fold, ops[1..])))
  }

  /** From any placed disk and whatever snapshot boot took of it, cached reads
      stay right over a run of writes that come back if and only if every delete
      in it goes by lists that lead to the cached nodes it deletes. */
  lemma {:induction false} RunReadsIff(s: State, fold: string -> string, ops: seq<Op>)
    requires ReadsFaithful(s) && ReturnsThroughout(s, fold, ops)
    ensures ReadsThroughout(s, fold, ops) <==> CoversThroughout(s, fold, ops)
    decreases |ops|
  {
    if ops != [] {
      var r := Next(s, fold, ops[0]);
      NextCurrent(s, fold, ops[0]);
      NextReadsIff(s, fold, ops[0]);
      if ReadsFaithful(r) { RunReadsIff(r, fold, ops[1..]); }
    }
  }
}
