/** The workspace service: title checks, the downward cycle search, and how move errors are classified. */
module Service {
  import opened Domain
  import opened Seqs
  import opened Forests
  import opened Walks
  import opened Trees
  import opened Disks
  import opened DiskOps
  import opened LocalFilesystems
  import opened Reconstruction
  import opened CacheRuns
  import opened Repository

  /** Expanded nodes have all their children marked, and marked present ones are expanded. */
  ghost predicate Closed(t: Forest, expanded: set<NodeId>, seen: set<NodeId>) {
    && (forall x, c {:trigger c in t[x].children} :: x in expanded && x in t && c in t[x].children ==> c in seen)
    && (forall c :: c in seen && c in t ==> c in expanded)
  }

  lemma ClosedKids(t: Forest, level: seq<NodeId>, expanded: set<NodeId>, seen: set<NodeId>)
    requires Closed(t, expanded, seen) && forall y :: y in level ==> y in expanded
    ensures forall y :: y in Kids(t, level) ==> y in seen
    ensures forall y :: y in Present(t, Kids(t, level)) ==> y in expanded
  {
    forall y | y in Kids(t, level) ensures y in seen {
      KidsMembers(t, level, y);
    }
  }

  /** A closed set that holds n holds every level below it. */
  lemma {:induction false} ClosedHolds(t: Forest, n: NodeId, k: nat, expanded: set<NodeId>, seen: set<NodeId>)
    requires n in expanded && Closed(t, expanded, seen)
    ensures forall y :: y in Level(t, n, k) ==> y in expanded
    ensures forall y :: y in Kids(t, Level(t, n, k)) ==> y in seen
  {
    if k > 0 {
      ClosedHolds(t, n, k - 1, expanded, seen);
      ClosedKids(t, Level(t, n, k - 1), expanded, seen);
    }
    ClosedKids(t, Level(t, n, k), expanded, seen);
  }

  /** On a well-formed forest the downward search finds exactly the proper descendants. */
  lemma FoundBelowIff(t: Forest, n: NodeId, p: NodeId)
    requires WellFormed(t) && n in t
    ensures FoundBelow(t, n, p) <==> p != n && InSubtree(t, n, p)
  {
    if FoundBelow(t, n, p) {
      var k: nat :| p in Kids(t, Level(t, n, k));
      KidsBelow(t, n, k, p);
      BelowProper(t, n, p, k + 1);
    }
    if p != n && InSubtree(t, n, p) {
      var k := ProperBelow(t, n, p);
      KidsBelow(t, n, k, p);
    }
  }

  lemma ProperBelow(t: Forest, n: NodeId, p: NodeId) returns (k: nat)
    requires Acyclic(t) && p != n && InSubtree(t, n, p)
    ensures Below(t, n, p, k + 1)
  {
    var c := Chain(t, p);
    var i :| 0 <= i < |c| && c[i] == n;
    assert c[0] == p;
    k := i - 1;
  }

  lemma KidsBelow(t: Forest, n: NodeId, k: nat, p: NodeId)
    requires WellFormed(t) && n in t
    ensures p in Kids(t, Level(t, n, k)) <==> Below(t, n, p, k + 1)
  {
    var level := LevelExact(t, n, k);
    KidsExact(t, level);
    BelowStep(t, n, p, k + 1);
  }

  lemma BelowProper(t: Forest, n: NodeId, p: NodeId, k: nat)
    requires Acyclic(t) && k > 0 && Below(t, n, p, k)
    ensures p != n && InSubtree(t, n, p)
  {
    ChainNoDup(t, p);
    assert Chain(t, p)[0] == p;
  }

  /** The upward walk and the downward search agree. */
  lemma CycleChecksAgree(t: Forest, n: NodeId, p: NodeId)
    requires WellFormed(t) && n in t && p in t
    ensures InSubtree(t, n, p) <==> p == n || FoundBelow(t, n, p)
  {
    FoundBelowIff(t, n, p);
    assert Chain(t, p)[0] == p;
  }

  /** On a well-formed disk so does the filesystem's own check, by directory:
      it refuses with an invalid parent exactly when the two searches find a cycle. */
  lemma DiskCheckAgrees(d: Disk, n: NodeId, p: NodeId)
    requires WF(d) && n in TreeOf(d)
    ensures MoveOutcome(d, n, Some(p)) == Err(InvalidParent) <==> p == n || FoundBelow(TreeOf(d), n, p)
    ensures Acyclic(TreeOf(d))
    ensures p in TreeOf(d) ==>
              (MoveOutcome(d, n, Some(p)) == Err(InvalidParent) <==> InSubtree(TreeOf(d), n, p))
  {
    WFIff(d);
    FoundBelowIff(TreeOf(d), n, p);
    if p in TreeOf(d) {
      SubtreeIsPrefix(d, PathOf(d, n), PathOf(d, p));
      PrefixCases(PathOf(d, n), PathOf(d, p));
      CycleChecksAgree(TreeOf(d), n, p);
      assert PathOf(d, n) == PathOf(d, p) ==> n == p;
    }
  }

  // ---------- the downward search ----------

  /** Everything the search may ever mark. */
  ghost function EverListed(t: Forest): set<NodeId> {
    set x, c | x in t && c in t[x].children :: c
  }

  /** Where the search stands: `stack` holds reached nodes still to expand,
      `expanded` those done; marked ids are found, and present ones are in either. */
  ghost predicate Searching(t: Forest, n: NodeId, p: NodeId, stack: seq<NodeId>, expanded: set<NodeId>,
                            seen: set<NodeId>)
  {
    && (forall x :: x in stack ==> Reached(t, n, x))
    && (n in expanded || n in stack)
    && (forall x, c {:trigger c in t[x].children} :: x in expanded && x in t && c in t[x].children ==> c in seen)
    && (forall c :: c in seen && c in t ==> c in expanded || c in stack)
    && seen <= EverListed(t) && p !in seen
  }

  /** The children of one node, those marked before left out, and of the rest
      those that are in the tree; `hit` as soon as the new parent turns up. */
  method Expand(tree: Tree, current: Node, p: NodeId, seen: set<NodeId>)
    returns (hit: bool, added: seq<Node>, seen': set<NodeId>)
    requires tree.Valid() && current.id in tree.nodes && tree.nodes[current.id] == current && p !in seen
    ensures hit <==> p in current.children
    ensures !hit ==> Current(tree.nodes, added) && seen' == seen + ToSet(current.children)
    ensures !hit ==> forall c :: c in Ids(added) <==> c in seen' && c !in seen && c in tree.nodes
    ensures !hit && seen' == seen ==> added == []
  {
    added, seen' := [], seen;
    ghost var t := tree.nodes;
    for j := 0 to |current.children|
      invariant p !in seen' && seen' == seen + ToSet(current.children[..j])
      invariant Current(t, added)
      invariant forall c :: c in Ids(added) <==> c in seen' && c !in seen && c in t
      invariant seen' == seen ==> added == []
    {
      var cid := current.children[j];
      PrefixStep(current.children, j);
      assert cid in current.children;
      if cid in seen' { continue; }
      seen' := seen' + {cid};
      if cid == p { return true, added, seen'; }
      if cid in tree.nodes {
        IdsConcat(added, [tree.nodes[cid]]);
        assert Ids([tree.nodes[cid]]) == [cid];
        added := added + [tree.nodes[cid]];
      }
    }
    assert current.children[..|current.children|] == current.children;
    assert p in current.children ==> p in ToSet(current.children);
    hit := false;
  }

  /** Depth-first over child lists with a visited set: ends on any tree. */
  method WouldCycle(tree: Tree, nodeId: NodeId, newParentId: Option<NodeId>) returns (cycle: bool)
    requires tree.Valid()
    ensures cycle <==>
              newParentId.Some? && (newParentId.value == nodeId || FoundBelow(tree.nodes, nodeId, newParentId.value))
  {
    if newParentId.None? { return false; }
    var p := newParentId.value;
    if p == nodeId { return true; }
    if nodeId !in tree.nodes { return false; }
    ghost var t := tree.nodes;
    var stack := [tree.nodes[nodeId]];
    var seen: set<NodeId> := {};
    ghost var expanded: set<NodeId> := {};
    SearchStart(t, nodeId, p);
    assert Ids(stack) == [nodeId];
    while stack != []
      invariant Current(t, stack) && Searching(t, nodeId, p, Ids(stack), expanded, seen)
      decreases |EverListed(t) - seen|, |stack|
    {
      var current := stack[|stack| - 1];
      var rest := stack[..|stack| - 1];
      PopStep(t, stack);
      var hit, added, seen' := Expand(tree, current, p, seen);
      SearchStep(t, nodeId, p, Ids(rest), current.id, expanded, seen, hit, Ids(added), seen');
      if hit { return true; }
      PushStep(t, rest, added);
      stack, seen, expanded := rest + added, seen', expanded + {current.id};
    }
    SearchDone(t, nodeId, p, expanded, seen);
    return false;
  }

  lemma PopStep(t: Forest, stack: seq<Node>)
    requires stack != [] && Current(t, stack)
    ensures var current, rest := stack[|stack| - 1], stack[..|stack| - 1];
            && Current(t, rest) && Ids(stack) == Ids(rest) + [current.id]
            && current.id in t && t[current.id] == current
  {
  }

  lemma PushStep(t: Forest, rest: seq<Node>, added: seq<Node>)
    requires Current(t, rest) && Current(t, added)
    ensures Current(t, rest + added) && Ids(rest + added) == Ids(rest) + Ids(added)
  {
    IdsConcat(rest, added);
  }

  lemma SearchStart(t: Forest, n: NodeId, p: NodeId)
    requires n in t
    ensures Searching(t, n, p, [n], {}, {})
  {
    assert n in Level(t, n, 0);
  }

  lemma SearchStep(t: Forest, n: NodeId, p: NodeId, rest: seq<NodeId>, x: NodeId, expanded: set<NodeId>,
                   seen: set<NodeId>,
                   hit: bool, added: seq<NodeId>, seen': set<NodeId>)
    requires n in t && x in t && Searching(t, n, p, rest + [x], expanded, seen)
    requires hit <==> p in t[x].children
    requires !hit ==> seen' == seen + ToSet(t[x].children)
    requires !hit ==> forall c :: c in added <==> c in seen' && c !in seen && c in t
    ensures hit ==> FoundBelow(t, n, p)
    ensures !hit ==> Searching(t, n, p, rest + added, expanded + {x}, seen')
    ensures !hit && seen' != seen ==> |EverListed(t) - seen'| < |EverListed(t) - seen|
  {
    assert x in rest + [x];
    assert Reached(t, n, x);
    var k: nat :| x in Level(t, n, k);
    if hit {
      ChildFound(t, n, k, x, p);
    } else {
      assert forall c :: c in t[x].children ==> c in EverListed(t);
      AddedReached(t, n, k, x, added, seen, seen');
      SearchOn(t, n, p, rest, x, expanded, seen, added, seen');
      if seen' != seen { MarkedMore(EverListed(t), seen, seen'); }
    }
  }

  lemma AddedReached(t: Forest, n: NodeId, k: nat, x: NodeId, added: seq<NodeId>, seen: set<NodeId>, seen': set<NodeId>)
    requires n in t && x in t && x in Level(t, n, k) && seen' == seen + ToSet(t[x].children)
    requires forall c :: c in added <==> c in seen' && c !in seen && c in t
    ensures forall c :: c in added ==> Reached(t, n, c)
  {
    forall c | c in added ensures Reached(t, n, c) {
      assert c in t[x].children;
      ChildFound(t, n, k, x, c);
    }
  }

  lemma SearchOn(t: Forest, n: NodeId, p: NodeId, rest: seq<NodeId>, x: NodeId, expanded: set<NodeId>,
                 seen: set<NodeId>,
                 added: seq<NodeId>, seen': set<NodeId>)
    requires n in t && x in t && Searching(t, n, p, rest + [x], expanded, seen) && p !in t[x].children
    requires seen' == seen + ToSet(t[x].children) && seen' <= EverListed(t)
    requires forall c :: c in added <==> c in seen' && c !in seen && c in t
    requires forall c :: c in added ==> Reached(t, n, c)
    ensures Searching(t, n, p, rest + added, expanded + {x}, seen')
  {
    forall c | c in seen' && c in t ensures c in expanded + {x} || c in rest + added {
      if c in seen { assert c in expanded || c in rest + [x]; }
    }
    forall c | c in rest + added ensures Reached(t, n, c) {
      if c in rest { assert c in rest + [x]; }
    }
  }

  lemma MarkedMore(all: set<NodeId>, seen: set<NodeId>, seen': set<NodeId>)
    requires seen <= seen' <= all && seen != seen'
    ensures |all - seen'| < |all - seen|
  {
    var c :| c in seen' && c !in seen;
    SubsetSize(all - seen', all - seen - {c});
  }

  lemma SearchDone(t: Forest, n: NodeId, p: NodeId, expanded: set<NodeId>, seen: set<NodeId>)
    requires Searching(t, n, p, [], expanded, seen)
    ensures !FoundBelow(t, n, p)
  {
    if FoundBelow(t, n, p) {
      var k: nat :| p in Kids(t, Level(t, n, k));
      ClosedHolds(t, n, k, expanded, seen);
    }
  }

  // ---------- the use cases ----------

  /** What the service answers to a move. */
  ghost function ServiceMoveOutcome(d: Disk, n: NodeId, parent: Option<NodeId>): Result<Node>
    requires Placed(d)
  {
    var r := MoveOutcome(d, n, parent);
    if r == Err(InvalidParent) then Err(Classified(Pruned(TreeOf(d)), n, parent)) else Translated(r, n)
  }

  /** What an invalid parent is taken for, going by child lists. */
  ghost function Classified(t: Forest, n: NodeId, parent: Option<NodeId>): Error {
    if parent.Some? && (parent.value == n || FoundBelow(t, n, parent.value)) then CycleInMove else ParentNotFound
  }

  lemma InvalidParentIff(d: Disk, n: NodeId, parent: Option<NodeId>)
    requires WF(d)
    ensures MoveOutcome(d, n, parent) == Err(InvalidParent) <==> Classified(TreeOf(d), n, parent) == CycleInMove
  {
    if parent.Some? && n in TreeOf(d) { DiskCheckAgrees(d, n, parent.value); }
  }

  lemma NothingPruned(d: Disk)
    requires WF(d)
    ensures WellFormed(TreeOf(d)) && Pruned(TreeOf(d)) == TreeOf(d)
  {
    WFIff(d);
    PruneNothing(TreeOf(d));
  }

  /** On a well-formed disk an invalid parent is always classified as a cycle. */
  lemma AlwaysCycle(d: Disk, n: NodeId, parent: Option<NodeId>)
    requires WF(d)
    ensures ServiceMoveOutcome(d, n, parent) == Err(CycleInMove) <==> MoveOutcome(d, n, parent) == Err(InvalidParent)
    ensures ServiceMoveOutcome(d, n, parent) != Err(ParentNotFound)
  {
    InvalidParentIff(d, n, parent);
    NothingPruned(d);
    OnlyInvalidOrMissing(d, n, parent);
  }

  lemma OnlyInvalidOrMissing(d: Disk, n: NodeId, parent: Option<NodeId>)
    requires Placed(d)
    ensures var r := MoveOutcome(d, n, parent); r.Ok? || r.error == InvalidParent || r.error.NodeNotFound?
  {
  }

  /** A move is answered with a cycle exactly when the new parent is the node or
      lies below it. */
  lemma CycleAnswerIff(d: Disk, n: NodeId, parent: Option<NodeId>)
    requires WF(d)
    ensures Acyclic(TreeOf(d))
    ensures ServiceMoveOutcome(d, n, parent) == Err(CycleInMove) <==>
              parent.Some? && (parent.value == n || (n in TreeOf(d) && InSubtree(TreeOf(d), n, parent.value)))
  {
    AlwaysCycle(d, n, parent);
    InvalidParentIff(d, n, parent);
    NothingPruned(d);
    if parent.Some? && n in TreeOf(d) { FoundBelowIff(TreeOf(d), n, parent.value); }
  }

  /** The answer to a move, case by case. */
  lemma MoveAnswer(d: Disk, n: NodeId, parent: Option<NodeId>) returns (r: Result<Node>)
    requires WF(d)
    ensures Acyclic(TreeOf(d)) && r == ServiceMoveOutcome(d, n, parent)
    ensures parent == Some(n) ==> r == Err(CycleInMove)
    ensures parent != Some(n) && n !in TreeOf(d) ==> r == Err(NodeNotFound(n))
    ensures n in TreeOf(d) && parent.Some? && parent.value !in TreeOf(d) ==> r == Err(NodeNotFound(n))
    ensures n in TreeOf(d) && parent.Some? && parent.value in TreeOf(d) && InSubtree(TreeOf(d), n, parent.value) ==>
              r == Err(CycleInMove)
    ensures n in TreeOf(d) && (parent.Some? ==> parent.value in TreeOf(d) && !InSubtree(TreeOf(d), n, parent.value)) ==>
              r == Ok(TreeOf(d)[n].(parent := parent))
  {
    r := ServiceMoveOutcome(d, n, parent);
    CycleAnswerIff(d, n, parent);
    MoveOutcomePlain(d, n, parent);
  }

  /** A parent that does not exist is reported as the node itself not being found. */
  lemma MissingParentBlamesNode(d: Disk, n: NodeId, p: NodeId)
    requires Placed(d) && p != n && p !in TreeOf(d)
    ensures ServiceMoveOutcome(d, n, Some(p)) == Err(NodeNotFound(n))
  {
  }

  class WorkspaceService {
    const repository: LocalWorkspaceRepository

    constructor (repo: LocalWorkspaceRepository)
      ensures repository == repo
    {
      repository := repo;
    }

    /** A new node; blank titles never reach the repository. */
    method CreateNode(node: Node, parentId: Option<NodeId>) returns (r: Result<Node>, calls: seq<HookCall>)
      requires repository.Valid() && node.id !in TreeOf(repository.fs.dirs) && node.parent == None
      modifies repository.fs, repository.cache
      ensures repository.Valid()
      ensures Blank(node.title) ==> r == Err(BlankTitle) && calls == [] && repository.State() == old(repository.State())
      ensures !Blank(node.title) ==>
                repository.State() == Next(old(repository.State()), repository.fs.fold, Create(node, parentId))
      ensures !Blank(node.title) ==>
                r == if Commits(old(repository.State()), Create(node, parentId))
                     then Ok(node.(children := [], parent := parentId)) else Err(ParentNotFound)
    {
      if Blank(node.title) { return Err(BlankTitle), []; }
      r, calls := repository.SaveNode(node, parentId);
      if r.Err? { r := Err(ParentNotFound); }
    }

    /** A blank title never reaches the repository either, so no directory is
        renamed for it. */
    method RenameNode(nodeId: NodeId, newTitle: string) returns (r: Result<Node>, calls: seq<HookCall>)
      requires repository.Valid()
      modifies repository.fs, repository.cache
      ensures repository.Valid()
      ensures Blank(newTitle) ==> r == Err(BlankTitle) && calls == [] && repository.State() == old(repository.State())
      ensures !Blank(newTitle) ==>
                repository.State() == Next(old(repository.State()), repository.fs.fold, Rename(nodeId, newTitle))
      ensures !Blank(newTitle) && nodeId !in TreeOf(old(repository.fs.dirs)) ==> r == Err(NodeNotFound(nodeId))
      ensures !Blank(newTitle) && nodeId in TreeOf(old(repository.fs.dirs)) ==>
                r == Ok(TreeOf(old(repository.fs.dirs))[nodeId].(title := newTitle))
    {
      if Blank(newTitle) { return Err(BlankTitle), []; }
      r, calls := repository.RenameNode(nodeId, newTitle);
    }

    method MoveNode(nodeId: NodeId, newParentId: Option<NodeId>, position: Option<int>)
      returns (r: Result<Node>, calls: seq<HookCall>)
      requires repository.Valid()
      requires Movable(repository.fs.dirs, nodeId, newParentId) ==>
                 MoveReturns(repository.State(), nodeId, newParentId)
      modifies repository.fs, repository.cache
      ensures repository.Valid()
      ensures repository.State() ==
                Next(old(repository.State()), repository.fs.fold, Move(nodeId, newParentId, position))
      ensures r == ServiceMoveOutcome(old(repository.fs.dirs), nodeId, newParentId)
    {
      ghost var s := repository.State();
      r, calls := repository.MoveNode(nodeId, newParentId, position);
      if r == Err(InvalidParent) {
        RefusedMove(s, repository.fs.fold, nodeId, newParentId, position);
        label refused:
        var error := Classify(nodeId, newParentId);
        repository.NothingChanged@refused();
        return Err(error), calls;
      }
    }

    /** Cycle or missing parent, by a search of the tree loaded afresh. */
    method Classify(nodeId: NodeId, newParentId: Option<NodeId>) returns (error: Error)
      requires Placed(repository.fs.dirs)
      ensures error == Classified(Pruned(TreeOf(repository.fs.dirs)), nodeId, newParentId)
    {
      var tree := repository.LoadTree();
      var cycle := WouldCycle(tree, nodeId, newParentId);
      return if cycle then CycleInMove else ParentNotFound;
    }
  }

  lemma RefusedMove(s: State, fold: string -> string, n: NodeId, parent: Option<NodeId>, position: Option<int>)
    requires Placed(s.disk) && Translated(MoveOutcome(s.disk, n, parent), n) == Err(InvalidParent)
    ensures MoveOutcome(s.disk, n, parent) == Err(InvalidParent)
    ensures Next(s, fold, Move(n, parent, position)) == s
  {
    MoveOkIff(s.disk, n, parent);
    IdleStep(s, fold, Move(n, parent, position));
  }
}
