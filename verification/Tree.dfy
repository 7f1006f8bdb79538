/** The in-memory tree: what each operation does to the forest, and the class that does it. */
module Trees {
  import opened Domain
  import opened Seqs
  import opened Forests
  import opened Walks

  // ---------- the operations, as functions of the forest ----------

  function Clamp(position: int, len: nat): (i: nat)
    ensures i <= len
  {
    if position < 0 then 0 else if position < len then position else len
  }

  function SetParent(t: Forest, c: NodeId, p: Option<NodeId>): Forest
    requires c in t
  {
    t[c := t[c].(parent := p)]
  }

  function SetChildren(t: Forest, p: NodeId, children: seq<NodeId>): Forest
    requires p in t
  {
    t[p := t[p].(children := children)]
  }

  function Added(t: Forest, node: Node): Forest {
    t[node.id := node]
  }

  function Appended(children: seq<NodeId>, c: NodeId): seq<NodeId> {
    if c in children then children else children + [c]
  }

  function Attached(t: Forest, c: NodeId, p: NodeId): Forest
    requires c in t && p in t
  {
    SetChildren(SetParent(t, c, Some(p)), p, Appended(t[p].children, c))
  }

  /** c taken off the child list of its parent, when it has one. */
  function Unlisted(t: Forest, c: NodeId): Forest
    requires c in t && (t[c].parent.Some? ==> t[c].parent.value in t)
  {
    match t[c].parent
    case None => t
    case Some(p) => SetChildren(t, p, Without(t[p].children, c))
  }

  function Detached(t: Forest, c: NodeId): Forest
    requires c in t && (t[c].parent.Some? ==> t[c].parent.value in t)
  {
    SetParent(Unlisted(t, c), c, None)
  }

  /** A child list with c moved to the clamped position. */
  function PutAt(children: seq<NodeId>, c: NodeId, position: int): seq<NodeId> {
    var others := Without(children, c);
    InsertAt(others, Clamp(position, |others|), c)
  }

  function Repositioned(t: Forest, p: NodeId, c: NodeId, position: int): Forest
    requires p in t
  {
    SetChildren(t, p, PutAt(t[p].children, c, position))
  }

  function Inserted(t: Forest, p: NodeId, c: NodeId, position: Option<int>): Forest
    requires c in t && p in t
  {
    var u := Attached(t, c, p);
    if position.None? then u else Repositioned(u, p, c, position.value)
  }

  function Removed(t: Forest, c: NodeId): Forest
    requires c in t && (t[c].parent.Some? ==> t[c].parent.value in t)
  {
    Detached(t, c) - {c}
  }

  /** The forest without n and everything below it. */
  ghost function SubtreeRemoved(t: Forest, n: NodeId): Forest
    requires Acyclic(t) && n in t
  {
    var u := Unlisted(t, n);
    map x | x in u && !InSubtree(t, n, x) :: u[x]
  }

  ghost predicate Leaf(t: Forest, n: NodeId) {
    forall x :: x in t ==> t[x].parent != Some(n)
  }

  // ---------- what the operations keep ----------

  /** Adding a childless node and attaching it to the parent it names. */
  lemma AddKeeps(t: Forest, node: Node)
    requires WellFormed(t) && node.id !in t && node.children == []
    requires node.parent.Some? ==> node.parent.value in t
    ensures Acyclic(Added(t, node))
    ensures var u := Added(t, node);
            WellFormed(if node.parent.Some? then Attached(u, node.id, node.parent.value) else u)
  {
    AddAcyclic(t, node);
    var u := Added(t, node);
    if node.parent.Some? {
      var p := node.parent.value;
      var v := Attached(u, node.id, p);
      AcyclicCongruence(u, v);
      assert node.id !in t[p].children;
      AppendNoDup(t[p].children, node.id);
      assert TwoWay(v);
    } else {
      assert TwoWay(u);
    }
  }

  /** A new node whose parent resolves cannot close a cycle. */
  lemma AddAcyclic(t: Forest, node: Node)
    requires Acyclic(t) && node.id !in t
    requires node.parent.Some? ==> node.parent.value in t
    ensures Acyclic(Added(t, node))
  {
    var r := RankOf(t);
    var top := if node.parent.Some? then r[node.parent.value] + 1 else 0;
    assert Ranked(Added(t, node), r[node.id := top]);
  }

  lemma AppendNoDup(s: seq<NodeId>, x: NodeId)
    requires NoDup(s)
    ensures NoDup(Appended(s, x))
  {
  }

  /** `attach` does not detach from an old parent: on a well-formed forest it
      keeps the forest well-formed exactly when the node is a root or already a
      child of the target. */
  lemma AttachKeepsIff(t: Forest, c: NodeId, p: NodeId)
    requires WellFormed(t) && c in t && p in t && !InSubtree(t, c, p)
    ensures Acyclic(Attached(t, c, p))
    ensures WellFormed(Attached(t, c, p)) <==> t[c].parent in {None, Some(p)}
  {
    var u := Attached(t, c, p);
    assert c != p;
    assert Keyed(u);
    ReparentAcyclic(t, u, c, Some(p));
    if t[c].parent in {None, Some(p)} {
      AttachTwoWay(t, c, p);
    } else {
      var q := t[c].parent.value;
      assert q != p && c in u[q].children && u[c].parent != Some(q);
    }
  }

  lemma AttachTwoWay(t: Forest, c: NodeId, p: NodeId)
    requires TwoWay(t) && c in t && p in t && c != p && t[c].parent in {None, Some(p)}
    ensures TwoWay(Attached(t, c, p))
  {
    var u := Attached(t, c, p);
    AppendNoDup(t[p].children, c);
    forall q, x | q in u && x in u[q].children ensures x in u && u[x].parent == Some(q) {
      assert x in t[q].children || (q == p && x == c);
    }
  }

  lemma DetachKeeps(t: Forest, c: NodeId)
    requires WellFormed(t) && c in t
    ensures WellFormed(Detached(t, c))
  {
    var u := Detached(t, c);
    ReparentAcyclic(t, u, c, None);
    DetachTwoWay(t, c);
  }

  lemma DetachTwoWay(t: Forest, c: NodeId)
    requires TwoWay(t) && c in t
    ensures TwoWay(Detached(t, c))
  {
    var u := Detached(t, c);
    forall q | q in u ensures NoDup(u[q].children) { WithoutNoDup(t[q].children, c); }
    forall q, x | q in u && x in u[q].children ensures x in u && u[x].parent == Some(q) {
      assert x in t[q].children;
    }
  }

  /** Repositioning permutes: the child lands on the clamped index, the other
      children keep their relative order. */
  lemma PutAtExact(children: seq<NodeId>, c: NodeId, position: int)
    requires NoDup(children) && c in children
    ensures var r := PutAt(children, c, position);
            && NoDup(r) && |r| == |children| && multiset(r) == multiset(children)
            && r[Clamp(position, |children| - 1)] == c
            && Without(r, c) == Without(children, c)
  {
    var others := Without(children, c);
    WithoutNoDup(children, c);
    WithoutSize(children, c);
    InsertAtNoDup(others, Clamp(position, |others|), c);
    WithoutInsertAt(others, Clamp(position, |others|), c);
    SameBag(PutAt(children, c, position), children);
  }

  /** Where a child lands, in plain terms: before the others for a position of
      zero or less, behind them from their number on, else at the position. */
  ghost predicate Lands(list: seq<NodeId>, others: seq<NodeId>, c: NodeId, position: int) {
    && (position <= 0 ==> list == [c] + others)
    && (0 <= position <= |others| ==> list == others[..position] + [c] + others[position..])
    && (position >= |others| ==> list == others + [c])
  }

  lemma PutAtLands(children: seq<NodeId>, c: NodeId, position: int)
    ensures Lands(PutAt(children, c, position), Without(children, c), c, position)
  {
  }

  lemma {:induction false} WithoutSize(s: seq<NodeId>, c: NodeId)
    requires NoDup(s) && c in s
    ensures |Without(s, c)| == |s| - 1
  {
    WithoutNoDup(s, c);
    NoDupSize(s);
    NoDupSize(Without(s, c));
    assert ToSet(Without(s, c)) == ToSet(s) - {c};
  }

  lemma {:induction false} BagOfNoDup(s: seq<NodeId>)
    requires NoDup(s)
    ensures multiset(s) == multiset(ToSet(s))
  {
    if s != [] {
      var rest := s[1..];
      assert s == [s[0]] + rest && s[0] !in rest;
      assert NoDup(rest);
      BagOfNoDup(rest);
      assert ToSet(s) == {s[0]} + ToSet(rest);
    }
  }

  lemma SameBag(a: seq<NodeId>, b: seq<NodeId>)
    requires NoDup(a) && NoDup(b) && forall x :: x in a <==> x in b
    ensures multiset(a) == multiset(b)
  {
    BagOfNoDup(a);
    BagOfNoDup(b);
    assert ToSet(a) == ToSet(b);
  }

  /** Rewriting one child list without changing what it holds. */
  lemma RelistKeeps(t: Forest, p: NodeId, children: seq<NodeId>)
    requires WellFormed(t) && p in t && NoDup(children)
    requires forall x :: x in children <==> x in t[p].children
    ensures WellFormed(SetChildren(t, p, children))
  {
    var u := SetChildren(t, p, children);
    AcyclicCongruence(t, u);
    assert TwoWay(u);
  }

  lemma RepositionKeeps(t: Forest, p: NodeId, c: NodeId, position: int)
    requires WellFormed(t) && p in t && c in t[p].children
    ensures WellFormed(Repositioned(t, p, c, position))
  {
    PutAtExact(t[p].children, c, position);
    RelistKeeps(t, p, PutAt(t[p].children, c, position));
  }

  lemma InsertKeeps(t: Forest, p: NodeId, c: NodeId, position: Option<int>)
    requires WellFormed(t) && c in t && p in t && !InSubtree(t, c, p)
    requires t[c].parent in {None, Some(p)}
    ensures WellFormed(Inserted(t, p, c, position))
  {
    AttachKeepsIff(t, c, p);
    if position.Some? { RepositionKeeps(Attached(t, c, p), p, c, position.value); }
  }

  /** Removing a node leaves its children without a parent that resolves. */
  lemma RemoveAcyclicIff(t: Forest, c: NodeId)
    requires Acyclic(t) && c in t && (t[c].parent.Some? ==> t[c].parent.value in t)
    ensures Acyclic(Removed(t, c)) <==> Leaf(t, c)
  {
    var u, v := Detached(t, c), Removed(t, c);
    ReparentAcyclic(t, u, c, None);
    if Leaf(t, c) { AcyclicCongruence(u, v); }
    if x :| x in t && t[x].parent == Some(c) {
      var r := RankOf(t);
      assert r[c] < r[x];
      assert x in v && v[x].parent == Some(c) && c !in v;
    }
  }

  lemma RemoveKeeps(t: Forest, c: NodeId)
    requires WellFormed(t) && c in t && Leaf(t, c)
    ensures WellFormed(Removed(t, c))
  {
    DetachKeeps(t, c);
    var u, v := Detached(t, c), Removed(t, c);
    AcyclicCongruence(u, v);
    assert forall q :: q in u ==> c !in u[q].children;
    assert TwoWay(v);
  }

  lemma SubtreeRemovedKeeps(t: Forest, n: NodeId)
    requires WellFormed(t) && n in t
    ensures WellFormed(SubtreeRemoved(t, n))
  {
    SubtreeClosed(t, n);
    SubtreeRemovedAcyclic(t, n);
    PrunedTwoWay(t, SubtreeRemoved(t, n), n, set x | x in t && InSubtree(t, n, x));
  }

  /** A subtree is its top and whatever has its parent inside. */
  lemma SubtreeClosed(t: Forest, n: NodeId)
    requires Acyclic(t) && n in t
    ensures forall x :: x in t && t[x].parent.Some? ==>
              (InSubtree(t, n, x) <==> x == n || InSubtree(t, n, t[x].parent.value))
  {
    forall x | x in t && t[x].parent.Some?
      ensures InSubtree(t, n, x) <==> x == n || InSubtree(t, n, t[x].parent.value)
    {
      assert Chain(t, x) == [x] + Chain(t, t[x].parent.value);
    }
  }

  lemma SubtreeRemovedAcyclic(t: Forest, n: NodeId)
    requires Keyed(t) && Acyclic(t) && n in t
    ensures Keyed(SubtreeRemoved(t, n)) && Acyclic(SubtreeRemoved(t, n))
  {
    SubtreeClosed(t, n);
    AcyclicCongruence(t, SubtreeRemoved(t, n));
  }

  lemma PrunedTwoWay(t: Forest, u: Forest, n: NodeId, gone: set<NodeId>)
    requires TwoWay(t) && n in t && n in gone
    requires forall x :: x in t && t[x].parent.Some? ==>
               t[x].parent.value in t && (x in gone <==> x == n || t[x].parent.value in gone)
    requires u == map x | x in Unlisted(t, n) && x !in gone :: Unlisted(t, n)[x]
    ensures TwoWay(u)
  {
    if t[n].parent.Some? { WithoutNoDup(t[t[n].parent.value].children, n); }
    forall p, c | p in u && c in u[p].children ensures c in u && u[c].parent == Some(p) {
      assert c in t[p].children && c != n;
    }
  }

  // ---------- the operations, record by record ----------

  /** Everything but the records of these nodes is as before. */
  ghost predicate OnlyChanges(t: Forest, u: Forest, changed: set<NodeId>) {
    forall x :: x !in changed ==> (x in u <==> x in t) && (x in t ==> u[x] == t[x])
  }

  /** Attach hangs the node under the parent, last on its list unless it is there. */
  lemma AttachPlain(t: Forest, c: NodeId, p: NodeId)
    requires c in t && p in t && c != p
    ensures var u := Attached(t, c, p);
            && c in u && p in u && OnlyChanges(t, u, {c, p})
            && u[c] == t[c].(parent := Some(p))
            && u[p] == t[p].(children := if c in t[p].children then t[p].children else t[p].children + [c])
  {
  }

  /** Detach makes the node a root and drops it from its parent's list. */
  lemma DetachPlain(t: Forest, c: NodeId)
    requires c in t && (t[c].parent.Some? ==> t[c].parent.value in t && t[c].parent.value != c)
    ensures var u := Detached(t, c);
            && c in u && u[c] == t[c].(parent := None)
            && OnlyChanges(t, u, if t[c].parent.Some? then {c, t[c].parent.value} else {c})
    ensures t[c].parent.Some? ==>
              var u, p := Detached(t, c), t[c].parent.value;
              p in u && u[p] == t[p].(children := Without(t[p].children, c))
  {
  }

  /** Insert hangs the node under the parent and puts it in its place. */
  lemma InsertPlain(t: Forest, p: NodeId, c: NodeId, position: Option<int>)
    requires c in t && p in t && c != p
    ensures var u := Inserted(t, p, c, position);
            && c in u && p in u && OnlyChanges(t, u, {c, p})
            && u[c] == t[c].(parent := Some(p)) && SameButChildren(u[p], t[p])
            && (position.None? && c !in t[p].children ==> u[p].children == t[p].children + [c])
            && (position.Some? ==> Lands(u[p].children, Without(t[p].children, c), c, position.value))
  {
    AttachPlain(t, c, p);
    var list := Attached(t, c, p)[p].children;
    if c !in t[p].children { WithoutConcat(t[p].children, [c], c); }
    assert Without([c], c) == [];
    assert Without(list, c) == Without(t[p].children, c);
    if position.Some? { PutAtLands(list, c, position.value); }
  }

  /** Remove drops the node and its listing. */
  lemma RemovePlain(t: Forest, c: NodeId)
    requires c in t && (t[c].parent.Some? ==> t[c].parent.value in t && t[c].parent.value != c)
    ensures var u := Removed(t, c);
            c !in u && OnlyChanges(t, u, if t[c].parent.Some? then {c, t[c].parent.value} else {c})
    ensures t[c].parent.Some? ==>
              var u, p := Removed(t, c), t[c].parent.value;
              p in u && u[p] == t[p].(children := Without(t[p].children, c))
  {
    DetachPlain(t, c);
  }

  /** A subtree goes as a whole: its nodes, and the listing of its top. */
  lemma SubtreeRemovedPlain(t: Forest, n: NodeId, x: NodeId)
    requires Acyclic(t) && n in t
    ensures x in SubtreeRemoved(t, n) <==> x in t && n !in Chain(t, x)
    ensures x in SubtreeRemoved(t, n) ==>
              SubtreeRemoved(t, n)[x] ==
                if t[n].parent == Some(x) then t[x].(children := Without(t[x].children, n)) else t[x]
  {
    assert Unlisted(t, n).Keys == t.Keys;
  }

  // ---------- the class ----------

  function Ids(nodes: seq<Node>): (ids: seq<NodeId>)
    ensures |ids| == |nodes| && forall i :: 0 <= i < |nodes| ==> ids[i] == nodes[i].id
  {
    seq(|nodes|, i requires 0 <= i < |nodes| => nodes[i].id)
  }

  lemma IdsConcat(a: seq<Node>, b: seq<Node>)
    ensures Ids(a + b) == Ids(a) + Ids(b)
  {
  }

  /** Every listed node is the forest's own record of its id. */
  ghost predicate Current(t: Forest, nodes: seq<Node>) {
    forall i :: 0 <= i < |nodes| ==> nodes[i].id in t && nodes[i] == t[nodes[i].id]
  }

  /** An ordered dictionary of nodes: `order` is the insertion order of the keys. */
  class Tree {
    var nodes: map<NodeId, Node>
    var order: seq<NodeId>

    /** Parents resolve and parent pointers are acyclic; child lists may be anything. */
    ghost predicate Valid()
      reads this
    {
      && Keyed(nodes) && Acyclic(nodes)
      && NoDup(order) && (forall x :: x in order <==> x in nodes)
    }

    constructor ()
      ensures Valid() && nodes == map[] && order == []
    {
      nodes := map[];
      order := [];
      new;
      assert Ranked(nodes, map[]);
    }

    function AllNodes(): seq<Node>
      requires Valid()
      reads this
    {
      var t, ids := nodes, order;
      seq(|ids|, i requires 0 <= i < |ids| && ids[i] in t => t[ids[i]])
    }

    /** The children in list order; fails when a listed child is absent. */
    method ChildrenOf(nodeId: NodeId) returns (r: Result<seq<Node>>)
      requires Valid()
      ensures r.Ok? <==> nodeId in nodes && forall c :: c in nodes[nodeId].children ==> c in nodes
      ensures r.Ok? ==> Ids(r.value) == nodes[nodeId].children
    {
      if nodeId !in nodes { return Err(NodeNotFound(nodeId)); }
      var ids := nodes[nodeId].children;
      var children: seq<Node> := [];
      for i := 0 to |ids|
        invariant forall c :: c in ids[..i] ==> c in nodes
        invariant Ids(children) == ids[..i]
      {
        if ids[i] !in nodes { return Err(NodeNotFound(ids[i])); }
        children := children + [nodes[ids[i]]];
        assert ids[..i + 1] == ids[..i] + [ids[i]];
      }
      assert ids[..|ids|] == ids;
      return Ok(children);
    }

    /** One round of the walk: the present nodes of a frontier and their child lists. */
    method VisitLevel(frontier: seq<NodeId>) returns (found: seq<Node>, nextFrontier: seq<NodeId>)
      requires Valid()
      ensures Ids(found) == Present(nodes, frontier) && Current(nodes, found)
      ensures nextFrontier == Kids(nodes, Present(nodes, frontier))
    {
      found, nextFrontier := [], [];
      for i := 0 to |frontier|
        invariant Ids(found) == Present(nodes, frontier[..i]) && Current(nodes, found)
        invariant nextFrontier == Kids(nodes, Present(nodes, frontier[..i]))
      {
        var cid := frontier[i];
        FrontierStep(nodes, frontier, i);
        if cid in nodes {
          IdsConcat(found, [nodes[cid]]);
          assert Ids([nodes[cid]]) == [cid];
          found := found + [nodes[cid]];
          nextFrontier := nextFrontier + nodes[cid].children;
        }
      }
      assert frontier[..|frontier|] == frontier;
    }

    /** The node and everything found below it, level by level. There is no
        visited set, so the loop needs child lists without loops below the node. */
    method Subtree(nodeId: NodeId) returns (r: Result<seq<Node>>)
      requires Valid()
      requires nodeId in nodes ==> LoopFree(nodes, nodeId)
      ensures nodeId !in nodes ==> r == Err(NodeNotFound(nodeId))
      ensures nodeId in nodes ==> r.Ok? && WalkEnds(nodes, nodeId) && Ids(r.value) == WalkIds(nodes, nodeId)
      ensures r.Ok? ==> Current(nodes, r.value)
    {
      if nodeId !in nodes { return Err(NodeNotFound(nodeId)); }
      var out := [nodes[nodeId]];
      var frontier := nodes[nodeId].children;
      ghost var t := nodes;
      WalkEndsIff(t, nodeId);
      ghost var last: nat :| Level(t, nodeId, last) == [];
      ghost var k, visited := 0, [nodeId];
      WalkStart(t, nodeId);
      while frontier != []
        invariant k <= last && WalkAt(t, nodeId, k, frontier, visited)
        invariant Ids(out) == visited && Current(t, out)
        decreases last - k
      {
        WalkOver(t, nodeId, last, k, frontier, visited);
        var found, nextFrontier := VisitLevel(frontier);
        WalkOn(t, nodeId, k, frontier, visited);
        IdsConcat(out, found);
        out, visited := out + found, visited + Ids(found);
        frontier, k := nextFrontier, k + 1;
      }
      WalkDone(t, nodeId, k, visited);
      return Ok(out);
    }

    method Add(node: Node) returns (r: Result<()>)
      requires Valid()
      modifies this
      ensures Valid()
      ensures r.Ok? <==> node.id !in old(nodes) && (node.parent.Some? ==> node.parent.value in old(nodes))
      ensures r.Ok? ==> nodes == Added(old(nodes), node) && order == old(order) + [node.id]
      ensures r.Err? ==> nodes == old(nodes) && order == old(order)
    {
      if node.id in nodes { return Err(DuplicateNodeId(node.id)); }
      if node.parent.Some? && node.parent.value !in nodes { return Err(InvalidParent); }
      AddAcyclic(nodes, node);
      nodes := nodes[node.id := node];
      order := order + [node.id];
      return Ok(());
    }

    /** Hangs the node under the parent and lists it last, unless that would
        make the node its own ancestor. */
    method Attach(nodeId: NodeId, parentId: NodeId) returns (r: Result<()>)
      requires Valid()
      modifies this
      ensures Valid() && order == old(order)
      ensures r == if nodeId !in old(nodes) then Err(NodeNotFound(nodeId))
                   else if parentId !in old(nodes) then Err(InvalidParent)
                   else if InSubtree(old(nodes), nodeId, parentId) then Err(TreeCycle(nodeId))
                   else Ok(())
      ensures nodes == if r.Ok? then Attached(old(nodes), nodeId, parentId) else old(nodes)
    {
      if nodeId !in nodes { return Err(NodeNotFound(nodeId)); }
      var node := nodes[nodeId];
      if parentId !in nodes { return Err(InvalidParent); }
      var parent := nodes[parentId];
      var safe := AssertNoCycle(nodeId, parentId);
      if !safe { return Err(TreeCycle(nodeId)); }
      ReparentAcyclic(nodes, Attached(nodes, nodeId, parentId), nodeId, Some(parentId));
      nodes := nodes[nodeId := node.(parent := Some(parentId))];
      if nodeId !in parent.children {
        nodes := nodes[parentId := parent.(children := parent.children + [nodeId])];
      }
      assert nodes == Attached(old(nodes), nodeId, parentId);
      return Ok(());
    }

    method Detach(nodeId: NodeId) returns (r: Result<()>)
      requires Valid()
      modifies this
      ensures Valid() && order == old(order)
      ensures r == if nodeId in old(nodes) then Ok(()) else Err(NodeNotFound(nodeId))
      ensures nodes == if r.Ok? then Detached(old(nodes), nodeId) else old(nodes)
    {
      if nodeId !in nodes { return Err(NodeNotFound(nodeId)); }
      ReparentAcyclic(nodes, Detached(nodes, nodeId), nodeId, None);
      var node := nodes[nodeId];
      if node.parent.Some? {
        var parent := nodes[node.parent.value];
        nodes := nodes[node.parent.value := parent.(children := Without(parent.children, nodeId))];
      }
      nodes := nodes[nodeId := node.(parent := None)];
      return Ok(());
    }

    method InsertChild(parentId: NodeId, childId: NodeId, position: Option<int>) returns (r: Result<()>)
      requires Valid()
      modifies this
      ensures Valid() && order == old(order)
      ensures r == if childId !in old(nodes) then Err(NodeNotFound(childId))
                   else if parentId !in old(nodes) then Err(InvalidParent)
                   else if InSubtree(old(nodes), childId, parentId) then Err(TreeCycle(childId))
                   else Ok(())
      ensures nodes == if r.Ok? then Inserted(old(nodes), parentId, childId, position) else old(nodes)
    {
      r := Attach(childId, parentId);
      if r.Ok? && position.Some? {
        r := MoveChild(parentId, childId, position.value);
      }
    }

    method MoveChild(parentId: NodeId, childId: NodeId, position: int) returns (r: Result<()>)
      requires Valid()
      modifies this
      ensures Valid() && order == old(order)
      ensures r == if parentId !in old(nodes) then Err(NodeNotFound(parentId))
                   else if childId !in old(nodes)[parentId].children then Err(InvalidParent)
                   else Ok(())
      ensures nodes == if r.Ok? then Repositioned(old(nodes), parentId, childId, position) else old(nodes)
      ensures r.Ok? ==> nodes.Keys == old(nodes).Keys && OnlyChanges(old(nodes), nodes, {parentId})
      ensures r.Ok? ==> SameButChildren(nodes[parentId], old(nodes)[parentId])
      ensures r.Ok? ==>
                Lands(nodes[parentId].children, Without(old(nodes)[parentId].children, childId), childId, position)
    {
      if parentId !in nodes { return Err(NodeNotFound(parentId)); }
      var parent := nodes[parentId];
      if childId !in parent.children { return Err(InvalidParent); }
      var children := Without(parent.children, childId);
      var at := if position < |children| then position else |children|;
      at := if 0 < at then at else 0;
      children := children[..at] + [childId] + children[at..];
      AcyclicCongruence(nodes, SetChildren(nodes, parentId, children));
      PutAtLands(parent.children, childId, position);
      nodes := nodes[parentId := parent.(children := children)];
      return Ok(());
    }

    /** Deletes one node. Callers are asked to remove its descendants first; this
        is not looked at, and the tree stays valid exactly when they did. */
    method Remove(nodeId: NodeId) returns (r: Result<()>)
      requires Valid()
      modifies this
      ensures Valid() <==> nodeId !in old(nodes) || Leaf(old(nodes), nodeId)
      ensures r == if nodeId in old(nodes) then Ok(()) else Err(NodeNotFound(nodeId))
      ensures nodes == if r.Ok? then Removed(old(nodes), nodeId) else old(nodes)
      ensures order == if r.Ok? then Without(old(order), nodeId) else old(order)
    {
      r := Detach(nodeId);
      if r.Err? { return; }
      RemoveAcyclicIff(old(nodes), nodeId);
      WithoutNoDup(order, nodeId);
      nodes := nodes - {nodeId};
      order := Without(order, nodeId);
    }

    method ReplaceChildren(nodeId: NodeId, children: seq<NodeId>) returns (r: Result<()>)
      requires Valid()
      modifies this
      ensures Valid() && order == old(order)
      ensures r == if nodeId in old(nodes) then Ok(()) else Err(NodeNotFound(nodeId))
      ensures nodes == if r.Ok? then SetChildren(old(nodes), nodeId, children) else old(nodes)
    {
      if nodeId !in nodes { return Err(NodeNotFound(nodeId)); }
      AcyclicCongruence(nodes, SetChildren(nodes, nodeId, children));
      nodes := nodes[nodeId := nodes[nodeId].(children := children)];
      return Ok(());
    }

    /** Walks up from the new parent; false when the node itself is met. */
    method AssertNoCycle(nodeId: NodeId, newParentId: NodeId) returns (safe: bool)
      requires Valid() && newParentId in nodes
      ensures safe <==> !InSubtree(nodes, nodeId, newParentId)
    {
      if nodeId == newParentId { return false; }
      ghost var t := nodes;
      ghost var chain := Chain(t, newParentId);
      ghost var i := 0;
      ChainNoDup(t, newParentId);
      var cursor := Some(newParentId);
      var seen: set<NodeId> := {};
      while cursor.Some?
        invariant 0 <= i <= |chain|
        invariant cursor == if i < |chain| then Some(chain[i]) else None
        invariant forall y :: y in seen <==> y in chain[..i]
        invariant nodeId !in chain[..i]
        decreases |chain| - i
      {
        if cursor.value == nodeId { return false; }
        if cursor.value in seen { break; }
        seen := seen + {cursor.value};
        ParentInChain(t, newParentId, i);
        assert chain[..i + 1] == chain[..i] + [chain[i]];
        cursor := nodes[cursor.value].parent;
        i := i + 1;
      }
      assert chain[..|chain|] == chain;
      return true;
    }
  }
}
