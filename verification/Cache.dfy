/** The runtime cache: a dictionary of nodes beside a snapshot tree that never changes. */
module Caches {
  import opened Domain
  import opened Seqs
  import opened Forests
  import opened Walks
  import opened Trees

  class InMemoryWorkspaceCache {
    var tree: Tree?
    var nodes: map<NodeId, Node>
    var loaded: bool
    var dirty: bool

    ghost predicate Valid()
      reads this, tree
    {
      && loaded == (tree != null) && dirty == !loaded
      && (loaded ==> tree.Valid())
      && (!loaded ==> nodes == map[])
      && (loaded ==> forall x :: x in nodes ==> x in tree.nodes && nodes[x] == tree.nodes[x])
    }

    /** The frozen snapshot. */
    ghost function Snapshot(): Forest
      requires Valid() && loaded
      reads this, tree
    {
      tree.nodes
    }

    constructor ()
      ensures Valid() && !loaded
    {
      tree := null;
      nodes := map[];
      loaded := false;
      dirty := true;
    }

    /** Loads the tree once; a second call does nothing. */
    method Populate(t: Tree)
      requires Valid() && t.Valid()
      modifies this
      ensures Valid() && loaded
      ensures old(loaded) ==> nodes == old(nodes) && tree == old(tree)
      ensures !old(loaded) ==> nodes == t.nodes && tree == t
    {
      if loaded { return; }
      nodes := t.nodes;
      tree := t;
      loaded := true;
      dirty := false;
    }

    /** None stands for `CacheNotInitializedError` and `CacheConsistencyError`. */
    method LoadNode(nodeId: NodeId) returns (r: Option<Node>)
      requires Valid()
      ensures r == if loaded && nodeId in nodes then Some(nodes[nodeId]) else None
    {
      if !loaded || nodeId !in nodes { return None; }
      return Some(nodes[nodeId]);
    }

    method Invalidate(nodeId: NodeId)
      requires Valid()
      modifies this
      ensures Valid() && loaded == old(loaded) && tree == old(tree)
      ensures nodes == old(nodes) - {nodeId}
    {
      nodes := nodes - {nodeId};
    }

    method InvalidateMany(nodeIds: seq<NodeId>)
      requires Valid()
      modifies this
      ensures Valid() && loaded == old(loaded) && tree == old(tree)
      ensures nodes == old(nodes) - ToSet(nodeIds)
    {
      for i := 0 to |nodeIds|
        invariant Valid() && loaded == old(loaded) && tree == old(tree)
        invariant nodes == old(nodes) - ToSet(nodeIds[..i])
      {
        assert nodeIds[..i + 1] == nodeIds[..i] + [nodeIds[i]];
        if nodeIds[i] in nodes {
          nodes := nodes - {nodeIds[i]};
        }
      }
      assert nodeIds[..|nodeIds|] == nodeIds;
    }

    /** The root and everything below it in the snapshot; None when the cache is
        empty or the snapshot lacks the root. */
    method SubtreeIds(rootId: NodeId) returns (r: Option<seq<NodeId>>)
      requires Valid() && (loaded && rootId in Snapshot() ==> LoopFree(Snapshot(), rootId))
      ensures r.Some? <==> loaded && rootId in Snapshot()
      ensures r.Some? ==> WalkEnds(Snapshot(), rootId) && r.value == WalkIds(Snapshot(), rootId)
    {
      if !loaded { return None; }
      var nodes := tree.Subtree(rootId);
      if nodes.Err? { return None; }
      return Some(Ids(nodes.value));
    }

    method Clear()
      requires Valid()
      modifies this
      ensures Valid() && !loaded
    {
      tree := null;
      nodes := map[];
      loaded := false;
      dirty := true;
    }
  }
}
