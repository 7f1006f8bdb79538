/** The incremental index synchroniser: hooks that update rows and count their own failures. */
module Sync {
  import opened Domain
  import opened Seqs
  import opened Forests
  import opened Walks
  import opened Trees
  import opened Index

  /** What a hook meets: the paths that can be looked up, how many upserts go
      through, which deletes fail, and the time. */
  datatype Env = Env(paths: map<NodeId, string>, upserts: nat, badDeletes: set<NodeId>, now: Time)

  /** Rows and failure count. */
  datatype SyncState = SyncState(rows: Records, stale: nat)
  {
    function Failed(): SyncState { this.(stale := stale + 1) }
  }

  // ---------- the hooks, as functions; `tree` is None when the provider fails ----------

  ghost function CreateHook(s: SyncState, tree: Option<Forest>, node: Node, env: Env): SyncState
    requires tree.Some? ==> Acyclic(tree.value)
  {
    if node.id !in env.paths || tree.None? || env.upserts == 0 then s.Failed()
    else s.(rows := Upserted(s.rows, ProjectedFrom(tree.value, node, env.paths[node.id], env.now), env.now))
  }

  /** An absent row is not a failure. */
  ghost function RenameHook(s: SyncState, tree: Option<Forest>, x: NodeId, title: string, env: Env): SyncState {
    if x !in s.rows then s
    else if tree.None? || x !in tree.value || env.upserts == 0 then s.Failed()
    else s.(rows := Upserted(s.rows, s.rows[x].(title := title, updatedAt := env.now), env.now))
  }

  ghost function Projections(t: Forest, ids: seq<NodeId>, env: Env): (records: seq<IndexRecord>)
    requires Acyclic(t) && forall x :: x in ids ==> x in t && x in env.paths
    ensures |records| == |ids|
    ensures forall i :: 0 <= i < |ids| ==> records[i] == ProjectNode(t, ids[i], env.paths[ids[i]], env.now)
  {
    seq(|ids|, i requires 0 <= i < |ids| && ids[i] in t && ids[i] in env.paths =>
      ProjectNode(t, ids[i], env.paths[ids[i]], env.now))
  }

  /** Parents resolve and the walk below x, if x is there, comes to an end. */
  ghost predicate Walkable(t: Forest, x: NodeId) {
    Acyclic(t) && (x in t ==> LoopFree(t, x))
  }

  /** All paths are looked up first; then rows are written in walk order, as far
      as the index lets them. */
  ghost function MoveHook(s: SyncState, tree: Option<Forest>, x: NodeId, env: Env): SyncState
    requires tree.Some? ==> Walkable(tree.value, x)
  {
    if tree.None? || x !in tree.value then s.Failed() else
    var t := tree.value;
    WalkPresent(t, x);
    var ids := WalkIds(t, x);
    if exists y :: y in ids && y !in env.paths then s.Failed() else
    var records := Projections(t, ids, env);
    if env.upserts < |records|
    then SyncState(UpsertedAll(s.rows, records[..env.upserts], env.now), s.stale + 1)
    else s.(rows := UpsertedAll(s.rows, records, env.now))
  }

  /** The move hook, case by case. */
  lemma MoveHookCases(s: SyncState, t: Forest, x: NodeId, env: Env)
    requires Walkable(t, x) && x in t
    ensures WalkEnds(t, x) && forall y :: y in WalkIds(t, x) ==> y in t
    ensures var ids, r := WalkIds(t, x), MoveHook(s, Some(t), x, env);
            if exists y :: y in ids && y !in env.paths then r == s.Failed()
            else if env.upserts < |ids| then
              r == SyncState(UpsertedAll(s.rows, Projections(t, ids, env)[..env.upserts], env.now), s.stale + 1)
            else r == SyncState(UpsertedAll(s.rows, Projections(t, ids, env), env.now), s.stale)
  {
    WalkPresent(t, x);
  }

  ghost function DeleteHook(s: SyncState, x: NodeId, env: Env): SyncState {
    if x in env.badDeletes then s.Failed() else s.(rows := s.rows - {x})
  }

  ghost function DeleteHooks(s: SyncState, ids: seq<NodeId>, env: Env): SyncState {
    if ids == [] then s else DeleteHook(DeleteHooks(s, ids[..|ids| - 1], env), ids[|ids| - 1], env)
  }

  // ---------- staleness is sound ----------

  /** While no failure is recorded the index agrees with the tree. */
  ghost predicate InSync(s: SyncState, t: Forest)
    requires Acyclic(t)
  {
    s.stale == 0 ==> Agrees(s.rows, t)
  }

  ghost predicate PathsInSync(s: SyncState, paths: map<NodeId, string>) {
    s.stale == 0 ==> PathsAgree(s.rows, paths)
  }

  /** The row of x can stay as it is. */
  ghost predicate SameRow(t: Forest, u: Forest, x: NodeId)
    requires Acyclic(t) && Acyclic(u) && x in t
  {
    && x in u && u[x].parent == t[x].parent && u[x].title == t[x].title
    && u[x].kind == t[x].kind && Root(u, x) == Root(t, x)
  }

  /** Rows of nodes outside `touched` can stay as they are. */
  ghost predicate SameRows(t: Forest, u: Forest, touched: set<NodeId>)
    requires Acyclic(t) && Acyclic(u)
  {
    forall x {:trigger SameRow(t, u, x)} :: x in t && x !in touched ==> SameRow(t, u, x)
  }

  lemma RowStays(t: Forest, u: Forest, x: NodeId, row: IndexRecord)
    requires Acyclic(t) && Acyclic(u) && x in t && RowAgrees(t, x, row) && SameRow(t, u, x)
    ensures x in u && RowAgrees(u, x, row)
  {
    RowAgreesIff(t, x, row);
    RowAgreesIff(u, x, row);
  }

  lemma RowKept(rows: Records, t: Forest, u: Forest, touched: set<NodeId>, x: NodeId)
    requires Acyclic(t) && Acyclic(u) && Agrees(rows, t) && SameRows(t, u, touched)
    requires x in t && x !in touched
    ensures x in u && x in rows && RowAgrees(u, x, rows[x])
  {
    assert RowAgrees(t, x, rows[x]) && SameRow(t, u, x);
    RowStays(t, u, x, rows[x]);
  }

  /** Times do not matter for agreement. */
  lemma StoredAgrees(rows: Records, t: Forest, row: IndexRecord, now: Time)
    requires Acyclic(t) && row.nodeId in t && RowAgrees(t, row.nodeId, row)
    ensures RowAgrees(t, row.nodeId, Stored(rows, row, now))
  {
  }

  /** Rewriting one row with its projection on the new tree. */
  lemma UpsertAgrees(rows: Records, t: Forest, u: Forest, row: IndexRecord, now: Time)
    requires Acyclic(t) && Acyclic(u) && Agrees(rows, t) && SameRows(t, u, {row.nodeId})
    requires u.Keys == t.Keys + {row.nodeId} && RowAgrees(u, row.nodeId, row)
    ensures Agrees(Upserted(rows, row, now), u)
  {
    var r := Upserted(rows, row, now);
    assert r.Keys == u.Keys;
    StoredAgrees(rows, u, row, now);
    forall x | x in u ensures RowAgrees(u, x, r[x]) {
      if x != row.nodeId { RowKept(rows, t, u, {row.nodeId}, x); }
    }
  }

  /** The rows after writing the projections of some nodes: those nodes agree,
      the others keep their rows. */
  ghost predicate Rewritten(rows: Records, after: Records, t: Forest, ids: seq<NodeId>, env: Env)
    requires Acyclic(t) && forall x :: x in ids ==> x in t && x in env.paths
  {
    && after.Keys == rows.Keys + ToSet(ids)
    && (forall x :: x in rows && x !in ids ==> after[x] == rows[x])
    && (forall x :: x in ids ==> RowWritten(rows, t, x, env.paths[x], env.now, after[x]))
  }

  lemma {:induction false} ProjectionsWritten(rows: Records, t: Forest, ids: seq<NodeId>, env: Env)
    requires Acyclic(t) && forall x :: x in ids ==> x in t && x in env.paths
    ensures Rewritten(rows, UpsertedAll(rows, Projections(t, ids, env), env.now), t, ids, env)
  {
    if ids != [] {
      var k := |ids| - 1;
      var front := ids[..k];
      assert ids == front + [ids[k]];
      ProjectionsWritten(rows, t, front, env);
      ProjectionsLast(t, ids, env);
      RewrittenStep(rows, UpsertedAll(rows, Projections(t, front, env), env.now), t, front, ids[k], env);
    }
  }

  lemma ProjectionsLast(t: Forest, ids: seq<NodeId>, env: Env)
    requires Acyclic(t) && ids != [] && forall x :: x in ids ==> x in t && x in env.paths
    ensures var k, records := |ids| - 1, Projections(t, ids, env);
            && ids[k] in t && ids[k] in env.paths && (forall x :: x in ids[..k] ==> x in t && x in env.paths)
            && records[..k] == Projections(t, ids[..k], env)
            && records[k] == ProjectNode(t, ids[k], env.paths[ids[k]], env.now)
  {
    assert ids[|ids| - 1] in ids;
    assert forall x :: x in ids[..|ids| - 1] ==> x in ids;
  }

  lemma RewrittenStep(rows: Records, before: Records, t: Forest, ids: seq<NodeId>, x: NodeId, env: Env)
    requires Acyclic(t) && (forall y :: y in ids ==> y in t && y in env.paths) && x in t && x in env.paths
    requires Rewritten(rows, before, t, ids, env)
    ensures Rewritten(rows, Upserted(before, ProjectNode(t, x, env.paths[x], env.now), env.now), t, ids + [x], env)
  {
    assert ToSet(ids + [x]) == ToSet(ids) + {x};
    var row := ProjectNode(t, x, env.paths[x], env.now);
    ProjectionStored(before, t, x, env.paths[x], env.now);
    assert RowWritten(rows, t, x, env.paths[x], env.now, Stored(before, row, env.now));
  }

  // ---------- what each hook does to the rows ----------

  /** A creation writes one row, or counts one failure and writes nothing. */
  lemma CreateHookPlain(s: SyncState, tree: Option<Forest>, node: Node, env: Env) returns (r: SyncState)
    requires tree.Some? ==> Acyclic(tree.value)
    ensures r == CreateHook(s, tree, node, env)
    ensures node.id !in env.paths || tree.None? || env.upserts == 0 ==> r.rows == s.rows && r.stale == s.stale + 1
    ensures node.id in env.paths && tree.Some? && env.upserts > 0 ==>
              && r.stale == s.stale && r.rows.Keys == s.rows.Keys + {node.id}
              && (forall y :: y in s.rows && y != node.id ==> r.rows[y] == s.rows[y])
    ensures node.id in env.paths && tree.Some? && env.upserts > 0 ==>
              var row := r.rows[node.id];
              && Describes(tree.value, node, row) && row.path == env.paths[node.id] && row.searchText == ""
              && row.updatedAt == env.now
              && row.createdAt == if node.id in s.rows then s.rows[node.id].createdAt else env.now
  {
    r := CreateHook(s, tree, node, env);
    if node.id in env.paths && tree.Some? { ProjectedPlain(tree.value, node, env.paths[node.id], env.now); }
  }

  /** A rename changes the title and the time of one row; it does nothing without
      that row, and counts a failure if the tree or the index refuses. */
  lemma RenameHookPlain(s: SyncState, tree: Option<Forest>, x: NodeId, title: string, env: Env) returns (r: SyncState)
    ensures r == RenameHook(s, tree, x, title, env)
    ensures x !in s.rows ==> r == s
    ensures x in s.rows && (tree.None? || x !in tree.value || env.upserts == 0) ==>
              r.rows == s.rows && r.stale == s.stale + 1
    ensures x in s.rows && s.rows[x].nodeId == x && tree.Some? && x in tree.value && env.upserts > 0 ==>
              && r.stale == s.stale
              && r.rows == s.rows[x := s.rows[x].(title := title, updatedAt := env.now)]
  {
    r := RenameHook(s, tree, x, title, env);
  }

  /** A move first needs a path for every node of the walk; then it writes their
      rows in walk order, as many as the index takes. */
  lemma MoveHookPlain(s: SyncState, t: Forest, x: NodeId, env: Env) returns (r: SyncState, done: seq<NodeId>)
    requires Walkable(t, x) && x in t
    ensures r == MoveHook(s, Some(t), x, env) && WalkEnds(t, x)
    ensures (exists y :: y in WalkIds(t, x) && y !in env.paths) ==> r.rows == s.rows && r.stale == s.stale + 1
    ensures (forall y :: y in WalkIds(t, x) ==> y in env.paths) ==>
              && done <= WalkIds(t, x) && |done| <= env.upserts && (forall y :: y in done ==> y in t && y in env.paths)
              && (if done == WalkIds(t, x) then r.stale == s.stale
                  else |done| == env.upserts && r.stale == s.stale + 1)
              && Rewritten(s.rows, r.rows, t, done, env)
  {
    MoveHookCases(s, t, x, env);
    var ids := WalkIds(t, x);
    r, done := MoveHook(s, Some(t), x, env), ids;
    if forall y :: y in ids ==> y in env.paths {
      if env.upserts < |ids| {
        done := ids[..env.upserts];
        assert Projections(t, ids, env)[..env.upserts] == Projections(t, done, env);
      }
      ProjectionsWritten(s.rows, t, done, env);
    }
  }

  /** A deletion drops one row, or counts one failure and drops nothing. */
  lemma DeleteHookPlain(s: SyncState, x: NodeId, env: Env) returns (r: SyncState)
    ensures r == DeleteHook(s, x, env)
    ensures x in env.badDeletes ==> r.rows == s.rows && r.stale == s.stale + 1
    ensures x !in env.badDeletes ==>
              && r.rows.Keys == s.rows.Keys - {x} && (forall y :: y in r.rows ==> r.rows[y] == s.rows[y])
              && r.stale == s.stale
  {
    r := DeleteHook(s, x, env);
  }

  // ---------- each hook keeps the index in sync with the tree after the write ----------

  lemma CreateInSync(s: SyncState, t: Forest, u: Forest, node: Node, tree: Option<Forest>, env: Env)
    requires Acyclic(t) && Acyclic(u) && InSync(s, t) && SameRows(t, u, {node.id}) && u.Keys == t.Keys + {node.id}
    requires u[node.id] == node && (tree.Some? ==> tree.value == u)
    ensures InSync(CreateHook(s, tree, node, env), u)
  {
    var r := CreateHook(s, tree, node, env);
    if r.stale == 0 {
      OwnProjection(u, node, env.paths[node.id], env.now);
      ProjectionStored(s.rows, u, node.id, env.paths[node.id], env.now);
      UpsertAgrees(s.rows, t, u, ProjectNode(u, node.id, env.paths[node.id], env.now), env.now);
    }
  }

  lemma RenameInSync(s: SyncState, t: Forest, u: Forest, x: NodeId, title: string, tree: Option<Forest>, env: Env)
    requires Acyclic(t) && Acyclic(u) && InSync(s, t) && x in t
    requires SameRows(t, u, {x}) && u.Keys == t.Keys && Root(u, x) == Root(t, x)
    requires u[x].title == title && u[x].kind == t[x].kind && u[x].parent == t[x].parent
    requires tree.Some? ==> tree.value == u
    ensures InSync(RenameHook(s, tree, x, title, env), u)
  {
    var r := RenameHook(s, tree, x, title, env);
    if r.stale == 0 {
      var row := s.rows[x].(title := title, updatedAt := env.now);
      assert RowAgrees(t, x, s.rows[x]);
      RowAgreesIff(t, x, s.rows[x]);
      RowAgreesIff(u, x, row);
      UpsertAgrees(s.rows, t, u, row, env.now);
    }
  }

  lemma MoveInSync(s: SyncState, t: Forest, u: Forest, x: NodeId, tree: Option<Forest>, env: Env)
    requires Acyclic(t) && WellFormed(u) && InSync(s, t) && x in u && u.Keys == t.Keys
    requires SameRows(t, u, SubtreeOf(u, x))
    requires tree.Some? ==> tree.value == u
    ensures Walkable(u, x) && InSync(MoveHook(s, tree, x, env), u)
  {
    WellFormedLoopFree(u, x);
    if tree.Some? && MoveHook(s, tree, x, env).stale == 0 {
      WalkExact(u, x);
      var ids := WalkIds(u, x);
      MoveHookCases(s, u, x, env);
      ProjectionsWritten(s.rows, u, ids, env);
      MovedRowsAgree(s.rows, UpsertedAll(s.rows, Projections(u, ids, env), env.now), t, u, x, ids, env);
    }
  }

  lemma MovedRowsAgree(rows: Records, after: Records, t: Forest, u: Forest, x: NodeId, ids: seq<NodeId>, env: Env)
    requires Acyclic(t) && Acyclic(u) && Agrees(rows, t) && u.Keys == t.Keys
    requires forall y :: y in ids <==> y in u && InSubtree(u, x, y)
    requires forall y :: y in ids ==> y in env.paths
    requires SameRows(t, u, SubtreeOf(u, x))
    requires Rewritten(rows, after, u, ids, env)
    ensures Agrees(after, u)
  {
    assert after.Keys == u.Keys;
    forall y | y in u ensures RowAgrees(u, y, after[y]) {
      if y in ids { assert RowWritten(rows, u, y, env.paths[y], env.now, after[y]); }
      else { RowKept(rows, t, u, SubtreeOf(u, x), y); }
    }
  }

  lemma {:induction false} DeleteHooksExact(s: SyncState, ids: seq<NodeId>, env: Env)
    ensures DeleteHooks(s, ids, env).stale >= s.stale
    ensures DeleteHooks(s, ids, env).stale == 0 ==> DeleteHooks(s, ids, env).rows == s.rows - ToSet(ids)
  {
    if ids == [] {
      assert s.rows - ToSet(ids) == s.rows;
    } else {
      var k := |ids| - 1;
      DeleteHooksExact(s, ids[..k], env);
      assert ids == ids[..k] + [ids[k]];
      assert ToSet(ids) == ToSet(ids[..k]) + {ids[k]};
      assert s.rows - ToSet(ids[..k]) - {ids[k]} == s.rows - ToSet(ids);
    }
  }

  lemma DeleteInSync(s: SyncState, t: Forest, u: Forest, ids: seq<NodeId>, env: Env)
    requires Acyclic(t) && Acyclic(u) && InSync(s, t)
    requires u.Keys == t.Keys - ToSet(ids) && SameRows(t, u, ToSet(ids))
    ensures InSync(DeleteHooks(s, ids, env), u)
  {
    var r := DeleteHooks(s, ids, env);
    DeleteHooksExact(s, ids, env);
    if r.stale == 0 {
      forall y | y in u ensures RowAgrees(u, y, r.rows[y]) {
        RowKept(s.rows, t, u, ToSet(ids), y);
      }
    }
  }

  // ---------- the class ----------

  /** What a tree provider hands out: a tree, or nothing when it fails. */
  ghost function View(tree: Tree?): Option<Forest>
    reads tree
  {
    if tree == null then None else Some(tree.nodes)
  }

  class IncrementalIndexSynchronizer {
    const index: InMemoryIndexRepository
    var staleness: nat

    ghost function State(): SyncState
      reads this, index
    {
      SyncState(index.records, staleness)
    }

    constructor (repo: InMemoryIndexRepository)
      ensures index == repo && staleness == 0
    {
      index := repo;
      staleness := 0;
    }

    predicate IsStale()
      reads this
    {
      staleness > 0
    }

    method ClearStaleness()
      modifies this
      ensures staleness == 0
    {
      staleness := 0;
    }

    method OnNodeCreated(node: Node, tree: Tree?, env: Env)
      requires tree != null ==> tree.Valid()
      modifies this, index
      ensures State() == CreateHook(old(State()), View(tree), node, env)
    {
      var ok := DoCreate(node, tree, env);
      if !ok { staleness := staleness + 1; }
    }

    method OnNodeRenamed(nodeId: NodeId, newTitle: string, tree: Tree?, env: Env)
      modifies this, index
      ensures State() == RenameHook(old(State()), View(tree), nodeId, newTitle, env)
    {
      var ok := DoRename(nodeId, newTitle, tree, env);
      if !ok { staleness := staleness + 1; }
    }

    method OnNodeMoved(nodeId: NodeId, tree: Tree?, env: Env)
      requires tree != null ==> tree.Valid() && Walkable(tree.nodes, nodeId)
      modifies this, index
      ensures State() == MoveHook(old(State()), View(tree), nodeId, env)
      ensures tree == null || nodeId !in tree.nodes ==>
                index.records == old(index.records) && staleness == old(staleness) + 1
    {
      var ok := DoMove(nodeId, tree, env);
      if !ok { staleness := staleness + 1; }
    }

    method OnNodeDeleted(nodeId: NodeId, env: Env)
      modifies this, index
      ensures State() == DeleteHook(old(State()), nodeId, env)
    {
      if nodeId in env.badDeletes {
        staleness := staleness + 1;
      } else {
        var removed := index.Delete(nodeId);
      }
    }

    method DoCreate(node: Node, tree: Tree?, env: Env) returns (ok: bool)
      requires tree != null ==> tree.Valid()
      modifies index
      ensures ok <==> node.id in env.paths && tree != null && env.upserts > 0
      ensures index.records == if ok
        then Upserted(old(index.records), ProjectedFrom(tree.nodes, node, env.paths[node.id], env.now), env.now)
        else old(index.records)
    {
      if node.id !in env.paths { return false; }
      if tree == null { return false; }
      var record := ProjectRecord(tree, node, env.paths[node.id], env.now);
      if env.upserts == 0 { return false; }
      index.Upsert(record, env.now);
      return true;
    }

    method DoRename(nodeId: NodeId, newTitle: string, tree: Tree?, env: Env) returns (ok: bool)
      modifies index
      ensures SyncState(index.records, old(staleness) + if ok then 0 else 1)
           == RenameHook(old(State()), View(tree), nodeId, newTitle, env)
    {
      var existing := index.Get(nodeId);
      if existing.None? { return true; }
      if tree == null || nodeId !in tree.nodes { return false; }
      if env.upserts == 0 { return false; }
      index.Upsert(existing.value.(title := newTitle, updatedAt := env.now), env.now);
      return true;
    }

    method DoMove(nodeId: NodeId, tree: Tree?, env: Env) returns (ok: bool)
      requires tree != null ==> tree.Valid() && Walkable(tree.nodes, nodeId)
      modifies index
      ensures SyncState(index.records, old(staleness) + if ok then 0 else 1)
           == MoveHook(old(State()), View(tree), nodeId, env)
    {
      if tree == null { return false; }
      if nodeId in tree.nodes { MoveHookCases(State(), tree.nodes, nodeId, env); }
      var walked := tree.Subtree(nodeId);
      if walked.Err? { return false; }
      var located := HavePaths(walked.value, env);
      if !located { return false; }
      ok := UpsertNodes(tree, walked.value, env);
    }

    /** Every path is looked up before any row is written. */
    method HavePaths(nodes: seq<Node>, env: Env) returns (all: bool)
      ensures all <==> forall x :: x in Ids(nodes) ==> x in env.paths
    {
      for i := 0 to |nodes|
        invariant forall y :: y in Ids(nodes)[..i] ==> y in env.paths
      {
        PrefixStep(Ids(nodes), i);
        if nodes[i].id !in env.paths {
          assert Ids(nodes)[i] in Ids(nodes);
          return false;
        }
      }
      assert Ids(nodes)[..|nodes|] == Ids(nodes);
      return true;
    }

    /** Writes rows in order until the index refuses one. */
    method UpsertNodes(tree: Tree, nodes: seq<Node>, env: Env) returns (ok: bool)
      requires tree.Valid() && Current(tree.nodes, nodes)
      requires forall x :: x in Ids(nodes) ==> x in tree.nodes && x in env.paths
      modifies index
      ensures ok <==> |nodes| <= env.upserts
      ensures var records := Projections(tree.nodes, Ids(nodes), env);
              index.records == UpsertedAll(old(index.records), if ok then records else records[..env.upserts], env.now)
    {
      ghost var records := Projections(tree.nodes, Ids(nodes), env);
      for i := 0 to |nodes|
        invariant i <= env.upserts
        invariant index.records == UpsertedAll(old(index.records), records[..i], env.now)
      {
        if i == env.upserts { return false; }
        assert Ids(nodes)[i] in Ids(nodes);
        var record := ProjectRecord(tree, nodes[i], env.paths[nodes[i].id], env.now);
        assert record == records[i];
        UpsertedNext(old(index.records), records, i, env.now);
        index.Upsert(record, env.now);
      }
      assert records[..|records|] == records;
      return true;
    }
  }
}
