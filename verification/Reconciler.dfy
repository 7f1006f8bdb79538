/** The full rebuild of the index from the tree. */
module Reconciler {
  import opened Domain
  import opened Seqs
  import opened Order
  import opened Forests
  import opened Trees
  import opened Index
  import opened Sync

  /** What a rebuild meets: the paths that can be looked up, whether ids can be
      listed, whether the replacement goes through, and the time. */
  datatype RebuildEnv = RebuildEnv(paths: map<NodeId, string>, listOk: bool, replaceOk: bool, now: Time)

  datatype Report = Report(scanned: nat, inserted: nat, deleted: nat, errors: nat)
  {
    predicate IsSuccess() { errors == 0 }
  }

  // ---------- the outcome, as functions; `tree` is None when loading fails ----------

  /** The index a completed rebuild leaves: one row per node, old creation times kept. */
  ghost function RebuiltRows(rows: Records, t: Forest, env: RebuildEnv): Records
    requires Acyclic(t) && t.Keys <= env.paths.Keys
  {
    map x | x in t :: Stored(rows, ProjectNode(t, x, env.paths[x], env.now), env.now)
  }

  /** The rebuild gets as far as publishing rows. */
  ghost predicate Publishes(tree: Option<Forest>, env: RebuildEnv) {
    tree.Some? && tree.value.Keys <= env.paths.Keys && env.replaceOk
  }

  ghost function RowsAfter(rows: Records, tree: Option<Forest>, env: RebuildEnv): Records
    requires tree.Some? ==> Acyclic(tree.value)
  {
    if Publishes(tree, env) then RebuiltRows(rows, tree.value, env) else rows
  }

  /** The records built for some ids. */
  ghost predicate Projected(t: Forest, ids: seq<NodeId>, records: seq<IndexRecord>, env: RebuildEnv)
    requires Acyclic(t)
  {
    && |records| == |ids|
    && forall i :: 0 <= i < |ids| ==>
         ids[i] in t && ids[i] in env.paths && records[i] == ProjectNode(t, ids[i], env.paths[ids[i]], env.now)
  }

  ghost predicate RowsFor(rows: Records, t: Forest, ids: seq<NodeId>, env: RebuildEnv, after: Records)
    requires Acyclic(t) && forall x :: x in ids ==> x in t && x in env.paths
  {
    && after.Keys == ToSet(ids)
    && forall x :: x in ids ==> after[x] == Stored(rows, ProjectNode(t, x, env.paths[x], env.now), env.now)
  }

  lemma ProjectedIds(t: Forest, ids: seq<NodeId>, records: seq<IndexRecord>, env: RebuildEnv)
    requires Acyclic(t) && Projected(t, ids, records, env)
    ensures forall x :: x in ids ==> x in t && x in env.paths
  {
  }

  lemma {:induction false} ReplacedExact(rows: Records, t: Forest, ids: seq<NodeId>, records: seq<IndexRecord>,
                                         env: RebuildEnv)
    returns (after: Records)
    requires Acyclic(t) && Projected(t, ids, records, env)
    ensures forall x :: x in ids ==> x in t && x in env.paths
    ensures after == Replaced(rows, records, env.now) && RowsFor(rows, t, ids, env, after)
  {
    ProjectedIds(t, ids, records, env);
    if ids == [] {
      after := map[];
    } else {
      var k := |ids| - 1;
      var before := ReplacedExact(rows, t, ids[..k], records[..k], env);
      RowsForStep(rows, t, ids, env, before);
      assert records[k] == ProjectNode(t, ids[k], env.paths[ids[k]], env.now);
      after := before[ids[k] := Stored(rows, records[k], env.now)];
    }
  }

  lemma RowsForStep(rows: Records, t: Forest, ids: seq<NodeId>, env: RebuildEnv, before: Records)
    requires Acyclic(t) && ids != [] && forall x :: x in ids ==> x in t && x in env.paths
    requires RowsFor(rows, t, ids[..|ids| - 1], env, before)
    ensures var x := ids[|ids| - 1];
            var row := Stored(rows, ProjectNode(t, x, env.paths[x], env.now), env.now);
            x in ids && RowsFor(rows, t, ids, env, before[x := row])
  {
    var k := |ids| - 1;
    assert ids[k] in ids;
    PrefixStep(ids, k);
    assert ids[..k + 1] == ids;
    forall x | x in ids ensures x == ids[k] || x in ids[..k] {
    }
  }

  lemma ReplacedIsRebuilt(rows: Records, t: Forest, ids: seq<NodeId>, records: seq<IndexRecord>, env: RebuildEnv)
    requires Acyclic(t) && Projected(t, ids, records, env) && ToSet(ids) == t.Keys
    ensures t.Keys <= env.paths.Keys
    ensures Replaced(rows, records, env.now) == RebuiltRows(rows, t, env)
  {
    var after := ReplacedExact(rows, t, ids, records, env);
    forall x | x in t ensures x in ids {
      assert x in ToSet(ids);
    }
  }

  /** The ids whose path cannot be found. */
  ghost function Missing(ids: seq<NodeId>, env: RebuildEnv): set<NodeId> {
    set x | x in ids && x !in env.paths
  }

  /** In order, those whose path can be found. */
  ghost predicate Found(all: seq<NodeId>, ids: seq<NodeId>, env: RebuildEnv) {
    Sorted(ids) && NoDup(ids) && forall x :: x in ids <==> x in all && x in env.paths
  }

  /** Where the projection stands after some ids. */
  ghost predicate Scanned(t: Forest, done: seq<NodeId>, ids: seq<NodeId>, records: seq<IndexRecord>, lost: nat,
                          env: RebuildEnv)
    requires Acyclic(t)
  {
    lost == |Missing(done, env)| && Found(done, ids, env) && Projected(t, ids, records, env)
  }

  lemma ScanStep(t: Forest, sorted: seq<NodeId>, i: nat, ids: seq<NodeId>, records: seq<IndexRecord>, lost: nat,
                 env: RebuildEnv)
    requires Acyclic(t) && Sorted(sorted) && NoDup(sorted) && i < |sorted| && sorted[i] in t
    requires Scanned(t, sorted[..i], ids, records, lost, env)
    ensures sorted[i] !in env.paths ==> Scanned(t, sorted[..i + 1], ids, records, lost + 1, env)
    ensures var x := sorted[i];
            x in env.paths ==>
              Scanned(t, sorted[..i + 1], ids + [x], records + [ProjectNode(t, x, env.paths[x], env.now)], lost, env)
  {
    FoundStep(sorted, ids, i, env);
    if sorted[i] in env.paths { ProjectedMore(t, ids, records, sorted[i], env); }
  }

  lemma FoundStep(sorted: seq<NodeId>, ids: seq<NodeId>, i: nat, env: RebuildEnv)
    requires Sorted(sorted) && NoDup(sorted) && i < |sorted| && Found(sorted[..i], ids, env)
    ensures Found(sorted[..i + 1], if sorted[i] in env.paths then ids + [sorted[i]] else ids, env)
    ensures |Missing(sorted[..i + 1], env)| == |Missing(sorted[..i], env)| + if sorted[i] in env.paths then 0 else 1
  {
    var x := sorted[i];
    assert sorted[..i + 1] == sorted[..i] + [x];
    MissingStep(sorted[..i], x, env);
    if x in env.paths {
      forall y | y in ids ensures Less(y, x) && y != x {
        var j :| 0 <= j < i && sorted[j] == y;
      }
      AppendSorted(ids, x);
    }
  }

  lemma MissingStep(ids: seq<NodeId>, x: NodeId, env: RebuildEnv)
    requires x !in ids
    ensures |Missing(ids + [x], env)| == |Missing(ids, env)| + if x in env.paths then 0 else 1
  {
    assert Missing(ids + [x], env) == Missing(ids, env) + if x in env.paths then {} else {x};
  }

  lemma ScanDone(all: set<NodeId>, sorted: seq<NodeId>, ids: seq<NodeId>, env: RebuildEnv)
    requires Found(sorted, ids, env) && forall x :: x in sorted <==> x in all
    ensures Missing(sorted, env) == all - env.paths.Keys && ToSet(ids) == all * env.paths.Keys
    ensures |Missing(sorted, env)| == 0 <==> all <= env.paths.Keys
  {
    var gone := Missing(sorted, env);
    assert |gone| == 0 <==> gone == {};
    assert gone == all - env.paths.Keys;
    if gone == {} {
      forall x | x in all ensures x in env.paths.Keys {
        assert x !in all - env.paths.Keys;
      }
    }
  }

  lemma ProjectedMore(t: Forest, ids: seq<NodeId>, records: seq<IndexRecord>, x: NodeId, env: RebuildEnv)
    requires Acyclic(t) && Projected(t, ids, records, env) && x in t && x in env.paths
    ensures Projected(t, ids + [x], records + [ProjectNode(t, x, env.paths[x], env.now)], env)
  {
  }

  lemma AppendSorted(ids: seq<NodeId>, x: NodeId)
    requires Sorted(ids) && NoDup(ids) && forall y :: y in ids ==> Less(y, x) && y != x
    ensures Sorted(ids + [x]) && NoDup(ids + [x])
  {
    var r := ids + [x];
    forall i, j | 0 <= i < j < |r| ensures Less(r[i], r[j]) && r[i] != r[j] {
      assert r[i] == ids[i] && ids[i] in ids;
    }
  }

  class IndexReconciler {
    const index: InMemoryIndexRepository

    constructor (repo: InMemoryIndexRepository)
      ensures index == repo
    {
      index := repo;
    }

    /** One record per node in id order, and how many paths could not be found. */
    method ProjectTree(tree: Tree, env: RebuildEnv)
      returns (records: seq<IndexRecord>, lost: nat, ghost ids: seq<NodeId>)
      requires tree.Valid()
      ensures lost == |tree.nodes.Keys - env.paths.Keys|
      ensures lost == 0 <==> tree.nodes.Keys <= env.paths.Keys
      ensures Sorted(ids) && NoDup(ids) && ToSet(ids) == tree.nodes.Keys * env.paths.Keys
      ensures Projected(tree.nodes, ids, records, env)
    {
      var sorted := SortNames(set x | x in tree.nodes);
      ids, records, lost := [], [], 0;
      for i := 0 to |sorted|
        invariant Scanned(tree.nodes, sorted[..i], ids, records, lost, env)
      {
        var id := sorted[i];
        assert id in sorted;
        ScanStep(tree.nodes, sorted, i, ids, records, lost, env);
        if id !in env.paths {
          lost := lost + 1;
        } else {
          var record := ProjectRecord(tree, tree.nodes[id], env.paths[id], env.now);
          ids, records := ids + [id], records + [record];
        }
      }
      assert sorted[..|sorted|] == sorted;
      ScanDone(tree.nodes.Keys, sorted, ids, env);
    }

    /** Nothing is written unless every node was projected; then all rows are
        replaced at once. */
    method Rebuild(tree: Tree?, env: RebuildEnv) returns (report: Report)
      requires tree != null ==> tree.Valid()
      modifies index
      ensures index.records == RowsAfter(old(index.records), View(tree), env)
      ensures tree == null || !(tree.nodes.Keys <= env.paths.Keys) || !env.replaceOk ==>
                index.records == old(index.records)
      ensures report.IsSuccess() <==>
                tree != null && tree.nodes.Keys <= env.paths.Keys && env.listOk && env.replaceOk
      ensures Publishes(View(tree), env) ==> report.scanned == report.inserted == |tree.nodes|
      ensures !Publishes(View(tree), env) ==> report.inserted == report.deleted == 0
      ensures Publishes(View(tree), env) ==>
                report.deleted == if env.listOk then |old(index.records).Keys - tree.nodes.Keys| else 0
    {
      if tree == null { return Report(0, 0, 0, 1); }
      var errors := 0;
      var records, lost, ids := ProjectTree(tree, env);
      if lost > 0 { return Report(|records|, 0, 0, lost); }
      var preIds: set<NodeId> := {};
      if env.listOk {
        preIds := set x | x in index.records;
        assert preIds == index.records.Keys;
      } else {
        errors := errors + 1;
      }
      if !env.replaceOk { return Report(|records|, 0, 0, errors + 1); }
      ReplacedIsRebuilt(index.records, tree.nodes, ids, records, env);
      assert RowsAfter(index.records, View(tree), env) == Replaced(index.records, records, env.now);
      NoDupSize(ids);
      var inserted := index.ReplaceAll(records, env.now);
      assert |index.records| == |tree.nodes| by {
        assert index.records.Keys == tree.nodes.Keys;
        KeysSize(index.records);
        KeysSize(tree.nodes);
      }
      var gone := preIds - (set x | x in tree.nodes);
      assert gone == preIds - tree.nodes.Keys;
      return Report(|records|, inserted, |gone|, errors);
    }
  }

  lemma KeysSize<V>(m: map<NodeId, V>)
    ensures |m| == |m.Keys|
  {
  }

  // ---------- what a rebuild gives ----------

  lemma RebuiltRow(rows: Records, t: Forest, env: RebuildEnv, x: NodeId)
    requires Acyclic(t) && t.Keys <= env.paths.Keys && x in t
    ensures var after := RebuiltRows(rows, t, env);
            x in after && RowWritten(rows, t, x, env.paths[x], env.now, after[x])
  {
    assert RebuiltRows(rows, t, env)[x] == Stored(rows, ProjectNode(t, x, env.paths[x], env.now), env.now);
    ProjectionStored(rows, t, x, env.paths[x], env.now);
  }

  lemma RowsTogether(rows: Records, t: Forest, env: RebuildEnv, after: Records)
    requires Acyclic(t) && t.Keys <= env.paths.Keys && after.Keys == t.Keys
    requires forall x :: x in t ==> RowWritten(rows, t, x, env.paths[x], env.now, after[x])
    ensures Agrees(after, t) && PathsAgree(after, env.paths)
    ensures forall x :: x in after && x in rows ==> after[x].createdAt == rows[x].createdAt
    ensures forall x :: x in after && x !in rows ==> after[x].createdAt == env.now
    ensures forall x :: x in after ==> after[x].updatedAt == env.now && after[x].searchText == ""
  {
  }

  /** A published rebuild agrees with the tree on every field, keeps the creation
      time of every surviving row, and does not depend on how the tree is listed. */
  lemma RebuildExact(rows: Records, t: Forest, env: RebuildEnv) returns (after: Records)
    requires Acyclic(t) && Publishes(Some(t), env)
    ensures after == RowsAfter(rows, Some(t), env)
    ensures Agrees(after, t) && PathsAgree(after, env.paths)
    ensures forall x :: x in after && x in rows ==> after[x].createdAt == rows[x].createdAt
    ensures forall x :: x in after && x !in rows ==> after[x].createdAt == env.now
    ensures forall x :: x in after ==> after[x].updatedAt == env.now && after[x].searchText == ""
  {
    after := RowsAfter(rows, Some(t), env);
    assert after.Keys == t.Keys;
    forall x | x in t ensures RowWritten(rows, t, x, env.paths[x], env.now, after[x]) {
      RebuiltRow(rows, t, env, x);
    }
    RowsTogether(rows, t, env, after);
  }

  /** Rebuilding again from the same tree changes nothing but update times. */
  lemma RebuildIdempotent(rows: Records, t: Forest, env: RebuildEnv, again: RebuildEnv)
    requires Acyclic(t) && Publishes(Some(t), env) && Publishes(Some(t), again) && again.paths == env.paths
    ensures var once := RowsAfter(rows, Some(t), env);
            var twice := RowsAfter(once, Some(t), again);
            && twice.Keys == once.Keys
            && forall x :: x in once ==> twice[x] == once[x].(updatedAt := again.now)
  {
  }

  /** The row already is what publishing would make it. */
  ghost predicate RowUpToDate(t: Forest, x: NodeId, row: IndexRecord, env: RebuildEnv)
    requires Acyclic(t) && x in t && x in env.paths
  {
    RowAgrees(t, x, row) && row.path == env.paths[x] && row.updatedAt == env.now && row.searchText == ""
  }

  ghost predicate UpToDate(rows: Records, t: Forest, env: RebuildEnv)
    requires Acyclic(t) && t.Keys <= env.paths.Keys
  {
    && rows.Keys == t.Keys
    && forall x {:trigger RowUpToDate(t, x, rows[x], env)} :: x in t ==> RowUpToDate(t, x, rows[x], env)
  }

  /** The report promises that errors mean nothing was committed. Of the rebuilds
      that report errors, that holds of all but those where listing the old ids
      is the only thing that failed and the index was not up to date, stamps included. */
  lemma ErrorsMeanUntouchedIff(rows: Records, tree: Option<Forest>, env: RebuildEnv)
    requires (tree.Some? ==> Acyclic(tree.value)) && !(Publishes(tree, env) && env.listOk)
    ensures RowsAfter(rows, tree, env) == rows <==> !Publishes(tree, env) || UpToDate(rows, tree.value, env)
  {
    if Publishes(tree, env) { SameWhenUpToDate(rows, tree.value, env); }
  }

  lemma SameWhenUpToDate(rows: Records, t: Forest, env: RebuildEnv)
    requires Acyclic(t) && t.Keys <= env.paths.Keys
    ensures RebuiltRows(rows, t, env) == rows <==> UpToDate(rows, t, env)
  {
    var after := RebuiltRows(rows, t, env);
    forall x | x in t && x in rows ensures after[x] == rows[x] <==> RowUpToDate(t, x, rows[x], env) {
      RowSame(rows, t, x, env);
    }
    SameRowByRow(rows, after, t, env);
  }

  lemma SameRowByRow(rows: Records, after: Records, t: Forest, env: RebuildEnv)
    requires Acyclic(t) && t.Keys <= env.paths.Keys && after.Keys == t.Keys
    requires forall x :: x in t && x in rows ==> (after[x] == rows[x] <==> RowUpToDate(t, x, rows[x], env))
    ensures after == rows <==> UpToDate(rows, t, env)
  {
    if UpToDate(rows, t, env) {
      forall x | x in rows ensures after[x] == rows[x] {
        assert RowUpToDate(t, x, rows[x], env);
      }
      SameRecords(rows, after);
    }
  }

  lemma SameRecords(a: Records, b: Records)
    requires a.Keys == b.Keys && forall x :: x in a ==> b[x] == a[x]
    ensures a == b
  {
  }

  lemma RowSame(rows: Records, t: Forest, x: NodeId, env: RebuildEnv)
    requires Acyclic(t) && t.Keys <= env.paths.Keys && x in t && x in rows
    ensures x in RebuiltRows(rows, t, env)
    ensures RebuiltRows(rows, t, env)[x] == rows[x] <==> RowUpToDate(t, x, rows[x], env)
  {
    var p := ProjectNode(t, x, env.paths[x], env.now);
    RowAgreesIff(t, x, rows[x]);
    assert Stored(rows, p, env.now) == p.(createdAt := rows[x].createdAt, updatedAt := env.now);
  }
}
