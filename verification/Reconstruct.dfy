/** Rebuilding the tree from the records found on disk: `load_tree`. */
module Reconstruction {
  import opened Domain
  import opened Seqs
  import opened Order
  import opened Forests
  import opened Trees
  import opened Disks
  import opened LocalFilesystems

  // ---------- the two passes, as functions of the record list ----------

  /** Pass 1: a record is dropped when its id is taken or its parent is not there yet. */
  function Collected(nodes: seq<Node>): Forest {
    if nodes == [] then map[]
    else Collect(Collected(nodes[..|nodes| - 1]), nodes[|nodes| - 1])
  }

  function Collect(t: Forest, n: Node): Forest {
    if n.id in t || (n.parent.Some? && n.parent.value !in t) then t else t[n.id := n]
  }

  lemma CollectedNext(nodes: seq<Node>, k: nat)
    requires k < |nodes|
    ensures Collected(nodes[..k + 1]) == Collect(Collected(nodes[..k]), nodes[k])
  {
    assert nodes[..k + 1][..k] == nodes[..k];
  }

  /** Pass 2: child ids that were not collected are pruned. */
  function Pruned(t: Forest): Forest {
    map x | x in t :: t[x].(children := Only(t[x].children, t.Keys))
  }

  function Rebuilt(nodes: seq<Node>): Forest {
    Pruned(Collected(nodes))
  }

  // ---------- safety on any list of records ----------

  /** The i-th record survives: no earlier survivor has its id, and it is a
      root or an earlier survivor is its parent. */
  ghost predicate Survives(nodes: seq<Node>, i: nat)
    requires i < |nodes|
    decreases i
  {
    && (forall j: nat :: j < i && nodes[j].id == nodes[i].id ==> !Survives(nodes, j))
    && (nodes[i].parent.Some? ==>
          exists j: nat :: j < i && nodes[j].id == nodes[i].parent.value && Survives(nodes, j))
  }

  lemma {:induction false} SurvivesPrefix(nodes: seq<Node>, k: nat, i: nat)
    requires i < k <= |nodes|
    ensures Survives(nodes[..k], i) <==> Survives(nodes, i)
    decreases i
  {
    forall j: nat | j < i ensures Survives(nodes[..k], j) <==> Survives(nodes, j) {
      SurvivesPrefix(nodes, k, j);
    }
  }

  ghost predicate SurvivorOf(nodes: seq<Node>, x: NodeId, i: nat) {
    i < |nodes| && nodes[i].id == x && Survives(nodes, i)
  }

  ghost predicate ExactlySurvivors(nodes: seq<Node>, t: Forest) {
    && (forall x :: x in t ==> exists i: nat :: SurvivorOf(nodes, x, i))
    && (forall x, i: nat :: SurvivorOf(nodes, x, i) ==> x in t && t[x] == nodes[i])
  }

  /** Exactly the surviving records are collected, each under its id. */
  lemma {:induction false} CollectedExact(nodes: seq<Node>)
    ensures ExactlySurvivors(nodes, Collected(nodes))
  {
    if nodes != [] {
      CollectedExact(nodes[..|nodes| - 1]);
      SurvivorStep(nodes, nodes[..|nodes| - 1], Collected(nodes[..|nodes| - 1]));
    }
  }

  lemma SurvivorStep(nodes: seq<Node>, before: seq<Node>, t: Forest)
    requires nodes != [] && before == nodes[..|nodes| - 1] && ExactlySurvivors(before, t)
    ensures ExactlySurvivors(nodes, Collect(t, nodes[|nodes| - 1]))
  {
    var k, n := |nodes| - 1, nodes[|nodes| - 1];
    forall x, i: nat | i < k ensures SurvivorOf(before, x, i) <==> SurvivorOf(nodes, x, i) {
      SurvivesPrefix(nodes, k, i);
    }
    EarlierSurvivor(nodes, before, t, n.id);
    if n.parent.Some? { EarlierSurvivor(nodes, before, t, n.parent.value); }
    forall x | x in t ensures exists i: nat :: SurvivorOf(nodes, x, i) {
      var i: nat :| SurvivorOf(before, x, i);
      assert SurvivorOf(nodes, x, i);
    }
    assert Collect(t, n) != t ==> SurvivorOf(nodes, n.id, k);
  }

  lemma EarlierSurvivor(nodes: seq<Node>, before: seq<Node>, t: Forest, x: NodeId)
    requires nodes != [] && before == nodes[..|nodes| - 1] && ExactlySurvivors(before, t)
    ensures x in t <==> exists j: nat :: j < |nodes| - 1 && nodes[j].id == x && Survives(nodes, j)
  {
    var k := |nodes| - 1;
    if x in t {
      var j: nat :| SurvivorOf(before, x, j);
      SurvivesPrefix(nodes, k, j);
    }
    if j: nat :| j < k && nodes[j].id == x && Survives(nodes, j) {
      SurvivesPrefix(nodes, k, j);
      assert SurvivorOf(before, x, j);
    }
  }

  lemma {:induction false} CollectedAcyclic(nodes: seq<Node>)
    ensures Keyed(Collected(nodes)) && Acyclic(Collected(nodes))
  {
    if nodes == [] {
      assert Ranked(Collected(nodes), map[]);
    } else {
      var before, n := nodes[..|nodes| - 1], nodes[|nodes| - 1];
      CollectedAcyclic(before);
      var t := Collected(before);
      if !(n.id in t || (n.parent.Some? && n.parent.value !in t)) {
        AddAcyclic(t, n);
      }
    }
  }

  /** Whatever is on disk (duplicate ids, missing parents, dangling children):
      in the rebuilt tree parents resolve without cycles and child ids resolve. */
  lemma RebuiltSafe(nodes: seq<Node>)
    ensures Keyed(Rebuilt(nodes)) && Acyclic(Rebuilt(nodes))
    ensures forall x, c :: x in Rebuilt(nodes) && c in Rebuilt(nodes)[x].children ==> c in Rebuilt(nodes)
    ensures forall x :: x in Rebuilt(nodes) <==> exists i: nat :: SurvivorOf(nodes, x, i)
    ensures forall x, i: nat :: SurvivorOf(nodes, x, i) ==> SameButChildren(Rebuilt(nodes)[x], nodes[i])
  {
    CollectedAcyclic(nodes);
    CollectedExact(nodes);
    AcyclicCongruence(Collected(nodes), Rebuilt(nodes));
  }

  /** A survivor's record is as found but for listed ids that are not in the tree. */
  lemma RebuiltRecord(nodes: seq<Node>, x: NodeId, i: nat)
    requires SurvivorOf(nodes, x, i)
    ensures x in Rebuilt(nodes)
    ensures Rebuilt(nodes)[x] == nodes[i].(children := Only(nodes[i].children, Rebuilt(nodes).Keys))
  {
    CollectedExact(nodes);
    assert Rebuilt(nodes).Keys == Collected(nodes).Keys;
  }

  // ---------- completeness on a placed disk ----------

  /** Every directory once, none before one it lies in. */
  ghost predicate Listing(d: Disk, ps: seq<Path>) {
    && NoDup(ps) && (forall p :: p in ps <==> p in d)
    && forall i, j :: 0 <= i < j < |ps| ==> !(ps[j] < ps[i])
  }

  function Records(d: Disk, ps: seq<Path>): (nodes: seq<Node>)
    requires forall p :: p in ps ==> p in d
    ensures |nodes| == |ps| && forall i :: 0 <= i < |ps| ==> nodes[i] == d[ps[i]]
  {
    seq(|ps|, i requires 0 <= i < |ps| && ps[i] in d => d[ps[i]])
  }

  ghost predicate CollectedUpTo(d: Disk, ps: seq<Path>, k: nat, t: Forest)
    requires k <= |ps| && (forall p :: p in ps ==> p in d)
  {
    && (forall j :: 0 <= j < k ==> d[ps[j]].id in t && t[d[ps[j]].id] == d[ps[j]])
    && (forall x :: x in t ==> exists j :: 0 <= j < k && d[ps[j]].id == x)
  }

  lemma {:induction false} CollectListing(d: Disk, ps: seq<Path>, k: nat) returns (t: Forest)
    requires Placed(d) && Listing(d, ps) && k <= |ps|
    ensures t == Collected(Records(d, ps)[..k]) && CollectedUpTo(d, ps, k, t)
  {
    t := map[];
    if k > 0 {
      var before := CollectListing(d, ps, k - 1);
      CollectStep(d, ps, k - 1, before);
      CollectedNext(Records(d, ps), k - 1);
      t := Collect(before, d[ps[k - 1]]);
    }
  }

  /** In a listing nothing is ever dropped. */
  lemma CollectStep(d: Disk, ps: seq<Path>, k: nat, t: Forest)
    requires Placed(d) && Listing(d, ps) && k < |ps| && CollectedUpTo(d, ps, k, t)
    ensures d[ps[k]].id !in t
    ensures d[ps[k]].parent.Some? ==> d[ps[k]].parent.value in t
    ensures CollectedUpTo(d, ps, k + 1, t[d[ps[k]].id := d[ps[k]]])
  {
    NextIsNew(d, ps, k);
    NextHasParent(d, ps, k);
  }

  lemma NextIsNew(d: Disk, ps: seq<Path>, k: nat)
    requires Placed(d) && Listing(d, ps) && k < |ps|
    ensures forall j :: 0 <= j < k ==> d[ps[j]].id != d[ps[k]].id
  {
    forall j | 0 <= j < k ensures d[ps[j]].id != d[ps[k]].id {
      assert ps[j] in ps && ps[k] in ps;
      assert SameId(d, ps[j], ps[k]) <==> d[ps[j]].id == d[ps[k]].id;
    }
  }

  lemma NextHasParent(d: Disk, ps: seq<Path>, k: nat)
    requires Placed(d) && Listing(d, ps) && k < |ps|
    ensures d[ps[k]].parent.Some? ==> exists j :: 0 <= j < k && d[ps[j]].id == d[ps[k]].parent.value
  {
    var p := ps[k];
    assert p in ps && EntryOk(d, p);
    if d[p].parent.Some? {
      var j :| 0 <= j < |ps| && ps[j] == Up(p);
      assert ps[j] < ps[k];
    }
  }

  /** Every record of a placed disk is kept, in whatever order directories are visited. */
  lemma RebuiltComplete(d: Disk, ps: seq<Path>)
    requires Placed(d) && Listing(d, ps)
    ensures Rebuilt(Records(d, ps)) == Pruned(TreeOf(d))
    ensures WF(d) ==> Rebuilt(Records(d, ps)) == TreeOf(d)
  {
    CollectedComplete(d, ps);
    if WF(d) {
      WFIff(d);
      PruneNothing(TreeOf(d));
    }
  }

  lemma CollectedComplete(d: Disk, ps: seq<Path>)
    requires Placed(d) && Listing(d, ps)
    ensures Collected(Records(d, ps)) == TreeOf(d)
  {
    var nodes := Records(d, ps);
    var t := CollectListing(d, ps, |ps|);
    assert nodes[..|ps|] == nodes;
    forall p | p in d ensures exists j :: 0 <= j < |ps| && ps[j] == p {
      assert p in ps;
    }
    TreeIs(d, t);
  }

  lemma PruneNothing(t: Forest)
    requires TwoWay(t)
    ensures Pruned(t) == t
  {
    forall x | x in t ensures Only(t[x].children, t.Keys) == t[x].children {
      OnlyAll(t[x].children, t.Keys);
    }
  }

  /** Directory names and visiting order do not matter: disks with the same
      records under the same parents rebuild to the same forest. */
  lemma RebuiltOrderIndependent(d: Disk, ps: seq<Path>, e: Disk, qs: seq<Path>)
    requires Placed(d) && Listing(d, ps) && Placed(e) && Listing(e, qs)
    requires TreeOf(d) == TreeOf(e)
    ensures Rebuilt(Records(d, ps)) == Rebuilt(Records(e, qs))
  {
    RebuiltComplete(d, ps);
    RebuiltComplete(e, qs);
  }

  lemma AscendingListing(d: Disk, ps: seq<Path>)
    requires Placed(d) && Ascending(ps) && (forall p :: p in ps <==> p in d)
    ensures Listing(d, ps)
  {
    forall i, j | 0 <= i < j < |ps| ensures ps[i] != ps[j] && !(ps[j] < ps[i]) {
      assert PathLess(ps[i], ps[j]);
      PathLessAsymmetric(ps[i], ps[j]);
    }
  }

  lemma PathLessAsymmetric(p: Path, q: Path)
    requires PathLess(p, q)
    ensures p != q && !(q < p)
  {
    if !(p < q) {
      var i :| 0 <= i < |p| && i < |q| && p[..i] == q[..i] && Less(p[i], q[i]);
      LessIrreflexive(p[i]);
    }
  }

  // ---------- the method ----------

  /** `_walk_resilient` on a disk whose every directory holds a readable record. */
  method WalkRecords(fs: LocalFilesystem) returns (nodes: seq<Node>, ps: seq<Path>)
    requires Placed(fs.dirs)
    ensures Listing(fs.dirs, ps) && nodes == Records(fs.dirs, ps)
  {
    var paths := fs.DescendantDirs([]);
    AllBelowRoot(fs.dirs);
    AscendingListing(fs.dirs, paths);
    nodes, ps := Records(fs.dirs, paths), paths;
  }

  /** Builds a tree from any list of records. */
  method BuildTree(nodes: seq<Node>) returns (tree: Tree)
    ensures fresh(tree) && tree.Valid() && tree.nodes == Rebuilt(nodes)
  {
    tree := new Tree();
    for i := 0 to |nodes|
      invariant tree.Valid() && tree.nodes == Collected(nodes[..i])
    {
      CollectedNext(nodes, i);
      var r := tree.Add(nodes[i]);
    }
    assert nodes[..|nodes|] == nodes;
    PruneTree(tree);
  }

  /** Drops child ids that are not in the tree. */
  method PruneTree(tree: Tree)
    requires tree.Valid()
    modifies tree
    ensures tree.Valid() && tree.nodes == Pruned(old(tree.nodes))
  {
    var parents := tree.AllNodes();
    var loadable := set x | x in tree.nodes;
    ghost var t, order := tree.nodes, tree.order;
    assert loadable == t.Keys;
    assert forall i :: 0 <= i < |order| ==> order[i] in order;
    for i := 0 to |parents|
      invariant tree.Valid()
      invariant tree.nodes == PrunedSome(t, order[..i])
    {
      var parent := parents[i];
      var clean := Only(parent.children, loadable);
      PruneStep(t, order, i);
      if clean != parent.children {
        var r := tree.ReplaceChildren(parent.id, clean);
      }
    }
    assert order[..|order|] == order;
    assert forall x :: x in t ==> x in order;
  }

  /** The forest with the child lists of some nodes pruned. */
  ghost function PrunedSome(t: Forest, done: seq<NodeId>): Forest {
    map x | x in t :: if x in done then t[x].(children := Only(t[x].children, t.Keys)) else t[x]
  }

  lemma PruneStep(t: Forest, order: seq<NodeId>, i: nat)
    requires Keyed(t) && NoDup(order) && i < |order| && order[i] in t
    ensures var u, x := PrunedSome(t, order[..i]), order[i];
            && u[x] == t[x]
            && PrunedSome(t, order[..i + 1]) == SetChildren(u, x, Only(t[x].children, t.Keys))
            && (Only(t[x].children, t.Keys) == t[x].children ==> PrunedSome(t, order[..i + 1]) == u)
  {
    var x := order[i];
    assert order[..i + 1] == order[..i] + [x];
    assert x !in order[..i];
  }
}
