/** What loading gives when the process stops between the single steps of a write. */
module Crashes {
  import opened Domain
  import opened Seqs
  import opened Order
  import opened Forests
  import opened Trees
  import opened Disks
  import opened DiskOps
  import opened LocalFilesystems
  import opened Reconstruction

  /** The order in which loading visits directories. */
  ghost predicate SortedListing(d: Disk, ps: seq<Path>) {
    Ascending(ps) && forall p :: p in ps <==> p in d
  }

  /** Loading a disk whose directories are visited in that order. */
  ghost function Loaded(d: Disk, ps: seq<Path>): Forest
    requires SortedListing(d, ps)
  {
    Rebuilt(Records(d, ps))
  }

  // ---------- intermediate disks that are placed: nothing is lost ----------

  lemma PruneResolved(t: Forest)
    requires forall p, c :: p in t && c in t[p].children ==> c in t
    ensures Pruned(t) == t
  {
    forall x | x in t ensures Only(t[x].children, t.Keys) == t[x].children {
      OnlyAll(t[x].children, t.Keys);
    }
  }

  lemma ListsResolve(t: Forest)
    requires TwoWay(t)
    ensures forall p, c :: p in t && c in t[p].children ==> c in t
  {
  }

  lemma LoadedPlaced(d: Disk, ps: seq<Path>)
    requires Placed(d) && SortedListing(d, ps)
    requires forall p, c :: p in TreeOf(d) && c in TreeOf(d)[p].children ==> c in TreeOf(d)
    ensures Loaded(d, ps) == TreeOf(d)
  {
    AscendingListing(d, ps);
    RebuiltComplete(d, ps);
    PruneResolved(TreeOf(d));
  }

  /** Create, with the record written but not listed by its parent yet: every
      node is there, the new one too. */
  lemma CrashInCreate(d: Disk, fold: string -> string, node: Node, parent: Option<NodeId>, e: Disk, qs: seq<Path>)
    requires WF(d) && Creatable(d, node, parent) && SortedListing(e, qs)
    requires e == d[NewDir(d, fold, node, parent) := node.(children := [], parent := parent)]
    ensures Loaded(e, qs) == TreeOf(d)[node.id := node.(children := [], parent := parent)]
  {
    WFIff(d);
    OnDiskPlain(node, parent);
    NewDirTree(d, fold, node, parent);
    NewResolves(TreeOf(d), node.id, node.(children := [], parent := parent));
    LoadedPlaced(e, qs);
  }

  lemma NewResolves(t: Forest, x: NodeId, node: Node)
    requires TwoWay(t) && node.children == []
    ensures var u := t[x := node]; forall p, c :: p in u && c in u[p].children ==> c in u
  {
  }

  /** Rename, with the directory renamed but the record not rewritten: as before. */
  lemma CrashInRename(d: Disk, fold: string -> string, n: NodeId, title: string, e: Disk, qs: seq<Path>)
    requires WF(d) && n in TreeOf(d) && e == Reslugged(d, fold, n, title) && SortedListing(e, qs)
    ensures Loaded(e, qs) == TreeOf(d)
  {
    WFIff(d);
    ReslugRefines(d, fold, n, title);
    assert Placed(e) && TreeOf(e) == TreeOf(d);
    ListsResolve(TreeOf(e));
    LoadedPlaced(e, qs);
  }

  /** Move or delete, with the node off its parent's list and nothing else done. */
  lemma CrashAfterUnlist(d: Disk, n: NodeId, qs: seq<Path>)
    requires WF(d) && n in TreeOf(d) && SortedListing(UnlistedDisk(d, n), qs)
    ensures TreeOf(d)[n].parent.Some? ==> TreeOf(d)[n].parent.value in TreeOf(d)
    ensures Loaded(UnlistedDisk(d, n), qs) == Unlisted(TreeOf(d), n)
  {
    WFIff(d);
    UnlistRefines(d, n);
    UnlistedResolves(TreeOf(d), n);
    LoadedPlaced(UnlistedDisk(d, n), qs);
  }

  lemma UnlistedResolves(t: Forest, n: NodeId)
    requires TwoWay(t) && n in t
    ensures forall p, c :: p in Unlisted(t, n) && c in Unlisted(t, n)[p].children ==> c in Unlisted(t, n)
  {
  }

  /** Move, with the record rewritten but not listed by the new parent yet. */
  lemma CrashBeforeInsert(d: Disk, fold: string -> string, n: NodeId, parent: Option<NodeId>, qs: seq<Path>)
    requires WF(d) && Movable(d, n, parent) && SortedListing(HalfMoved(d, fold, n, parent), qs)
    ensures TreeOf(d)[n].parent.Some? ==> TreeOf(d)[n].parent.value in TreeOf(d)
    ensures Loaded(HalfMoved(d, fold, n, parent), qs) == SetParent(Unlisted(TreeOf(d), n), n, parent)
  {
    WFIff(d);
    HalfMovedRefines(d, fold, n, parent);
    UnlistedResolves(TreeOf(d), n);
    HungResolves(Unlisted(TreeOf(d), n), n, parent);
    LoadedPlaced(HalfMoved(d, fold, n, parent), qs);
  }

  lemma HungResolves(t: Forest, n: NodeId, parent: Option<NodeId>)
    requires n in t && forall p, c :: p in t && c in t[p].children ==> c in t
    ensures var u := SetParent(t, n, parent); forall p, c :: p in u && c in u[p].children ==> c in u
  {
  }

  // ---------- a directory moved, its record not rewritten ----------

  /** Every directory agrees with its place but one, which names a parent elsewhere. */
  ghost predicate AllButTop(e: Disk, to: Path) {
    && UniqueIds(e) && Acyclic(TreeOf(e)) && to in e && to != []
    && (forall q {:trigger EntryOk(e, q)} :: q in e && q != to ==> EntryOk(e, q))
    && (e[to].parent.Some? ==>
          e[to].parent.value in TreeOf(e) && !InSubtree(TreeOf(e), e[to].id, e[to].parent.value))
  }

  /** Such a disk keeps x: it is not below the top, or the top has no parent, or
      its parent's directory comes first. */
  ghost predicate Keeps(e: Disk, to: Path, x: NodeId)
    requires AllButTop(e, to)
  {
    || !InSubtree(TreeOf(e), e[to].id, x)
    || e[to].parent.None?
    || PathLess(PathOf(e, e[to].parent.value), to)
  }

  lemma LessBothWays(p: Path, q: Path)
    requires PathLess(p, q)
    ensures !PathLess(q, p)
  {
    PathLessAsymmetric(p, q);
    if PathLess(q, p) {
      var j :| 0 <= j < |q| && j < |p| && q[..j] == p[..j] && Less(q[j], p[j]);
      if p < q {
        LessIrreflexive(p[j]);
      } else {
        var i :| 0 <= i < |p| && i < |q| && p[..i] == q[..i] && Less(p[i], q[i]);
        FirstDifference(p, q, i, j);
      }
    }
  }

  lemma FirstDifference(p: Path, q: Path, i: nat, j: nat)
    requires i < |p| && i < |q| && j < |p| && j < |q|
    requires p[..i] == q[..i] && q[..j] == p[..j]
    ensures !(Less(p[i], q[i]) && Less(q[j], p[j]))
  {
    LessIrreflexive(p[i]);
    LessIrreflexive(p[j]);
    if i < j { assert p[i] == p[..j][i] == q[..j][i]; }
    if j < i { assert p[j] == p[..i][j] == q[..i][j]; }
    if i == j && Less(p[i], q[i]) && Less(q[i], p[i]) { LessTransitive(p[i], q[i], p[i]); }
  }

  /** In a sorted listing the index order is the path order. */
  lemma ListingOrder(ps: seq<Path>, i: nat, j: nat)
    requires Ascending(ps) && i < |ps| && j < |ps| && ps[i] != ps[j]
    ensures i < j <==> PathLess(ps[i], ps[j])
  {
    if j < i { LessBothWays(ps[j], ps[i]); }
  }

  lemma IndexOf(e: Disk, qs: seq<Path>, x: NodeId) returns (j: nat)
    requires UniqueIds(e) && SortedListing(e, qs) && x in TreeOf(e)
    ensures j < |qs| && qs[j] == PathOf(e, x) && Records(e, qs)[j].id == x
  {
    assert PathOf(e, x) in qs;
    j :| 0 <= j < |qs| && qs[j] == PathOf(e, x);
  }

  /** No id comes twice. */
  lemma OnlyIndex(e: Disk, qs: seq<Path>, i: nat, j: nat)
    requires UniqueIds(e) && SortedListing(e, qs) && i < |qs| && j < |qs| && i != j
    ensures Records(e, qs)[i].id != Records(e, qs)[j].id
  {
    assert qs[i] in qs && qs[j] in qs;
    var a, b := if i < j then i else j, if i < j then j else i;
    assert PathLess(qs[a], qs[b]);
    PathLessAsymmetric(qs[a], qs[b]);
    assert SameId(e, qs[i], qs[j]) <==> e[qs[i]].id == e[qs[j]].id;
  }

  lemma SurvivesBy(e: Disk, qs: seq<Path>, i: nat, j: nat)
    requires UniqueIds(e) && SortedListing(e, qs) && i < |qs| && j < |qs|
    requires Records(e, qs)[i].parent == Some(Records(e, qs)[j].id)
    ensures Survives(Records(e, qs), i) <==> j < i && Survives(Records(e, qs), j)
  {
    var nodes := Records(e, qs);
    forall k: nat | k < i ensures nodes[k].id != nodes[i].id {
      OnlyIndex(e, qs, k, i);
    }
    forall k: nat | k < i && nodes[k].id == nodes[j].id ensures k == j {
      if k != j { OnlyIndex(e, qs, k, j); }
    }
  }

  lemma SurvivesAlone(e: Disk, qs: seq<Path>, i: nat)
    requires UniqueIds(e) && SortedListing(e, qs) && i < |qs| && Records(e, qs)[i].parent == None
    ensures Survives(Records(e, qs), i)
  {
    var nodes := Records(e, qs);
    forall k: nat | k < i ensures nodes[k].id != nodes[i].id {
      OnlyIndex(e, qs, k, i);
    }
  }

  /** Where the parent of an entry is stored. */
  lemma ParentDirectory(e: Disk, to: Path, q: Path)
    requires AllButTop(e, to) && q in e && q != to && e[q].parent.Some?
    ensures e[q].parent.value in TreeOf(e) && q != [] && PathOf(e, e[q].parent.value) == Up(q) && Up(q) < q
  {
    assert EntryOk(e, q);
    PathOfIs(e, Up(q));
    assert q == Up(q) + [Name(q)];
  }

  lemma {:induction false} SurvivesIff(e: Disk, to: Path, qs: seq<Path>, i: nat)
    requires AllButTop(e, to) && SortedListing(e, qs) && i < |qs|
    ensures Survives(Records(e, qs), i) <==> Keeps(e, to, Records(e, qs)[i].id)
    decreases i
  {
    var node, q := Records(e, qs)[i], qs[i];
    assert q in qs;
    PathOfIs(e, q);
    if node.parent.None? {
      SurvivesAlone(e, qs, i);
      RootKept(e, to, q);
    } else if q == to {
      var j := IndexOf(e, qs, node.parent.value);
      SurvivesBy(e, qs, i, j);
      TopKept(e, to, qs, i, j);
      if j < i { SurvivesIff(e, to, qs, j); }
    } else {
      ParentDirectory(e, to, q);
      var j := IndexOf(e, qs, node.parent.value);
      SurvivesBy(e, qs, i, j);
      ListingOrder(qs, j, i);
      SurvivesIff(e, to, qs, j);
      KeptWithParent(e, to, q);
    }
  }

  lemma RootKept(e: Disk, to: Path, q: Path)
    requires AllButTop(e, to) && q in e && e[q].parent == None
    ensures Keeps(e, to, e[q].id)
  {
    assert e[q].id in TreeOf(e) && TreeOf(e)[e[q].id] == e[q];
    assert Chain(TreeOf(e), e[q].id) == [e[q].id];
    if e[q].id == e[to].id { assert SameId(e, q, to); }
  }

  lemma TopKept(e: Disk, to: Path, qs: seq<Path>, i: nat, j: nat)
    requires AllButTop(e, to) && SortedListing(e, qs) && i < |qs| && j < |qs| && qs[i] == to
    requires e[to].parent.Some? && qs[j] == PathOf(e, e[to].parent.value)
    ensures Keeps(e, to, e[to].parent.value)
    ensures j < i <==> Keeps(e, to, e[to].id)
  {
    var t, n := TreeOf(e), e[to].id;
    assert n in Chain(t, n);
    PathOfIs(e, to);
    assert e[qs[j]].id == e[to].parent.value && e[to].parent.value != n;
    ListingOrder(qs, j, i);
  }

  lemma KeptWithParent(e: Disk, to: Path, q: Path)
    requires AllButTop(e, to) && q in e && q != to && e[q].parent.Some? && e[q].parent.value in TreeOf(e)
    ensures Keeps(e, to, e[q].id) <==> Keeps(e, to, e[q].parent.value)
  {
    var t := TreeOf(e);
    assert Chain(t, e[q].id) == [e[q].id] + Chain(t, e[q].parent.value);
    assert SameId(e, q, to) <==> e[q].id == e[to].id;
  }

  /** Loading keeps exactly these nodes. */
  lemma LoadedKeeps(e: Disk, to: Path, qs: seq<Path>, x: NodeId)
    requires AllButTop(e, to) && SortedListing(e, qs)
    ensures x in Loaded(e, qs) <==> x in TreeOf(e) && Keeps(e, to, x)
  {
    var nodes := Records(e, qs);
    RebuiltSafe(nodes);
    if x in Loaded(e, qs) {
      var i: nat :| SurvivorOf(nodes, x, i);
      assert qs[i] in qs;
      SurvivesIff(e, to, qs, i);
    }
    if x in TreeOf(e) && Keeps(e, to, x) {
      var i := IndexOf(e, qs, x);
      SurvivesIff(e, to, qs, i);
      assert SurvivorOf(nodes, x, i);
    }
  }

  // ---------- the middle of a move ----------

  /** The node unlisted and its directory renamed; its record still names the old parent. */
  ghost function MidMove(d: Disk, fold: string -> string, n: NodeId, parent: Option<NodeId>): Disk
    requires Placed(d) && Movable(d, n, parent)
  {
    MoveCanMove(d, fold, n, parent);
    CanMoveAfterUnlist(d, n, PathOf(d, n), MovedDir(d, fold, n, parent));
    Renamed(UnlistedDisk(d, n), PathOf(d, n), MovedDir(d, fold, n, parent))
  }

  lemma MidMoveEntries(d: Disk, fold: string -> string, n: NodeId, parent: Option<NodeId>)
    requires Placed(d) && Movable(d, n, parent)
    ensures var e, to := MidMove(d, fold, n, parent), MovedDir(d, fold, n, parent);
            && to in e && to != [] && e[to] == UnlistedDisk(d, n)[PathOf(d, n)]
            && forall q {:trigger EntryOk(e, q)} :: q in e && q != to ==> EntryOk(e, q)
  {
    var from, to := PathOf(d, n), MovedDir(d, fold, n, parent);
    MoveCanMove(d, fold, n, parent);
    CanMoveAfterUnlist(d, n, from, to);
    assert EntryOk(d, from);
    RenamedEntries(UnlistedDisk(d, n), from, to);
  }

  lemma MidMoveTree(d: Disk, fold: string -> string, n: NodeId, parent: Option<NodeId>)
    requires Placed(d) && Movable(d, n, parent)
    ensures TreeOf(d)[n].parent.Some? ==> TreeOf(d)[n].parent.value in TreeOf(d)
    ensures var e, to := MidMove(d, fold, n, parent), MovedDir(d, fold, n, parent);
            UniqueIds(e) && TreeOf(e) == Unlisted(TreeOf(d), n) && PathsMoved(d, e, PathOf(d, n), to)
  {
    MoveCanMove(d, fold, n, parent);
    UnlistedThenRenamed(d, n, MovedDir(d, fold, n, parent));
  }

  lemma UnlistedThenRenamed(d: Disk, n: NodeId, to: Path)
    requires Placed(d) && n in TreeOf(d) && CanMove(d, PathOf(d, n), to)
    ensures TreeOf(d)[n].parent.Some? ==> TreeOf(d)[n].parent.value in TreeOf(d)
    ensures var d1 := UnlistedDisk(d, n);
            && Placed(d1) && CanMove(d1, PathOf(d, n), to)
            && var e := Renamed(d1, PathOf(d, n), to);
               UniqueIds(e) && TreeOf(e) == Unlisted(TreeOf(d), n) && PathsMoved(d, e, PathOf(d, n), to)
  {
    var from, d1 := PathOf(d, n), UnlistedDisk(d, n);
    CanMoveAfterUnlist(d, n, from, to);
    UnlistRefines(d, n);
    RenameTree(d1, from, to);
    PathsKeptThenMoved(d, d1, Renamed(d1, from, to), from, to);
  }

  /** Its record is where it was and as it was. */
  lemma MidMoveTop(d: Disk, n: NodeId)
    requires Placed(d) && n in TreeOf(d)
    ensures PathOf(d, n) in UnlistedDisk(d, n) && UnlistedDisk(d, n)[PathOf(d, n)] == TreeOf(d)[n]
  {
    NotOwnParent(d, n);
    UnlistRefines(d, n);
    var d1 := UnlistedDisk(d, n);
    UnlistKeepsIds(d, n);
    PathOfIs(d1, PathOf(d, n));
    assert TreeOf(d1)[n] == d1[PathOf(d, n)];
  }

  lemma RenamedEntries(d: Disk, from: Path, to: Path)
    requires Placed(d) && CanMove(d, from, to) && from != []
    ensures var e := Renamed(d, from, to);
            && to in e && e[to] == d[from]
            && forall q {:trigger EntryOk(e, q)} :: q in e && q != to ==> EntryOk(e, q)
  {
    var e := Renamed(d, from, to);
    assert Reroot(from, to, from) == to + [] == to;
    UpdateSame(e, to);
    forall q | q in e && q != to ensures EntryOk(e, q) {
      var p :| p in d && q == Reroot(from, to, p);
      MovedEntry(d, from, to, d[from], p);
    }
  }

  /** Unlisting changes neither ancestors nor who has a parent outside. */
  lemma UnlistedSubtree(t: Forest, n: NodeId)
    requires Acyclic(t) && n in t && (t[n].parent.Some? ==> t[n].parent.value in t)
    ensures Unlisted(t, n).Keys == t.Keys && Acyclic(Unlisted(t, n))
    ensures forall x :: x in t ==> (InSubtree(Unlisted(t, n), n, x) <==> InSubtree(t, n, x))
    ensures t[n].parent.Some? ==> !InSubtree(Unlisted(t, n), n, t[n].parent.value)
  {
    var u := Unlisted(t, n);
    AcyclicCongruence(t, u);
    forall x | x in t ensures InSubtree(u, n, x) <==> InSubtree(t, n, x) {
      ChainCongruence(t, u, x);
    }
    if t[n].parent.Some? { ParentOutside(t, n); }
  }

  lemma MidMoveAllButTop(d: Disk, fold: string -> string, n: NodeId, parent: Option<NodeId>)
    requires Placed(d) && Movable(d, n, parent)
    ensures var e, to := MidMove(d, fold, n, parent), MovedDir(d, fold, n, parent);
            AllButTop(e, to) && e[to] == TreeOf(d)[n]
  {
    DiskAcyclic(d);
    TreeKeyed(d);
    MidMoveEntries(d, fold, n, parent);
    MidMoveTree(d, fold, n, parent);
    MidMoveTop(d, n);
    UnlistedSubtree(TreeOf(d), n);
  }

  lemma ParentOutside(t: Forest, n: NodeId)
    requires Acyclic(t) && n in t && t[n].parent.Some?
    ensures !InSubtree(t, n, t[n].parent.value)
  {
    ChainNoDup(t, n);
    assert Chain(t, n) == [n] + Chain(t, t[n].parent.value);
  }

  /** A move that stops between renaming the directory and rewriting the record
      costs the moved subtree, and nothing else, exactly when the old parent's
      directory does not come before the new place in the order of loading. */
  lemma CrashBeforeRewrite(d: Disk, fold: string -> string, n: NodeId, parent: Option<NodeId>, qs: seq<Path>, x: NodeId)
    requires Placed(d) && Movable(d, n, parent) && SortedListing(MidMove(d, fold, n, parent), qs)
    ensures Acyclic(TreeOf(d))
    ensures TreeOf(d)[n].parent.Some? ==> TreeOf(d)[n].parent.value in TreeOf(d)
    ensures x in Loaded(MidMove(d, fold, n, parent), qs) <==>
              && x in TreeOf(d)
              && (|| !InSubtree(TreeOf(d), n, x) || TreeOf(d)[n].parent.None?
                  || PathLess(PathOf(d, TreeOf(d)[n].parent.value), MovedDir(d, fold, n, parent)))
  {
    DiskAcyclic(d);
    ParentOnDisk(d, n);
    MidMoveAllButTop(d, fold, n, parent);
    LoadedKeeps(MidMove(d, fold, n, parent), MovedDir(d, fold, n, parent), qs, x);
    MidMoveKeeps(d, fold, n, parent, x);
  }

  lemma MidMoveKeeps(d: Disk, fold: string -> string, n: NodeId, parent: Option<NodeId>, x: NodeId)
    requires Placed(d) && Movable(d, n, parent) && Acyclic(TreeOf(d))
    requires AllButTop(MidMove(d, fold, n, parent), MovedDir(d, fold, n, parent))
    ensures TreeOf(d)[n].parent.Some? ==> TreeOf(d)[n].parent.value in TreeOf(d)
    ensures var e, to := MidMove(d, fold, n, parent), MovedDir(d, fold, n, parent);
            x in TreeOf(e) && Keeps(e, to, x) <==>
              && x in TreeOf(d)
              && (|| !InSubtree(TreeOf(d), n, x) || TreeOf(d)[n].parent.None?
                  || PathLess(PathOf(d, TreeOf(d)[n].parent.value), to))
  {
    MidMoveEntries(d, fold, n, parent);
    MidMoveTop(d, n);
    MidMoveTree(d, fold, n, parent);
    UnlistedSubtree(TreeOf(d), n);
    TreeKeyed(d);
    if TreeOf(d)[n].parent.Some? { OldParentStays(d, n); }
  }

  /** The old parent's directory does not lie below the node's. */
  lemma OldParentStays(d: Disk, n: NodeId)
    requires Placed(d) && n in TreeOf(d) && TreeOf(d)[n].parent.Some?
    ensures TreeOf(d)[n].parent.value in TreeOf(d)
    ensures !(PathOf(d, n) <= PathOf(d, TreeOf(d)[n].parent.value))
  {
    ParentOnDisk(d, n);
    DiskAcyclic(d);
    ParentOutside(TreeOf(d), n);
    SubtreeIsPrefix(d, PathOf(d, n), PathOf(d, TreeOf(d)[n].parent.value));
  }
}
