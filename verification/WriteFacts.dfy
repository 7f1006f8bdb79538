/** The writes in plain terms: every record and every directory after them. */
module WriteFacts {
  import opened Domain
  import opened Seqs
  import opened Forests
  import opened Trees
  import opened Slugs
  import opened Disks
  import opened DiskOps

  // ---------- records ----------

  /** Create adds the node as given, without children, below the parent given,
      and lists it last there. */
  lemma CreatePlain(d: Disk, fold: string -> string, node: Node, parent: Option<NodeId>)
    requires Placed(d) && Creatable(d, node, parent)
    ensures UniqueIds(Created(d, fold, node, parent))
    ensures var t, u := TreeOf(d), TreeOf(Created(d, fold, node, parent));
            && node.id in u && u[node.id] == node.(children := [], parent := parent)
            && OnlyChanges(t, u, if parent.Some? then {node.id, parent.value} else {node.id})
            && (parent.Some? ==>
                  && parent.value in u
                  && SameButChildren(u[parent.value], t[parent.value])
                  && (node.id !in t[parent.value].children ==>
                        u[parent.value].children == t[parent.value].children + [node.id]))
  {
    CreateRefines(d, fold, node, parent);
    CreatedPlain(TreeOf(d), node, parent);
  }

  lemma CreatedPlain(t: Forest, node: Node, parent: Option<NodeId>)
    requires node.id !in t && (parent.Some? ==> parent.value in t) && (parent.None? ==> node.parent == None)
    ensures var u := CreatedTree(t, node, parent);
            && node.id in u && u[node.id] == node.(children := [], parent := parent)
            && OnlyChanges(t, u, if parent.Some? then {node.id, parent.value} else {node.id})
            && (parent.Some? ==>
                  && parent.value in u
                  && SameButChildren(u[parent.value], t[parent.value])
                  && (node.id !in t[parent.value].children ==>
                        u[parent.value].children == t[parent.value].children + [node.id]))
  {
    AddThenAttach(t, node, parent);
  }

  /** Rename changes one title; refused for a blank one it changes no record. */
  lemma RenamePlain(d: Disk, fold: string -> string, n: NodeId, title: string)
    requires Placed(d) && n in TreeOf(d)
    ensures UniqueIds(Retitled(d, fold, n, title)) && UniqueIds(Reslugged(d, fold, n, title))
    ensures TreeOf(Retitled(d, fold, n, title)) == TreeOf(d)[n := TreeOf(d)[n].(title := title)]
    ensures TreeOf(Reslugged(d, fold, n, title)) == TreeOf(d)
  {
    RenameRefines(d, fold, n, title);
    ReslugRefines(d, fold, n, title);
  }

  /** Move gives the node its new parent, drops it from the old list and puts it
      in its place on the new one; every other record stays as it is. */
  lemma MovePlain(d: Disk, fold: string -> string, n: NodeId, parent: Option<NodeId>, position: Option<int>)
    requires Placed(d) && Movable(d, n, parent)
    ensures UniqueIds(MovedDisk(d, fold, n, parent, position))
    ensures IsMoved(TreeOf(d), TreeOf(MovedDisk(d, fold, n, parent, position)), n, parent, position)
  {
    MoveRefines(d, fold, n, parent, position);
    NotOwnParent(d, n);
    MovedPlain(TreeOf(d), n, parent, position);
  }

  ghost predicate IsMoved(t: Forest, u: Forest, n: NodeId, parent: Option<NodeId>, position: Option<int>) {
    && u.Keys == t.Keys && n in t && u[n] == t[n].(parent := parent)
    && (forall x :: x in t && x != n && parent != Some(x) && t[n].parent != Some(x) ==> u[x] == t[x])
    && (forall x :: x in t && t[n].parent == Some(x) && parent != Some(x) ==>
          u[x] == t[x].(children := Without(t[x].children, n)))
    && (forall x :: x in t && parent == Some(x) ==>
          SameButChildren(u[x], t[x]) && Placing(u[x].children, Without(t[x].children, n), n, position))
  }

  /** Last without a position, else where the position says. */
  ghost predicate Placing(list: seq<NodeId>, others: seq<NodeId>, n: NodeId, position: Option<int>) {
    if position.None? then list == others + [n] else Lands(list, others, n, position.value)
  }

  lemma MovedPlain(t: Forest, n: NodeId, parent: Option<NodeId>, position: Option<int>)
    requires n in t && (t[n].parent.Some? ==> t[n].parent.value in t && t[n].parent.value != n)
    requires parent.Some? ==> parent.value in t && parent.value != n
    ensures IsMoved(t, MovedTree(t, n, parent, position), n, parent, position)
  {
    MovedKeysAndNode(t, n, parent, position);
    forall x | x in t && x != n && parent != Some(x)
      ensures MovedTree(t, n, parent, position)[x] ==
                if t[n].parent == Some(x) then t[x].(children := Without(t[x].children, n)) else t[x]
    {
      MovedElsewhere(t, n, parent, position, x);
    }
    if parent.Some? {
      var p := parent.value;
      var list := Unlisted(t, n)[p].children;
      assert Without(list, n) == Without(t[p].children, n);
      PlacedAs(list, n, position);
      MovedParent(t, n, p, position);
    }
  }

  lemma MovedKeysAndNode(t: Forest, n: NodeId, parent: Option<NodeId>, position: Option<int>)
    requires n in t && (t[n].parent.Some? ==> t[n].parent.value in t && t[n].parent.value != n)
    requires parent.Some? ==> parent.value in t && parent.value != n
    ensures var u := MovedTree(t, n, parent, position); u.Keys == t.Keys && u[n] == t[n].(parent := parent)
  {
    assert Unlisted(t, n).Keys == t.Keys;
  }

  lemma MovedElsewhere(t: Forest, n: NodeId, parent: Option<NodeId>, position: Option<int>, x: NodeId)
    requires n in t && (t[n].parent.Some? ==> t[n].parent.value in t && t[n].parent.value != n)
    requires (parent.Some? ==> parent.value in t && parent.value != n) && x in t && x != n && parent != Some(x)
    ensures x in MovedTree(t, n, parent, position)
    ensures MovedTree(t, n, parent, position)[x] ==
              if t[n].parent == Some(x) then t[x].(children := Without(t[x].children, n)) else t[x]
  {
    var v := Unlisted(t, n);
    assert v.Keys == t.Keys;
    assert v[x] == if t[n].parent == Some(x) then t[x].(children := Without(t[x].children, n)) else t[x];
    assert x in SetParent(v, n, parent) && SetParent(v, n, parent)[x] == v[x];
  }

  lemma MovedParent(t: Forest, n: NodeId, p: NodeId, position: Option<int>)
    requires n in t && (t[n].parent.Some? ==> t[n].parent.value in t && t[n].parent.value != n)
    requires p in t && p != n
    ensures var u := MovedTree(t, n, Some(p), position);
            p in u && u[p] == t[p].(children := PutAtOrLast(Unlisted(t, n)[p].children, n, position))
  {
  }

  lemma PlacedAs(children: seq<NodeId>, n: NodeId, position: Option<int>)
    ensures Placing(PutAtOrLast(children, n, position), Without(children, n), n, position)
  {
    if position.Some? { PutAtLands(children, n, position.value); }
  }

  /** Delete drops the node, everything below it, and its listing. */
  lemma DeletePlain(d: Disk, n: NodeId, x: NodeId)
    requires Placed(d) && n in TreeOf(d)
    ensures Acyclic(TreeOf(d)) && UniqueIds(Deleted(d, n))
    ensures var t, u := TreeOf(d), TreeOf(Deleted(d, n));
            && (x in u <==> x in t && n !in Chain(t, x))
            && (x in u ==>
                  u[x] == if t[n].parent == Some(x) then t[x].(children := Without(t[x].children, n)) else t[x])
  {
    DeleteRefines(d, n);
    SubtreeRemovedPlain(TreeOf(d), n, x);
  }

  /** The disk holds this very record under its id. */
  ghost predicate Holds(d: Disk, node: Node) {
    UniqueIds(d) && node.id in TreeOf(d) && TreeOf(d)[node.id] == node
  }

  lemma RenameHeld(d: Disk, fold: string -> string, n: NodeId, title: string)
    requires Placed(d) && n in TreeOf(d)
    ensures Holds(Retitled(d, fold, n, title), TreeOf(d)[n].(title := title))
  {
    TreeKeyed(d);
    RenamePlain(d, fold, n, title);
  }

  lemma MoveHeld(d: Disk, fold: string -> string, n: NodeId, parent: Option<NodeId>, position: Option<int>)
    requires Placed(d) && Movable(d, n, parent)
    ensures Holds(MovedDisk(d, fold, n, parent, position), TreeOf(d)[n].(parent := parent))
  {
    TreeKeyed(d);
    MovePlain(d, fold, n, parent, position);
  }

  // ---------- directories ----------

  /** Another directory in the same place. */
  ghost predicate Sibling(d: Disk, dir: Path, own: Option<Path>, q: Path) {
    q in d && q != [] && Up(q) == dir && own != Some(q)
  }

  ghost predicate HasSibling(d: Disk, dir: Path, own: Option<Path>, name: string) {
    exists q :: Sibling(d, dir, own, q) && Name(q) == name
  }

  /** Siblings have base, base-2, ... up to but not including the k-th candidate. */
  ghost predicate SmallerTaken(d: Disk, dir: Path, own: Option<Path>, base: string, k: nat) {
    forall j: nat :: 1 <= j < k ==> HasSibling(d, dir, own, Candidate(base, j))
  }

  /** The name is the first of base, base-2, base-3, ... that no sibling has. */
  ghost predicate FirstName(d: Disk, dir: Path, own: Option<Path>, base: string, name: string) {
    && (forall q :: Sibling(d, dir, own, q) ==> Name(q) != name)
    && exists k: nat :: k >= 1 && name == Candidate(base, k) && SmallerTaken(d, dir, own, base, k)
  }

  lemma TargetName(d: Disk, fold: string -> string, dir: Path, title: string, own: Option<Path>)
    requires own.Some? ==> own.value in d && own.value != [] && Up(own.value) == dir
    ensures var to := Target(d, fold, dir, title, if own.Some? then Some(Name(own.value)) else None);
            to != [] && Up(to) == dir && FirstName(d, dir, own, Slugify(fold, title), Name(to))
  {
    var exclude := if own.Some? then Some(Name(own.value)) else None;
    var to, base := Target(d, fold, dir, title, exclude), Slugify(fold, title);
    var k: nat :| FirstFree(ChildNames(d, dir), base, exclude, k) && Name(to) == Candidate(base, k);
    assert Up(to) == dir;
    forall q | Sibling(d, dir, own, q) ensures Name(q) != Name(to) {
      SiblingTakes(d, dir, own, q);
    }
    forall j: nat | 1 <= j < k ensures HasSibling(d, dir, own, Candidate(base, j)) {
      var q := TakenBy(d, dir, own, Candidate(base, j));
    }
    assert SmallerTaken(d, dir, own, base, k);
  }

  lemma SiblingTakes(d: Disk, dir: Path, own: Option<Path>, q: Path)
    requires Sibling(d, dir, own, q) && (own.Some? ==> own.value != [] && Up(own.value) == dir)
    ensures Taken(ChildNames(d, dir), if own.Some? then Some(Name(own.value)) else None, Name(q))
  {
    assert q == Up(q) + [Name(q)];
    if own.Some? { assert own.value == Up(own.value) + [Name(own.value)]; }
  }

  lemma TakenBy(d: Disk, dir: Path, own: Option<Path>, name: string) returns (q: Path)
    requires own.Some? ==> own.value != [] && Up(own.value) == dir
    requires Taken(ChildNames(d, dir), if own.Some? then Some(Name(own.value)) else None, name)
    ensures Sibling(d, dir, own, q) && Name(q) == name
  {
    q :| q in d && q != [] && Up(q) == dir && Name(q) == name;
  }

  /** A new node's directory lies in its parent's, under the first free name made
      of its title; no other directory moves. */
  lemma CreateDirectory(d: Disk, fold: string -> string, node: Node, parent: Option<NodeId>)
    requires Placed(d) && Creatable(d, node, parent)
    ensures UniqueIds(Created(d, fold, node, parent)) && node.id in TreeOf(Created(d, fold, node, parent))
    ensures var e, dir := Created(d, fold, node, parent), if parent.Some? then PathOf(d, parent.value) else [];
            var to := PathOf(e, node.id);
            && to != [] && Up(to) == dir && FirstName(d, dir, None, Slugify(fold, node.title), Name(to))
            && forall x :: x in TreeOf(d) && x in TreeOf(e) ==> PathOf(e, x) == PathOf(d, x)
  {
    CreatePlain(d, fold, node, parent);
    CreateRefines(d, fold, node, parent);
    TargetName(d, fold, DirOf(d, parent), node.title, None);
  }

  /** Where a directory goes when one above it, or it, is renamed. */
  ghost predicate MovedAlong(d: Disk, e: Disk, from: Path, to: Path)
    requires UniqueIds(d) && UniqueIds(e)
  {
    forall x :: x in TreeOf(d) && x in TreeOf(e) ==>
      PathOf(e, x) == if from <= PathOf(d, x) then to + PathOf(d, x)[|from|..] else PathOf(d, x)
  }

  /** A renamed node stays where it is, under the first name made of its new title
      that no other directory there has, its own name included. */
  lemma RenameDirectory(d: Disk, fold: string -> string, n: NodeId, title: string)
    requires Placed(d) && n in TreeOf(d)
    ensures UniqueIds(Retitled(d, fold, n, title)) && PathOf(d, n) != []
    ensures var from, to := PathOf(d, n), RenamedDir(d, fold, n, title);
            && to != [] && Up(to) == Up(from)
            && FirstName(d, Up(from), Some(from), Slugify(fold, title), Name(to))
            && MovedAlong(d, Retitled(d, fold, n, title), from, to)
  {
    RenameCanMove(d, fold, n, title);
    RenameRefines(d, fold, n, title);
    TargetName(d, fold, Up(PathOf(d, n)), title, Some(PathOf(d, n)));
  }

  /** A moved node goes to its new parent's directory, under the first name made
      of its title that is free there; its own old directory counts as taken. */
  lemma MoveDirectory(d: Disk, fold: string -> string, n: NodeId, parent: Option<NodeId>, position: Option<int>)
    requires Placed(d) && Movable(d, n, parent)
    ensures UniqueIds(MovedDisk(d, fold, n, parent, position))
    ensures var dir, to := if parent.Some? then PathOf(d, parent.value) else [], MovedDir(d, fold, n, parent);
            && to != [] && Up(to) == dir && FirstName(d, dir, None, Slugify(fold, TreeOf(d)[n].title), Name(to))
            && MovedAlong(d, MovedDisk(d, fold, n, parent, position), PathOf(d, n), to)
  {
    MoveRefines(d, fold, n, parent, position);
    TargetName(d, fold, DirOf(d, parent), TreeOf(d)[n].title, None);
  }

  /** Delete moves no directory. */
  lemma DeleteDirectories(d: Disk, n: NodeId)
    requires Placed(d) && n in TreeOf(d)
    ensures UniqueIds(Deleted(d, n))
    ensures forall x :: x in TreeOf(d) && x in TreeOf(Deleted(d, n)) ==> PathOf(Deleted(d, n), x) == PathOf(d, x)
  {
    DeleteRefines(d, n);
  }
}
