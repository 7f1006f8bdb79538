/** The workspace on disk, as node records indexed by directory path, and the forest it encodes. */
module Disks {
  import opened Domain
  import opened Seqs
  import opened Forests
  import opened Slugs

  /** Directory names from the workspace root down. */
  type Path = seq<string>

  /** Every node directory with the record in its `node.json`. */
  type Disk = map<Path, Node>

  function Up(p: Path): Path
    requires p != []
  {
    p[..|p| - 1]
  }

  function Name(p: Path): string
    requires p != []
  {
    p[|p| - 1]
  }

  // ---------- well-formedness ----------

  predicate SameId(d: Disk, p: Path, q: Path)
    requires p in d && q in d
  {
    d[p].id == d[q].id
  }

  ghost predicate UniqueIds(d: Disk) {
    forall p, q {:trigger SameId(d, p, q)} :: p in d && q in d && SameId(d, p, q) ==> p == q
  }

  /** The workspace root, or a node directory. */
  predicate Container(d: Disk, p: Path) {
    p == [] || p in d
  }

  /** The id of the node a container holds the children of. */
  function OwnerId(d: Disk, p: Path): Option<NodeId>
    requires Container(d, p)
  {
    if p == [] then None else Some(d[p].id)
  }

  /** A directory is visible to the walks, lies in a container, and its
      `parent_id` is the id of the enclosing node. */
  ghost predicate EntryOk(d: Disk, p: Path)
    requires p in d
  {
    p != [] && Visible(Name(p)) && Container(d, Up(p)) && d[p].parent == OwnerId(d, Up(p))
  }

  /** The half of well-formedness that every write keeps: ids are unique and
      every directory agrees with its place. */
  ghost predicate Placed(d: Disk) {
    UniqueIds(d) && forall p {:trigger EntryOk(d, p)} :: p in d ==> EntryOk(d, p)
  }

  ghost predicate HasChild(d: Disk, p: Path, c: NodeId) {
    exists s :: p + [s] in d && d[p + [s]].id == c
  }

  /** `children_ids` lists exactly the immediate child directories, without repeats. */
  ghost predicate Listed(d: Disk) {
    forall p :: p in d ==>
      && NoDup(d[p].children)
      && forall c :: c in d[p].children <==> HasChild(d, p, c)
  }

  ghost predicate WF(d: Disk) {
    Placed(d) && Listed(d)
  }

  // ---------- the forest on disk ----------

  /** The records keyed by id, whatever directory they lie in. */
  ghost function TreeOf(d: Disk): (t: Forest)
    requires UniqueIds(d)
    ensures Encodes(d, t)
  {
    assert forall p, q :: p in d && q in d && d[p].id == d[q].id ==> SameId(d, p, q);
    map p | p in d :: d[p].id := d[p]
  }

  ghost predicate Encodes(d: Disk, t: Forest) {
    && (forall p :: p in d ==> d[p].id in t && t[d[p].id] == d[p])
    && (forall x :: x in t ==> exists p :: p in d && d[p].id == x)
  }

  lemma TreeIs(d: Disk, t: Forest)
    requires UniqueIds(d) && Encodes(d, t)
    ensures TreeOf(d) == t
  {
    assert TreeOf(d).Keys == t.Keys;
  }

  lemma TreeKeyed(d: Disk)
    requires UniqueIds(d)
    ensures Keyed(TreeOf(d))
  {
  }

  ghost function PathOf(d: Disk, x: NodeId): (p: Path)
    requires UniqueIds(d) && x in TreeOf(d)
    ensures p in d && d[p].id == x && TreeOf(d)[x] == d[p]
  {
    var p :| p in d && d[p].id == x; p
  }

  lemma PathOfIs(d: Disk, p: Path)
    requires UniqueIds(d) && p in d
    ensures d[p].id in TreeOf(d) && PathOf(d, d[p].id) == p
  {
    assert SameId(d, p, PathOf(d, d[p].id));
  }

  /** Directory nesting witnesses acyclicity. */
  lemma DiskAcyclic(d: Disk)
    requires Placed(d)
    ensures Acyclic(TreeOf(d))
  {
    var t := TreeOf(d);
    var rank := map x | x in t :: |PathOf(d, x)|;
    forall x | x in t && t[x].parent.Some?
      ensures t[x].parent.value in t && rank[t[x].parent.value] < rank[x]
    {
      var p := PathOf(d, x);
      assert EntryOk(d, p);
      PathOfIs(d, Up(p));
    }
    assert Ranked(t, rank);
  }

  lemma PrefixUp(a: Path, p: Path)
    requires p != []
    ensures a <= p <==> a == p || a <= Up(p)
  {
    if a <= p && a != p { assert Up(p)[..|a|] == p[..|a|] == a; }
    if a <= Up(p) { assert p[..|a|] == Up(p)[..|a|] == a; }
  }

  lemma {:induction false} AncestorOnDisk(d: Disk, a: Path, p: Path)
    requires Placed(d) && p in d && a != [] && a <= p
    ensures a in d
    decreases |p|
  {
    assert EntryOk(d, p);
    PrefixUp(a, p);
    if a != p { AncestorOnDisk(d, a, Up(p)); }
  }

  /** Descendants are exactly the directories below. */
  lemma {:induction false} SubtreeIsPrefix(d: Disk, p: Path, q: Path)
    requires Placed(d) && p in d && q in d
    ensures Acyclic(TreeOf(d))
    ensures InSubtree(TreeOf(d), d[p].id, d[q].id) <==> p <= q
    decreases |q|
  {
    DiskAcyclic(d);
    var t := TreeOf(d);
    assert EntryOk(d, q) && EntryOk(d, p);
    PrefixUp(p, q);
    var c := Chain(t, d[q].id);
    if |q| > 1 {
      SubtreeIsPrefix(d, p, Up(q));
      assert c == [d[q].id] + Chain(t, d[Up(q)].id);
    } else {
      assert c == [d[q].id];
    }
    if d[p].id == d[q].id { assert SameId(d, p, q); }
  }

  /** Full well-formedness, restated on the forest. */
  lemma WFIff(d: Disk)
    ensures WF(d) <==> Placed(d) && WellFormed(TreeOf(d))
  {
    if Placed(d) {
      DiskAcyclic(d);
      TreeKeyed(d);
      if Listed(d) { ListedTwoWay(d); }
      if TwoWay(TreeOf(d)) { TwoWayListed(d); }
    }
  }

  lemma ListedTwoWay(d: Disk)
    requires Placed(d) && Listed(d)
    ensures TwoWay(TreeOf(d))
  {
    var t := TreeOf(d);
    forall x | x in t ensures NoDup(t[x].children) {
      var p := PathOf(d, x);
    }
    forall c | c in t && t[c].parent.Some?
      ensures t[c].parent.value in t && c in t[t[c].parent.value].children
    {
      var q := PathOf(d, c);
      assert EntryOk(d, q);
      assert EntryOk(d, Up(q));
      ChildDirectory(d, Up(q), c);
      PathOfIs(d, Up(q));
    }
    forall x, c | x in t && c in t[x].children ensures c in t && t[c].parent == Some(x) {
      assert EntryOk(d, PathOf(d, x));
      ChildDirectory(d, PathOf(d, x), c);
    }
  }

  lemma TwoWayListed(d: Disk)
    requires Placed(d) && TwoWay(TreeOf(d))
    ensures Listed(d)
  {
    var t := TreeOf(d);
    forall p | p in d
      ensures NoDup(d[p].children)
      ensures forall c :: c in d[p].children <==> HasChild(d, p, c)
    {
      assert t[d[p].id] == d[p] && EntryOk(d, p);
      forall c ensures c in d[p].children <==> HasChild(d, p, c) {
        ChildDirectory(d, p, c);
      }
    }
  }

  /** The child directories of p hold the nodes whose parent is p's node. */
  lemma ChildDirectory(d: Disk, p: Path, c: NodeId)
    requires Placed(d) && p in d && EntryOk(d, p)
    ensures HasChild(d, p, c) <==> c in TreeOf(d) && TreeOf(d)[c].parent == Some(d[p].id)
  {
    if HasChild(d, p, c) {
      var s :| p + [s] in d && d[p + [s]].id == c;
      var q := p + [s];
      assert EntryOk(d, q) && Up(q) == p && p != [];
      PathOfIs(d, q);
    }
    if c in TreeOf(d) && TreeOf(d)[c].parent == Some(d[p].id) {
      var q := PathOf(d, c);
      assert EntryOk(d, q);
      assert SameId(d, Up(q), p);
      var s := Name(q);
      assert q == p + [s];
      assert p + [s] in d && d[p + [s]].id == c;
    }
  }

  /** Nodes present on both disks lie in the same directories. */
  ghost predicate PathsKept(d: Disk, e: Disk)
    requires UniqueIds(d) && UniqueIds(e)
  {
    forall x :: x in TreeOf(d) && x in TreeOf(e) ==> PathOf(e, x) == PathOf(d, x)
  }

  /** Nodes present on both disks lie where the directory renaming puts them. */
  ghost predicate PathsMoved(d: Disk, e: Disk, from: Path, to: Path)
    requires UniqueIds(d) && UniqueIds(e)
  {
    forall x :: x in TreeOf(d) && x in TreeOf(e) ==> PathOf(e, x) == Reroot(from, to, PathOf(d, x))
  }

  lemma PathsKeptThenMoved(d: Disk, e: Disk, f: Disk, from: Path, to: Path)
    requires UniqueIds(d) && UniqueIds(e) && UniqueIds(f) && TreeOf(d).Keys <= TreeOf(e).Keys
    requires PathsKept(d, e) && PathsMoved(e, f, from, to)
    ensures PathsMoved(d, f, from, to)
  {
  }

  lemma PathsMovedThenKept(d: Disk, e: Disk, f: Disk, from: Path, to: Path)
    requires UniqueIds(d) && UniqueIds(e) && UniqueIds(f) && TreeOf(d).Keys <= TreeOf(e).Keys
    requires PathsMoved(d, e, from, to) && PathsKept(e, f)
    ensures PathsMoved(d, f, from, to)
  {
  }

  lemma PathsKeptTwice(d: Disk, e: Disk, f: Disk)
    requires UniqueIds(d) && UniqueIds(e) && UniqueIds(f) && TreeOf(d).Keys <= TreeOf(e).Keys
    requires PathsKept(d, e) && PathsKept(e, f)
    ensures PathsKept(d, f)
  {
  }

  lemma UpdateSame(d: Disk, p: Path)
    requires p in d
    ensures d[p := d[p]] == d
  {
  }

  // ---------- rewriting one record ----------

  /** Rewriting a record under its own id. */
  lemma WriteTree(d: Disk, p: Path, node: Node)
    requires UniqueIds(d) && p in d && node.id == d[p].id
    ensures UniqueIds(d[p := node])
    ensures TreeOf(d[p := node]) == TreeOf(d)[node.id := node]
    ensures PathsKept(d, d[p := node])
  {
    var e := d[p := node];
    forall q, r | q in e && r in e && SameId(e, q, r) ensures q == r {
      assert SameId(d, q, r);
    }
    var t := TreeOf(d)[node.id := node];
    forall q | q in e ensures e[q].id in t && t[e[q].id] == e[q] {
      if e[q].id == node.id { assert SameId(d, q, p); }
    }
    forall x | x in t ensures exists q :: q in e && e[q].id == x {
      assert e[PathOf(d, x)].id == x;
    }
    TreeIs(e, t);
    forall x | x in TreeOf(d) ensures PathOf(e, x) == PathOf(d, x) {
      PathOfIs(e, PathOf(d, x));
    }
  }

  lemma WriteKeepsPlaced(d: Disk, p: Path, node: Node)
    requires Placed(d) && p in d && node.id == d[p].id && node.parent == d[p].parent
    ensures Placed(d[p := node])
  {
    WriteTree(d, p, node);
    forall q | q in d ensures EntryOk(d[p := node], q) {
      assert EntryOk(d, q);
    }
  }

  // ---------- renaming a directory ----------

  function Reroot(from: Path, to: Path, p: Path): Path {
    if from <= p then to + p[|from|..] else p
  }

  /** The target is the directory itself or a new one, in a container outside
      the old directory. */
  ghost predicate CanMove(d: Disk, from: Path, to: Path) {
    && from in d && to != [] && Visible(Name(to))
    && (to == from || to !in d)
    && Container(d, Up(to)) && !(from <= Up(to))
  }

  lemma CanMoveOutside(d: Disk, from: Path, to: Path)
    requires CanMove(d, from, to)
    ensures Reroot(from, to, Up(to)) == Up(to)
    ensures to != from ==> !(from <= to)
  {
    PrefixUp(from, to);
  }

  lemma RerootInjective(d: Disk, from: Path, to: Path, p: Path, q: Path)
    requires Placed(d) && CanMove(d, from, to) && p in d && q in d
    ensures Reroot(from, to, p) == Reroot(from, to, q) ==> p == q
  {
    if to != from {
      NothingBelowNew(d, to, p);
      NothingBelowNew(d, to, q);
    }
    assert from <= p ==> Reroot(from, to, p)[|to|..] == p[|from|..] && p == from + p[|from|..];
    assert from <= q ==> Reroot(from, to, q)[|to|..] == q[|from|..] && q == from + q[|from|..];
    assert from <= p ==> to <= Reroot(from, to, p);
    assert from <= q ==> to <= Reroot(from, to, q);
  }

  lemma NothingBelowNew(d: Disk, to: Path, p: Path)
    requires Placed(d) && to != [] && to !in d && p in d
    ensures !(to <= p)
  {
    if to <= p { AncestorOnDisk(d, to, p); }
  }

  /** e is d after `old_dir.rename(new_dir)`: every path below changes its prefix. */
  ghost predicate IsRenamed(d: Disk, from: Path, to: Path, e: Disk) {
    && (forall p {:trigger Reroot(from, to, p)} :: p in d ==>
          Reroot(from, to, p) in e && e[Reroot(from, to, p)] == d[p])
    && (forall q :: q in e ==> exists p {:trigger Reroot(from, to, p)} :: p in d && q == Reroot(from, to, p))
  }

  ghost function Renamed(d: Disk, from: Path, to: Path): (e: Disk)
    requires Placed(d) && CanMove(d, from, to)
    ensures IsRenamed(d, from, to, e)
  {
    assert forall p, q :: p in d && q in d && Reroot(from, to, p) == Reroot(from, to, q) ==> p == q by {
      forall p, q | p in d && q in d && Reroot(from, to, p) == Reroot(from, to, q) ensures p == q {
        RerootInjective(d, from, to, p, q);
      }
    }
    map p | p in d :: Reroot(from, to, p) := d[p]
  }

  /** A renaming changes nothing exactly when source and target are the same. */
  lemma RenamedSameIff(d: Disk, from: Path, to: Path)
    requires Placed(d) && CanMove(d, from, to)
    ensures Renamed(d, from, to) == d <==> to == from
  {
    var e := Renamed(d, from, to);
    assert Reroot(from, to, from) == to + [] == to;
    if to == from {
      forall p ensures Reroot(from, to, p) == p {
        if from <= p { assert p == from + p[|from|..]; }
      }
      assert e.Keys == d.Keys;
    }
  }

  /** Where a directory is called what does not show in the forest. */
  lemma RenameTree(d: Disk, from: Path, to: Path)
    requires Placed(d) && CanMove(d, from, to)
    ensures UniqueIds(Renamed(d, from, to))
    ensures TreeOf(Renamed(d, from, to)) == TreeOf(d)
    ensures PathsMoved(d, Renamed(d, from, to), from, to)
  {
    var e, t := Renamed(d, from, to), TreeOf(d);
    RenameUnique(d, from, to);
    forall q | q in e ensures e[q].id in t && t[e[q].id] == e[q] {
      var p :| p in d && q == Reroot(from, to, p);
    }
    forall x | x in t ensures exists q :: q in e && e[q].id == x {
      assert e[Reroot(from, to, PathOf(d, x))].id == x;
    }
    TreeIs(e, t);
    forall x | x in t ensures PathOf(e, x) == Reroot(from, to, PathOf(d, x)) {
      PathOfIs(e, Reroot(from, to, PathOf(d, x)));
    }
  }

  lemma RenameUnique(d: Disk, from: Path, to: Path)
    requires Placed(d) && CanMove(d, from, to)
    ensures UniqueIds(Renamed(d, from, to))
  {
    var e := Renamed(d, from, to);
    forall p, q | p in e && q in e && SameId(e, p, q) ensures p == q {
      var p' :| p' in d && p == Reroot(from, to, p');
      var q' :| q' in d && q == Reroot(from, to, q');
      assert SameId(d, p', q');
    }
  }

  /** One level up commutes with re-rooting, except at the moved directory itself. */
  lemma RerootUp(from: Path, to: Path, p: Path)
    requires p != [] && from != [] && to != []
    ensures p == from ==> Reroot(from, to, p) == to
    ensures p != from ==> var q := Reroot(from, to, p);
              q != [] && Name(q) == Name(p) && Up(q) == Reroot(from, to, Up(p))
  {
    PrefixUp(from, p);
    if from <= p {
      var rest := p[|from|..];
      assert p == from + rest;
      if p != from {
        var q := to + rest;
        assert rest[|rest| - 1] == Name(p);
        assert Up(p)[|from|..] == rest[..|rest| - 1];
        assert Up(q) == to + rest[..|rest| - 1];
      }
    }
  }

  /** Moving a directory and rewriting its record to name the enclosing node
      keeps the placement half of well-formedness. */
  lemma MoveKeepsPlaced(d: Disk, from: Path, to: Path, node: Node)
    requires Placed(d) && CanMove(d, from, to)
    requires node.id == d[from].id && node.parent == OwnerId(d, Up(to))
    ensures to in Renamed(d, from, to) && Renamed(d, from, to)[to] == d[from]
    ensures Placed(Renamed(d, from, to)[to := node])
  {
    MovedUnique(d, from, to, node);
    var e := Renamed(d, from, to);
    forall q | q in e ensures EntryOk(e[to := node], q) {
      EveryEntry(d, from, to, node, q);
    }
  }

  lemma MovedUnique(d: Disk, from: Path, to: Path, node: Node)
    requires Placed(d) && CanMove(d, from, to) && node.id == d[from].id
    ensures to in Renamed(d, from, to) && Renamed(d, from, to)[to] == d[from]
    ensures UniqueIds(Renamed(d, from, to)[to := node])
  {
    assert EntryOk(d, from);
    RerootUp(from, to, from);
    RenameUnique(d, from, to);
    WriteTree(Renamed(d, from, to), to, node);
  }

  lemma EveryEntry(d: Disk, from: Path, to: Path, node: Node, q: Path)
    requires Placed(d) && CanMove(d, from, to)
    requires to in Renamed(d, from, to) && Renamed(d, from, to)[to] == d[from]
    requires node.id == d[from].id && node.parent == OwnerId(d, Up(to))
    requires q in Renamed(d, from, to)
    ensures EntryOk(Renamed(d, from, to)[to := node], q)
  {
    assert EntryOk(d, from);
    RerootUp(from, to, from);
    var p :| p in d && q == Reroot(from, to, p);
    if p == from { TopEntry(d, from, to, node); } else { MovedEntry(d, from, to, node, p); }
  }

  /** A container stays one, with the same owner, under its new path. */
  lemma ContainerMoves(d: Disk, from: Path, to: Path, node: Node, p: Path)
    requires Placed(d) && CanMove(d, from, to) && Container(d, p)
    requires node.id == d[from].id && to in Renamed(d, from, to) && Renamed(d, from, to)[to] == d[from]
    ensures var f := Renamed(d, from, to)[to := node];
            Container(f, Reroot(from, to, p)) && OwnerId(f, Reroot(from, to, p)) == OwnerId(d, p)
  {
    assert EntryOk(d, from);
    if p == [] {
      assert Reroot(from, to, p) == [];
    } else {
      assert Reroot(from, to, p) != [];
    }
  }

  /** The moved directory itself. */
  lemma TopEntry(d: Disk, from: Path, to: Path, node: Node)
    requires Placed(d) && CanMove(d, from, to)
    requires to in Renamed(d, from, to) && Renamed(d, from, to)[to] == d[from]
    requires node.id == d[from].id && node.parent == OwnerId(d, Up(to))
    ensures EntryOk(Renamed(d, from, to)[to := node], to)
  {
    CanMoveOutside(d, from, to);
    ContainerMoves(d, from, to, node, Up(to));
  }

  /** Every other directory. */
  lemma MovedEntry(d: Disk, from: Path, to: Path, node: Node, p: Path)
    requires Placed(d) && CanMove(d, from, to) && p in d && p != from
    requires to in Renamed(d, from, to) && Renamed(d, from, to)[to] == d[from]
    requires node.id == d[from].id
    ensures var q := Reroot(from, to, p);
            q in Renamed(d, from, to) && EntryOk(Renamed(d, from, to)[to := node], q)
  {
    assert EntryOk(d, p) && EntryOk(d, from);
    RerootUp(from, to, p);
    RerootUp(from, to, from);
    RerootInjective(d, from, to, p, from);
    ContainerMoves(d, from, to, node, Up(p));
    assert Reroot(from, to, p) != to;
  }

  // ---------- removing a directory tree ----------

  ghost function Cut(d: Disk, from: Path): Disk {
    map p | p in d && !(from <= p) :: d[p]
  }

  lemma CutKeepsPlaced(d: Disk, from: Path)
    requires Placed(d) && from != []
    ensures Placed(Cut(d, from))
  {
    var e := Cut(d, from);
    forall p, q | p in e && q in e && SameId(e, p, q) ensures p == q {
      assert SameId(d, p, q);
    }
    forall p | p in e ensures EntryOk(e, p) {
      assert EntryOk(d, p);
      PrefixUp(from, p);
    }
  }

  /** Removing a directory tree removes exactly the subtree of its node. */
  lemma CutTree(d: Disk, from: Path)
    requires Placed(d) && from in d
    ensures Placed(Cut(d, from)) && Acyclic(TreeOf(d))
    ensures TreeOf(Cut(d, from)) == map x | x in TreeOf(d) && !InSubtree(TreeOf(d), d[from].id, x) :: TreeOf(d)[x]
    ensures PathsKept(d, Cut(d, from))
  {
    DiskAcyclic(d);
    assert EntryOk(d, from);
    CutKeepsPlaced(d, from);
    var e, t := Cut(d, from), TreeOf(d);
    var u := map x | x in t && !InSubtree(t, d[from].id, x) :: t[x];
    forall p | p in d ensures d[p].id in u <==> p in e {
      SubtreeIsPrefix(d, from, p);
    }
    forall x | x in u ensures exists p :: p in e && e[p].id == x {
      assert PathOf(d, x) in e;
    }
    TreeIs(e, u);
    forall x | x in u ensures x in t && PathOf(e, x) == PathOf(d, x) {
      PathOfIs(d, PathOf(e, x));
    }
  }

  // ---------- a new directory ----------

  lemma NewPlaced(d: Disk, p: Path, node: Node)
    requires Placed(d) && p != [] && p !in d && Visible(Name(p)) && Container(d, Up(p))
    requires node.id !in TreeOf(d) && node.parent == OwnerId(d, Up(p))
    ensures Placed(d[p := node])
  {
    var e := d[p := node];
    forall q, r | q in e && r in e && SameId(e, q, r) ensures q == r {
      if q != p && r != p { assert SameId(d, q, r); }
    }
    forall q | q in e ensures EntryOk(e, q) {
      if q != p { assert EntryOk(d, q); }
    }
  }

  lemma NewTree(d: Disk, p: Path, node: Node)
    requires Placed(d) && p != [] && p !in d && Visible(Name(p)) && Container(d, Up(p))
    requires node.id !in TreeOf(d) && node.parent == OwnerId(d, Up(p))
    ensures Placed(d[p := node])
    ensures TreeOf(d[p := node]) == TreeOf(d)[node.id := node]
    ensures PathOf(d[p := node], node.id) == p
    ensures PathsKept(d, d[p := node])
  {
    var e := d[p := node];
    NewPlaced(d, p, node);
    var t := TreeOf(d)[node.id := node];
    forall x | x in t ensures exists q :: q in e && e[q].id == x {
      if x == node.id { assert e[p].id == x; } else { assert e[PathOf(d, x)].id == x; }
    }
    TreeIs(e, t);
    PathOfIs(e, p);
    forall x | x in TreeOf(d) ensures PathOf(e, x) == PathOf(d, x) {
      PathOfIs(e, PathOf(d, x));
    }
  }
}
