/** What the filesystem writes do to the disk, and that on the forest they are the tree operations. */
module DiskOps {
  import opened Domain
  import opened Seqs
  import opened Forests
  import opened Trees
  import opened Slugs
  import opened Disks

  // ---------- choosing a directory name ----------

  function ChildNames(d: Disk, p: Path): set<string> {
    set q | q in d && q != [] && Up(q) == p :: Name(q)
  }

  predicate Taken(names: set<string>, exclude: Option<string>, name: string) {
    name in names && exclude != Some(name)
  }

  /** The first of base, base-2, base-3, ... that is unused or the excluded name itself. */
  ghost predicate FirstFree(names: set<string>, base: string, exclude: Option<string>, k: nat) {
    && k >= 1 && !Taken(names, exclude, Candidate(base, k))
    && forall j :: 1 <= j < k ==> Taken(names, exclude, Candidate(base, j))
  }

  /** Pigeonhole: finitely many names cannot take every candidate. */
  lemma CandidatesRunOut(names: set<string>, base: string, k: nat)
    requires forall j :: 1 <= j < k ==> Candidate(base, j) in names
    ensures k <= |names| + 1
  {
    if k > 0 {
      var tried := seq(k - 1, j requires 0 <= j => Candidate(base, j + 1));
      forall i, j | 0 <= i < j < |tried| ensures tried[i] != tried[j] {
        CandidatesDistinct(base, i + 1, j + 1);
      }
      forall x | x in tried ensures x in names {
        var i :| 0 <= i < |tried| && tried[i] == x;
      }
      NoDupBound(tried, names);
    }
  }

  lemma {:induction false} FirstFreeExists(names: set<string>, base: string, exclude: Option<string>, from: nat)
    returns (k: nat)
    requires from >= 1 && forall j :: 1 <= j < from ==> Taken(names, exclude, Candidate(base, j))
    ensures FirstFree(names, base, exclude, k)
    decreases |names| + 1 - from
  {
    if Taken(names, exclude, Candidate(base, from)) {
      CandidatesRunOut(names, base, from + 1);
      k := FirstFreeExists(names, base, exclude, from + 1);
    } else {
      k := from;
    }
  }

  ghost function UniqueSlug(names: set<string>, base: string, exclude: Option<string>): (name: string)
    ensures exists k: nat :: FirstFree(names, base, exclude, k) && name == Candidate(base, k)
  {
    Candidate(base, FirstFreeAt(names, base, exclude))
  }

  ghost function FirstFreeAt(names: set<string>, base: string, exclude: Option<string>): (k: nat)
    ensures FirstFree(names, base, exclude, k)
  {
    assert exists k: nat :: FirstFree(names, base, exclude, k) by {
      var k := FirstFreeExists(names, base, exclude, 1);
    }
    var k: nat :| FirstFree(names, base, exclude, k); k
  }

  lemma FirstFreeUnique(names: set<string>, base: string, exclude: Option<string>, j: nat, k: nat)
    requires FirstFree(names, base, exclude, j) && FirstFree(names, base, exclude, k)
    ensures j == k
  {
  }

  lemma UniqueSlugIs(names: set<string>, base: string, exclude: Option<string>, k: nat)
    requires FirstFree(names, base, exclude, k)
    ensures UniqueSlug(names, base, exclude) == Candidate(base, k)
  {
    FirstFreeUnique(names, base, exclude, FirstFreeAt(names, base, exclude), k);
  }

  /** The directory a write creates or renames to. */
  ghost function Target(d: Disk, fold: string -> string, parent: Path, title: string, exclude: Option<string>): Path {
    parent + [UniqueSlug(ChildNames(d, parent), Slugify(fold, title), exclude)]
  }

  lemma TargetFree(d: Disk, fold: string -> string, parent: Path, title: string, exclude: Option<string>)
    ensures var to := Target(d, fold, parent, title, exclude);
            && Up(to) == parent && Visible(Name(to))
            && (to in d ==> exclude == Some(Name(to)))
  {
    var to := Target(d, fold, parent, title, exclude);
    var names, base := ChildNames(d, parent), Slugify(fold, title);
    var k: nat :| FirstFree(names, base, exclude, k) && Name(to) == Candidate(base, k);
    SlugifyIsSlug(fold, title);
    CandidateVisible(base, k);
    assert Up(to) == parent;
    if to in d { assert Name(to) in names; }
  }

  // ---------- the writes ----------

  lemma DirOwner(d: Disk, parent: Option<NodeId>)
    requires Placed(d) && (parent.Some? ==> parent.value in TreeOf(d))
    ensures Container(d, DirOf(d, parent)) && OwnerId(d, DirOf(d, parent)) == parent
    ensures parent.Some? ==> DirOf(d, parent) != []
  {
    if parent.Some? { assert EntryOk(d, PathOf(d, parent.value)); }
  }

  ghost function DirOf(d: Disk, parent: Option<NodeId>): Path
    requires UniqueIds(d) && (parent.Some? ==> parent.value in TreeOf(d))
  {
    if parent.Some? then PathOf(d, parent.value) else []
  }

  /** One record rewritten in place. */
  ghost function Written(d: Disk, node: Node): Disk
    requires UniqueIds(d) && node.id in TreeOf(d)
  {
    d[PathOf(d, node.id) := node]
  }

  ghost function WithChildren(d: Disk, x: NodeId, children: seq<NodeId>): Disk
    requires UniqueIds(d) && x in TreeOf(d)
  {
    Written(d, TreeOf(d)[x].(children := children))
  }

  lemma WrittenTree(d: Disk, node: Node)
    requires Placed(d) && node.id in TreeOf(d) && node.parent == TreeOf(d)[node.id].parent
    ensures Placed(Written(d, node))
    ensures TreeOf(Written(d, node)) == TreeOf(d)[node.id := node]
    ensures PathsKept(d, Written(d, node))
  {
    WriteTree(d, PathOf(d, node.id), node);
    WriteKeepsPlaced(d, PathOf(d, node.id), node);
  }

  function OnDisk(node: Node, parent: Option<NodeId>): Node {
    node.(children := [], parent := if parent.Some? then parent else node.parent)
  }

  /** For what callers provide that is the node as given, below the parent given. */
  lemma OnDiskPlain(node: Node, parent: Option<NodeId>)
    requires parent.None? ==> node.parent == None
    ensures OnDisk(node, parent) == node.(children := [], parent := parent)
  {
  }

  /** What callers of `create_node` provide: a fresh id, and a parent that exists;
      a node for the root names no parent itself. */
  ghost predicate Creatable(d: Disk, node: Node, parent: Option<NodeId>)
    requires UniqueIds(d)
  {
    && node.id !in TreeOf(d)
    && if parent.Some? then parent.value in TreeOf(d) else node.parent == None
  }

  ghost function NewDir(d: Disk, fold: string -> string, node: Node, parent: Option<NodeId>): Path
    requires Placed(d) && Creatable(d, node, parent)
  {
    Target(d, fold, DirOf(d, parent), node.title, None)
  }

  lemma NewDirTree(d: Disk, fold: string -> string, node: Node, parent: Option<NodeId>)
    requires Placed(d) && Creatable(d, node, parent)
    ensures var e := d[NewDir(d, fold, node, parent) := OnDisk(node, parent)];
            && NewDir(d, fold, node, parent) !in d
            && Placed(e) && TreeOf(e) == Added(TreeOf(d), OnDisk(node, parent))
            && PathOf(e, node.id) == NewDir(d, fold, node, parent)
            && PathsKept(d, e)
  {
    TargetFree(d, fold, DirOf(d, parent), node.title, None);
    DirOwner(d, parent);
    NewTree(d, NewDir(d, fold, node, parent), OnDisk(node, parent));
  }

  /** `create_node`: a directory with an empty child list, appended to the parent's. */
  ghost function Created(d: Disk, fold: string -> string, node: Node, parent: Option<NodeId>): Disk
    requires Placed(d) && Creatable(d, node, parent)
  {
    NewDirTree(d, fold, node, parent);
    AppendedDisk(d[NewDir(d, fold, node, parent) := OnDisk(node, parent)], parent, node.id)
  }

  ghost function AppendedDisk(d: Disk, parent: Option<NodeId>, c: NodeId): Disk
    requires UniqueIds(d) && (parent.Some? ==> parent.value in TreeOf(d))
  {
    if parent.None? then d
    else WithChildren(d, parent.value, Appended(TreeOf(d)[parent.value].children, c))
  }

  lemma AppendRefines(d: Disk, parent: Option<NodeId>, c: NodeId)
    requires Placed(d) && (parent.Some? ==> parent.value in TreeOf(d))
    ensures var e := AppendedDisk(d, parent, c);
            && Placed(e) && PathsKept(d, e)
            && TreeOf(e) == if parent.None? then TreeOf(d)
                            else SetChildren(TreeOf(d), parent.value, Appended(TreeOf(d)[parent.value].children, c))
  {
    if parent.Some? {
      RelistRefines(d, parent.value, Appended(TreeOf(d)[parent.value].children, c));
    }
  }

  /** The forest after `create_node`: add, then attach. */
  ghost function CreatedTree(t: Forest, node: Node, parent: Option<NodeId>): Forest
    requires node.id !in t && (parent.Some? ==> parent.value in t)
  {
    var u := Added(t, OnDisk(node, parent));
    if parent.None? then u else Attached(u, node.id, parent.value)
  }

  /** Attaching the freshly added record only appends it to the parent's list. */
  lemma AddThenAttach(t: Forest, node: Node, parent: Option<NodeId>)
    requires node.id !in t && (parent.Some? ==> parent.value in t)
    ensures CreatedTree(t, node, parent) ==
              var u := Added(t, OnDisk(node, parent));
              if parent.None? then u else SetChildren(u, parent.value, Appended(u[parent.value].children, node.id))
  {
    if parent.Some? {
      var u := Added(t, OnDisk(node, parent));
      assert SetParent(u, node.id, parent) == u;
    }
  }

  lemma CreateRefines(d: Disk, fold: string -> string, node: Node, parent: Option<NodeId>)
    requires Placed(d) && Creatable(d, node, parent)
    ensures var e := Created(d, fold, node, parent);
            && Placed(e) && TreeOf(e) == CreatedTree(TreeOf(d), node, parent)
            && PathOf(e, node.id) == NewDir(d, fold, node, parent) && PathsKept(d, e)
  {
    NewDirTree(d, fold, node, parent);
    var e := d[NewDir(d, fold, node, parent) := OnDisk(node, parent)];
    AppendRefines(e, parent, node.id);
    PathsKeptTwice(d, e, AppendedDisk(e, parent, node.id));
    AddThenAttach(TreeOf(d), node, parent);
  }

  lemma RelistRefines(d: Disk, p: NodeId, children: seq<NodeId>)
    requires Placed(d) && p in TreeOf(d)
    ensures var e := WithChildren(d, p, children);
            Placed(e) && TreeOf(e) == SetChildren(TreeOf(d), p, children) && PathsKept(d, e)
  {
    TreeKeyed(d);
    WrittenTree(d, TreeOf(d)[p].(children := children));
  }

  /** `rename_node`: the directory is re-slugged, then the record gets the title. */
  ghost function RenamedDir(d: Disk, fold: string -> string, n: NodeId, title: string): Path
    requires Placed(d) && n in TreeOf(d)
  {
    var from := PathOf(d, n);
    assert EntryOk(d, from);
    Target(d, fold, Up(from), title, Some(Name(from)))
  }

  lemma RenameCanMove(d: Disk, fold: string -> string, n: NodeId, title: string)
    requires Placed(d) && n in TreeOf(d)
    ensures PathOf(d, n) != [] && CanMove(d, PathOf(d, n), RenamedDir(d, fold, n, title))
    ensures Up(RenamedDir(d, fold, n, title)) == Up(PathOf(d, n))
  {
    var from := PathOf(d, n);
    assert EntryOk(d, from);
    TargetFree(d, fold, Up(from), title, Some(Name(from)));
    var to := RenamedDir(d, fold, n, title);
    assert from == Up(from) + [Name(from)] && to == Up(from) + [Name(to)];
  }

  /** The disk after the directory was renamed but before the record is rewritten. */
  ghost function Reslugged(d: Disk, fold: string -> string, n: NodeId, title: string): Disk
    requires Placed(d) && n in TreeOf(d)
  {
    RenameCanMove(d, fold, n, title);
    Renamed(d, PathOf(d, n), RenamedDir(d, fold, n, title))
  }

  ghost function Retitled(d: Disk, fold: string -> string, n: NodeId, title: string): Disk
    requires Placed(d) && n in TreeOf(d)
  {
    RenameCanMove(d, fold, n, title);
    Reslugged(d, fold, n, title)[RenamedDir(d, fold, n, title) := TreeOf(d)[n].(title := title)]
  }

  lemma RenameRefines(d: Disk, fold: string -> string, n: NodeId, title: string)
    requires Placed(d) && n in TreeOf(d)
    ensures var e := Retitled(d, fold, n, title);
            && Placed(e) && TreeOf(e) == TreeOf(d)[n := TreeOf(d)[n].(title := title)]
            && PathsMoved(d, e, PathOf(d, n), RenamedDir(d, fold, n, title))
  {
    var from, to, node := PathOf(d, n), RenamedDir(d, fold, n, title), TreeOf(d)[n].(title := title);
    RenameCanMove(d, fold, n, title);
    assert EntryOk(d, from);
    RewrittenRefines(d, from, to, node);
  }

  /** A title that is blank leaves the directory renamed and the record alone. */
  lemma ReslugRefines(d: Disk, fold: string -> string, n: NodeId, title: string)
    requires Placed(d) && n in TreeOf(d)
    ensures Placed(Reslugged(d, fold, n, title)) && TreeOf(Reslugged(d, fold, n, title)) == TreeOf(d)
  {
    RenameCanMove(d, fold, n, title);
    RenameOnly(d, PathOf(d, n), RenamedDir(d, fold, n, title));
  }

  /** A rename that is refused for its blank title leaves the disk unchanged
      exactly when the directory would have kept its name. */
  lemma ReslugUnchangedIff(d: Disk, fold: string -> string, n: NodeId, title: string)
    requires Placed(d) && n in TreeOf(d)
    ensures Reslugged(d, fold, n, title) == d <==> RenamedDir(d, fold, n, title) == PathOf(d, n)
  {
    RenameCanMove(d, fold, n, title);
    RenamedSameIff(d, PathOf(d, n), RenamedDir(d, fold, n, title));
  }

  /** Renaming within the same container keeps everything but paths. */
  lemma RenameOnly(d: Disk, from: Path, to: Path)
    requires Placed(d) && CanMove(d, from, to) && from != [] && Up(to) == Up(from)
    ensures Placed(Renamed(d, from, to)) && TreeOf(Renamed(d, from, to)) == TreeOf(d)
  {
    assert EntryOk(d, from);
    MoveKeepsPlaced(d, from, to, d[from]);
    RenameTree(d, from, to);
    var e := Renamed(d, from, to);
    UpdateSame(e, to);
  }

  /** A child list with c inserted at the position, or last. */
  function PutAtOrLast(children: seq<NodeId>, c: NodeId, position: Option<int>): seq<NodeId> {
    if position.None? then Without(children, c) + [c] else PutAt(children, c, position.value)
  }

  /** The disk after taking n off its parent's list. */
  ghost function UnlistedDisk(d: Disk, n: NodeId): Disk
    requires Placed(d) && n in TreeOf(d)
  {
    ParentOnDisk(d, n);
    match TreeOf(d)[n].parent
    case None => d
    case Some(p) => WithChildren(d, p, Without(TreeOf(d)[p].children, n))
  }

  lemma ParentOnDisk(d: Disk, n: NodeId)
    requires Placed(d) && n in TreeOf(d)
    ensures TreeOf(d)[n].parent.Some? ==> TreeOf(d)[n].parent.value in TreeOf(d)
  {
    var p := PathOf(d, n);
    assert EntryOk(d, p);
    if p != [] && Up(p) != [] { PathOfIs(d, Up(p)); }
  }

  lemma UnlistRefines(d: Disk, n: NodeId)
    requires Placed(d) && n in TreeOf(d)
    ensures TreeOf(d)[n].parent.Some? ==> TreeOf(d)[n].parent.value in TreeOf(d)
    ensures Placed(UnlistedDisk(d, n)) && TreeOf(UnlistedDisk(d, n)) == Unlisted(TreeOf(d), n)
    ensures PathsKept(d, UnlistedDisk(d, n))
  {
    ParentOnDisk(d, n);
    if TreeOf(d)[n].parent.Some? {
      var p := TreeOf(d)[n].parent.value;
      RelistRefines(d, p, Without(TreeOf(d)[p].children, n));
    }
  }

  /** A move is refused when the new parent is the node or lies below it. */
  ghost predicate Movable(d: Disk, n: NodeId, parent: Option<NodeId>)
    requires Placed(d)
  {
    && n in TreeOf(d)
    && (parent.Some? ==> parent.value in TreeOf(d) && !(PathOf(d, n) <= PathOf(d, parent.value)))
  }

  ghost function MovedDir(d: Disk, fold: string -> string, n: NodeId, parent: Option<NodeId>): Path
    requires Placed(d) && Movable(d, n, parent)
  {
    Target(d, fold, DirOf(d, parent), TreeOf(d)[n].title, None)
  }

  lemma MoveCanMove(d: Disk, fold: string -> string, n: NodeId, parent: Option<NodeId>)
    requires Placed(d) && Movable(d, n, parent)
    ensures var to := MovedDir(d, fold, n, parent);
            to !in d && CanMove(d, PathOf(d, n), to) && Up(to) == DirOf(d, parent)
            && OwnerId(d, Up(to)) == parent
  {
    var dir := DirOf(d, parent);
    assert EntryOk(d, PathOf(d, n));
    DirOwner(d, parent);
    TargetFree(d, fold, dir, TreeOf(d)[n].title, None);
  }

  /** Only child lists differ, so the same directories can move. */
  lemma CanMoveAfterUnlist(d: Disk, n: NodeId, from: Path, to: Path)
    requires Placed(d) && n in TreeOf(d) && CanMove(d, from, to)
    ensures Placed(UnlistedDisk(d, n)) && CanMove(UnlistedDisk(d, n), from, to)
    ensures OwnerId(UnlistedDisk(d, n), Up(to)) == OwnerId(d, Up(to))
    ensures UnlistedDisk(d, n)[from].id == d[from].id
  {
    UnlistRefines(d, n);
    UnlistKeepsIds(d, n);
  }

  lemma UnlistKeepsIds(d: Disk, n: NodeId)
    requires Placed(d) && n in TreeOf(d)
    ensures UnlistedDisk(d, n).Keys == d.Keys
    ensures forall p :: p in d ==> UnlistedDisk(d, n)[p].id == d[p].id
  {
    ParentOnDisk(d, n);
    if TreeOf(d)[n].parent.Some? {
      var up := PathOf(d, TreeOf(d)[n].parent.value);
      assert TreeOf(d)[TreeOf(d)[n].parent.value] == d[up];
    }
  }

  /** The middle of a move: n unlisted, its directory renamed, its record rewritten. */
  ghost function Relocated(d: Disk, n: NodeId, to: Path, node: Node): Disk
    requires Placed(d) && n in TreeOf(d) && CanMove(d, PathOf(d, n), to)
  {
    CanMoveAfterUnlist(d, n, PathOf(d, n), to);
    Renamed(UnlistedDisk(d, n), PathOf(d, n), to)[to := node]
  }

  lemma RelocatedRefines(d: Disk, n: NodeId, to: Path, node: Node)
    requires Placed(d) && n in TreeOf(d) && CanMove(d, PathOf(d, n), to)
    requires node.id == n && node.parent == OwnerId(d, Up(to))
    ensures TreeOf(d)[n].parent.Some? ==> TreeOf(d)[n].parent.value in TreeOf(d)
    ensures var e := Relocated(d, n, to, node);
            && Placed(e) && TreeOf(e) == Unlisted(TreeOf(d), n)[n := node]
            && PathsMoved(d, e, PathOf(d, n), to)
  {
    var from := PathOf(d, n);
    CanMoveAfterUnlist(d, n, from, to);
    UnlistRefines(d, n);
    var d1 := UnlistedDisk(d, n);
    RewrittenRefines(d1, from, to, node);
    PathsKeptThenMoved(d, d1, Renamed(d1, from, to)[to := node], from, to);
  }

  /** A directory renamed and its record rewritten. */
  lemma RewrittenRefines(d: Disk, from: Path, to: Path, node: Node)
    requires Placed(d) && CanMove(d, from, to)
    requires node.id == d[from].id && node.parent == OwnerId(d, Up(to))
    ensures var e := Renamed(d, from, to)[to := node];
            && Placed(e) && TreeOf(e) == TreeOf(d)[node.id := node] && PathsMoved(d, e, from, to)
  {
    MoveKeepsPlaced(d, from, to, node);
    RenameTree(d, from, to);
    var r := Renamed(d, from, to);
    WriteTree(r, to, node);
    PathsMovedThenKept(d, r, r[to := node], from, to);
  }

  ghost function HalfMoved(d: Disk, fold: string -> string, n: NodeId, parent: Option<NodeId>): Disk
    requires Placed(d) && Movable(d, n, parent)
  {
    MoveCanMove(d, fold, n, parent);
    Relocated(d, n, MovedDir(d, fold, n, parent), TreeOf(d)[n].(parent := parent))
  }

  lemma HalfMovedRefines(d: Disk, fold: string -> string, n: NodeId, parent: Option<NodeId>)
    requires Placed(d) && Movable(d, n, parent)
    ensures TreeOf(d)[n].parent.Some? ==> TreeOf(d)[n].parent.value in TreeOf(d)
    ensures var e := HalfMoved(d, fold, n, parent);
            && Placed(e) && TreeOf(e) == SetParent(Unlisted(TreeOf(d), n), n, parent)
            && PathsMoved(d, e, PathOf(d, n), MovedDir(d, fold, n, parent))
  {
    MoveCanMove(d, fold, n, parent);
    RelocatedRefines(d, n, MovedDir(d, fold, n, parent), TreeOf(d)[n].(parent := parent));
    NotOwnParent(d, n);
  }

  lemma NotOwnParent(d: Disk, n: NodeId)
    requires Placed(d) && n in TreeOf(d)
    ensures TreeOf(d)[n].parent.Some? ==> TreeOf(d)[n].parent.value in TreeOf(d)
    ensures TreeOf(d)[n].parent != Some(n)
    ensures Unlisted(TreeOf(d), n)[n] == TreeOf(d)[n]
  {
    DiskAcyclic(d);
  }

  /** `move_node`: unlist, rename the directory, rewrite the parent, list again. */
  ghost function MovedDisk(d: Disk, fold: string -> string, n: NodeId, parent: Option<NodeId>,
                           position: Option<int>): Disk
    requires Placed(d) && Movable(d, n, parent)
  {
    HalfMovedRefines(d, fold, n, parent);
    var e := HalfMoved(d, fold, n, parent);
    if parent.None? then e
    else WithChildren(e, parent.value, PutAtOrLast(TreeOf(e)[parent.value].children, n, position))
  }

  /** The forest after `move_node`. */
  ghost function MovedTree(t: Forest, n: NodeId, parent: Option<NodeId>, position: Option<int>): Forest
    requires n in t && (t[n].parent.Some? ==> t[n].parent.value in t)
    requires parent.Some? ==> parent.value in t
  {
    var u := SetParent(Unlisted(t, n), n, parent);
    if parent.None? then u
    else SetChildren(u, parent.value, PutAtOrLast(u[parent.value].children, n, position))
  }

  /** Directory renaming and record rewriting amount to the move on the forest. */
  lemma MoveRefines(d: Disk, fold: string -> string, n: NodeId, parent: Option<NodeId>, position: Option<int>)
    requires Placed(d) && Movable(d, n, parent)
    ensures TreeOf(d)[n].parent.Some? ==> TreeOf(d)[n].parent.value in TreeOf(d)
    ensures var e := MovedDisk(d, fold, n, parent, position);
            && Placed(e) && TreeOf(e) == MovedTree(TreeOf(d), n, parent, position)
            && PathsMoved(d, e, PathOf(d, n), MovedDir(d, fold, n, parent))
  {
    HalfMovedRefines(d, fold, n, parent);
    if parent.Some? {
      var e := HalfMoved(d, fold, n, parent);
      RelistRefines(e, parent.value, PutAtOrLast(TreeOf(e)[parent.value].children, n, position));
      PathsMovedThenKept(d, e, MovedDisk(d, fold, n, parent, position), PathOf(d, n), MovedDir(d, fold, n, parent));
    }
  }

  ghost function Deleted(d: Disk, n: NodeId): Disk
    requires Placed(d) && n in TreeOf(d)
  {
    Cut(UnlistedDisk(d, n), PathOf(d, n))
  }

  /** `delete_node` removes exactly the subtree and its listing. */
  lemma DeleteRefines(d: Disk, n: NodeId)
    requires Placed(d) && n in TreeOf(d)
    ensures TreeOf(d)[n].parent.Some? ==> TreeOf(d)[n].parent.value in TreeOf(d)
    ensures Acyclic(TreeOf(d))
    ensures var e := Deleted(d, n);
            && Placed(e) && TreeOf(e) == SubtreeRemoved(TreeOf(d), n) && PathsKept(d, e)
  {
    DiskAcyclic(d);
    UnlistRefines(d, n);
    UnlistKeepsIds(d, n);
    SubtreeAfterUnlist(TreeOf(d), n);
    var d1 := UnlistedDisk(d, n);
    CutTree(d1, PathOf(d, n));
    assert d1[PathOf(d, n)].id == n;
    PathsKeptTwice(d, d1, Cut(d1, PathOf(d, n)));
  }

  lemma SubtreeAfterUnlist(t: Forest, n: NodeId)
    requires Acyclic(t) && n in t && (t[n].parent.Some? ==> t[n].parent.value in t)
    ensures Acyclic(Unlisted(t, n))
    ensures SubtreeRemoved(t, n) ==
              map x | x in Unlisted(t, n) && !InSubtree(Unlisted(t, n), n, x) :: Unlisted(t, n)[x]
  {
    var u := Unlisted(t, n);
    AcyclicCongruence(t, u);
    forall x | x in t ensures InSubtree(u, n, x) <==> InSubtree(t, n, x) {
      ChainCongruence(t, u, x);
    }
  }

  // ---------- on a well-formed disk ----------

  /** Create keeps the disk well-formed; on the forest it is add, then attach. */
  lemma CreateKeepsWF(d: Disk, fold: string -> string, node: Node, parent: Option<NodeId>)
    requires WF(d) && Creatable(d, node, parent)
    ensures var e := Created(d, fold, node, parent);
            WF(e) && TreeOf(e) == CreatedTree(TreeOf(d), node, parent)
  {
    CreateRefines(d, fold, node, parent);
    WFIff(d);
    AddKeeps(TreeOf(d), OnDisk(node, parent));
    WFIff(Created(d, fold, node, parent));
  }

  /** Rename keeps the disk well-formed; on the forest it changes one title. */
  lemma RenameKeepsWF(d: Disk, fold: string -> string, n: NodeId, title: string)
    requires WF(d) && n in TreeOf(d)
    ensures var e := Retitled(d, fold, n, title);
            WF(e) && TreeOf(e) == TreeOf(d)[n := TreeOf(d)[n].(title := title)]
  {
    RenameRefines(d, fold, n, title);
    WFIff(d);
    RewriteKeeps(TreeOf(d), TreeOf(d)[n].(title := title));
    WFIff(Retitled(d, fold, n, title));
  }

  lemma ReslugKeepsWF(d: Disk, fold: string -> string, n: NodeId, title: string)
    requires WF(d) && n in TreeOf(d)
    ensures WF(Reslugged(d, fold, n, title))
  {
    ReslugRefines(d, fold, n, title);
    WFIff(d);
    WFIff(Reslugged(d, fold, n, title));
  }

  /** A record may change its title and metadata freely. */
  lemma RewriteKeeps(t: Forest, node: Node)
    requires WellFormed(t) && node.id in t
    requires node.parent == t[node.id].parent && node.children == t[node.id].children
    ensures WellFormed(t[node.id := node])
  {
    var u := t[node.id := node];
    AcyclicCongruence(t, u);
    assert forall x :: x in t ==> u[x].children == t[x].children && u[x].parent == t[x].parent;
  }

  /** On a well-formed forest the filesystem's move is detach, then insert at
      the same clamped position, or detach alone. */
  ghost function MoveOp(t: Forest, n: NodeId, parent: Option<NodeId>, position: Option<int>): Forest
    requires n in t && (t[n].parent.Some? ==> t[n].parent.value in t)
    requires parent.Some? ==> parent.value in t
  {
    if parent.None? then Detached(t, n) else Inserted(Detached(t, n), parent.value, n, position)
  }

  lemma MoveIsDetachInsert(t: Forest, n: NodeId, parent: Option<NodeId>, position: Option<int>)
    requires WellFormed(t) && n in t
    requires parent.Some? ==> parent.value in t && !InSubtree(t, n, parent.value)
    ensures MovedTree(t, n, parent, position) == MoveOp(t, n, parent, position)
    ensures WellFormed(MovedTree(t, n, parent, position))
  {
    DetachKeeps(t, n);
    if parent.Some? {
      ReparentRoots(t, Detached(t, n), n, None, parent.value);
      InsertKeeps(Detached(t, n), parent.value, n, position);
      SameInsertion(t, n, parent.value, position);
    }
  }

  lemma SameInsertion(t: Forest, n: NodeId, p: NodeId, position: Option<int>)
    requires TwoWay(t) && n in t && p in t && n != p
    ensures MovedTree(t, n, Some(p), position) == Inserted(Detached(t, n), p, n, position)
  {
    var v := Unlisted(t, n);
    UnlistedNowhere(t, n, p);
    AppendThenPut(v[p].children, n, position);
    SetParentTwice(v, n, None, Some(p));
    var w := SetParent(v, n, Some(p));
    assert w[p] == v[p] && Detached(t, n)[p] == v[p];
    if position.Some? {
      SetChildrenTwice(w, p, Appended(v[p].children, n), PutAt(Appended(v[p].children, n), n, position.value));
    }
  }

  lemma UnlistedNowhere(t: Forest, n: NodeId, p: NodeId)
    requires TwoWay(t) && n in t && p in t
    ensures n !in Unlisted(t, n)[p].children
  {
    assert n in t[p].children ==> t[n].parent == Some(p);
  }

  lemma SetParentTwice(t: Forest, n: NodeId, a: Option<NodeId>, b: Option<NodeId>)
    requires n in t
    ensures SetParent(SetParent(t, n, a), n, b) == SetParent(t, n, b)
  {
  }

  lemma SetChildrenTwice(t: Forest, p: NodeId, a: seq<NodeId>, b: seq<NodeId>)
    requires p in t
    ensures SetChildren(SetChildren(t, p, a), p, b) == SetChildren(t, p, b)
  {
  }

  lemma AppendThenPut(children: seq<NodeId>, n: NodeId, position: Option<int>)
    requires n !in children
    ensures PutAtOrLast(children, n, position) ==
              if position.None? then Appended(children, n) else PutAt(Appended(children, n), n, position.value)
  {
    WithoutConcat(children, [n], n);
    assert Without([n], n) == [];
    assert Without(Appended(children, n), n) == Without(children, n) + [] == children;
  }

  lemma MoveKeepsWF(d: Disk, fold: string -> string, n: NodeId, parent: Option<NodeId>, position: Option<int>)
    requires WF(d) && Movable(d, n, parent)
    ensures TreeOf(d)[n].parent.Some? ==> TreeOf(d)[n].parent.value in TreeOf(d)
    ensures var e := MovedDisk(d, fold, n, parent, position);
            WF(e) && TreeOf(e) == MoveOp(TreeOf(d), n, parent, position)
  {
    WFIff(d);
    MoveRefines(d, fold, n, parent, position);
    MovableIff(d, n, parent);
    MoveIsDetachInsert(TreeOf(d), n, parent, position);
    WFIff(MovedDisk(d, fold, n, parent, position));
  }

  lemma MovableIff(d: Disk, n: NodeId, parent: Option<NodeId>)
    requires Placed(d)
    ensures Acyclic(TreeOf(d))
    ensures Movable(d, n, parent) <==>
              && n in TreeOf(d)
              && (parent.Some? ==> parent.value in TreeOf(d) && !InSubtree(TreeOf(d), n, parent.value))
  {
    DiskAcyclic(d);
    if n in TreeOf(d) && parent.Some? && parent.value in TreeOf(d) {
      SubtreeIsPrefix(d, PathOf(d, n), PathOf(d, parent.value));
    }
  }

  /** Delete keeps the disk well-formed; on the forest it removes the subtree. */
  lemma DeleteKeepsWF(d: Disk, n: NodeId)
    requires WF(d) && n in TreeOf(d)
    ensures Acyclic(TreeOf(d))
    ensures var e := Deleted(d, n); WF(e) && TreeOf(e) == SubtreeRemoved(TreeOf(d), n)
  {
    WFIff(d);
    DeleteRefines(d, n);
    SubtreeRemovedKeeps(TreeOf(d), n);
    WFIff(Deleted(d, n));
  }
}
