/** The filesystem layer: directory walks, and the writes as sequences of single steps. */
module LocalFilesystems {
  import opened Domain
  import opened Seqs
  import opened Order
  import opened Forests
  import opened Trees
  import opened Slugs
  import opened Disks
  import opened DiskOps
  import opened WriteFacts

  /** Pre-order with sorted siblings: a directory before its contents, otherwise
      by the first name that differs. */
  ghost predicate PathLess(p: Path, q: Path) {
    p < q || exists i {:trigger Less(p[i], q[i])} :: 0 <= i < |p| && i < |q| && p[..i] == q[..i] && Less(p[i], q[i])
  }

  ghost predicate Ascending(ps: seq<Path>) {
    forall i, j :: 0 <= i < j < |ps| ==> PathLess(ps[i], ps[j])
  }

  lemma AscendingConcat(a: seq<Path>, b: seq<Path>)
    requires Ascending(a) && Ascending(b)
    requires forall p, q :: p in a && q in b ==> PathLess(p, q)
    ensures Ascending(a + b)
  {
    var c := a + b;
    forall i, j | 0 <= i < j < |c| ensures PathLess(c[i], c[j]) {
      if i < |a| <= j { assert c[i] in a && c[j] in b; }
    }
  }

  lemma SiblingsApart(base: Path, s: string, s': string, p: Path, q: Path)
    requires Less(s, s') && base + [s] <= p && base + [s'] <= q
    ensures PathLess(p, q)
  {
    var i := |base|;
    assert p[..i] == (base + [s])[..i] == base && q[..i] == (base + [s'])[..i] == base;
    assert p[i] == s && q[i] == s';
  }

  /** A directory in front of those below it. */
  lemma Block(d: Disk, child: Path, inside: seq<Path>) returns (block: seq<Path>)
    requires child in d && Ascending(inside) && forall p :: p in inside <==> p in d && child < p
    ensures block == [child] + inside && Ascending(block) && forall p :: p in block <==> p in d && child <= p
  {
    block := [child] + inside;
    AscendingConcat([child], inside);
    forall p ensures p in block <==> p in d && child <= p {
      PrefixCases(child, p);
    }
  }

  /** Below one of the first i children. */
  ghost predicate BelowSome(base: Path, names: seq<string>, i: nat, p: Path) {
    exists j {:trigger names[j]} :: 0 <= j < i && j < |names| && base + [names[j]] <= p
  }

  lemma BeforeBlock(base: Path, names: seq<string>, i: nat, p: Path, q: Path)
    requires Sorted(names) && i < |names| && BelowSome(base, names, i, p) && base + [names[i]] <= q
    ensures PathLess(p, q)
  {
    var j :| 0 <= j < i && base + [names[j]] <= p;
    SiblingsApart(base, names[j], names[i], p, q);
  }

  ghost function StrictlyBelow(d: Disk, base: Path): set<Path> {
    set p | p in d && base < p
  }

  lemma DescentShrinks(d: Disk, base: Path, c: Path)
    requires c in d && base < c
    ensures |StrictlyBelow(d, c)| < |StrictlyBelow(d, base)|
  {
    assert StrictlyBelow(d, c) <= StrictlyBelow(d, base) - {c};
    SubsetSize(StrictlyBelow(d, c), StrictlyBelow(d, base) - {c});
  }

  /** Every directory below the base lies below exactly one of its children. */
  lemma ChildAbove(d: Disk, base: Path, p: Path)
    requires Placed(d) && p in d && base < p
    ensures p[|base|] in ChildNames(d, base) && base + [p[|base|]] <= p
  {
    var c := p[..|base| + 1];
    assert c == base + [p[|base|]] && c <= p;
    AncestorOnDisk(d, c, p);
    assert Up(c) == base && Name(c) == p[|base|];
  }

  lemma ChildOnDisk(d: Disk, base: Path, s: string)
    requires s in ChildNames(d, base)
    ensures base + [s] in d && base < base + [s]
  {
    var q :| q in d && q != [] && Up(q) == base && Name(q) == s;
    assert q == base + [s];
  }

  lemma PrefixCases(a: Path, p: Path)
    ensures a <= p <==> p == a || a < p
  {
  }

  lemma AllBelowRoot(d: Disk)
    requires Placed(d)
    ensures forall p :: p in d ==> [] < p
  {
    forall p | p in d ensures [] < p {
      assert EntryOk(d, p);
    }
  }

  lemma AllBelow(d: Disk, base: Path, names: seq<string>, p: Path)
    requires Placed(d) && forall x :: x in names <==> x in ChildNames(d, base)
    ensures p in d && BelowSome(base, names, |names|, p) <==> p in d && base < p
  {
    if p in d && base < p {
      ChildAbove(d, base, p);
      var j :| 0 <= j < |names| && names[j] == p[|base|];
    }
  }

  class LocalFilesystem {
    var dirs: Disk
    const fold: string -> string

    constructor (d: Disk, f: string -> string)
      ensures dirs == d && fold == f
    {
      dirs := d;
      fold := f;
    }

    /** All directories below the base, in sorted pre-order. */
    method DescendantDirs(base: Path) returns (ps: seq<Path>)
      requires Placed(dirs)
      ensures Ascending(ps) && forall p :: p in ps <==> p in dirs && base < p
      decreases |StrictlyBelow(dirs, base)|
    {
      ps := [];
      var names := SortNames(ChildNames(dirs, base));
      for i := 0 to |names|
        invariant Ascending(ps)
        invariant forall p :: p in ps <==> p in dirs && BelowSome(base, names, i, p)
      {
        var child := base + [names[i]];
        assert names[i] in names;
        ChildOnDisk(dirs, base, names[i]);
        DescentShrinks(dirs, base, child);
        var inside := DescendantDirs(child);
        ghost var block := Block(dirs, child, inside);
        forall p, q | p in ps && q in block ensures PathLess(p, q) {
          BeforeBlock(base, names, i, p, q);
        }
        AscendingConcat(ps, block);
        ghost var before := ps;
        ps := ps + [child] + inside;
        assert ps == before + block;
      }
      forall p ensures p in ps <==> p in dirs && base < p {
        AllBelow(dirs, base, names, p);
      }
    }

    /** The directory of a node, found by walking the workspace. */
    method NodeDir(nodeId: NodeId) returns (r: Option<Path>)
      requires Placed(dirs)
      ensures r == if nodeId in TreeOf(dirs) then Some(PathOf(dirs, nodeId)) else None
    {
      var ps := DescendantDirs([]);
      AllBelowRoot(dirs);
      for i := 0 to |ps|
        invariant forall j :: 0 <= j < i ==> ps[j] in dirs && dirs[ps[j]].id != nodeId
      {
        assert ps[i] in ps;
        if dirs[ps[i]].id == nodeId {
          PathOfIs(dirs, ps[i]);
          return Some(ps[i]);
        }
      }
      assert forall p :: p in dirs ==> p in ps;
      return None;
    }

    method LoadNode(nodeId: NodeId) returns (r: Result<Node>)
      requires Placed(dirs)
      ensures r == if nodeId in TreeOf(dirs) then Ok(TreeOf(dirs)[nodeId]) else Err(NodeNotFound(nodeId))
    {
      var dir := NodeDir(nodeId);
      if dir.None? { return Err(NodeNotFound(nodeId)); }
      return Ok(dirs[dir.value]);
    }

    /** Tries base, base-2, base-3, ... until a name is free or is the excluded one. */
    method FindUniqueSlug(parent: Path, base: string, exclude: Option<string>) returns (candidate: string)
      ensures candidate == UniqueSlug(ChildNames(dirs, parent), base, exclude)
    {
      var names := ChildNames(dirs, parent);
      candidate := base;
      var n := 2;
      while candidate in names && exclude != Some(candidate)
        invariant n >= 2 && candidate == Candidate(base, n - 1)
        invariant forall j :: 1 <= j < n - 1 ==> Taken(names, exclude, Candidate(base, j))
        decreases |names| + 2 - n
      {
        CandidatesRunOut(names, base, n);
        candidate := base + "-" + Decimal(n);
        n := n + 1;
      }
      UniqueSlugIs(names, base, exclude, n - 1);
    }

    /** The ids of everything stored below a node's directory. */
    method CollectDescendantIds(nodeId: NodeId) returns (ids: set<NodeId>)
      requires Placed(dirs) && nodeId in TreeOf(dirs)
      ensures forall x :: x in ids <==> x in TreeOf(dirs) && PathOf(dirs, nodeId) < PathOf(dirs, x)
    {
      var dir := NodeDir(nodeId);
      var ps := DescendantDirs(dir.value);
      ids := {};
      for i := 0 to |ps|
        invariant forall x :: x in ids <==> exists j :: 0 <= j < i && ps[j] in dirs && dirs[ps[j]].id == x
      {
        assert ps[i] in ps;
        ids := ids + {dirs[ps[i]].id};
      }
      forall x ensures x in ids <==> x in TreeOf(dirs) && PathOf(dirs, nodeId) < PathOf(dirs, x) {
        if x in ids {
          var j :| 0 <= j < |ps| && ps[j] in dirs && dirs[ps[j]].id == x;
          assert ps[j] in ps;
          PathOfIs(dirs, ps[j]);
        }
        if x in TreeOf(dirs) && PathOf(dirs, nodeId) < PathOf(dirs, x) {
          assert PathOf(dirs, x) in ps;
        }
      }
    }

    method AppendChildToParent(parentId: NodeId, childId: NodeId)
      requires Placed(dirs) && parentId in TreeOf(dirs)
      modifies this
      ensures dirs == AppendedDisk(old(dirs), Some(parentId), childId)
    {
      var dir := NodeDir(parentId);
      var node := dirs[dir.value];
      if childId in node.children {
        UpdateSame(dirs, dir.value);
        return;
      }
      dirs := dirs[dir.value := node.(children := node.children + [childId])];
    }

    method RemoveChildFromParent(parentId: NodeId, childId: NodeId)
      requires Placed(dirs) && parentId in TreeOf(dirs)
      modifies this
      ensures dirs == WithChildren(old(dirs), parentId, Without(TreeOf(old(dirs))[parentId].children, childId))
    {
      var dir := NodeDir(parentId);
      var node := dirs[dir.value];
      if childId !in node.children {
        UpdateSame(dirs, dir.value);
        return;
      }
      dirs := dirs[dir.value := node.(children := Without(node.children, childId))];
    }

    method InsertChildToParent(parentId: NodeId, childId: NodeId, position: Option<int>)
      requires Placed(dirs) && parentId in TreeOf(dirs)
      modifies this
      ensures var children := TreeOf(old(dirs))[parentId].children;
              dirs == WithChildren(old(dirs), parentId, PutAtOrLast(children, childId, position))
      ensures exists list :: dirs == WithChildren(old(dirs), parentId, list)
                && Placing(list, Without(TreeOf(old(dirs))[parentId].children, childId), childId, position)
    {
      var dir := NodeDir(parentId);
      var node := dirs[dir.value];
      var children := Without(node.children, childId);
      if position.None? || position.value >= |children| {
        children := children + [childId];
        assert position.Some? ==> PutAt(node.children, childId, position.value) == children;
      } else {
        var at := if 0 < position.value then position.value else 0;
        children := children[..at] + [childId] + children[at..];
      }
      PlacedAs(node.children, childId, position);
      dirs := dirs[dir.value := node.(children := children)];
    }

    /** `old_dir.rename(new_dir)`. */
    method RenameDir(from: Path, to: Path)
      requires Placed(dirs) && CanMove(dirs, from, to)
      modifies this
      ensures dirs == Renamed(old(dirs), from, to)
    {
      forall p, q | p in dirs && q in dirs && Reroot(from, to, p) == Reroot(from, to, q) ensures p == q {
        RerootInjective(dirs, from, to, p, q);
      }
      dirs := map p | p in dirs :: Reroot(from, to, p) := dirs[p];
    }

    method CreateNode(node: Node, parentId: Option<NodeId>) returns (r: Result<Node>)
      requires Placed(dirs) && node.id !in TreeOf(dirs)
      requires parentId.None? ==> node.parent == None
      modifies this
      ensures r == if parentId.Some? && parentId.value !in TreeOf(old(dirs)) then Err(NodeNotFound(parentId.value))
                   else Ok(node.(children := [], parent := parentId))
      ensures r.Err? ==> dirs == old(dirs)
      ensures r.Ok? ==> Creatable(old(dirs), node, parentId) && dirs == Created(old(dirs), fold, node, parentId)
      ensures r.Ok? ==> Holds(dirs, r.value)
    {
      var parentDir: Path := [];
      if parentId.Some? {
        var dir := NodeDir(parentId.value);
        if dir.None? { return Err(NodeNotFound(parentId.value)); }
        parentDir := dir.value;
      }
      NewDirTree(dirs, fold, node, parentId);
      OnDiskPlain(node, parentId);
      CreatePlain(dirs, fold, node, parentId);
      var slug := FindUniqueSlug(parentDir, Slugify(fold, node.title), None);
      var nodeDir := parentDir + [slug];
      dirs := dirs[nodeDir := OnDisk(node, parentId)];
      if parentId.Some? { AppendChildToParent(parentId.value, node.id); }
      return Ok(OnDisk(node, parentId));
    }

    /** The directory is renamed before the title is looked at: a blank title
        fails with the directory already renamed and the record unchanged. */
    method RenameNode(nodeId: NodeId, newTitle: string) returns (r: Result<Node>)
      requires Placed(dirs)
      modifies this
      ensures r == if nodeId !in TreeOf(old(dirs)) then Err(NodeNotFound(nodeId))
                   else if Blank(newTitle) then Err(BlankTitle)
                   else Ok(TreeOf(old(dirs))[nodeId].(title := newTitle))
      ensures dirs == if nodeId !in TreeOf(old(dirs)) then old(dirs)
                      else if Blank(newTitle) then Reslugged(old(dirs), fold, nodeId, newTitle)
                      else Retitled(old(dirs), fold, nodeId, newTitle)
      ensures r.Ok? ==> Holds(dirs, r.value)
    {
      var dir := NodeDir(nodeId);
      if dir.None? { return Err(NodeNotFound(nodeId)); }
      var oldDir := dir.value;
      var oldNode := dirs[oldDir];
      RenameCanMove(dirs, fold, nodeId, newTitle);
      var parentDir := Up(oldDir);
      var newSlug := FindUniqueSlug(parentDir, Slugify(fold, newTitle), Some(Name(oldDir)));
      var newDir := parentDir + [newSlug];
      RenameSteps(dirs, fold, nodeId, newTitle, newDir);
      RenameHeld(dirs, fold, nodeId, newTitle);
      RenameDir(oldDir, newDir);
      if Blank(newTitle) { return Err(BlankTitle); }
      dirs := dirs[newDir := oldNode.(title := newTitle)];
      return Ok(dirs[newDir]);
    }

    method WriteNode(node: Node) returns (r: Result<Node>)
      requires Placed(dirs)
      modifies this
      ensures r == if node.id in TreeOf(old(dirs)) then Ok(node) else Err(NodeNotFound(node.id))
      ensures dirs == if r.Ok? then Written(old(dirs), node) else old(dirs)
      ensures r.Ok? ==> Holds(dirs, node)
    {
      var dir := NodeDir(node.id);
      if dir.None? { return Err(NodeNotFound(node.id)); }
      WriteTree(dirs, dir.value, node);
      dirs := dirs[dir.value := node];
      return Ok(node);
    }

    /** Refuses to move a node into itself or below itself; otherwise unlists it,
        renames its directory, rewrites its parent and lists it again. */
    method MoveNode(nodeId: NodeId, newParentId: Option<NodeId>, position: Option<int>) returns (r: Result<Node>)
      requires Placed(dirs)
      modifies this
      ensures r == MoveOutcome(old(dirs), nodeId, newParentId)
      ensures r.Err? ==> dirs == old(dirs)
      ensures r.Ok? ==> Movable(old(dirs), nodeId, newParentId)
      ensures r.Ok? ==> dirs == MovedDisk(old(dirs), fold, nodeId, newParentId, position)
      ensures r.Ok? ==> Holds(dirs, r.value)
    {
      if newParentId == Some(nodeId) { return Err(InvalidParent); }
      var dir := NodeDir(nodeId);
      if dir.None? { return Err(NodeNotFound(nodeId)); }
      var oldDir := dir.value;
      var node := dirs[oldDir];
      if newParentId.Some? {
        var descendants := CollectDescendantIds(nodeId);
        if newParentId.value in descendants { return Err(InvalidParent); }
      }
      var newParentDir: Path := [];
      if newParentId.Some? {
        var parentDir := NodeDir(newParentId.value);
        if parentDir.None? { return Err(NodeNotFound(newParentId.value)); }
        newParentDir := parentDir.value;
        if newParentDir == oldDir { return Err(InvalidParent); }
      }
      assert Movable(dirs, nodeId, newParentId);
      MoveHeld(dirs, fold, nodeId, newParentId, position);
      Relocate(nodeId, oldDir, node, newParentId, newParentDir);
      HalfMovedRefines(old(dirs), fold, nodeId, newParentId);
      if newParentId.Some? { InsertChildToParent(newParentId.value, nodeId, position); }
      return Ok(node.(parent := newParentId));
    }

    /** Off the old list, under a fresh name in the new directory, naming the new parent. */
    method Relocate(nodeId: NodeId, oldDir: Path, node: Node, newParentId: Option<NodeId>, newParentDir: Path)
      requires Placed(dirs) && Movable(dirs, nodeId, newParentId)
      requires oldDir == PathOf(dirs, nodeId) && node == TreeOf(dirs)[nodeId]
      requires newParentDir == DirOf(dirs, newParentId)
      modifies this
      ensures dirs == HalfMoved(old(dirs), fold, nodeId, newParentId)
    {
      ParentOnDisk(dirs, nodeId);
      UnlistKeepsNames(dirs, nodeId, newParentDir);
      HalfMovedSteps(dirs, fold, nodeId, newParentId);
      if node.parent.Some? { RemoveChildFromParent(node.parent.value, nodeId); }
      var newSlug := FindUniqueSlug(newParentDir, Slugify(fold, node.title), None);
      var newDir := newParentDir + [newSlug];
      RenameDir(oldDir, newDir);
      dirs := dirs[newDir := node.(parent := newParentId)];
    }

    /** Unlists the node, then removes its directory tree. */
    method DeleteNode(nodeId: NodeId) returns (r: Result<()>)
      requires Placed(dirs)
      modifies this
      ensures r == if nodeId in TreeOf(old(dirs)) then Ok(()) else Err(NodeNotFound(nodeId))
      ensures dirs == if r.Ok? then Deleted(old(dirs), nodeId) else old(dirs)
    {
      var dir := NodeDir(nodeId);
      if dir.None? { return Err(NodeNotFound(nodeId)); }
      var directory := dir.value;
      var descendants := DescendantDirs(directory);
      ghost var d := dirs;
      ParentOnDisk(d, nodeId);
      if dirs[directory].parent.Some? { RemoveChildFromParent(dirs[directory].parent.value, nodeId); }
      ghost var d1 := dirs;
      UnlistKeepsIds(d, nodeId);
      RemoveDirs(Reversed(descendants + [directory]));
      DoomedCover(d1, directory, descendants);
      return Ok(());
    }

    /** `for d in doomed: if d.exists(): rmtree(d)`. */
    method RemoveDirs(doomed: seq<Path>)
      requires forall p :: p in doomed ==> p in dirs
      modifies this
      ensures dirs == Surviving(old(dirs), doomed)
    {
      for i := 0 to |doomed|
        invariant dirs == Surviving(old(dirs), doomed[..i])
      {
        var d := doomed[i];
        SurvivingStep(old(dirs), doomed, i);
        if d in dirs {
          dirs := map p | p in dirs && !(d <= p) :: dirs[p];
        }
      }
      assert doomed[..|doomed|] == doomed;
    }
  }

  ghost predicate Hit(doomed: seq<Path>, p: Path) {
    exists q :: q in doomed && q <= p
  }

  /** What is left after removing some directory trees. */
  ghost function Surviving(d: Disk, doomed: seq<Path>): Disk {
    map p | p in d && !Hit(doomed, p) :: d[p]
  }

  /** A directory already gone when its turn comes was removed with one above it. */
  lemma SurvivingStep(d: Disk, doomed: seq<Path>, i: nat)
    requires i < |doomed| && doomed[i] in d
    ensures var e := Surviving(d, doomed[..i]);
            Surviving(d, doomed[..i + 1]) ==
              if doomed[i] in e then map p | p in e && !(doomed[i] <= p) :: e[p] else e
  {
    var before, x := doomed[..i], doomed[i];
    assert doomed[..i + 1] == before + [x];
    forall p ensures Hit(before + [x], p) <==> Hit(before, p) || x <= p {
      if Hit(before, p) {
        var q :| q in before && q <= p;
        assert q in before + [x];
      }
      if x <= p { assert x in before + [x]; }
    }
    if Hit(before, x) {
      var q :| q in before && q <= x;
      forall p | x <= p ensures Hit(before, p) {
        assert q <= p;
      }
    }
  }

  /** Removing a directory and everything listed below it, in any order, is one removal. */
  lemma DoomedCover(d: Disk, directory: Path, descendants: seq<Path>)
    requires forall p :: p in descendants ==> directory < p
    ensures Surviving(d, Reversed(descendants + [directory])) == Cut(d, directory)
  {
    var all := descendants + [directory];
    var doomed := Reversed(all);
    assert doomed[0] == directory;
    forall p ensures Hit(doomed, p) <==> directory <= p {
      if Hit(doomed, p) {
        var q :| q in doomed && q <= p;
        var j :| 0 <= j < |doomed| && doomed[j] == q;
        assert all[|all| - 1 - j] == q;
        assert q in all;
      }
      if directory <= p { assert directory in doomed; }
    }
  }

  /** The top directory comes first, and nothing is left for the others to do. */
  lemma TopFirst(d: Disk, directory: Path, descendants: seq<Path>)
    requires forall p :: p in descendants ==> directory < p
    ensures var doomed := Reversed(descendants + [directory]);
            doomed[0] == directory && Surviving(d, doomed[..1]) == Surviving(d, doomed)
  {
    DoomedCover(d, directory, descendants);
    var first := Reversed(descendants + [directory])[..1];
    assert first == [directory];
    forall p ensures Hit(first, p) <==> directory <= p {
      if directory <= p { assert directory in first; }
    }
  }

  /** What `move_node` answers. */
  ghost function MoveOutcome(d: Disk, n: NodeId, parent: Option<NodeId>): Result<Node>
    requires Placed(d)
  {
    if parent == Some(n) then Err(InvalidParent)
    else if n !in TreeOf(d) then Err(NodeNotFound(n))
    else if parent.Some? && parent.value in TreeOf(d) && PathOf(d, n) < PathOf(d, parent.value) then Err(InvalidParent)
    else if parent.Some? && parent.value !in TreeOf(d) then Err(NodeNotFound(parent.value))
    else Ok(TreeOf(d)[n].(parent := parent))
  }

  /** The answer, case by case, with the cycle told from the forest. */
  lemma MoveOutcomePlain(d: Disk, n: NodeId, parent: Option<NodeId>)
    requires Placed(d)
    ensures Acyclic(TreeOf(d))
    ensures parent == Some(n) ==> MoveOutcome(d, n, parent) == Err(InvalidParent)
    ensures parent != Some(n) && n !in TreeOf(d) ==> MoveOutcome(d, n, parent) == Err(NodeNotFound(n))
    ensures n in TreeOf(d) && parent.Some? && parent.value != n && parent.value !in TreeOf(d) ==>
              MoveOutcome(d, n, parent) == Err(NodeNotFound(parent.value))
    ensures n in TreeOf(d) && parent.Some? && parent.value in TreeOf(d) && InSubtree(TreeOf(d), n, parent.value) ==>
              MoveOutcome(d, n, parent) == Err(InvalidParent)
    ensures n in TreeOf(d) && (parent.Some? ==> parent.value in TreeOf(d) && !InSubtree(TreeOf(d), n, parent.value)) ==>
              MoveOutcome(d, n, parent) == Ok(TreeOf(d)[n].(parent := parent))
  {
    DiskAcyclic(d);
    if n in TreeOf(d) && parent.Some? && parent.value in TreeOf(d) {
      SubtreeIsPrefix(d, PathOf(d, n), PathOf(d, parent.value));
      PrefixCases(PathOf(d, n), PathOf(d, parent.value));
      assert d[PathOf(d, n)].id == n && d[PathOf(d, parent.value)].id == parent.value;
      assert parent.value == n ==> n in Chain(TreeOf(d), n);
    }
  }

  /** A move goes through exactly when the new parent exists outside the node's subtree. */
  lemma MoveOkIff(d: Disk, n: NodeId, parent: Option<NodeId>)
    requires Placed(d)
    ensures MoveOutcome(d, n, parent).Ok? <==> Movable(d, n, parent)
  {
    if n in TreeOf(d) && parent.Some? && parent.value in TreeOf(d) {
      PrefixCases(PathOf(d, n), PathOf(d, parent.value));
      assert d[PathOf(d, n)].id == n && d[PathOf(d, parent.value)].id == parent.value;
    }
  }

  lemma ReslugSteps(d: Disk, fold: string -> string, n: NodeId, title: string, to: Path)
    requires Placed(d) && n in TreeOf(d) && to == RenamedDir(d, fold, n, title)
    ensures CanMove(d, PathOf(d, n), to)
    ensures Reslugged(d, fold, n, title) == Renamed(d, PathOf(d, n), to)
  {
    RenameCanMove(d, fold, n, title);
  }

  lemma RenameSteps(d: Disk, fold: string -> string, n: NodeId, title: string, to: Path)
    requires Placed(d) && n in TreeOf(d) && to == RenamedDir(d, fold, n, title)
    ensures CanMove(d, PathOf(d, n), to)
    ensures Reslugged(d, fold, n, title) == Renamed(d, PathOf(d, n), to)
    ensures Retitled(d, fold, n, title) == Renamed(d, PathOf(d, n), to)[to := TreeOf(d)[n].(title := title)]
  {
    ReslugSteps(d, fold, n, title, to);
    RetitledStep(d, fold, n, title, Reslugged(d, fold, n, title), to);
  }

  lemma RetitledStep(d: Disk, fold: string -> string, n: NodeId, title: string, e: Disk, to: Path)
    requires Placed(d) && n in TreeOf(d) && to == RenamedDir(d, fold, n, title) && e == Reslugged(d, fold, n, title)
    ensures Retitled(d, fold, n, title) == e[to := TreeOf(d)[n].(title := title)]
  {
  }

  lemma HalfMovedSteps(d: Disk, fold: string -> string, n: NodeId, parent: Option<NodeId>)
    requires Placed(d) && Movable(d, n, parent)
    ensures var d1, dir := UnlistedDisk(d, n), DirOf(d, parent);
            var to := dir + [UniqueSlug(ChildNames(d, dir), Slugify(fold, TreeOf(d)[n].title), None)];
            && Placed(d1) && CanMove(d1, PathOf(d, n), to)
            && HalfMoved(d, fold, n, parent) == Renamed(d1, PathOf(d, n), to)[to := TreeOf(d)[n].(parent := parent)]
  {
    MoveCanMove(d, fold, n, parent);
    CanMoveAfterUnlist(d, n, PathOf(d, n), MovedDir(d, fold, n, parent));
  }

  lemma UnlistKeepsNames(d: Disk, n: NodeId, p: Path)
    requires Placed(d) && n in TreeOf(d)
    ensures ChildNames(UnlistedDisk(d, n), p) == ChildNames(d, p)
  {
    UnlistKeepsIds(d, n);
  }
}
