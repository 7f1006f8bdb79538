/** The path column of the index: exact as long as renames keep the directory name. */
module IndexPaths {
  import opened Domain
  import opened Forests
  import opened Disks
  import opened DiskOps
  import opened CacheRuns
  import opened Index
  import opened Sync
  import opened IndexRuns

  type Paths = map<NodeId, string>

  /** Nodes outside `touched` that are still there kept their paths. */
  ghost predicate SameOff(before: Paths, after: Paths, touched: set<NodeId>) {
    forall x :: x in before && x in after && x !in touched ==> after[x] == before[x]
  }

  /** Every row is an old row with its path, or one with the current path. */
  ghost predicate Sourced(rows: Records, after: Records, paths: Paths, touched: set<NodeId>) {
    forall x :: x in after ==>
      || (x in rows && x !in touched && after[x].path == rows[x].path)
      || (x in paths && after[x].path == paths[x])
  }

  /** Paths that can be looked up are current. */
  ghost predicate Known(env: Env, paths: Paths) {
    forall x :: x in env.paths ==> x in paths && env.paths[x] == paths[x]
  }

  lemma PathsStep(rows: Records, after: Records, before: Paths, now: Paths, touched: set<NodeId>)
    requires PathsAgree(rows, before) && SameOff(before, now, touched) && Sourced(rows, after, now, touched)
    requires after.Keys <= now.Keys
    ensures PathsAgree(after, now)
  {
  }

  // ---------- what the writes do to paths ----------

  lemma RerootOutside(d: Disk, e: Disk, n: NodeId, to: Path)
    requires Placed(d) && UniqueIds(e) && Acyclic(TreeOf(d)) && n in TreeOf(d)
    requires PathsMoved(d, e, PathOf(d, n), to)
    ensures SameOff(PathStrings(d), PathStrings(e), SubtreeOf(TreeOf(d), n))
  {
    forall x | x in TreeOf(d) && x in TreeOf(e) && x !in SubtreeOf(TreeOf(d), n) ensures PathOf(e, x) == PathOf(d, x) {
      SubtreeIsPrefix(d, PathOf(d, n), PathOf(d, x));
    }
  }

  lemma KeptSame(d: Disk, e: Disk)
    requires UniqueIds(d) && UniqueIds(e) && PathsKept(d, e)
    ensures SameOff(PathStrings(d), PathStrings(e), {})
  {
  }

  lemma ReslugMoves(d: Disk, fold: string -> string, n: NodeId, title: string)
    requires Placed(d) && n in TreeOf(d)
    ensures UniqueIds(Reslugged(d, fold, n, title))
    ensures PathsMoved(d, Reslugged(d, fold, n, title), PathOf(d, n), RenamedDir(d, fold, n, title))
  {
    RenameCanMove(d, fold, n, title);
    RenameTree(d, PathOf(d, n), RenamedDir(d, fold, n, title));
  }

  lemma RenameMoves(d: Disk, fold: string -> string, n: NodeId, title: string, e: Disk)
    requires Placed(d) && Steps(d, fold, Rename(n, title), e)
    ensures UniqueIds(e) && PathsMoved(d, e, PathOf(d, n), RenamedDir(d, fold, n, title))
  {
    if Blank(title) { ReslugMoves(d, fold, n, title); } else { RenameRefines(d, fold, n, title); }
  }

  lemma WriteShifts(d: Disk, fold: string -> string, op: Op, e: Disk)
    requires Placed(d) && Acyclic(TreeOf(d)) && Steps(d, fold, op, e) && !op.Rename?
    ensures UniqueIds(e)
    ensures SameOff(PathStrings(d), PathStrings(e), if op.Move? then SubtreeOf(TreeOf(d), op.n) else {})
  {
    match op
    case Create(node, parent) =>
      CreateRefines(d, fold, node, parent);
      KeptSame(d, e);
    case UpdateMetadata(n, metadata) =>
      WrittenTree(d, TreeOf(d)[n].(id := n, metadata := metadata));
      KeptSame(d, e);
    case Move(n, parent, position) =>
      MoveRefines(d, fold, n, parent, position);
      RerootOutside(d, e, n, MovedDir(d, fold, n, parent));
    case Delete(n) =>
      DeleteRefines(d, n);
      KeptSame(d, e);
  }

  /** A rename that finds its directory already well named. */
  ghost predicate KeepsSlug(d: Disk, fold: string -> string, op: Op)
    requires Placed(d)
  {
    op.Rename? && op.n in TreeOf(d) ==> RenamedDir(d, fold, op.n, op.title) == PathOf(d, op.n)
  }

  lemma MovedInPlace(d: Disk, e: Disk, from: Path)
    requires UniqueIds(d) && UniqueIds(e) && PathsMoved(d, e, from, from)
    ensures PathsKept(d, e)
  {
    forall x | x in TreeOf(d) && x in TreeOf(e) ensures PathOf(e, x) == PathOf(d, x) {
      var p := PathOf(d, x);
      if from <= p { assert p == from + p[|from|..]; }
    }
  }

  lemma SameSlugShifts(d: Disk, fold: string -> string, n: NodeId, title: string, e: Disk)
    requires Placed(d) && Steps(d, fold, Rename(n, title), e) && KeepsSlug(d, fold, Rename(n, title))
    ensures UniqueIds(e) && SameOff(PathStrings(d), PathStrings(e), {})
  {
    RenameMoves(d, fold, n, title, e);
    MovedInPlace(d, e, PathOf(d, n));
    KeptSame(d, e);
  }

  // ---------- what the hooks write ----------

  lemma CreateSourced(sync: SyncState, u: Forest, node: Node, tree: Option<Forest>, env: Env, paths: Paths)
    requires Acyclic(u) && (tree.Some? ==> tree.value == u)
    requires Known(env, paths)
    ensures Sourced(sync.rows, CreateHook(sync, tree, node, env).rows, paths, {})
  {
  }

  ghost predicate RowsKeyed(rows: Records) {
    forall x :: x in rows ==> rows[x].nodeId == x
  }

  lemma RenameSourced(sync: SyncState, x: NodeId, title: string, tree: Option<Forest>, env: Env, paths: Paths)
    requires RowsKeyed(sync.rows)
    ensures Sourced(sync.rows, RenameHook(sync, tree, x, title, env).rows, paths, {})
  {
  }

  lemma {:induction false} DeleteSourced(sync: SyncState, ids: seq<NodeId>, env: Env, paths: Paths)
    ensures Sourced(sync.rows, DeleteHooks(sync, ids, env).rows, paths, {})
  {
    if ids != [] { DeleteSourced(sync, ids[..|ids| - 1], env, paths); }
  }

  lemma MoveSourced(sync: SyncState, u: Forest, x: NodeId, tree: Option<Forest>, env: Env, paths: Paths)
    requires WellFormed(u) && Walkable(u, x) && x in u && (tree.Some? ==> tree.value == u)
    requires Known(env, paths)
    requires MoveHook(sync, tree, x, env).stale == 0
    ensures Sourced(sync.rows, MoveHook(sync, tree, x, env).rows, paths, SubtreeOf(u, x))
  {
    WalkExact(u, x);
    MoveHookCases(sync, u, x, env);
    var ids, after := WalkIds(u, x), MoveHook(sync, tree, x, env).rows;
    ProjectionsWritten(sync.rows, u, ids, env);
    MovedRowsSourced(sync.rows, after, u, x, ids, env, paths);
  }

  lemma MovedRowsSourced(rows: Records, after: Records, u: Forest, x: NodeId, ids: seq<NodeId>, env: Env, paths: Paths)
    requires Acyclic(u) && forall y :: y in ids ==> y in u && y in env.paths
    requires forall y :: y in ids <==> InSubtree(u, x, y)
    requires Rewritten(rows, after, u, ids, env)
    requires Known(env, paths)
    ensures Sourced(rows, after, paths, SubtreeOf(u, x))
  {
    forall y | y in after && y in ids ensures after[y].path == paths[y] {
      assert RowWritten(rows, u, y, env.paths[y], env.now, after[y]);
    }
  }

  /** What the hook writes carries current paths wherever directories moved. */
  lemma HookSourced(t: Forest, u: Forest, sync: SyncState, op: Op, tree: Option<Forest>, env: Env, paths: Paths)
    requires HookReady(t, u, op) && (tree.Some? ==> tree.value == u) && (op.Move? ==> op.n in u)
    requires RowsKeyed(sync.rows)
    requires Known(env, paths)
    requires Hook(t, u, sync, op, tree, env).stale == 0
    ensures Sourced(sync.rows, Hook(t, u, sync, op, tree, env).rows, paths, Moving(u, op))
  {
    match op
    case Create(node, _) => CreateSourced(sync, u, u[node.id], tree, env, paths);
    case Rename(n, title) => RenameSourced(sync, n, title, tree, env, paths);
    case UpdateMetadata(n, _) => RenameSourced(sync, n, t[n].title, tree, env, paths);
    case Move(n, _, _) =>
      WellFormedWalkable(u, n);
      MoveSourced(sync, u, n, tree, env, paths);
    case Delete(n) => DeleteSourced(sync, FanOut(t, n), env, paths);
  }

  /** Hooks never take a failure back. */
  lemma HookMonotone(t: Forest, u: Forest, sync: SyncState, op: Op, tree: Option<Forest>, env: Env)
    requires HookReady(t, u, op) && (tree.Some? ==> tree.value == u)
    ensures Hook(t, u, sync, op, tree, env).stale >= sync.stale
  {
    if op.Delete? { DeleteHooksExact(sync, FanOut(t, op.n), env); }
  }

  // ---------- every event ----------

  lemma MovedSubtree(d: Disk, fold: string -> string, op: Op, e: Disk)
    requires Placed(d) && op.Move? && Steps(d, fold, op, e)
    ensures UniqueIds(e) && Acyclic(TreeOf(d)) && Acyclic(TreeOf(e)) && op.n in TreeOf(e)
    ensures SubtreeOf(TreeOf(e), op.n) == SubtreeOf(TreeOf(d), op.n)
  {
    MoveRefines(d, fold, op.n, op.newParent, op.position);
    DiskAcyclic(e);
    MovableIff(d, op.n, op.newParent);
    MoveReparents(TreeOf(d), TreeOf(e), op.n, op.newParent, op.position);
    SameSubtree(TreeOf(d), TreeOf(e), op.n, op.newParent);
  }

  lemma SlugSafeShifts(d: Disk, fold: string -> string, op: Op, e: Disk)
    requires Placed(d) && Acyclic(TreeOf(d)) && Steps(d, fold, op, e) && KeepsSlug(d, fold, op)
    ensures UniqueIds(e)
    ensures SameOff(PathStrings(d), PathStrings(e), if op.Move? then SubtreeOf(TreeOf(d), op.n) else {})
  {
    if op.Rename? { SameSlugShifts(d, fold, op.n, op.title, e); } else { WriteShifts(d, fold, op, e); }
  }

  /** The nodes whose directory moves and whose rows the hook rewrites. */
  ghost function Moving(u: Forest, op: Op): set<NodeId>
    requires Acyclic(u)
  {
    if op.Move? then SubtreeOf(u, op.n) else {}
  }

  lemma ShiftsAfter(d: Disk, fold: string -> string, op: Op, e: Disk)
    requires Placed(d) && Acyclic(TreeOf(d)) && Steps(d, fold, op, e) && KeepsSlug(d, fold, op)
    requires UniqueIds(e) && Acyclic(TreeOf(e))
    ensures op.Move? ==> op.n in TreeOf(e)
    ensures SameOff(PathStrings(d), PathStrings(e), Moving(TreeOf(e), op))
  {
    SlugSafeShifts(d, fold, op, e);
    if op.Move? { MovedSubtree(d, fold, op, e); }
  }

  lemma EnvPaths(e: Disk, f: Faults)
    requires UniqueIds(e)
    ensures Known(EnvOf(e, f), PathStrings(e)) && PathStrings(e).Keys == TreeOf(e).Keys
  {
  }

  /** A committed write as its hook meets it: only forests, rows and paths. */
  lemma ShiftsOfWrite(s: IndexedState, fold: string -> string, op: Op, f: Faults)
    returns (u: Forest, now: Paths, tree: Option<Forest>, env: Env)
    requires Consistent(s) && Goes(s.disk, op) && KeepsSlug(s.disk, fold, op)
    ensures Acyclic(TreeOf(s.disk)) && HookReady(TreeOf(s.disk), u, op) && (tree.Some? ==> tree.value == u)
    ensures (op.Move? ==> op.n in u) && Known(env, now) && now.Keys == u.Keys
    ensures SameOff(PathStrings(s.disk), now, Moving(u, op))
    ensures var r := NextIndexed(s, fold, Write(op, f));
            && UniqueIds(r.disk) && TreeOf(r.disk) == u && PathStrings(r.disk) == now
            && r.sync == Hook(TreeOf(s.disk), u, s.sync, op, tree, env)
  {
    WFIff(s.disk);
    var e;
    e, tree, env := NextWrite(s, fold, op, f);
    WFIff(e);
    ShiftsAfter(s.disk, fold, op, e);
    EnvPaths(e, f);
    u, now := TreeOf(e), PathStrings(e);
  }

  /** Paths too stay exact over every event except a rename to another slug. */
  lemma NextFullyConsistent(s: IndexedState, fold: string -> string, event: Event)
    requires FullyConsistent(s) && (event.Write? ==> KeepsSlug(s.disk, fold, event.op))
    ensures FullyConsistent(NextIndexed(s, fold, event))
  {
    NextConsistent(s, fold, event);
    WFIff(s.disk);
    match event
    case Rebuild(f) => RebuildConsistent(s.disk, s.sync, f);
    case Write(op, f) => if Goes(s.disk, op) { WritePaths(s, fold, op, f); }
  }

  lemma WritePaths(s: IndexedState, fold: string -> string, op: Op, f: Faults)
    requires FullyConsistent(s) && Goes(s.disk, op) && KeepsSlug(s.disk, fold, op)
    ensures var r := NextIndexed(s, fold, Write(op, f));
            UniqueIds(r.disk) && PathsInSync(r.sync, PathStrings(r.disk))
  {
    NextConsistent(s, fold, Write(op, f));
    var u, now, tree, env := ShiftsOfWrite(s, fold, op, f);
    HookPaths(TreeOf(s.disk), u, s.sync, op, tree, env, PathStrings(s.disk), now);
  }

  lemma HookPaths(t: Forest, u: Forest, sync: SyncState, op: Op, tree: Option<Forest>, env: Env, before: Paths,
                  now: Paths)
    requires HookReady(t, u, op) && (tree.Some? ==> tree.value == u) && (op.Move? ==> op.n in u)
    requires Known(env, now)
    requires SameOff(before, now, Moving(u, op)) && now.Keys == u.Keys
    requires Acyclic(t) && InSync(sync, t) && PathsInSync(sync, before)
    requires InSync(Hook(t, u, sync, op, tree, env), u)
    ensures PathsInSync(Hook(t, u, sync, op, tree, env), now)
  {
    var r := Hook(t, u, sync, op, tree, env);
    HookMonotone(t, u, sync, op, tree, env);
    if r.stale == 0 {
      AgreeingKeyed(sync.rows, t);
      HookSourced(t, u, sync, op, tree, env, now);
      PathsStep(sync.rows, r.rows, before, now, Moving(u, op));
    }
  }

  lemma AgreeingKeyed(rows: Records, t: Forest)
    requires Acyclic(t) && Agrees(rows, t)
    ensures RowsKeyed(rows)
  {
    forall x | x in rows ensures rows[x].nodeId == x {
      assert RowAgrees(t, x, rows[x]);
    }
  }

  ghost predicate AllKeepSlug(s: IndexedState, fold: string -> string, events: seq<Event>)
    requires Consistent(s)
    decreases |events|
  {
    events == [] ||
    ((events[0].Write? ==> KeepsSlug(s.disk, fold, events[0].op)) &&
     (NextConsistent(s, fold, events[0]);
      AllKeepSlug(NextIndexed(s, fold, events[0]), fold, events[1..])))
  }

  /** Over every run whose renames keep their slug, an index without recorded
      failures is exact in its paths as well. */
  lemma {:induction false} NotStaleMeansExactPaths(s: IndexedState, fold: string -> string, events: seq<Event>)
    requires FullyConsistent(s) && AllKeepSlug(s, fold, events)
    ensures FullyConsistent(RunIndexed(s, fold, events))
    decreases |events|
  {
    if events != [] {
      NextFullyConsistent(s, fold, events[0]);
      NotStaleMeansExactPaths(NextIndexed(s, fold, events[0]), fold, events[1..]);
    }
  }

  // ---------- the exception, exactly ----------

  lemma JoinedName(p: Path, q: Path)
    requires p != [] && q != [] && Up(p) == Up(q)
    ensures Joined(p) == Joined(q) <==> p == q
  {
    assert p == Up(p) + [Name(p)] && q == Up(q) + [Name(q)];
    if Joined(p) == Joined(q) {
      if |p| == 1 { assert Name(p) == Name(q); }
      else {
        var prefix := Joined(Up(p)) + "/";
        assert Joined(p) == prefix + Name(p) && Joined(q) == prefix + Name(q);
        assert Joined(p)[|prefix|..] == Name(p) && Joined(q)[|prefix|..] == Name(q);
      }
    }
  }

  /** A successful rename leaves all paths in the index exact if and only if it
      keeps the directory name; no failure is recorded either way. */
  lemma RenamePathsIff(s: IndexedState, fold: string -> string, n: NodeId, title: string, f: Faults)
    requires FullyConsistent(s) && s.sync.stale == 0 && n in TreeOf(s.disk) && !Blank(title)
    requires Calm(s, fold, Write(Rename(n, title), f))
    ensures var r := NextIndexed(s, fold, Write(Rename(n, title), f));
            && r.sync.stale == 0 && UniqueIds(r.disk)
            && (PathsAgree(r.sync.rows, PathStrings(r.disk)) <==>
                  RenamedDir(s.disk, fold, n, title) == PathOf(s.disk, n))
  {
    CalmStays(s, fold, Write(Rename(n, title), f));
    if RenamedDir(s.disk, fold, n, title) == PathOf(s.disk, n) {
      RenamedRowFresh(s, fold, n, title, f);
    } else {
      RenamedRowStale(s, fold, n, title, f);
    }
  }

  lemma RenamedRowFresh(s: IndexedState, fold: string -> string, n: NodeId, title: string, f: Faults)
    requires FullyConsistent(s) && n in TreeOf(s.disk)
    requires NextIndexed(s, fold, Write(Rename(n, title), f)).sync.stale == 0
    requires RenamedDir(s.disk, fold, n, title) == PathOf(s.disk, n)
    ensures var r := NextIndexed(s, fold, Write(Rename(n, title), f));
            UniqueIds(r.disk) && PathsAgree(r.sync.rows, PathStrings(r.disk))
  {
    WritePaths(s, fold, Rename(n, title), f);
  }

  lemma RenamedRowStale(s: IndexedState, fold: string -> string, n: NodeId, title: string, f: Faults)
    requires FullyConsistent(s) && s.sync.stale == 0 && n in TreeOf(s.disk) && !Blank(title)
    requires RenamedDir(s.disk, fold, n, title) != PathOf(s.disk, n)
    ensures var r := NextIndexed(s, fold, Write(Rename(n, title), f));
            UniqueIds(r.disk) && !PathsAgree(r.sync.rows, PathStrings(r.disk))
  {
    WFIff(s.disk);
    var e, tree, env := NextWrite(s, fold, Rename(n, title), f);
    RenamedPath(s.disk, fold, n, title, e);
    AgreeingKeyed(s.sync.rows, TreeOf(s.disk));
    StalePath(s.sync, n, title, tree, env, PathStrings(s.disk), PathStrings(e));
  }

  lemma RenamedPath(d: Disk, fold: string -> string, n: NodeId, title: string, e: Disk)
    requires Placed(d) && Steps(d, fold, Rename(n, title), e)
    requires RenamedDir(d, fold, n, title) != PathOf(d, n)
    ensures UniqueIds(e) && n in PathStrings(d) && n in PathStrings(e) && PathStrings(e)[n] != PathStrings(d)[n]
  {
    StepsKeepNode(d, fold, Rename(n, title), e);
    RenameMoves(d, fold, n, title, e);
    RenameCanMove(d, fold, n, title);
    OtherName(PathOf(d, n), RenamedDir(d, fold, n, title));
  }

  lemma OtherName(from: Path, to: Path)
    requires from != [] && to != [] && Up(from) == Up(to) && from != to
    ensures Joined(Reroot(from, to, from)) != Joined(from)
  {
    assert Reroot(from, to, from) == to + [] == to;
    JoinedName(from, to);
  }

  lemma StalePath(sync: SyncState, n: NodeId, title: string, tree: Option<Forest>, env: Env, before: Paths, now: Paths)
    requires n in sync.rows && RowsKeyed(sync.rows) && PathsAgree(sync.rows, before)
    requires n in before && n in now && now[n] != before[n]
    ensures !PathsAgree(RenameHook(sync, tree, n, title, env).rows, now)
  {
    var r := RenameHook(sync, tree, n, title, env).rows;
    assert n in r && r[n].path == before[n];
  }
}
