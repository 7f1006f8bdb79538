/** The boot sequence: probe the index, decide on a rebuild, classify the outcome. */
module Startup {
  import opened Domain
  import opened Forests
  import opened Trees
  import opened Disks
  import opened Index
  import opened Sync
  import opened Reconciler
  import opened IndexRuns

  datatype StartupOutcome = HEALTHY | RECOVERING | DEGRADED

  /** Which of the calls made during boot go through; a rebuild that raises does so
      before it touches the index. */
  datatype Probes = Probes(configOk: bool, fsOk: bool, countOk: bool, isStaleOk: bool, clearOk: bool, rebuildOk: bool)

  datatype StartupReport = StartupReport(
    outcome: StartupOutcome,
    rebuildAttempted: bool,
    skippedReason: Option<string>,
    rebuild: Option<Report>,
    indexUnavailable: bool)

  // ---------- the boot, as a function on rows and failure count ----------

  /** An index that cannot be reached, is flagged or is empty gets rebuilt. */
  ghost predicate NeedsRebuild(s: SyncState, probes: Probes) {
    !probes.countOk || (probes.isStaleOk && s.stale > 0) || s.rows == map[]
  }

  ghost predicate RebuildSucceeds(probes: Probes, tree: Option<Forest>, env: RebuildEnv) {
    probes.rebuildOk && Publishes(tree, env) && env.listOk
  }

  ghost function BootOutcome(s: SyncState, probes: Probes, tree: Option<Forest>, env: RebuildEnv): StartupOutcome {
    if !NeedsRebuild(s, probes) then HEALTHY
    else if RebuildSucceeds(probes, tree, env) then RECOVERING else DEGRADED
  }

  ghost function Booted(s: SyncState, probes: Probes, tree: Option<Forest>, env: RebuildEnv): SyncState
    requires tree.Some? ==> Acyclic(tree.value)
  {
    if !NeedsRebuild(s, probes) then s
    else if !probes.rebuildOk then s
    else
      var cleared := RebuildSucceeds(probes, tree, env) && probes.clearOk;
      SyncState(RowsAfter(s.rows, tree, env), if cleared then 0 else s.stale)
  }

  // ---------- what the outcome promises ----------

  /** A rebuild is needed unless the index can be reached, has rows, and is not
      known to have missed an update. */
  lemma NeedsRebuildPlain(s: SyncState, probes: Probes)
    ensures !NeedsRebuild(s, probes) <==>
              && probes.countOk && (probes.isStaleOk ==> s.stale == 0) && exists x :: x in s.rows
  {
    if s.rows != map[] { var x :| x in s.rows; }
  }

  /** What the boot reports and leaves, case by case. */
  lemma BootTable(s: SyncState, probes: Probes, tree: Option<Forest>, env: RebuildEnv)
    returns (outcome: StartupOutcome, r: SyncState)
    requires tree.Some? ==> Acyclic(tree.value)
    ensures outcome == BootOutcome(s, probes, tree, env) && r == Booted(s, probes, tree, env)
    ensures outcome == HEALTHY <==>
              && probes.countOk && (probes.isStaleOk ==> s.stale == 0) && exists x :: x in s.rows
    ensures outcome == RECOVERING <==>
              && (!probes.countOk || (probes.isStaleOk && s.stale > 0) || forall x :: x !in s.rows)
              && probes.rebuildOk && tree.Some? && tree.value.Keys <= env.paths.Keys && env.replaceOk && env.listOk
    ensures outcome == HEALTHY ==> r == s
    ensures outcome == RECOVERING ==>
              && r.stale == (if probes.clearOk then 0 else s.stale)
              && Agrees(r.rows, tree.value) && PathsAgree(r.rows, env.paths)
              && forall x :: x in r.rows ==> r.rows[x].updatedAt == env.now
    ensures outcome == DEGRADED ==> r.stale == s.stale
    ensures outcome == DEGRADED && !(probes.rebuildOk && Publishes(tree, env)) ==> r.rows == s.rows
    ensures outcome == DEGRADED && probes.rebuildOk && Publishes(tree, env) ==>
              Agrees(r.rows, tree.value) && PathsAgree(r.rows, env.paths)
  {
    outcome, r := BootOutcome(s, probes, tree, env), Booted(s, probes, tree, env);
    NeedsRebuildPlain(s, probes);
    if Publishes(tree, env) { var rebuilt := RebuildExact(s.rows, tree.value, env); }
  }

  /** RECOVERING: the index is the projection of the loaded tree, paths included,
      and no failure is on record if the flag could be cleared. */
  lemma RecoveringIsExact(s: SyncState, probes: Probes, t: Forest, env: RebuildEnv)
    requires Acyclic(t) && BootOutcome(s, probes, Some(t), env) == RECOVERING
    ensures var r := Booted(s, probes, Some(t), env);
            && Agrees(r.rows, t) && PathsAgree(r.rows, env.paths)
            && (probes.clearOk ==> r.stale == 0)
  {
    var rebuilt := RebuildExact(s.rows, t, env);
  }

  /** HEALTHY: nothing was rebuilt, the index is reachable and not empty, and no
      failure is on record unless the flag could not be read. */
  lemma HealthyIsUntouched(s: SyncState, probes: Probes, tree: Option<Forest>, env: RebuildEnv)
    requires (tree.Some? ==> Acyclic(tree.value)) && BootOutcome(s, probes, tree, env) == HEALTHY
    ensures Booted(s, probes, tree, env) == s
    ensures probes.countOk && s.rows != map[] && (probes.isStaleOk ==> s.stale == 0)
  {
  }

  /** The failure count changes only under RECOVERING. */
  lemma ClearedOnlyRecovering(s: SyncState, probes: Probes, tree: Option<Forest>, env: RebuildEnv)
    requires tree.Some? ==> Acyclic(tree.value)
    ensures Booted(s, probes, tree, env).stale != s.stale ==> BootOutcome(s, probes, tree, env) == RECOVERING
  {
  }

  /** If before the boot an unflagged index was exact, it is exact after it too
      when it comes out HEALTHY with a readable flag, or RECOVERING; and in any
      case an unflagged index is exact. */
  lemma BootKeepsInSync(s: SyncState, probes: Probes, t: Forest, loads: bool, env: RebuildEnv)
    requires Acyclic(t) && InSync(s, t)
    ensures var tree := if loads then Some(t) else None;
            var r := Booted(s, probes, tree, env);
            && InSync(r, t)
            && (BootOutcome(s, probes, tree, env) == RECOVERING ==> Agrees(r.rows, t))
            && (BootOutcome(s, probes, tree, env) == HEALTHY && probes.isStaleOk ==> Agrees(r.rows, t))
  {
    if loads && Publishes(Some(t), env) { var rebuilt := RebuildExact(s.rows, t, env); }
  }

  /** A boot that needs a rebuild is the rebuild event of the index runs, so the
      runs' safety carries over every boot; it is no event at all if the rebuild
      raises, and keeps the failure count if the flag cannot be cleared. */
  lemma BootIsRebuildEvent(d: Disk, s: SyncState, probes: Probes, f: Faults)
    requires UniqueIds(d) && Acyclic(TreeOf(d)) && NeedsRebuild(s, probes)
    ensures var r, env := AfterRebuild(d, s, f), RebuildEnv(PathStrings(d) - f.lost, f.listOk, f.replaceOk, f.now);
            var expected := if !probes.rebuildOk then s else if probes.clearOk then r else r.(stale := s.stale);
            Booted(s, probes, TreeSeen(d, f), env) == expected
  {
  }

  // ---------- the coordinator ----------

  class StartupCoordinator {
    const index: InMemoryIndexRepository
    const reconciler: IndexReconciler
    const synchroniser: IncrementalIndexSynchronizer

    ghost predicate Wired() {
      reconciler.index == index && synchroniser.index == index
    }

    constructor (repo: InMemoryIndexRepository, rec: IndexReconciler, sync: IncrementalIndexSynchronizer)
      requires rec.index == repo && sync.index == repo
      ensures index == repo && reconciler == rec && synchroniser == sync && Wired()
    {
      index := repo;
      reconciler := rec;
      synchroniser := sync;
    }

    /** None stands for the raised error when configuration or filesystem fail. */
    method Run(probes: Probes, tree: Tree?, env: RebuildEnv) returns (r: Option<StartupReport>)
      requires Wired() && (tree != null ==> tree.Valid())
      modifies index, synchroniser
      ensures r.None? <==> !probes.configOk || !probes.fsOk
      ensures r.None? ==> synchroniser.State() == old(synchroniser.State())
      ensures r.Some? ==> synchroniser.State() == Booted(old(synchroniser.State()), probes, old(View(tree)), env)
      ensures r.Some? ==> r.value.outcome == BootOutcome(old(synchroniser.State()), probes, old(View(tree)), env)
      ensures r.Some? ==> (r.value.rebuildAttempted <==> NeedsRebuild(old(synchroniser.State()), probes))
      ensures r.Some? && r.value.outcome == DEGRADED ==> r.value.rebuildAttempted
      ensures r.Some? ==> (r.value.indexUnavailable <==> !probes.countOk)
      ensures r.Some? ==> r.value.skippedReason == if r.value.rebuildAttempted then None else Some("index_healthy")
    {
      if !probes.configOk { return None; }
      if !probes.fsOk { return None; }
      var indexUnavailable := !probes.countOk;
      var rowCount := if probes.countOk then Some(|index.records|) else None;
      var shouldRebuild, reason := ShouldRebuild(indexUnavailable, rowCount, probes);
      var rebuild: Option<Report> := None;
      var outcome := HEALTHY;
      if shouldRebuild {
        if probes.rebuildOk {
          var report := reconciler.Rebuild(tree, env);
          rebuild := Some(report);
          if report.IsSuccess() && probes.clearOk { synchroniser.ClearStaleness(); }
        }
      }
      if shouldRebuild {
        outcome := if rebuild.Some? && rebuild.value.IsSuccess() then RECOVERING else DEGRADED;
      } else if indexUnavailable {
        outcome := DEGRADED;
      }
      var skipped := if shouldRebuild then None else Some(reason);
      return Some(StartupReport(outcome, shouldRebuild, skipped, rebuild, indexUnavailable));
    }

    method ShouldRebuild(indexUnavailable: bool, rowCount: Option<nat>, probes: Probes)
      returns (rebuild: bool, reason: string)
      requires Wired()
      requires indexUnavailable == !probes.countOk
      requires rowCount == if indexUnavailable then None else Some(|index.records|)
      ensures rebuild <==> NeedsRebuild(synchroniser.State(), probes)
      ensures indexUnavailable ==> rebuild
      ensures !rebuild ==> reason == "index_healthy"
    {
      if indexUnavailable { return true, "index_unavailable"; }
      var stale := if probes.isStaleOk then synchroniser.IsStale() else false;
      if stale { return true, "sync_flagged_stale"; }
      if rowCount.Some? && rowCount.value == 0 { return true, "index_empty"; }
      return false, "index_healthy";
    }
  }
}
