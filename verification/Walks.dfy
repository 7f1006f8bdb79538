/** Walks along child lists that may say anything: what they find, and exactly when they end. */
module Walks {
  import opened Domain
  import opened Seqs
  import opened Forests

  /** x is present and met by the walk below n. */
  ghost predicate Reached(t: Forest, n: NodeId, x: NodeId) {
    x in t && exists k: nat :: x in Level(t, n, k)
  }

  /** p is listed as a child somewhere below n, present or not. */
  ghost predicate FoundBelow(t: Forest, n: NodeId, p: NodeId) {
    n in t && exists k: nat :: p in Kids(t, Level(t, n, k))
  }

  /** No node met below n is listed somewhere below itself. */
  ghost predicate LoopFree(t: Forest, n: NodeId) {
    forall x :: Reached(t, n, x) ==> !FoundBelow(t, x, x)
  }

  lemma {:induction false} KidsMembers(t: Forest, level: seq<NodeId>, y: NodeId)
    ensures y in Kids(t, level) <==> exists x :: x in level && x in t && y in t[x].children
  {
    if level != [] {
      KidsMembers(t, level[1..], y);
      assert level == [level[0]] + level[1..];
    }
  }

  /** One more child of something reached is found, and reached if present. */
  lemma ChildFound(t: Forest, n: NodeId, k: nat, x: NodeId, c: NodeId)
    requires n in t && x in Level(t, n, k) && x in t && c in t[x].children
    ensures FoundBelow(t, n, c) && c in Kids(t, Level(t, n, k))
    ensures c in t ==> c in Level(t, n, k + 1)
  {
    KidsMembers(t, Level(t, n, k), c);
  }

  lemma ListedIn(t: Forest, level: seq<NodeId>, y: NodeId) returns (x: NodeId)
    requires y in Kids(t, level)
    ensures x in level && x in t && y in t[x].children
  {
    KidsMembers(t, level, y);
    x :| x in level && x in t && y in t[x].children;
  }

  /** Whatever a later level holds is present and listed by a member of the level before. */
  lemma ListedAbove(t: Forest, n: NodeId, k: nat, level: seq<NodeId>, y: NodeId)
    returns (j: nat, up: seq<NodeId>, x: NodeId)
    requires k > 0 && n in t && level == Level(t, n, k) && y in level
    ensures j == k - 1 && up == Level(t, n, j) && x in up
    ensures y in t && x in t && y in t[x].children
  {
    j := k - 1;
    up := Level(t, n, j);
    x := ListedIn(t, up, y);
  }

  lemma LevelPresent(t: Forest, n: NodeId, k: nat, x: NodeId)
    requires n in t && x in Level(t, n, k)
    ensures x in t
  {
  }

  // ---------- paths along child lists ----------

  /** Each member is present and listed by the one before. */
  ghost predicate Descends(t: Forest, path: seq<NodeId>) {
    && (forall i :: 0 <= i < |path| ==> path[i] in t)
    && (forall i :: 0 < i < |path| ==> path[i] in t[path[i - 1]].children)
  }

  /** A path from n to x. */
  ghost predicate Leads(t: Forest, n: NodeId, path: seq<NodeId>, x: NodeId) {
    Descends(t, path) && path != [] && path[0] == n && path[|path| - 1] == x
  }

  lemma Joining(t: Forest, n: NodeId, a: seq<NodeId>, x: NodeId, b: seq<NodeId>, y: NodeId) returns (path: seq<NodeId>)
    requires Leads(t, n, a, x) && Leads(t, x, b, y)
    ensures Leads(t, n, path, y) && |path| == |a| + |b| - 1
  {
    path := a + b[1..];
  }

  lemma Lengthened(t: Forest, n: NodeId, path: seq<NodeId>, x: NodeId, y: NodeId)
    requires Leads(t, n, path, x) && y in t && y in t[x].children
    ensures Leads(t, n, path + [y], y)
  {
  }

  lemma {:induction false} PathTo(t: Forest, n: NodeId, k: nat, level: seq<NodeId>, y: NodeId)
    returns (path: seq<NodeId>)
    requires n in t && level == Level(t, n, k) && y in level
    ensures |path| == k + 1 && Leads(t, n, path, y)
    decreases k
  {
    if k == 0 {
      path := [n];
    } else {
      var j, up, x := ListedAbove(t, n, k, level, y);
      var above := PathTo(t, n, j, up, x);
      Lengthened(t, n, above, x, y);
      path := above + [y];
    }
  }

  lemma ReachedPath(t: Forest, n: NodeId, x: NodeId) returns (path: seq<NodeId>)
    requires n in t && Reached(t, n, x)
    ensures Leads(t, n, path, x)
  {
    var k: nat :| x in Level(t, n, k);
    path := PathTo(t, n, k, Level(t, n, k), x);
  }

  /** A way from x back to x, of one step at least. */
  ghost predicate Round(t: Forest, x: NodeId, path: seq<NodeId>) {
    Leads(t, x, path, x) && |path| > 1
  }

  lemma LoopPath(t: Forest, x: NodeId) returns (round: seq<NodeId>)
    requires FoundBelow(t, x, x)
    ensures Round(t, x, round)
  {
    var k: nat :| x in Kids(t, Level(t, x, k));
    var z := ListedIn(t, Level(t, x, k), x);
    var back := PathTo(t, x, k, Level(t, x, k), z);
    Lengthened(t, x, back, z, x);
    round := back + [x];
  }

  lemma {:induction false} PathLevel(t: Forest, path: seq<NodeId>, k: nat)
    requires Descends(t, path) && |path| == k + 1
    ensures path[k] in Level(t, path[0], k)
  {
    if k > 0 {
      PathLevel(t, path[..k], k - 1);
      NextLevel(t, path[0], k - 1, path[k - 1], path[k], k);
    }
  }

  lemma NextLevel(t: Forest, n: NodeId, j: nat, x: NodeId, c: NodeId, k: nat)
    requires k == j + 1 && x in Level(t, n, j) && x in t && c in t && c in t[x].children
    ensures c in Level(t, n, k)
  {
    KidsMembers(t, Level(t, n, j), c);
  }

  lemma PathReaches(t: Forest, n: NodeId, path: seq<NodeId>, x: NodeId)
    requires Leads(t, n, path, x)
    ensures Reached(t, n, x)
  {
    PathLevel(t, path, |path| - 1);
  }

  lemma RoundLoops(t: Forest, x: NodeId, round: seq<NodeId>)
    requires Round(t, x, round)
    ensures FoundBelow(t, x, x)
  {
    var k := |round| - 2;
    PathLevel(t, round[..k + 1], k);
    ChildFound(t, x, k, round[k], x);
  }

  // ---------- a loop keeps the walk going, and a walk that goes on meets a loop ----------

  /** A node on a loop is at the end of arbitrarily long paths. */
  lemma {:induction false} RoundAndRound(t: Forest, n: NodeId, x: NodeId, way: seq<NodeId>, round: seq<NodeId>, m: nat)
    returns (path: seq<NodeId>)
    requires Leads(t, n, way, x) && Round(t, x, round)
    ensures Leads(t, n, path, x) && |path| > m
  {
    if m == 0 {
      path := way;
    } else {
      var before := RoundAndRound(t, n, x, way, round, m - 1);
      path := Joining(t, n, before, x, round, x);
    }
  }

  lemma LongPathLevel(t: Forest, n: NodeId, path: seq<NodeId>, x: NodeId, k: nat)
    requires Leads(t, n, path, x) && |path| > k
    ensures Level(t, n, k) != []
  {
    PathLevel(t, path[..k + 1], k);
  }

  lemma LoopNeverEnds(t: Forest, n: NodeId, x: NodeId)
    requires n in t && Reached(t, n, x) && FoundBelow(t, x, x)
    ensures !WalkEnds(t, n)
  {
    var way := ReachedPath(t, n, x);
    var round := LoopPath(t, x);
    forall last: nat ensures Level(t, n, last) != [] {
      var path := RoundAndRound(t, n, x, way, round, last);
      LongPathLevel(t, n, path, x, last);
    }
  }

  lemma Repeats(t: Forest, path: seq<NodeId>) returns (i: nat, j: nat)
    requires |path| > |t.Keys| && Descends(t, path)
    ensures i < j < |path| && path[i] == path[j]
  {
    if NoDup(path) { NoDupBound(path, t.Keys); }
    i, j :| 0 <= i < j < |path| && path[i] == path[j];
  }

  lemma LongPathLoops(t: Forest, n: NodeId, path: seq<NodeId>)
    requires |path| > |t.Keys| && path[0] == n && Descends(t, path)
    ensures !LoopFree(t, n)
  {
    var i, j := Repeats(t, path);
    var way, round, x := path[..i + 1], path[i..j + 1], path[i];
    assert Leads(t, n, way, x);
    assert Round(t, x, round);
    PathReaches(t, n, way, x);
    RoundLoops(t, x, round);
  }

  /** The walk, which keeps no visited set, ends exactly when no node it meets is
      listed somewhere below itself. */
  lemma WalkEndsIff(t: Forest, n: NodeId)
    requires n in t
    ensures WalkEnds(t, n) <==> LoopFree(t, n)
  {
    if !LoopFree(t, n) {
      var x :| Reached(t, n, x) && FoundBelow(t, x, x);
      LoopNeverEnds(t, n, x);
    }
    if !WalkEnds(t, n) {
      var k := |t.Keys|;
      var path := PathTo(t, n, k, Level(t, n, k), Level(t, n, k)[0]);
      LongPathLoops(t, n, path);
    }
  }

  // ---------- one more child in one list ----------

  /** u lists what t lists, and n below p, if there is a p. */
  ghost predicate Hung(t: Forest, u: Forest, p: Option<NodeId>, n: NodeId) {
    && u.Keys == t.Keys && n in t && (p.Some? ==> p.value in t)
    && forall x :: x in t ==> forall c :: c in u[x].children <==> c in t[x].children || (p == Some(x) && c == n)
  }

  ghost predicate Meets(t: Forest, n: NodeId, p: Option<NodeId>) {
    p.Some? && Reached(t, n, p.value)
  }

  lemma DescendsInMore(t: Forest, u: Forest, p: Option<NodeId>, n: NodeId, path: seq<NodeId>)
    requires Hung(t, u, p, n) && Descends(t, path)
    ensures Descends(u, path)
  {
  }

  /** Before p is met the new entry is of no use. */
  lemma {:induction false} DescendsInFewer(t: Forest, u: Forest, p: Option<NodeId>, n: NodeId, path: seq<NodeId>)
    requires Hung(t, u, p, n) && Descends(u, path) && path != [] && path[0] == n && !Meets(t, n, p)
    ensures Descends(t, path)
  {
    var k := |path| - 1;
    if k > 0 {
      DescendsInFewer(t, u, p, n, path[..k]);
      PathReaches(t, n, path[..k], path[k - 1]);
      OneMore(t, path, k);
    }
  }

  lemma OneMore(t: Forest, path: seq<NodeId>, k: nat)
    requires 0 < k == |path| - 1 && Descends(t, path[..k]) && path[k] in t && path[k] in t[path[k - 1]].children
    ensures Descends(t, path)
  {
  }

  /** Listing n below p keeps the walk below n finite exactly when it was and does not meet p. */
  lemma HangLoopFreeIff(t: Forest, u: Forest, p: Option<NodeId>, n: NodeId)
    requires Hung(t, u, p, n)
    ensures LoopFree(u, n) <==> LoopFree(t, n) && !Meets(t, n, p)
  {
    if Meets(t, n, p) {
      var way := ReachedPath(t, n, p.value);
      DescendsInMore(t, u, p, n, way);
      Lengthened(u, n, way, p.value, n);
      LoopOfRound(u, n, [n], n, way + [n]);
    }
    if x :| Reached(t, n, x) && FoundBelow(t, x, x) {
      var way := ReachedPath(t, n, x);
      var round := LoopPath(t, x);
      DescendsInMore(t, u, p, n, way);
      DescendsInMore(t, u, p, n, round);
      LoopOfRound(u, n, way, x, round);
    }
    if x :| !Meets(t, n, p) && Reached(u, n, x) && FoundBelow(u, x, x) {
      var way := ReachedPath(u, n, x);
      var round := LoopPath(u, x);
      SplitLoop(t, u, p, n, way, x, round);
    }
  }

  lemma LoopOfRound(t: Forest, n: NodeId, way: seq<NodeId>, x: NodeId, round: seq<NodeId>)
    requires Leads(t, n, way, x) && Round(t, x, round)
    ensures !LoopFree(t, n)
  {
    PathReaches(t, n, way, x);
    RoundLoops(t, x, round);
  }

  lemma SplitLoop(t: Forest, u: Forest, p: Option<NodeId>, n: NodeId, way: seq<NodeId>, x: NodeId, round: seq<NodeId>)
    requires Hung(t, u, p, n) && !Meets(t, n, p) && Leads(u, n, way, x) && Round(u, x, round)
    ensures !LoopFree(t, n)
  {
    var path := way + round[1..];
    DescendsInFewer(t, u, p, n, path);
    assert way == path[..|way|] && round == path[|way| - 1..];
    LoopOfRound(t, n, way, x, round);
  }

  // ---------- what a walk that ends has met ----------

  lemma {:induction false} UptoMembers(t: Forest, n: NodeId, k: nat, x: NodeId) returns (j: nat)
    ensures x in Upto(t, n, k) ==> j < k && x in Level(t, n, j)
  {
    j := 0;
    if x in Upto(t, n, k) {
      if x in Level(t, n, k - 1) { j := k - 1; } else { j := UptoMembers(t, n, k - 1, x); }
    }
  }

  lemma LevelInUpto(t: Forest, n: NodeId, j: nat, k: nat, x: NodeId)
    requires j < k && x in Level(t, n, j)
    ensures x in Upto(t, n, k)
  {
    UptoGrows(t, n, j + 1, k);
    LastInUpto(t, n, j, x);
  }

  lemma LastInUpto(t: Forest, n: NodeId, j: nat, x: NodeId)
    requires x in Level(t, n, j)
    ensures x in Upto(t, n, j + 1)
  {
    assert Upto(t, n, j + 1) == Upto(t, n, j) + Level(t, n, j);
  }

  /** A walk that ends has met exactly what is reached. */
  lemma WalkIdsReached(t: Forest, n: NodeId, x: NodeId)
    requires n in t && WalkEnds(t, n)
    ensures x in WalkIds(t, n) <==> Reached(t, n, x)
  {
    var last: nat :| Level(t, n, last) == [];
    WalkIdsAt(t, n, last);
    if x in WalkIds(t, n) {
      var j := UptoMembers(t, n, last, x);
      LevelPresent(t, n, j, x);
    }
    if Reached(t, n, x) {
      var j: nat :| x in Level(t, n, j);
      if j >= last { LevelStaysEmpty(t, n, last, j); }
      LevelInUpto(t, n, j, last, x);
    }
  }

  lemma WalkPresent(t: Forest, n: NodeId)
    requires n in t && LoopFree(t, n)
    ensures WalkEnds(t, n) && forall x :: x in WalkIds(t, n) ==> x in t
  {
    WalkEndsIff(t, n);
    forall x | x in WalkIds(t, n) ensures x in t {
      WalkIdsReached(t, n, x);
    }
  }

  /** On a well-formed forest no walk meets a loop. */
  lemma WellFormedLoopFree(t: Forest, n: NodeId)
    requires WellFormed(t) && n in t
    ensures LoopFree(t, n) && WalkEnds(t, n)
  {
    WellFormedWalkEnds(t, n);
    WalkEndsIff(t, n);
  }

  /** A walk that ends met its start first and never again. */
  lemma StartOnce(t: Forest, n: NodeId)
    requires n in t && LoopFree(t, n)
    ensures WalkEnds(t, n)
    ensures var ids := WalkIds(t, n); |ids| > 0 && ids[0] == n && n !in ids[1..]
  {
    WalkEndsIff(t, n);
    var last: nat :| Level(t, n, last) == [];
    WalkIdsAt(t, n, last);
    var tail := UptoTail(t, n, last);
  }

  lemma {:induction false} UptoTail(t: Forest, n: NodeId, k: nat) returns (tail: seq<NodeId>)
    requires n in t && LoopFree(t, n) && k > 0
    ensures Upto(t, n, k) == [n] + tail && n !in tail
  {
    if k == 1 {
      UptoOne(t, n);
      tail := [];
    } else {
      var before := UptoTail(t, n, k - 1);
      NotAgain(t, n, k - 1);
      tail := before + Level(t, n, k - 1);
    }
  }

  lemma NotAgain(t: Forest, n: NodeId, k: nat)
    requires n in t && LoopFree(t, n) && k > 0
    ensures n !in Level(t, n, k)
  {
    if n in Level(t, n, k) {
      var path := PathTo(t, n, k, Level(t, n, k), n);
      LoopOfRound(t, n, [n], n, path);
    }
  }

  /** After its start the walk takes the children in the order of their list,
      whatever their ids. */
  lemma WalkFollowsList(t: Forest, n: NodeId)
    requires n in t && WalkEnds(t, n)
    ensures [n] + Present(t, t[n].children) <= WalkIds(t, n)
  {
    var last: nat :| Level(t, n, last) == [];
    LevelStaysEmpty(t, n, last, last + 2);
    WalkIdsAt(t, n, last + 2);
    UptoOne(t, n);
    assert Upto(t, n, 2) == [n] + Present(t, t[n].children);
    UptoGrows(t, n, 2, last + 2);
  }

  lemma {:induction false} UptoGrows(t: Forest, n: NodeId, j: nat, k: nat)
    requires j <= k
    ensures Upto(t, n, j) <= Upto(t, n, k)
  {
    if j < k { UptoGrows(t, n, j, k - 1); }
  }

  // ---------- trees whose walks cover their subtrees ----------

  /** Every child is on its parent's list; lists may hold more. */
  ghost predicate ListedUp(t: Forest) {
    forall c :: c in t && t[c].parent.Some? ==> t[c].parent.value in t && c in t[t[c].parent.value].children
  }

  /** Parents resolve without cycles, children are listed, and no walk meets a loop. */
  ghost predicate Covering(t: Forest) {
    Keyed(t) && Acyclic(t) && ListedUp(t) && forall n :: n in t ==> LoopFree(t, n)
  }

  lemma {:induction false} ListedPath(t: Forest, n: NodeId, x: NodeId) returns (path: seq<NodeId>)
    requires Acyclic(t) && ListedUp(t) && InSubtree(t, n, x)
    ensures Leads(t, n, path, x)
    decreases RankOf(t)[x]
  {
    if x == n {
      path := [n];
    } else {
      var p := t[x].parent.value;
      assert Chain(t, x) == [x] + Chain(t, p);
      var above := ListedPath(t, n, p);
      Lengthened(t, n, above, p, x);
      path := above + [x];
    }
  }

  /** Then the walk below n ends and meets everything in n's subtree. */
  lemma CoveringWalk(t: Forest, n: NodeId, x: NodeId)
    requires Covering(t) && n in t
    ensures WalkEnds(t, n) && (InSubtree(t, n, x) ==> x in WalkIds(t, n))
  {
    WalkEndsIff(t, n);
    if InSubtree(t, n, x) {
      var path := ListedPath(t, n, x);
      PathReaches(t, n, path, x);
      WalkIdsReached(t, n, x);
    }
  }

  lemma WellFormedCovering(t: Forest)
    requires WellFormed(t)
    ensures Covering(t)
  {
    forall n | n in t ensures LoopFree(t, n) {
      WellFormedLoopFree(t, n);
    }
  }
}
