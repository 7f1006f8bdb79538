/** The theory of forests given by parent pointers: ancestor chains, subtrees, re-parenting. */
module Forests {
  import opened Domain
  import opened Seqs

  type Forest = map<NodeId, Node>

  ghost predicate Keyed(t: Forest) {
    forall x :: x in t ==> t[x].id == x
  }

  /** Every parent is present and ranked below its child. */
  ghost predicate Ranked(t: Forest, rank: map<NodeId, nat>) {
    forall x :: x in t ==>
      && x in rank
      && (t[x].parent.Some? ==>
            && t[x].parent.value in t && t[x].parent.value in rank
            && rank[t[x].parent.value] < rank[x])
  }

  /** Parents resolve and no node is its own ancestor. */
  ghost predicate Acyclic(t: Forest) {
    exists rank :: Ranked(t, rank)
  }

  ghost function RankOf(t: Forest): (rank: map<NodeId, nat>)
    requires Acyclic(t)
    ensures Ranked(t, rank)
  {
    var rank :| Ranked(t, rank); rank
  }

  /** A node followed by its parent, its grandparent, and so on up to a root. */
  ghost function Chain(t: Forest, x: NodeId): (c: seq<NodeId>)
    requires Acyclic(t) && x in t
    ensures |c| > 0 && c[0] == x
    ensures forall y :: y in c ==> y in t
    ensures t[c[|c| - 1]].parent == None
    decreases RankOf(t)[x]
  {
    match t[x].parent
    case None => [x]
    case Some(p) => [x] + Chain(t, p)
  }

  /** The root a node belongs to. */
  ghost function Root(t: Forest, x: NodeId): NodeId
    requires Acyclic(t) && x in t
  {
    var c := Chain(t, x); c[|c| - 1]
  }

  /** x is n or a descendant of n. */
  ghost predicate InSubtree(t: Forest, n: NodeId, x: NodeId)
    requires Acyclic(t)
  {
    x in t && n in Chain(t, x)
  }

  ghost function SubtreeOf(t: Forest, n: NodeId): set<NodeId>
    requires Acyclic(t)
  {
    set x | x in t && InSubtree(t, n, x)
  }

  /** Parent pointers and child lists say the same thing. */
  ghost predicate TwoWay(t: Forest) {
    && (forall p :: p in t ==> NoDup(t[p].children))
    && (forall p, c {:trigger c in t[p].children} :: p in t && c in t[p].children ==> c in t && t[c].parent == Some(p))
    && (forall c :: c in t && t[c].parent.Some? ==> t[c].parent.value in t && c in t[t[c].parent.value].children)
  }

  ghost predicate WellFormed(t: Forest) {
    Keyed(t) && Acyclic(t) && TwoWay(t)
  }

  // ---------- chains ----------

  lemma {:induction false} ChainRank(t: Forest, x: NodeId)
    requires Acyclic(t) && x in t
    ensures forall y :: y in Chain(t, x)[1..] ==> RankOf(t)[y] < RankOf(t)[x]
    decreases RankOf(t)[x]
  {
    if t[x].parent.Some? {
      var p := t[x].parent.value;
      ChainRank(t, p);
      assert Chain(t, x)[1..] == Chain(t, p) == [p] + Chain(t, p)[1..];
    }
  }

  lemma AboveRank(t: Forest, a: NodeId, x: NodeId)
    requires Acyclic(t) && InSubtree(t, a, x)
    ensures a == x || RankOf(t)[a] < RankOf(t)[x]
  {
    ChainRank(t, x);
    assert Chain(t, x) == [x] + Chain(t, x)[1..];
  }

  /** No node is among its own proper ancestors, and no ancestor is met twice. */
  lemma {:induction false} ChainNoDup(t: Forest, x: NodeId)
    requires Acyclic(t) && x in t
    ensures NoDup(Chain(t, x))
    ensures x !in Chain(t, x)[1..]
    decreases RankOf(t)[x]
  {
    ChainRank(t, x);
    if t[x].parent.Some? {
      var p := t[x].parent.value;
      ChainNoDup(t, p);
      assert Chain(t, x) == [x] + Chain(t, p);
      assert Chain(t, x)[1..] == Chain(t, p);
    }
  }

  lemma {:induction false} ChainBound(t: Forest, x: NodeId)
    requires Acyclic(t) && x in t
    ensures |Chain(t, x)| <= |t.Keys|
  {
    ChainNoDup(t, x);
    NoDupBound(Chain(t, x), t.Keys);
  }

  /** The ancestors of an ancestor are the rest of the chain. */
  lemma {:induction false} ChainSuffix(t: Forest, x: NodeId, i: nat)
    requires Acyclic(t) && x in t && i < |Chain(t, x)|
    ensures Chain(t, Chain(t, x)[i]) == Chain(t, x)[i..]
    decreases i
  {
    if i > 0 {
      var p := t[x].parent.value;
      assert Chain(t, x) == [x] + Chain(t, p);
      ChainSuffix(t, p, i - 1);
    }
  }

  /** Each chain member's parent is the next member, and the last has none. */
  lemma ParentInChain(t: Forest, x: NodeId, i: nat)
    requires Acyclic(t) && x in t && i < |Chain(t, x)|
    ensures var c := Chain(t, x);
            t[c[i]].parent == if i + 1 < |c| then Some(c[i + 1]) else None
  {
    var c := Chain(t, x);
    ChainSuffix(t, x, i);
    var y := c[i];
    assert Chain(t, y) == c[i..];
    if t[y].parent.Some? {
      assert Chain(t, y) == [y] + Chain(t, t[y].parent.value);
      assert c[i + 1] == c[i..][1];
    }
  }

  lemma SubtreeTransitive(t: Forest, a: NodeId, b: NodeId, x: NodeId)
    requires Acyclic(t) && InSubtree(t, b, x) && InSubtree(t, a, b)
    ensures InSubtree(t, a, x)
  {
    var i :| 0 <= i < |Chain(t, x)| && Chain(t, x)[i] == b;
    ChainSuffix(t, x, i);
  }

  /** A chain depends only on the parents of its own members. */
  lemma {:induction false} ChainCongruence(t: Forest, u: Forest, x: NodeId)
    requires Acyclic(t) && Acyclic(u) && x in t
    requires forall y :: y in Chain(t, x) ==> y in u && u[y].parent == t[y].parent
    ensures x in u && Chain(u, x) == Chain(t, x)
    decreases RankOf(t)[x]
  {
    assert x in Chain(t, x);
    if t[x].parent.Some? {
      var p := t[x].parent.value;
      assert Chain(t, x) == [x] + Chain(t, p);
      forall y | y in Chain(t, p) ensures y in u && u[y].parent == t[y].parent {
        assert y in Chain(t, x);
      }
      ChainCongruence(t, u, p);
    }
  }

  /** Acyclicity is a matter of parent pointers only, and survives dropping
      nodes as long as parents still resolve. */
  lemma AcyclicCongruence(t: Forest, u: Forest)
    requires Acyclic(t)
    requires forall x :: x in u ==> x in t && u[x].parent == t[x].parent
    requires forall x :: x in u && u[x].parent.Some? ==> u[x].parent.value in u
    ensures Acyclic(u)
  {
    assert Ranked(u, RankOf(t));
  }

  // ---------- re-parenting ----------

  /** u is t with n hung under q; nothing else changes parent. */
  ghost predicate Reparented(t: Forest, u: Forest, n: NodeId, q: Option<NodeId>) {
    && u.Keys == t.Keys && n in t
    && (forall x :: x in t ==> u[x].parent == if x == n then q else t[x].parent)
  }

  lemma ReparentAcyclic(t: Forest, u: Forest, n: NodeId, q: Option<NodeId>)
    requires Acyclic(t) && Reparented(t, u, n, q)
    requires q.Some? ==> q.value in t && !InSubtree(t, n, q.value)
    ensures Acyclic(u)
  {
    var below := set x | x in t && n in Chain(t, x);
    forall x | x in t && x != n && t[x].parent.Some?
      ensures x in below <==> t[x].parent.value in below
    {
      assert Chain(t, x) == [x] + Chain(t, t[x].parent.value);
    }
    LiftedRank(t, u, n, q, RankOf(t), below);
  }

  /** Raising a whole subtree above its new parent gives a rank for the new forest. */
  lemma LiftedRank(t: Forest, u: Forest, n: NodeId, q: Option<NodeId>, r: map<NodeId, nat>, below: set<NodeId>)
    requires Ranked(t, r) && Reparented(t, u, n, q)
    requires q.Some? ==> q.value in t && q.value !in below
    requires n in below
    requires forall x :: x in t && x != n && t[x].parent.Some? ==> (x in below <==> t[x].parent.value in below)
    ensures Acyclic(u)
  {
    var lift := if q.Some? then r[q.value] + 1 else 0;
    var rank: map<NodeId, nat> := map x | x in t :: if x in below then r[x] + lift else r[x];
    assert Ranked(u, rank);
  }

  lemma {:induction false} StillReaches(t: Forest, u: Forest, n: NodeId, q: Option<NodeId>, x: NodeId)
    requires Acyclic(t) && Acyclic(u) && Reparented(t, u, n, q) && InSubtree(t, n, x)
    ensures InSubtree(u, n, x)
    decreases RankOf(t)[x]
  {
    if x != n {
      StillReaches(t, u, n, q, t[x].parent.value);
    }
  }

  /** Hanging a present node under a present node is safe exactly when the new
      parent lies outside its subtree. */
  lemma ReparentSafeIff(t: Forest, u: Forest, n: NodeId, p: NodeId)
    requires Acyclic(t) && Reparented(t, u, n, Some(p)) && p in t
    ensures Acyclic(u) <==> !InSubtree(t, n, p)
  {
    if InSubtree(t, n, p) && Acyclic(u) {
      StillReaches(t, u, n, Some(p), p);
      AboveRank(u, n, p);
    }
    if !InSubtree(t, n, p) {
      ReparentAcyclic(t, u, n, Some(p));
    }
  }

  /** Outside the moved subtree no ancestor chain changes. */
  lemma ReparentOutside(t: Forest, u: Forest, n: NodeId, q: Option<NodeId>, x: NodeId)
    requires Acyclic(t) && Acyclic(u) && Reparented(t, u, n, q)
    requires x in t && !InSubtree(t, n, x)
    ensures Chain(u, x) == Chain(t, x)
  {
    ChainCongruence(t, u, x);
  }

  /** Everything in a subtree has the root of its top node. */
  lemma SubtreeRoot(t: Forest, n: NodeId, x: NodeId)
    requires Acyclic(t) && InSubtree(t, n, x)
    ensures Root(t, x) == Root(t, n)
  {
    var c := Chain(t, x);
    var i :| 0 <= i < |c| && c[i] == n;
    ChainSuffix(t, x, i);
  }

  /** Story re-rooting: exactly the moved subtree gets the new root, everything
      else keeps its own, and the subtree itself consists of the same nodes. */
  lemma ReparentRoots(t: Forest, u: Forest, n: NodeId, q: Option<NodeId>, x: NodeId)
    requires Acyclic(t) && Reparented(t, u, n, q) && x in t
    requires q.Some? ==> q.value in t && !InSubtree(t, n, q.value)
    ensures Acyclic(u)
    ensures InSubtree(u, n, x) <==> InSubtree(t, n, x)
    ensures Root(u, x) == if !InSubtree(t, n, x) then Root(t, x)
                          else if q.Some? then Root(t, q.value) else n
  {
    ReparentAcyclic(t, u, n, q);
    if InSubtree(t, n, x) {
      StillReaches(t, u, n, q, x);
      SubtreeRoot(u, n, x);
      if q.Some? {
        ReparentOutside(t, u, n, q, q.value);
        SubtreeRoot(u, q.value, n);
      }
    } else {
      ReparentOutside(t, u, n, q, x);
    }
  }

  // ---------- breadth-first walks along child lists ----------

  function Present(t: Forest, ids: seq<NodeId>): (r: seq<NodeId>)
  {
    Only(ids, t.Keys)
  }

  /** The child lists of a level, one after the other. */
  function Kids(t: Forest, level: seq<NodeId>): seq<NodeId> {
    if level == [] then [] else
    (if level[0] in t then t[level[0]].children else []) + Kids(t, level[1..])
  }

  /** The k-th level below n, found by following child lists and skipping absent ids. */
  function Level(t: Forest, n: NodeId, k: nat): seq<NodeId> {
    if k == 0 then [n] else Present(t, Kids(t, Level(t, n, k - 1)))
  }

  /** Levels 0 to k-1, one after the other. */
  function Upto(t: Forest, n: NodeId, k: nat): seq<NodeId> {
    if k == 0 then [] else Upto(t, n, k - 1) + Level(t, n, k - 1)
  }

  /** The walk below n, which keeps no visited set, runs out of nodes. */
  ghost predicate WalkEnds(t: Forest, n: NodeId) {
    exists k: nat :: Level(t, n, k) == []
  }

  /** The ids a completed walk visits, in order. */
  ghost function WalkIds(t: Forest, n: NodeId): seq<NodeId>
    requires WalkEnds(t, n)
  {
    var k: nat :| Level(t, n, k) == []; Upto(t, n, k)
  }

  lemma {:induction false} LevelStaysEmpty(t: Forest, n: NodeId, j: nat, k: nat)
    requires j <= k && Level(t, n, j) == []
    ensures Level(t, n, k) == [] && Upto(t, n, k) == Upto(t, n, j)
  {
    if j < k {
      LevelStaysEmpty(t, n, j, k - 1);
      var up := Level(t, n, k - 1);
      assert up == [] && Kids(t, up) == [] && Only(Kids(t, up), t.Keys) == [];
      assert Upto(t, n, k) == Upto(t, n, k - 1) + up;
    }
  }

  lemma WalkIdsAt(t: Forest, n: NodeId, k: nat)
    requires Level(t, n, k) == []
    ensures WalkEnds(t, n) && WalkIds(t, n) == Upto(t, n, k)
  {
    var j: nat :| Level(t, n, j) == [] && WalkIds(t, n) == Upto(t, n, j);
    LevelStaysEmpty(t, n, if j < k then j else k, if j < k then k else j);
  }

  lemma {:induction false} KidsConcat(t: Forest, a: seq<NodeId>, b: seq<NodeId>)
    ensures Kids(t, a + b) == Kids(t, a) + Kids(t, b)
  {
    if a == [] {
      assert a + b == b;
    } else {
      assert (a + b)[1..] == a[1..] + b;
      KidsConcat(t, a[1..], b);
    }
  }

  lemma {:induction false} PresentConcat(t: Forest, a: seq<NodeId>, b: seq<NodeId>)
    ensures Present(t, a + b) == Present(t, a) + Present(t, b)
  {
    if a == [] {
      assert a + b == b;
    } else {
      assert (a + b)[1..] == a[1..] + b;
      PresentConcat(t, a[1..], b);
    }
  }

  /** Handling one more id of a frontier. */
  lemma FrontierStep(t: Forest, frontier: seq<NodeId>, i: nat)
    requires i < |frontier|
    ensures var x, done := frontier[i], Present(t, frontier[..i]);
            && Present(t, frontier[..i + 1]) == done + (if x in t then [x] else [])
            && Kids(t, Present(t, frontier[..i + 1])) == Kids(t, done) + (if x in t then t[x].children else [])
  {
    var x, done := frontier[i], Present(t, frontier[..i]);
    assert frontier[..i + 1] == frontier[..i] + [x];
    PresentConcat(t, frontier[..i], [x]);
    KidsConcat(t, done, Present(t, [x]));
    assert Present(t, [x]) == if x in t then [x] else [];
    assert x in t ==> Kids(t, [x]) == t[x].children + [];
    assert done + [] == done;
  }

  /** x lies k generations below n. */
  ghost predicate Below(t: Forest, n: NodeId, x: NodeId, k: nat)
    requires Acyclic(t)
  {
    x in t && k < |Chain(t, x)| && Chain(t, x)[k] == n
  }

  lemma {:induction false} KidsExact(t: Forest, level: seq<NodeId>)
    requires WellFormed(t) && NoDup(level)
    requires forall y :: y in level ==> y in t
    ensures NoDup(Kids(t, level))
    ensures forall x :: x in Kids(t, level) <==> x in t && t[x].parent.Some? && t[x].parent.value in level
  {
    if level != [] {
      var rest := level[1..];
      assert NoDup(rest);
      KidsExact(t, rest);
      assert level[0] !in rest;
      assert level == [level[0]] + rest;
      NoDupConcat(t[level[0]].children, Kids(t, rest));
    }
  }

  ghost predicate IsLevel(t: Forest, n: NodeId, k: nat, level: seq<NodeId>)
    requires Acyclic(t)
  {
    NoDup(level) && forall x :: x in level <==> Below(t, n, x, k)
  }

  /** Level k holds exactly the nodes k generations below n, each once. */
  lemma {:induction false} LevelExact(t: Forest, n: NodeId, k: nat) returns (level: seq<NodeId>)
    requires WellFormed(t) && n in t
    ensures level == Level(t, n, k) && IsLevel(t, n, k, level)
  {
    if k == 0 {
      level := [n];
    } else {
      var up := LevelExact(t, n, k - 1);
      LevelStep(t, n, k, up);
      level := Present(t, Kids(t, up));
    }
  }

  lemma LevelStep(t: Forest, n: NodeId, k: nat, up: seq<NodeId>)
    requires WellFormed(t) && k > 0 && IsLevel(t, n, k - 1, up)
    ensures IsLevel(t, n, k, Present(t, Kids(t, up)))
  {
    KidsExact(t, up);
    OnlyAll(Kids(t, up), t.Keys);
    BelowStepAll(t, n, k, up, Kids(t, up));
  }

  lemma BelowStepAll(t: Forest, n: NodeId, k: nat, up: seq<NodeId>, kids: seq<NodeId>)
    requires Acyclic(t) && k > 0
    requires forall x :: x in up <==> Below(t, n, x, k - 1)
    requires forall x :: x in kids <==> x in t && t[x].parent.Some? && t[x].parent.value in up
    ensures forall x :: x in kids <==> Below(t, n, x, k)
  {
    forall x ensures x in kids <==> Below(t, n, x, k) {
      BelowStep(t, n, x, k);
    }
  }

  lemma BelowStep(t: Forest, n: NodeId, x: NodeId, k: nat)
    requires Acyclic(t) && k > 0
    ensures Below(t, n, x, k) <==> x in t && t[x].parent.Some? && Below(t, n, t[x].parent.value, k - 1)
  {
    if x in t && t[x].parent.Some? {
      assert Chain(t, x) == [x] + Chain(t, t[x].parent.value);
    }
  }

  lemma UptoOne(t: Forest, n: NodeId)
    requires n in t
    ensures Upto(t, n, 1) == [n]
    ensures Kids(t, Level(t, n, 0)) == t[n].children
  {
    assert Upto(t, n, 1) == [] + [n];
    assert Kids(t, [n]) == t[n].children + [];
  }

  /** The walk stands after level k: what it has visited, and the frontier to visit next. */
  ghost predicate WalkAt(t: Forest, n: NodeId, k: nat, frontier: seq<NodeId>, visited: seq<NodeId>) {
    frontier == Kids(t, Level(t, n, k)) && visited == Upto(t, n, k + 1)
  }

  lemma WalkOn(t: Forest, n: NodeId, k: nat, frontier: seq<NodeId>, visited: seq<NodeId>)
    requires WalkAt(t, n, k, frontier, visited)
    ensures WalkAt(t, n, k + 1, Kids(t, Present(t, frontier)), visited + Present(t, frontier))
  {
    var found := Present(t, frontier);
    assert Level(t, n, k + 1) == found;
    assert Upto(t, n, k + 2) == visited + found;
  }

  lemma WalkStart(t: Forest, n: NodeId)
    requires n in t
    ensures WalkAt(t, n, 0, t[n].children, [n])
  {
    UptoOne(t, n);
  }

  lemma WalkDone(t: Forest, n: NodeId, k: nat, visited: seq<NodeId>)
    requires WalkAt(t, n, k, [], visited)
    ensures WalkEnds(t, n) && visited == WalkIds(t, n)
  {
    assert Level(t, n, k + 1) == [];
    WalkIdsAt(t, n, k + 1);
  }

  /** A frontier beyond an empty level is empty. */
  lemma WalkOver(t: Forest, n: NodeId, last: nat, k: nat, frontier: seq<NodeId>, visited: seq<NodeId>)
    requires Level(t, n, last) == [] && WalkAt(t, n, k, frontier, visited)
    ensures frontier != [] ==> k < last
  {
    if last <= k { LevelStaysEmpty(t, n, last, k); }
  }

  /** On a well-formed forest the walk always ends. */
  lemma WellFormedWalkEnds(t: Forest, n: NodeId)
    requires WellFormed(t) && n in t
    ensures Level(t, n, |t.Keys|) == [] && WalkEnds(t, n)
  {
    var k := |t.Keys|;
    var level := LevelExact(t, n, k);
    if level != [] {
      var x := level[0];
      assert Below(t, n, x, k);
      ChainBound(t, x);
    }
  }

  /** Depth order: the chains of visited nodes never get shorter along the walk. */
  ghost predicate DepthOrdered(t: Forest, ids: seq<NodeId>)
    requires Acyclic(t)
  {
    forall i, j :: 0 <= i < j < |ids| && ids[i] in t && ids[j] in t ==> |Chain(t, ids[i])| <= |Chain(t, ids[j])|
  }

  /** Generations are unambiguous: a node is k below n for at most one k. */
  lemma BelowUnique(t: Forest, n: NodeId, x: NodeId, k: nat)
    requires Acyclic(t) && n in t && Below(t, n, x, k)
    ensures |Chain(t, x)| == k + |Chain(t, n)|
  {
    ChainSuffix(t, x, k);
  }

  ghost predicate BelowWithin(t: Forest, n: NodeId, x: NodeId, k: nat)
    requires Acyclic(t) && n in t
  {
    x in t && n in Chain(t, x) && |Chain(t, x)| < k + |Chain(t, n)|
  }

  lemma BelowWithinStep(t: Forest, n: NodeId, x: NodeId, k: nat)
    requires Acyclic(t) && n in t && k > 0
    ensures BelowWithin(t, n, x, k) <==> BelowWithin(t, n, x, k - 1) || Below(t, n, x, k - 1)
    ensures !(BelowWithin(t, n, x, k - 1) && Below(t, n, x, k - 1))
  {
    if x in t && n in Chain(t, x) {
      var j :| 0 <= j < |Chain(t, x)| && Chain(t, x)[j] == n;
      BelowUnique(t, n, x, j);
    }
    if Below(t, n, x, k - 1) { BelowUnique(t, n, x, k - 1); }
  }

  ghost predicate IsUpto(t: Forest, n: NodeId, k: nat, ids: seq<NodeId>)
    requires Acyclic(t) && n in t
  {
    NoDup(ids) && DepthOrdered(t, ids) && forall x :: x in ids <==> BelowWithin(t, n, x, k)
  }

  lemma {:induction false} UptoExact(t: Forest, n: NodeId, k: nat) returns (ids: seq<NodeId>)
    requires WellFormed(t) && n in t
    ensures ids == Upto(t, n, k) && IsUpto(t, n, k, ids)
  {
    if k == 0 {
      NothingWithinZero(t, n);
      ids := [];
    } else {
      var before := UptoExact(t, n, k - 1);
      var level := LevelExact(t, n, k - 1);
      UptoStep(t, n, k, before, level);
      ids := before + level;
    }
  }

  lemma NothingWithinZero(t: Forest, n: NodeId)
    requires Acyclic(t) && n in t
    ensures forall x :: !BelowWithin(t, n, x, 0)
  {
    forall x ensures !BelowWithin(t, n, x, 0) {
      if x in t && n in Chain(t, x) {
        var j :| 0 <= j < |Chain(t, x)| && Chain(t, x)[j] == n;
        BelowUnique(t, n, x, j);
      }
    }
  }

  lemma UptoStep(t: Forest, n: NodeId, k: nat, before: seq<NodeId>, level: seq<NodeId>)
    requires Acyclic(t) && n in t && k > 0
    requires IsUpto(t, n, k - 1, before) && IsLevel(t, n, k - 1, level)
    ensures IsUpto(t, n, k, before + level)
  {
    forall x
      ensures x in before + level <==> BelowWithin(t, n, x, k)
      ensures x in before ==> x !in level
    {
      BelowWithinStep(t, n, x, k);
    }
    NoDupConcat(before, level);
    forall x | x in level ensures |Chain(t, x)| == k - 1 + |Chain(t, n)| {
      BelowUnique(t, n, x, k - 1);
    }
    DepthConcat(t, before, level, k - 1 + |Chain(t, n)|);
  }

  lemma DepthConcat(t: Forest, a: seq<NodeId>, b: seq<NodeId>, d: nat)
    requires Acyclic(t) && DepthOrdered(t, a)
    requires forall x :: x in a ==> x in t && |Chain(t, x)| <= d
    requires forall x :: x in b ==> x in t && |Chain(t, x)| == d
    ensures DepthOrdered(t, a + b)
  {
    var all := a + b;
    forall i, j | 0 <= i < j < |all| ensures |Chain(t, all[i])| <= |Chain(t, all[j])| {
      if j >= |a| { assert all[j] in b; }
      assert all[i] in a || all[i] in b;
    }
  }

  /** The walk below n visits exactly the nodes whose ancestor chain reaches n,
      each once, level by level. */
  lemma WalkExact(t: Forest, n: NodeId)
    requires WellFormed(t) && n in t
    ensures WalkEnds(t, n)
    ensures NoDup(WalkIds(t, n))
    ensures forall x :: x in WalkIds(t, n) <==> InSubtree(t, n, x)
    ensures DepthOrdered(t, WalkIds(t, n))
    ensures |WalkIds(t, n)| > 0 && WalkIds(t, n)[0] == n
  {
    var k := |t.Keys|;
    WellFormedWalkEnds(t, n);
    WalkIdsAt(t, n, k);
    var ids := UptoExact(t, n, k);
    forall x ensures x in WalkIds(t, n) <==> InSubtree(t, n, x) {
      if x in t { ChainBound(t, x); }
    }
    UptoStartsAt(t, n, k);
  }

  lemma {:induction false} UptoStartsAt(t: Forest, n: NodeId, k: nat)
    requires k > 0
    ensures |Upto(t, n, k)| > 0 && Upto(t, n, k)[0] == n
  {
    if k > 1 { UptoStartsAt(t, n, k - 1); }
    else { assert Upto(t, n, 1) == [] + [n]; }
  }

  /** In a depth-ordered list every parent comes before its children. */
  lemma ParentsFirst(t: Forest, ids: seq<NodeId>, i: nat, j: nat)
    requires Acyclic(t) && (forall x :: x in ids ==> x in t) && DepthOrdered(t, ids)
    requires i < |ids| && j < |ids| && t[ids[j]].parent == Some(ids[i])
    ensures i < j
  {
    assert Chain(t, ids[j]) == [ids[j]] + Chain(t, ids[i]);
  }
}
