/** Removing a subtree one leaf at a time, in the order deletions are reported, is removing it at once. */
module Removal {
  import opened Domain
  import opened Seqs
  import opened Forests
  import opened Trees
  import opened IndexRuns

  /** `Tree.remove` for each id in turn; None as soon as one is absent or not a leaf. */
  ghost function RemovedInTurn(t: Forest, ids: seq<NodeId>): Option<Forest> {
    if ids == [] then Some(t)
    else
      var k := |ids| - 1;
      match RemovedInTurn(t, ids[..k])
      case None => None
      case Some(u) => if CanRemove(u, ids[k]) then Some(Removed(u, ids[k])) else None
  }

  ghost predicate CanRemove(t: Forest, x: NodeId) {
    x in t && (t[x].parent.Some? ==> t[x].parent.value in t) && Leaf(t, x)
  }

  /** What is left when some nodes are gone, child lists included. */
  ghost function Left(t: Forest, gone: set<NodeId>): Forest {
    map x | x in t && x !in gone :: t[x].(children := Only(t[x].children, t.Keys - gone))
  }

  lemma {:induction false} OnlyMinus(s: seq<NodeId>, keep: set<NodeId>, x: NodeId)
    ensures Only(s, keep - {x}) == Without(Only(s, keep), x)
  {
    if s != [] {
      OnlyMinus(s[1..], keep, x);
      var first := if s[0] in keep then [s[0]] else [];
      WithoutConcat(first, Only(s[1..], keep), x);
      assert Without(first, x) == if s[0] in keep - {x} then [s[0]] else [];
    }
  }

  lemma LeftNothing(t: Forest)
    requires TwoWay(t)
    ensures Left(t, {}) == t
  {
    assert t.Keys - {} == t.Keys;
    forall x | x in t ensures Only(t[x].children, t.Keys) == t[x].children {
      OnlyAll(t[x].children, t.Keys);
    }
  }

  /** What removing x does to the record of another node. */
  lemma RemovedAt(t: Forest, x: NodeId, y: NodeId)
    requires CanRemove(t, x) && y in t && y != x
    ensures y in Removed(t, x)
    ensures Removed(t, x)[y] ==
              if t[x].parent == Some(y) then t[y].(children := Without(t[y].children, x)) else t[y]
  {
  }

  /** One more leaf gone. */
  lemma LeftStep(t: Forest, gone: set<NodeId>, x: NodeId)
    requires WellFormed(t) && x in t && x !in gone
    requires t[x].parent.Some? ==> t[x].parent.value !in gone
    requires forall c :: c in t && t[c].parent == Some(x) ==> c in gone
    ensures CanRemove(Left(t, gone), x)
    ensures Removed(Left(t, gone), x) == Left(t, gone + {x})
  {
    var u, v := Left(t, gone), Left(t, gone + {x});
    assert CanRemove(u, x);
    var r := Removed(u, x);
    assert r.Keys == v.Keys;
    forall y | y in v ensures r[y] == v[y] {
      LeftStepAt(t, gone, x, y);
    }
  }

  lemma LeftStepAt(t: Forest, gone: set<NodeId>, x: NodeId, y: NodeId)
    requires TwoWay(t) && y in t && y !in gone && y != x && x in t && CanRemove(Left(t, gone), x)
    ensures y in Left(t, gone + {x}) && y in Removed(Left(t, gone), x)
    ensures Removed(Left(t, gone), x)[y] == Left(t, gone + {x})[y]
  {
    var keep := t.Keys - gone;
    RemovedAt(Left(t, gone), x, y);
    OnlyMinus(t[y].children, keep, x);
    assert t.Keys - (gone + {x}) == keep - {x};
    assert x in t[y].children <==> t[x].parent == Some(y);
  }

  /** With the whole subtree gone, only the list that held its top has changed. */
  lemma LeftIsSubtreeRemoved(t: Forest, n: NodeId)
    requires WellFormed(t) && n in t
    ensures Left(t, SubtreeOf(t, n)) == SubtreeRemoved(t, n)
  {
    var gone := SubtreeOf(t, n);
    SubtreeClosed(t, n);
    assert n in Chain(t, n);
    var u, v := Left(t, gone), SubtreeRemoved(t, n);
    assert u.Keys == v.Keys;
    forall y | y in u ensures u[y] == v[y] {
      OutsideList(t, n, y, gone);
      UnlistedAt(t, n, y);
    }
  }

  lemma UnlistedAt(t: Forest, n: NodeId, y: NodeId)
    requires n in t && y in t && (t[n].parent.Some? ==> t[n].parent.value in t)
    ensures Unlisted(t, n).Keys == t.Keys
    ensures Unlisted(t, n)[y] == if t[n].parent == Some(y) then t[y].(children := Without(t[y].children, n)) else t[y]
  {
  }

  lemma OutsideList(t: Forest, n: NodeId, y: NodeId, gone: set<NodeId>)
    requires TwoWay(t) && n in t && n in gone && y in t && y !in gone
    requires forall x :: x in t && t[x].parent.Some? ==> (x in gone <==> x == n || t[x].parent.value in gone)
    ensures Only(t[y].children, t.Keys - gone) == Without(t[y].children, n)
    ensures t[n].parent != Some(y) ==> n !in t[y].children
  {
    OnlyMinus(t[y].children, t.Keys, n);
    OnlyAll(t[y].children, t.Keys);
    OnlySame(t[y].children, t.Keys - gone, t.Keys - {n});
  }

  lemma {:induction false} OnlySame(s: seq<NodeId>, a: set<NodeId>, b: set<NodeId>)
    requires forall x :: x in s ==> (x in a <==> x in b)
    ensures Only(s, a) == Only(s, b)
  {
    if s != [] { OnlySame(s[1..], a, b); }
  }

  /** The nodes of a subtree come up as leaves when taken in reporting order. */
  lemma {:induction false} TurnsExact(t: Forest, ids: seq<NodeId>, n: NodeId, k: nat)
    requires WellFormed(t) && n in t && NoDup(ids) && LeavesFirst(t, ids) && ToSet(ids) == SubtreeOf(t, n)
    requires k <= |ids|
    ensures RemovedInTurn(t, ids[..k]) == Some(Left(t, ToSet(ids[..k])))
  {
    if k == 0 {
      assert ids[..0] == [] && ToSet(ids[..0]) == {};
      LeftNothing(t);
    } else {
      TurnsExact(t, ids, n, k - 1);
      PrefixStep(ids, k - 1);
      TurnReady(t, ids, n, k - 1);
      LeftStep(t, ToSet(ids[..k - 1]), ids[k - 1]);
      OneTurn(t, ids, k, Left(t, ToSet(ids[..k - 1])));
    }
  }

  lemma OneTurn(t: Forest, ids: seq<NodeId>, k: nat, u: Forest)
    requires 0 < k <= |ids| && RemovedInTurn(t, ids[..k - 1]) == Some(u) && CanRemove(u, ids[k - 1])
    ensures RemovedInTurn(t, ids[..k]) == Some(Removed(u, ids[k - 1]))
  {
    assert ids[..k][..k - 1] == ids[..k - 1];
  }

  lemma TurnReady(t: Forest, ids: seq<NodeId>, n: NodeId, k: nat)
    requires WellFormed(t) && n in t && NoDup(ids) && LeavesFirst(t, ids) && ToSet(ids) == SubtreeOf(t, n)
    requires k < |ids|
    ensures var x, gone := ids[k], ToSet(ids[..k]);
            && x in t && x !in gone
            && (t[x].parent.Some? ==> t[x].parent.value !in gone)
            && forall c :: c in t && t[c].parent == Some(x) ==> c in gone
  {
    var x, gone := ids[k], ToSet(ids[..k]);
    assert x in ToSet(ids);
    SubtreeClosed(t, n);
    forall j | 0 <= j < k ensures t[x].parent != Some(ids[j]) {
    }
    forall c | c in t && t[c].parent == Some(x) ensures c in gone {
      assert c in ToSet(ids);
      var j :| 0 <= j < |ids| && ids[j] == c;
      assert j < k;
      assert ids[..k][j] == c;
    }
  }

  /** Deleting leaf by leaf, in exactly the order the hooks report, never meets a
      node that still has children, and leaves the forest without the subtree. */
  lemma LeafByLeaf(t: Forest, n: NodeId)
    requires WellFormed(t) && n in t
    ensures WalkEnds(t, n) && RemovedInTurn(t, FanOut(t, n)) == Some(SubtreeRemoved(t, n))
  {
    FanOutOf(t, n);
    var ids := FanOut(t, n);
    TurnsExact(t, ids, n, |ids|);
    assert ids[..|ids|] == ids;
    LeftIsSubtreeRemoved(t, n);
  }
}
