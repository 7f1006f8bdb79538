/** The search index: one row per node, the in-memory row store, and the projection of a tree. */
module Index {
  import opened Domain
  import opened Seqs
  import opened Forests
  import opened Trees

  /** Readings of the clock. */
  type Time = nat

  datatype IndexRecord = IndexRecord(
    nodeId: NodeId,
    parentId: Option<NodeId>,
    storyId: Option<NodeId>,
    title: string,
    nodeType: string,
    path: string,
    createdAt: Time,
    updatedAt: Time,
    searchText: string)

  type Records = map<NodeId, IndexRecord>

  // ---------- row store ----------

  /** A row as stored: an existing row keeps its creation time. */
  function Stored(rows: Records, record: IndexRecord, now: Time): IndexRecord {
    record.(createdAt := if record.nodeId in rows then rows[record.nodeId].createdAt else record.createdAt,
            updatedAt := now)
  }

  function Upserted(rows: Records, record: IndexRecord, now: Time): Records {
    rows[record.nodeId := Stored(rows, record, now)]
  }

  function UpsertedAll(rows: Records, records: seq<IndexRecord>, now: Time): Records {
    if records == [] then rows
    else Upserted(UpsertedAll(rows, records[..|records| - 1], now), records[|records| - 1], now)
  }

  lemma UpsertedNext(rows: Records, records: seq<IndexRecord>, i: nat, now: Time)
    requires i < |records|
    ensures UpsertedAll(rows, records[..i + 1], now) == Upserted(UpsertedAll(rows, records[..i], now), records[i], now)
  {
    assert records[..i + 1][..i] == records[..i];
  }

  /** The rows after wholesale replacement. */
  function Replaced(rows: Records, records: seq<IndexRecord>, now: Time): Records {
    if records == [] then map[]
    else
      var last := records[|records| - 1];
      Replaced(rows, records[..|records| - 1], now)[last.nodeId := Stored(rows, last, now)]
  }

  class InMemoryIndexRepository {
    var records: Records

    constructor ()
      ensures records == map[]
    {
      records := map[];
    }

    method Get(nodeId: NodeId) returns (r: Option<IndexRecord>)
      ensures r == if nodeId in records then Some(records[nodeId]) else None
    {
      if nodeId !in records { return None; }
      return Some(records[nodeId]);
    }

    method Upsert(record: IndexRecord, now: Time)
      modifies this
      ensures records == Upserted(old(records), record, now)
    {
      var stored := record.(updatedAt := now);
      if record.nodeId in records {
        stored := stored.(createdAt := records[record.nodeId].createdAt);
        if records[record.nodeId] == stored {
          assert records[record.nodeId := stored] == records;
          return;
        }
      }
      records := records[record.nodeId := stored];
    }

    method Delete(nodeId: NodeId) returns (removed: bool)
      modifies this
      ensures removed <==> nodeId in old(records)
      ensures records == old(records) - {nodeId}
    {
      removed := nodeId in records;
      records := records - {nodeId};
    }

    method DeleteMany(nodeIds: seq<NodeId>) returns (count: nat)
      modifies this
      ensures records == old(records) - ToSet(nodeIds)
      ensures count == |old(records)| - |records|
    {
      count := 0;
      for i := 0 to |nodeIds|
        invariant records == old(records) - ToSet(nodeIds[..i])
        invariant count == |old(records)| - |records|
      {
        RemovalTwice(old(records), ToSet(nodeIds[..i]), nodeIds[i]);
        PrefixStep(nodeIds, i);
        RemovalSize(records, nodeIds[i]);
        var removed := Delete(nodeIds[i]);
        if removed { count := count + 1; }
      }
      assert nodeIds[..|nodeIds|] == nodeIds;
    }

    /** Builds the new rows completely before publishing them. */
    method ReplaceAll(records': seq<IndexRecord>, now: Time) returns (count: nat)
      modifies this
      ensures records == Replaced(old(records), records', now) && count == |records|
    {
      var newMap: Records := map[];
      for i := 0 to |records'|
        invariant newMap == Replaced(records, records'[..i], now)
      {
        assert records'[..i + 1][..i] == records'[..i];
        newMap := newMap[records'[i].nodeId := Stored(records, records'[i], now)];
      }
      assert records'[..|records'|] == records';
      records := newMap;
      count := |newMap|;
    }
  }

  lemma RemovalTwice(rows: Records, gone: set<NodeId>, x: NodeId)
    ensures rows - gone - {x} == rows - (gone + {x})
  {
  }

  lemma RemovalSize(rows: Records, x: NodeId)
    ensures |rows - {x}| == |rows| - if x in rows then 1 else 0
  {
    var rest := rows - {x};
    if x in rows {
      assert rows == rest[x := rows[x]];
    } else {
      assert rest == rows;
    }
  }

  // ---------- projection ----------

  function TypeName(kind: NodeType): string {
    match kind
    case STORY => "story"
    case TASK => "task"
    case NOTE => "note"
  }

  /** The row of a node: its story is the root it belongs to. */
  ghost function ProjectNode(t: Forest, x: NodeId, path: string, now: Time): IndexRecord
    requires Acyclic(t) && x in t
  {
    IndexRecord(x, t[x].parent, Some(Root(t, x)), t[x].title, TypeName(t[x].kind), path, now, now, "")
  }

  /** r is x or an ancestor of it, and has no parent. */
  ghost predicate IsRootOf(t: Forest, x: NodeId, r: NodeId)
    requires Acyclic(t) && x in t
  {
    r in Chain(t, x) && t[r].parent == None
  }

  /** There is just one such node. */
  lemma RootIsOnly(t: Forest, x: NodeId, r: NodeId)
    requires Acyclic(t) && x in t
    ensures IsRootOf(t, x, r) <==> r == Root(t, x)
  {
    var c := Chain(t, x);
    if IsRootOf(t, x, r) {
      var i :| 0 <= i < |c| && c[i] == r;
      ParentInChain(t, x, i);
    }
  }

  /** The type written as a word. */
  predicate TypeWord(kind: NodeType, word: string) {
    && (kind == STORY ==> word == "story")
    && (kind == TASK ==> word == "task")
    && (kind == NOTE ==> word == "note")
  }

  /** A row says of its node what is so: its parent, the root it belongs to, its
      title, and its type as a word. */
  ghost predicate RowAgrees(t: Forest, x: NodeId, row: IndexRecord)
    requires Acyclic(t) && x in t
  {
    && row.nodeId == x && row.parentId == t[x].parent && row.title == t[x].title
    && row.storyId.Some? && IsRootOf(t, x, row.storyId.value) && TypeWord(t[x].kind, row.nodeType)
  }

  lemma RowAgreesIff(t: Forest, x: NodeId, row: IndexRecord)
    requires Acyclic(t) && x in t
    ensures RowAgrees(t, x, row) <==>
              && row.nodeId == x && row.parentId == t[x].parent && row.title == t[x].title
              && row.storyId == Some(Root(t, x)) && row.nodeType == TypeName(t[x].kind)
  {
    RootIsOnly(t, x, Root(t, x));
    if row.storyId.Some? { RootIsOnly(t, x, row.storyId.value); }
  }

  /** What is written for a node: it agrees with the tree, has the path and the
      time given, and keeps the creation time of the row there was. */
  ghost predicate RowWritten(rows: Records, t: Forest, x: NodeId, path: string, now: Time, row: IndexRecord)
    requires Acyclic(t) && x in t
  {
    && RowAgrees(t, x, row) && row.path == path && row.updatedAt == now && row.searchText == ""
    && row.createdAt == if x in rows then rows[x].createdAt else now
  }

  /** What both the hooks and the rebuild write. */
  lemma ProjectionStored(rows: Records, t: Forest, x: NodeId, path: string, now: Time)
    requires Acyclic(t) && x in t
    ensures RowAgrees(t, x, ProjectNode(t, x, path, now))
    ensures RowWritten(rows, t, x, path, now, Stored(rows, ProjectNode(t, x, path, now), now))
  {
    RowAgreesIff(t, x, ProjectNode(t, x, path, now));
    RowAgreesIff(t, x, Stored(rows, ProjectNode(t, x, path, now), now));
  }

  /** The index has exactly the tree's nodes, each with an agreeing row. */
  ghost predicate Agrees(rows: Records, t: Forest)
    requires Acyclic(t)
  {
    rows.Keys == t.Keys && forall x {:trigger RowAgrees(t, x, rows[x])} :: x in t ==> RowAgrees(t, x, rows[x])
  }

  ghost predicate PathsAgree(rows: Records, paths: map<NodeId, string>) {
    forall x :: x in rows ==> x in paths && rows[x].path == paths[x]
  }

  /** The story of a node that need not be in the tree: itself for a root, else
      the root above its parent, if the parent is there. */
  ghost function StoryOf(t: Forest, node: Node): Option<NodeId>
    requires Acyclic(t)
  {
    match node.parent
    case None => Some(node.id)
    case Some(p) => if p in t then Some(Root(t, p)) else None
  }

  ghost function ProjectedFrom(t: Forest, node: Node, path: string, now: Time): IndexRecord
    requires Acyclic(t)
  {
    IndexRecord(node.id, node.parent, StoryOf(t, node), node.title, TypeName(node.kind), path, now, now, "")
  }

  /** A row says of any node, in the tree or not, what is so: the story is the
      root above its parent. */
  ghost predicate Describes(t: Forest, node: Node, row: IndexRecord)
    requires Acyclic(t)
  {
    && row.nodeId == node.id && row.parentId == node.parent && row.title == node.title
    && TypeWord(node.kind, row.nodeType)
    && match node.parent {
         case None => row.storyId == Some(node.id)
         case Some(p) =>
           if p in t then row.storyId.Some? && IsRootOf(t, p, row.storyId.value) else row.storyId == None
       }
  }

  lemma ProjectedPlain(t: Forest, node: Node, path: string, now: Time)
    requires Acyclic(t)
    ensures var row := ProjectedFrom(t, node, path, now);
            && Describes(t, node, row) && row.path == path && row.searchText == ""
            && row.createdAt == row.updatedAt == now
  {
    if node.parent.Some? && node.parent.value in t { RootIsOnly(t, node.parent.value, Root(t, node.parent.value)); }
  }

  /** For the tree's own record that is its projection. */
  lemma OwnProjection(t: Forest, node: Node, path: string, now: Time)
    requires Acyclic(t) && node.id in t && t[node.id] == node
    ensures StoryOf(t, node) == Some(Root(t, node.id))
    ensures ProjectedFrom(t, node, path, now) == ProjectNode(t, node.id, path, now)
  {
    if node.parent.Some? {
      assert Chain(t, node.id) == [node.id] + Chain(t, node.parent.value);
    }
  }

  /** Walks up the parents of any node; terminates, and finds the root above it. */
  method ResolveStoryId(tree: Tree, node: Node) returns (story: Option<NodeId>)
    requires tree.Valid()
    ensures story == StoryOf(tree.nodes, node)
  {
    ghost var t := tree.nodes;
    ghost var chain := if node.parent.Some? && node.parent.value in t then Chain(t, node.parent.value) else [];
    ghost var i := 0;
    if chain != [] { ChainNoDup(t, node.parent.value); }
    var cursor := node.parent;
    var seen: set<NodeId> := {};
    while cursor.Some?
      invariant cursor.Some? ==> node.parent.Some?
      invariant cursor.None? ==> node.parent.None?
      invariant chain == [] ==> cursor == node.parent && seen == {}
      invariant chain != [] ==> i < |chain| && cursor == Some(chain[i])
      invariant chain != [] ==> seen <= ToSet(chain[..i])
      decreases |chain| - i
    {
      if chain != [] {
        PrefixStep(chain, i);
        ChainStep(t, node.parent.value, i);
      }
      if cursor.value in seen { return None; }
      seen := seen + {cursor.value};
      if cursor.value !in tree.nodes { return None; }
      var parent := tree.nodes[cursor.value];
      if parent.parent.None? { return Some(parent.id); }
      cursor := parent.parent;
      i := i + 1;
    }
    return Some(node.id);
  }

  /** One step up a chain: the next member, or the root reached. */
  lemma ChainStep(t: Forest, x: NodeId, i: nat)
    requires Acyclic(t) && x in t && i < |Chain(t, x)|
    ensures var c := Chain(t, x);
            && c[i] in t
            && t[c[i]].parent == (if i + 1 < |c| then Some(c[i + 1]) else None)
            && (i + 1 == |c| ==> c[i] == Root(t, x))
  {
    ParentInChain(t, x, i);
    assert Chain(t, x)[i] in Chain(t, x);
  }

  method ProjectRecord(tree: Tree, node: Node, path: string, now: Time) returns (record: IndexRecord)
    requires tree.Valid()
    ensures Describes(tree.nodes, node, record) && record.path == path && record.searchText == ""
    ensures record.createdAt == record.updatedAt == now
    ensures record == ProjectedFrom(tree.nodes, node, path, now)
    ensures node.id in tree.nodes && tree.nodes[node.id] == node ==>
              record == ProjectNode(tree.nodes, node.id, path, now)
  {
    ProjectedPlain(tree.nodes, node, path, now);
    var story := ResolveStoryId(tree, node);
    record := IndexRecord(node.id, node.parent, story, node.title, TypeName(node.kind), path, now, now, "");
    if node.id in tree.nodes && tree.nodes[node.id] == node { OwnProjection(tree.nodes, node, path, now); }
  }
}
