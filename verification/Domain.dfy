/** The domain entities: a node, its kind, and the errors the layers raise. */
module Domain {

  type NodeId = string

  datatype Option<+T> = None | Some(value: T)

  datatype Result<+T> = Ok(value: T) | Err(error: Error)

  datatype NodeType = STORY | TASK | NOTE

  type Metadata = map<string, string>

  /** One node record, as held in memory and in `node.json`. */
  datatype Node = Node(
    id: NodeId,
    title: string,
    kind: NodeType,
    metadata: Metadata,
    parent: Option<NodeId>,
    children: seq<NodeId>)

  datatype Error =
    | DuplicateNodeId(id: NodeId)
    | InvalidParent
    | NodeNotFound(id: NodeId)
    | TreeCycle(id: NodeId)
    | BlankTitle
    | ParentNotFound
    | CycleInMove
    | InvalidQuery(fieldName: string)

  /** Everything of a node but its list of children. */
  predicate SameButChildren(a: Node, b: Node) {
    && a.id == b.id && a.title == b.title && a.kind == b.kind
    && a.metadata == b.metadata && a.parent == b.parent
  }

  lemma SameButChildrenIff(a: Node, b: Node)
    ensures SameButChildren(a, b) <==> a.(children := b.children) == b
  {
  }

  /** The characters Python's `str.strip` removes. */
  predicate IsSpace(c: char) {
    || '\t' <= c <= '\r'
    || '\U{1c}' <= c <= ' '
    || c in {'\U{85}', '\U{a0}', '\U{1680}', '\U{2028}', '\U{2029}', '\U{202f}', '\U{205f}', '\U{3000}'}
    || '\U{2000}' <= c <= '\U{200a}'
  }

  /** One by one. */
  lemma SpacesAre(c: char)
    ensures IsSpace(c) <==>
              || c in "\t\n\U{b}\U{c}\r\U{1c}\U{1d}\U{1e}\U{1f} \U{85}\U{a0}\U{1680}"
              || c in "\U{2000}\U{2001}\U{2002}\U{2003}\U{2004}\U{2005}\U{2006}\U{2007}\U{2008}\U{2009}\U{200a}"
              || c in "\U{2028}\U{2029}\U{202f}\U{205f}\U{3000}"
  {
  }

  /** `not title or not title.strip()`. */
  predicate Blank(title: string) {
    forall i :: 0 <= i < |title| ==> IsSpace(title[i])
  }
}
