/** The node and edge records the diagram surface hands to the edge components,
    reduced to the fields those components read, and node lookup by id. */
module Flow {
  import opened Wrappers
  import opened Seqs

  datatype XYPosition = XYPosition(x: real, y: real)

  /** The size the surface measured; either side may still be unknown. */
  datatype Dimensions = Dimensions(width: Option<real>, height: Option<real>)

  /** A diagram node: its id, its position, its measured size (absent until the
      surface has measured it) and the `isHidden` flag of a family-member node. */
  datatype Node = Node(id: string, position: XYPosition, measured: Option<Dimensions>, isHidden: Option<bool>)

  /** The data an inner-family edge carries. */
  datatype EdgeData = EdgeData(offsetY: real, familyIndex: int)

  /** A diagram edge; `kind` is the edge's `type`. */
  datatype Edge = Edge(id: string, kind: Option<string>, source: string, target: string, data: Option<EdgeData>)

  /** The first node with the given id, as `nodes.find(node => node.id == id)`. */
  function FindNode(nodes: seq<Node>, id: string): (r: Option<Node>)
    ensures r.Some? <==> exists i :: 0 <= i < |nodes| && nodes[i].id == id
    ensures r.Some? ==> r.value.id == id && r.value in nodes
  {
    Find(nodes, (n: Node) => n.id == id)
  }

  /** The node found is the first one with the id. */
  lemma FindNodeFirst(nodes: seq<Node>, id: string)
    ensures FindNode(nodes, id).Some? ==>
              exists i :: 0 <= i < |nodes| && nodes[i] == FindNode(nodes, id).value
                          && forall j :: 0 <= j < i ==> nodes[j].id != id
  {
    FindFirst(nodes, (n: Node) => n.id == id);
  }
}
