/** The couple-edge router of src/FamilyComponents/CoupleEdge.tsx: the straight
    line between two partners, lowered by an offset that depends on the edge's
    rank among the couple edges of its generation. */
module CoupleEdge {
  import opened Wrappers
  import opened Seqs
  import opened StringOrder
  import opened Flow

  const CoupleEdgeTypeKey: string := "couple"

  datatype Point = Point(x: real, y: real)

  /** The coordinates handed to the straight-path primitive. */
  datatype StraightPath = StraightPath(sourceX: real, sourceY: real, targetX: real, targetY: real)

  /** `node.measured?.width ?? 0` */
  function MeasuredWidth(node: Node): (w: real)
    ensures w == 0.0 || (node.measured.Some? && node.measured.value.width == Some(w))
    ensures node.measured.Some? && node.measured.value.width.Some? ==> w == node.measured.value.width.value
  {
    if node.measured.Some? && node.measured.value.width.Some? then node.measured.value.width.value else 0.0
  }

  /** `node.measured?.height ?? 0` */
  function MeasuredHeight(node: Node): (h: real)
    ensures h == 0.0 || (node.measured.Some? && node.measured.value.height == Some(h))
    ensures node.measured.Some? && node.measured.value.height.Some? ==> h == node.measured.value.height.value
  {
    if node.measured.Some? && node.measured.value.height.Some? then node.measured.value.height.value else 0.0
  }

  /** `getNodeCenter`: the point halfway across the node's measured box; an
      unmeasured side counts as zero, so an unmeasured node's centre is its position. */
  function NodeCenter(node: Node): (c: Point)
    ensures c.x - node.position.x == node.position.x + MeasuredWidth(node) - c.x
    ensures c.y - node.position.y == node.position.y + MeasuredHeight(node) - c.y
    ensures node.measured.None? ==> c == Point(node.position.x, node.position.y)
  {
    Point(node.position.x + MeasuredWidth(node) / 2.0, node.position.y + MeasuredHeight(node) / 2.0)
  }

  /** The filter of the source: a couple edge both of whose endpoints resolve
      to nodes and whose source node lies on the row `rowY`. */
  predicate InGeneration(nodes: seq<Node>, rowY: real, edge: Edge)
  {
    && edge.kind == Some(CoupleEdgeTypeKey)
    && FindNode(nodes, edge.source).Some?
    && FindNode(nodes, edge.target).Some?
    && FindNode(nodes, edge.source).value.position.y == rowY
  }

  /** An edge that passes the filter is a couple edge with a node of its source
      id on the row and a node of its target id. */
  lemma InGenerationEndpoints(nodes: seq<Node>, rowY: real, edge: Edge)
    ensures InGeneration(nodes, rowY, edge) ==>
              && edge.kind == Some(CoupleEdgeTypeKey)
              && (exists i :: 0 <= i < |nodes| && nodes[i].id == edge.source && nodes[i].position.y == rowY)
              && (exists i :: 0 <= i < |nodes| && nodes[i].id == edge.target)
  {
    if InGeneration(nodes, rowY, edge) {
      var n := FindNode(nodes, edge.source).value;
      var i :| 0 <= i < |nodes| && nodes[i] == n;
    }
  }

  /** Some edge that passes the filter of row `rowY` has the id `id`. */
  predicate RowHasEdge(edges: seq<Edge>, nodes: seq<Node>, rowY: real, id: string)
  {
    exists e :: e in edges && InGeneration(nodes, rowY, e) && e.id == id
  }

  /** The ids of the couple edges of row `rowY`, in edge-list order. */
  function GenerationIds(edges: seq<Edge>, nodes: seq<Node>, rowY: real): (r: seq<string>)
  {
    Map(Filter(edges, (e: Edge) => InGeneration(nodes, rowY, e)), (e: Edge) => e.id)
  }

  lemma GenerationIdsMembership(edges: seq<Edge>, nodes: seq<Node>, rowY: real, id: string)
    ensures id in GenerationIds(edges, nodes, rowY)
            <==> RowHasEdge(edges, nodes, rowY, id)
  {
    var kept := Filter(edges, (e: Edge) => InGeneration(nodes, rowY, e));
    if RowHasEdge(edges, nodes, rowY, id) {
      var e :| e in edges && InGeneration(nodes, rowY, e) && e.id == id;
      var i :| 0 <= i < |edges| && edges[i] == e;
      var j :| 0 <= j < |kept| && kept[j] == e;
      assert GenerationIds(edges, nodes, rowY)[j] == id;
    }
  }

  /** One id per qualifying edge at most, each the id of a qualifying edge. */
  lemma GenerationIdsEntries(edges: seq<Edge>, nodes: seq<Node>, rowY: real)
    ensures |GenerationIds(edges, nodes, rowY)| <= |edges|
    ensures forall j :: 0 <= j < |GenerationIds(edges, nodes, rowY)| ==> RowHasEdge(edges, nodes, rowY, GenerationIds(edges, nodes, rowY)[j])
  {
    var kept := Filter(edges, (e: Edge) => InGeneration(nodes, rowY, e));
    var ids := GenerationIds(edges, nodes, rowY);
    assert ids == Map(kept, (e: Edge) => e.id);
    assert |ids| == |kept| <= |edges|;
    forall j | 0 <= j < |ids|
      ensures RowHasEdge(edges, nodes, rowY, ids[j])
    {
      GenerationIdsMembership(edges, nodes, rowY, ids[j]);
    }
  }

  /** `sameGenEdges`: those ids, sorted. */
  function SameGenEdges(edges: seq<Edge>, nodes: seq<Node>, rowY: real): (r: seq<string>)
    ensures Sorted(r)
    ensures multiset(r) == multiset(GenerationIds(edges, nodes, rowY))
  {
    Sort(GenerationIds(edges, nodes, rowY))
  }

  lemma SameGenEdgesMembership(edges: seq<Edge>, nodes: seq<Node>, rowY: real, id: string)
    ensures id in SameGenEdges(edges, nodes, rowY)
            <==> RowHasEdge(edges, nodes, rowY, id)
  {
    var ids := GenerationIds(edges, nodes, rowY);
    assert id in SameGenEdges(edges, nodes, rowY) <==> id in multiset(ids);
    GenerationIdsMembership(edges, nodes, rowY, id);
  }

  /** `edgeIndexInGen`: the position of `id` among the sorted ids of its row, or
      -1 when no couple edge of the row has that id. */
  function EdgeIndexInGen(edges: seq<Edge>, nodes: seq<Node>, rowY: real, id: string): (k: int)
    ensures -1 <= k < |GenerationIds(edges, nodes, rowY)|
    ensures k < 0 <==> !RowHasEdge(edges, nodes, rowY, id)
    ensures 0 <= k ==> SameGenEdges(edges, nodes, rowY)[k] == id
  {
    var sorted := SameGenEdges(edges, nodes, rowY);
    assert |sorted| == |multiset(sorted)| == |GenerationIds(edges, nodes, rowY)|;
    SameGenEdgesMembership(edges, nodes, rowY, id);
    IndexOf(sorted, id)
  }

  /** `CoupleEdge`: nothing when either endpoint is missing; otherwise the two
      node centres, both lowered by the same offset
      `calcCoupleEdgeYOffset(edgeIndexInGen) * 10`, with unshifted x. */
  function CoupleEdge(id: string, source: string, target: string, edges: seq<Edge>, nodes: seq<Node>,
                      calcCoupleEdgeYOffset: int -> real): (r: Option<StraightPath>)
    ensures r.None? <==> FindNode(nodes, source).None? || FindNode(nodes, target).None?
    ensures r.Some? ==>
              var sourceNode := FindNode(nodes, source).value;
              var sourceCenter, targetCenter := NodeCenter(sourceNode), NodeCenter(FindNode(nodes, target).value);
              var offset := calcCoupleEdgeYOffset(EdgeIndexInGen(edges, nodes, sourceNode.position.y, id)) * 10.0;
              && r.value.sourceX == sourceCenter.x
              && r.value.targetX == targetCenter.x
              && r.value.sourceY - sourceCenter.y == offset
              && r.value.targetY - targetCenter.y == offset
  {
    var sourceNode := FindNode(nodes, source);
    var targetNode := FindNode(nodes, target);
    if sourceNode.None? || targetNode.None? then None
    else
      var sourceCenter := NodeCenter(sourceNode.value);
      var targetCenter := NodeCenter(targetNode.value);
      var edgeIndexInGen := EdgeIndexInGen(edges, nodes, sourceNode.value.position.y, id);
      var offsetY := calcCoupleEdgeYOffset(edgeIndexInGen) * 10.0;
      Some(StraightPath(sourceCenter.x, sourceCenter.y + offsetY, targetCenter.x, targetCenter.y + offsetY))
  }

  /** The rank of an id of the row is the number of couple edges of the row
      whose id sorts strictly before it: it depends on the qualifying ids only. */
  lemma EdgeIndexCountsSmallerIds(edges: seq<Edge>, nodes: seq<Node>, rowY: real, id: string)
    requires 0 <= EdgeIndexInGen(edges, nodes, rowY, id)
    ensures EdgeIndexInGen(edges, nodes, rowY, id) == CountBelow(GenerationIds(edges, nodes, rowY), id)
  {
    var ids := GenerationIds(edges, nodes, rowY);
    SortedIndexOfCounts(Sort(ids), id);
    CountBelowPermutation(Sort(ids), ids, id);
  }

  /** Distinct ids of one row get distinct ranks. */
  lemma EdgeIndexInjective(edges: seq<Edge>, nodes: seq<Node>, rowY: real, id1: string, id2: string)
    ensures id1 != id2 && 0 <= EdgeIndexInGen(edges, nodes, rowY, id1) && 0 <= EdgeIndexInGen(edges, nodes, rowY, id2)
            ==> EdgeIndexInGen(edges, nodes, rowY, id1) != EdgeIndexInGen(edges, nodes, rowY, id2)
  {
  }

  /** A couple edge that is itself in the edge list, with both endpoints
      present, is always ranked among its own row. */
  lemma OwnEdgeIsRanked(edge: Edge, edges: seq<Edge>, nodes: seq<Node>)
    requires edge in edges && edge.kind == Some(CoupleEdgeTypeKey)
    requires FindNode(nodes, edge.source).Some? && FindNode(nodes, edge.target).Some?
    ensures 0 <= EdgeIndexInGen(edges, nodes, FindNode(nodes, edge.source).value.position.y, edge.id)
  {
    assert InGeneration(nodes, FindNode(nodes, edge.source).value.position.y, edge);
  }

  lemma GenerationIdsPermutation(edges1: seq<Edge>, edges2: seq<Edge>, nodes: seq<Node>, rowY: real)
    requires multiset(edges1) == multiset(edges2)
    ensures multiset(GenerationIds(edges1, nodes, rowY)) == multiset(GenerationIds(edges2, nodes, rowY))
  {
    var inRow := (e: Edge) => InGeneration(nodes, rowY, e);
    FilterPermutation(edges1, edges2, inRow);
    MapPermutation(Filter(edges1, inRow), Filter(edges2, inRow), (e: Edge) => e.id);
  }

  /** Reordering the edge list changes nothing: the sort makes the result
      depend on the multiset of edges only. */
  lemma CoupleEdgeOrderIndependent(id: string, source: string, target: string, edges1: seq<Edge>, edges2: seq<Edge>,
                                   nodes: seq<Node>, calcCoupleEdgeYOffset: int -> real)
    requires multiset(edges1) == multiset(edges2)
    ensures CoupleEdge(id, source, target, edges1, nodes, calcCoupleEdgeYOffset)
            == CoupleEdge(id, source, target, edges2, nodes, calcCoupleEdgeYOffset)
  {
    if FindNode(nodes, source).Some? {
      var rowY := FindNode(nodes, source).value.position.y;
      GenerationIdsPermutation(edges1, edges2, nodes, rowY);
      SortDependsOnlyOnMultiset(GenerationIds(edges1, nodes, rowY), GenerationIds(edges2, nodes, rowY));
    }
  }

  /** Member 1 partnered with both 2 and 4 on one row: the two couple edges
      are ranked 0 and 1 by their ids, and an edge of another row is not counted. */
  lemma TwoCouplesOnOneRow()
    ensures var nodes := [
              Node("1", XYPosition(0.0, 0.0), None, None),
              Node("2", XYPosition(200.0, 0.0), None, None),
              Node("4", XYPosition(-200.0, 0.0), None, None),
              Node("3", XYPosition(100.0, 150.0), None, None)];
            var edges := [
              Edge("1-4", Some(CoupleEdgeTypeKey), "1", "4", None),
              Edge("1-3", Some("innerFamily"), "1", "3", Some(EdgeData(50.0, 0))),
              Edge("1-2", Some(CoupleEdgeTypeKey), "1", "2", None)];
            && EdgeIndexInGen(edges, nodes, 0.0, "1-2") == 0
            && EdgeIndexInGen(edges, nodes, 0.0, "1-4") == 1
            && EdgeIndexInGen(edges, nodes, 0.0, "1-3") == -1
  {
    var nodes := [
      Node("1", XYPosition(0.0, 0.0), None, None),
      Node("2", XYPosition(200.0, 0.0), None, None),
      Node("4", XYPosition(-200.0, 0.0), None, None),
      Node("3", XYPosition(100.0, 150.0), None, None)];
    var edges := [
      Edge("1-4", Some(CoupleEdgeTypeKey), "1", "4", None),
      Edge("1-3", Some("innerFamily"), "1", "3", Some(EdgeData(50.0, 0))),
      Edge("1-2", Some(CoupleEdgeTypeKey), "1", "2", None)];
    assert GenerationIds(edges, nodes, 0.0) == ["1-4", "1-2"] by {
      RowOfTwoCouples(nodes, edges);
    }
    SortTwoIds();
    assert SameGenEdges(edges, nodes, 0.0) == ["1-2", "1-4"];
  }

  lemma RowOfTwoCouples(nodes: seq<Node>, edges: seq<Edge>)
    requires |nodes| == 4 && |edges| == 3
    requires nodes[0].id == "1" && nodes[1].id == "2" && nodes[2].id == "4"
    requires nodes[0].position.y == 0.0
    requires edges[0].kind == edges[2].kind == Some(CoupleEdgeTypeKey) && edges[1].kind != Some(CoupleEdgeTypeKey)
    requires edges[0].source == edges[2].source == "1" && edges[0].target == "4" && edges[2].target == "2"
    requires edges[0].id == "1-4" && edges[2].id == "1-2"
    ensures GenerationIds(edges, nodes, 0.0) == ["1-4", "1-2"]
  {
    assert FindNode(nodes, "1") == Some(nodes[0]);
    assert FindNode(nodes, "2") == Some(nodes[1]) by {
      assert nodes[0].id != "2" by { assert nodes[0].id[0] != "2"[0]; }
    }
    assert FindNode(nodes, "4") == Some(nodes[2]) by {
      assert nodes[0].id != "4" by { assert nodes[0].id[0] != "4"[0]; }
      assert nodes[1].id != "4" by { assert nodes[1].id[0] != "4"[0]; }
    }
    var inRow := (e: Edge) => InGeneration(nodes, 0.0, e);
    assert inRow(edges[0]) && !inRow(edges[1]) && inRow(edges[2]);
    assert Filter(edges, inRow) == [edges[0], edges[2]] by {
      assert edges[1..][1..] == [edges[2]];
      assert edges[2..][1..] == [];
      assert Filter(edges[2..], inRow) == [edges[2]];
      assert Filter(edges[1..], inRow) == [edges[2]];
    }
  }

  lemma SortTwoIds()
    ensures Sort(["1-4", "1-2"]) == ["1-2", "1-4"]
    ensures IndexOf(["1-2", "1-4"], "1-2") == 0
    ensures IndexOf(["1-2", "1-4"], "1-4") == 1
    ensures IndexOf(["1-2", "1-4"], "1-3") == -1
  {
    ThreeIdsCompare();
    assert Sort(["1-4", "1-2"]) == ["1-2", "1-4"] by {
      assert ["1-4", "1-2"][1..] == ["1-2"];
      assert ["1-2"][1..] == [];
      assert Sort(["1-2"]) == Insert("1-2", []) == ["1-2"];
      assert Insert("1-4", ["1-2"]) == ["1-2"] + Insert("1-4", []);
    }
    var sorted := ["1-2", "1-4"];
    assert "1-3" !in sorted;
    assert IndexOf(sorted, "1-2") == 0;
    assert IndexOf(sorted, "1-4") == 1 by {
      assert sorted[0] != "1-4";
    }
  }

  /** "1-2" and "1-4" differ only at their last character, and "1-3" is neither. */
  lemma ThreeIdsCompare()
    ensures !LexLe("1-4", "1-2")
    ensures "1-2" != "1-4" && "1-3" != "1-2" && "1-3" != "1-4"
  {
    var a, b, c := "1-2", "1-4", "1-3";
    assert a[2] != b[2] && c[2] != a[2] && c[2] != b[2];
    assert a[1..] == "-2" && b[1..] == "-4";
    assert a[1..][1..] == "2" && b[1..][1..] == "4";
  }
}
