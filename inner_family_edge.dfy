/** The inner-family edge router of src/FamilyComponents/InnerFamilyEdge.tsx:
    a right-angled path from a parent to a child whose source end is shifted
    sideways by the ordinal of the child's family among the families leaving
    the same parent, and whose bend is raised for a collapsed child. */
module InnerFamilyEdge {
  import opened Wrappers
  import opened Seqs
  import opened Utils
  import opened Flow

  /** The coordinates handed to the smooth-step path primitive; the source side
      is always the bottom of the source node and the target side the top of the
      target node. */
  datatype SmoothStepPath = SmoothStepPath(sourceX: real, sourceY: real, targetX: real, targetY: real, centerY: real)

  /** `data?.familyIndex`: absent when the edge carries no data. */
  function FamilyIndexOf(data: Option<EdgeData>): Option<int>
  {
    if data.Some? then Some(data.value.familyIndex) else None
  }

  function EdgeFamilyIndex(edge: Edge): Option<int>
  {
    FamilyIndexOf(edge.data)
  }

  /** `data?.offsetY ?? 0` */
  function OffsetY(data: Option<EdgeData>): (r: real)
    ensures data.None? ==> r == 0.0
    ensures data.Some? ==> r == data.value.offsetY
  {
    if data.Some? then data.value.offsetY else 0.0
  }

  /** `getEdges().filter(edge => edge.source === source)` */
  function EdgesFrom(edges: seq<Edge>, source: string): (r: seq<Edge>)
  {
    Filter(edges, (e: Edge) => e.source == source)
  }

  /** The filter by source keeps only edges leaving `source`, and every edge that does. */
  lemma EdgesFromSpec(edges: seq<Edge>, source: string)
    ensures forall i :: 0 <= i < |EdgesFrom(edges, source)| ==>
              EdgesFrom(edges, source)[i] in edges && EdgesFrom(edges, source)[i].source == source
    ensures forall i :: 0 <= i < |edges| && edges[i].source == source ==> edges[i] in EdgesFrom(edges, source)
  {
  }

  lemma EdgesFromFamilies(edges: seq<Edge>, source: string, family: Option<int>)
    ensures family in KeysOf(EdgesFrom(edges, source), EdgeFamilyIndex)
            <==> exists e :: e in edges && e.source == source && EdgeFamilyIndex(e) == family
  {
    var from := EdgesFrom(edges, source);
    KeysOfMembership(from, EdgeFamilyIndex, family);
    if exists e :: e in edges && e.source == source && EdgeFamilyIndex(e) == family {
      var e :| e in edges && e.source == source && EdgeFamilyIndex(e) == family;
      var i :| 0 <= i < |edges| && edges[i] == e;
      var j :| 0 <= j < |from| && from[j] == e;
    }
  }

  /** The list the source computes with `uniqBy`. */
  function SourceFamilies(edges: seq<Edge>, source: string): (r: seq<Edge>)
  {
    KeepFirstByKey(EdgesFrom(edges, source), EdgeFamilyIndex)
  }

  /** That list holds the edges leaving `source`, one per family index, each
      the first edge of its family, in list order. */
  lemma SourceFamiliesSpec(edges: seq<Edge>, source: string)
    ensures IsSubsequence(SourceFamilies(edges, source), EdgesFrom(edges, source))
    ensures DistinctKeys(SourceFamilies(edges, source), EdgeFamilyIndex)
    ensures forall family :: FirstWithKey(SourceFamilies(edges, source), EdgeFamilyIndex, family)
                             == FirstWithKey(EdgesFrom(edges, source), EdgeFamilyIndex, family)
  {
    var from := EdgesFrom(edges, source);
    KeepFirstByKeySubsequence(from, EdgeFamilyIndex);
    KeepFirstByKeyKeys(from, EdgeFamilyIndex);
    forall family ensures FirstWithKey(KeepFirstByKey(from, EdgeFamilyIndex), EdgeFamilyIndex, family)
                          == FirstWithKey(from, EdgeFamilyIndex, family) {
      KeepFirstByKeyFirst(from, EdgeFamilyIndex, family);
    }
  }

  /** `edges.findIndex(edge => edge.data?.familyIndex == data?.familyIndex)`:
      the ordinal of the family `family` (this edge's `data?.familyIndex`) among the families
      leaving `source`, or -1 when no edge of that family leaves `source`. */
  function FamilyOrdinal(edges: seq<Edge>, source: string, family: Option<int>): (k: int)
    ensures -1 <= k < |SourceFamilies(edges, source)| == |KeysOf(EdgesFrom(edges, source), EdgeFamilyIndex)|
    ensures k < 0 <==> !exists e :: e in edges && e.source == source && EdgeFamilyIndex(e) == family
    ensures 0 <= k ==> EdgeFamilyIndex(SourceFamilies(edges, source)[k]) == family
  {
    var from := EdgesFrom(edges, source);
    KeepFirstByKeyLength(from, EdgeFamilyIndex);
    KeepFirstByKeyKeySet(from, EdgeFamilyIndex);
    EdgesFromFamilies(edges, source, family);
    IndexOfKey(SourceFamilies(edges, source), EdgeFamilyIndex, family)
  }

  /** Families are numbered 0, 1, ... in the order of their first edge leaving
      `source`: the ordinal is the number of distinct families whose edges
      leave `source` before the first edge of this family does. */
  lemma FamilyOrdinalByFirstAppearance(edges: seq<Edge>, source: string, family: Option<int>)
    requires 0 <= FamilyOrdinal(edges, source, family)
    ensures var from := EdgesFrom(edges, source);
            && 0 <= IndexOfKey(from, EdgeFamilyIndex, family)
            && FamilyOrdinal(edges, source, family)
               == |KeysOf(from[..IndexOfKey(from, EdgeFamilyIndex, family)], EdgeFamilyIndex)|
  {
    var from := EdgesFrom(edges, source);
    KeepFirstByKeyKeySet(from, EdgeFamilyIndex);
    KeepFirstByKeyPosition(from, EdgeFamilyIndex, family);
  }

  /** `targetNode?.data?.isHidden ? NODE_HEIGHT / 2 : 0` */
  function HiddenOffset(nodes: seq<Node>, target: string, nodeHeight: real): (h: real)
    ensures FindNode(nodes, target).None? ==> h == 0.0
    ensures FindNode(nodes, target).Some? && FindNode(nodes, target).value.isHidden == Some(true) ==> h == nodeHeight / 2.0
    ensures FindNode(nodes, target).Some? && FindNode(nodes, target).value.isHidden != Some(true) ==> h == 0.0
  {
    var targetNode := FindNode(nodes, target);
    if targetNode.Some? && targetNode.value.isHidden == Some(true) then nodeHeight / 2.0 else 0.0
  }

  /** `InnerFamilyEdge`: the source x moves left by the family ordinal times
      `EDGE_XGAP_MODIFIER`, the other end points pass through, and the bend sits
      `offsetY` above the target, raised by half a node height when the target is hidden. */
  function InnerFamilyEdge(source: string, target: string, sourceX: real, sourceY: real,
                           targetX: real, targetY: real, data: Option<EdgeData>,
                           edges: seq<Edge>, nodes: seq<Node>,
                           edgeXGapModifier: real, nodeHeight: real): (r: SmoothStepPath)
    ensures r.sourceY == sourceY && r.targetX == targetX && r.targetY == targetY
    ensures sourceX - r.sourceX == FamilyOrdinal(edges, source, FamilyIndexOf(data)) as real * edgeXGapModifier
    ensures targetY - r.centerY == OffsetY(data) + HiddenOffset(nodes, target, nodeHeight)
  {
    var hiddenOffset := HiddenOffset(nodes, target, nodeHeight);
    var ordinal := FamilyOrdinal(edges, source, FamilyIndexOf(data));
    SmoothStepPath(
      sourceX := sourceX - ordinal as real * edgeXGapModifier,
      sourceY := sourceY,
      targetX := targetX,
      targetY := targetY,
      centerY := targetY - OffsetY(data) - hiddenOffset)
  }

  /** Edges of different families leaving the same source get different,
      non-negative ordinals below the number of families leaving that source. */
  lemma DistinctFamiliesDistinctOrdinals(edges: seq<Edge>, e1: Edge, e2: Edge)
    requires e1 in edges && e2 in edges && e1.source == e2.source
    requires EdgeFamilyIndex(e1) != EdgeFamilyIndex(e2)
    ensures 0 <= FamilyOrdinal(edges, e1.source, EdgeFamilyIndex(e1)) < |KeysOf(EdgesFrom(edges, e1.source), EdgeFamilyIndex)|
    ensures 0 <= FamilyOrdinal(edges, e2.source, EdgeFamilyIndex(e2)) < |KeysOf(EdgesFrom(edges, e2.source), EdgeFamilyIndex)|
    ensures FamilyOrdinal(edges, e1.source, EdgeFamilyIndex(e1)) != FamilyOrdinal(edges, e2.source, EdgeFamilyIndex(e2))
  {
  }

  /** Edges of the same family leaving the same source get the same ordinal,
      hence the same shifted source x for the same anchor. */
  lemma SameFamilySameShift(edges: seq<Edge>, nodes: seq<Node>, e1: Edge, e2: Edge, target1: string, target2: string,
                            sourceX: real, sourceY: real, edgeXGapModifier: real, nodeHeight: real)
    requires e1.source == e2.source && EdgeFamilyIndex(e1) == EdgeFamilyIndex(e2)
    ensures FamilyOrdinal(edges, e1.source, EdgeFamilyIndex(e1)) == FamilyOrdinal(edges, e2.source, EdgeFamilyIndex(e2))
    ensures InnerFamilyEdge(e1.source, target1, sourceX, sourceY, 0.0, 0.0, e1.data, edges, nodes, edgeXGapModifier, nodeHeight).sourceX
            == InnerFamilyEdge(e2.source, target2, sourceX, sourceY, 0.0, 0.0, e2.data, edges, nodes, edgeXGapModifier, nodeHeight).sourceX
  {
    assert FamilyIndexOf(e1.data) == EdgeFamilyIndex(e1) == EdgeFamilyIndex(e2) == FamilyIndexOf(e2.data);
    var shift := FamilyOrdinal(edges, e1.source, FamilyIndexOf(e1.data)) as real * edgeXGapModifier;
    var r1 := InnerFamilyEdge(e1.source, target1, sourceX, sourceY, 0.0, 0.0, e1.data, edges, nodes, edgeXGapModifier, nodeHeight);
    var r2 := InnerFamilyEdge(e2.source, target2, sourceX, sourceY, 0.0, 0.0, e2.data, edges, nodes, edgeXGapModifier, nodeHeight);
    assert sourceX - r1.sourceX == shift && sourceX - r2.sourceX == shift;
  }

  /** Hiding or showing nodes moves only the bend: the end points, and so the
      source shift, do not depend on the nodes; the bend moves by the change in
      the hidden offset. A hidden target raises the bend by half a node height
      compared with a shown or missing one. */
  lemma CollapseMovesOnlyTheBend(source: string, target: string, sourceX: real, sourceY: real,
                                 targetX: real, targetY: real, data: Option<EdgeData>,
                                 edges: seq<Edge>, nodes1: seq<Node>, nodes2: seq<Node>,
                                 edgeXGapModifier: real, nodeHeight: real)
    ensures var r1 := InnerFamilyEdge(source, target, sourceX, sourceY, targetX, targetY, data, edges, nodes1, edgeXGapModifier, nodeHeight);
            var r2 := InnerFamilyEdge(source, target, sourceX, sourceY, targetX, targetY, data, edges, nodes2, edgeXGapModifier, nodeHeight);
            && r1.sourceX == r2.sourceX && r1.sourceY == r2.sourceY
            && r1.targetX == r2.targetX && r1.targetY == r2.targetY
            && (FindNode(nodes1, target).Some? && FindNode(nodes1, target).value.isHidden == Some(true)
                && (FindNode(nodes2, target).None? || FindNode(nodes2, target).value.isHidden != Some(true))
                ==> r2.centerY - r1.centerY == nodeHeight / 2.0)
  {
  }

  /** A parent with two children in family 0 and one in family 1 (and an edge of
      another parent in between): both family-0 edges get ordinal 0, the family-1
      edge ordinal 1, and a family with no edge from this parent -1. An edge
      without data leaving the same node (such as a couple edge) counts as a
      family of its own: listed first, it takes ordinal 0 and moves family 0 to
      ordinal 1. */
  lemma ParentWithTwoFamilies(a: Edge, b: Edge, c: Edge, other: Edge, couple: Edge)
    requires a.source == b.source == c.source == couple.source != other.source
    requires EdgeFamilyIndex(a) == EdgeFamilyIndex(b) == Some(0) && EdgeFamilyIndex(c) == Some(1)
    requires EdgeFamilyIndex(couple) == None
    ensures FamilyOrdinal([a, b, other, c], a.source, Some(0)) == 0
    ensures FamilyOrdinal([a, b, other, c], a.source, Some(1)) == 1
    ensures FamilyOrdinal([a, b, other, c], a.source, Some(2)) == -1
    ensures FamilyOrdinal([couple, a, b, other, c], a.source, Some(0)) == 1
  {
    FamiliesOfParent(a, b, other, c, Some(0), 0);
    FamiliesOfParent(a, b, other, c, Some(1), 1);
    FamiliesOfParent(a, b, other, c, Some(2), -1);
    FamiliesWithCouple(couple, a, b, other, c);
  }

  lemma FamiliesOfParent(a: Edge, b: Edge, other: Edge, c: Edge, family: Option<int>, k: int)
    requires a.source == b.source == c.source != other.source
    requires EdgeFamilyIndex(a) == EdgeFamilyIndex(b) == Some(0) && EdgeFamilyIndex(c) == Some(1)
    requires k == (if family == Some(0) then 0 else if family == Some(1) then 1 else -1)
    ensures FamilyOrdinal([a, b, other, c], a.source, family) == k
  {
    var edges := [a, b, other, c];
    assert SourceFamilies(edges, a.source) == [a, c] by {
      EdgesFromSkipsOther(a, b, other, c);
      KeepsFirstOfFamily(a, b, c);
    }
    OrdinalInFamilies(edges, a.source, family, k);
  }

  lemma FamiliesWithCouple(couple: Edge, a: Edge, b: Edge, other: Edge, c: Edge)
    requires a.source == b.source == c.source == couple.source != other.source
    requires EdgeFamilyIndex(a) == EdgeFamilyIndex(b) == Some(0) && EdgeFamilyIndex(c) == Some(1)
    requires EdgeFamilyIndex(couple) == None
    ensures FamilyOrdinal([couple, a, b, other, c], a.source, Some(0)) == 1
  {
    var edges := [couple, a, b, other, c];
    assert SourceFamilies(edges, a.source) == [couple, a, c] by {
      EdgesFromSkipsOther(a, b, other, c);
      assert edges[1..] == [a, b, other, c];
      assert EdgesFrom(edges, a.source) == [couple, a, b, c];
      KeepsCoupleFirst(couple, a, b, c);
    }
    OrdinalInFamilies(edges, a.source, Some(0), 1);
  }

  /** The ordinal is the position of the family in `SourceFamilies`. */
  lemma OrdinalInFamilies(edges: seq<Edge>, source: string, family: Option<int>, k: int)
    requires -1 <= k < |SourceFamilies(edges, source)|
    requires forall j :: 0 <= j < |SourceFamilies(edges, source)| ==>
               (EdgeFamilyIndex(SourceFamilies(edges, source)[j]) == family <==> j == k)
    ensures FamilyOrdinal(edges, source, family) == k
  {
    var fams := SourceFamilies(edges, source);
    var r := IndexOfKey(fams, EdgeFamilyIndex, family);
    assert FamilyOrdinal(edges, source, family) == r;
    if 0 <= k {
      assert EdgeFamilyIndex(fams[k]) == family;
      KeysOfMembership(fams, EdgeFamilyIndex, family);
      assert 0 <= r && EdgeFamilyIndex(fams[r]) == family;
    }
  }

  lemma KeepsFirstOfFamily(e0: Edge, e1: Edge, e2: Edge)
    requires EdgeFamilyIndex(e0) == EdgeFamilyIndex(e1) == Some(0) && EdgeFamilyIndex(e2) == Some(1)
    ensures KeepFirstByKey([e0, e1, e2], EdgeFamilyIndex) == [e0, e2]
  {
    assert [e0, e1, e2][..2] == [e0, e1];
    assert [e0, e1][..1] == [e0];
    assert [e0][..0] == [];
    assert KeepFirstByKey([e0], EdgeFamilyIndex) == [e0];
    assert KeysOf([e0], EdgeFamilyIndex) == {Some(0)};
    assert KeepFirstByKey([e0, e1], EdgeFamilyIndex) == [e0];
    assert KeysOf([e0, e1], EdgeFamilyIndex) == {Some(0)};
  }

  lemma KeepsCoupleFirst(c: Edge, e0: Edge, e1: Edge, e2: Edge)
    requires EdgeFamilyIndex(c) == None
    requires EdgeFamilyIndex(e0) == EdgeFamilyIndex(e1) == Some(0) && EdgeFamilyIndex(e2) == Some(1)
    ensures KeepFirstByKey([c, e0, e1, e2], EdgeFamilyIndex) == [c, e0, e2]
  {
    assert [c, e0, e1, e2][..3] == [c, e0, e1];
    assert [c, e0, e1][..2] == [c, e0];
    assert [c, e0][..1] == [c];
    assert [c][..0] == [];
    assert KeepFirstByKey([c], EdgeFamilyIndex) == [c];
    assert KeysOf([c], EdgeFamilyIndex) == {None};
    assert KeepFirstByKey([c, e0], EdgeFamilyIndex) == [c, e0];
    assert KeysOf([c, e0], EdgeFamilyIndex) == {None, Some(0)};
    assert KeepFirstByKey([c, e0, e1], EdgeFamilyIndex) == [c, e0];
    assert KeysOf([c, e0, e1], EdgeFamilyIndex) == {None, Some(0)};
  }

  lemma EdgesFromSkipsOther(a: Edge, b: Edge, other: Edge, c: Edge)
    requires a.source == b.source == c.source != other.source
    ensures EdgesFrom([a, b, other, c], a.source) == [a, b, c]
  {
    assert [a, b, other, c][1..] == [b, other, c];
    assert [b, other, c][1..] == [other, c];
    assert [other, c][1..] == [c];
    assert [c][1..] == [];
    assert EdgesFrom([c], a.source) == [c];
    assert EdgesFrom([other, c], a.source) == [c];
    assert EdgesFrom([b, other, c], a.source) == [b, c];
  }
}
