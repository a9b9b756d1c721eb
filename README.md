# family-tree: a Dafny model of the tree utilities and the two edge routers

The family-tree viewer reads a list of family members and a list of relations
between them, lays the members out as a diagram and draws two kinds of edges:
a straight *couple* edge between partners and a right-angled *inner-family*
edge from a parent down to a child. This project models, in Dafny, the part of
that program that is plain computation:

- `src/utils.ts` (module `Utils`): the three de-duplication helpers `uniq`,
  `uniqWith` and `uniqBy`, and `buildFamilyAndRelations`, which turns the raw
  member and relation records into two objects keyed by id.
- `src/FamilyComponents/CoupleEdge.tsx` (module `CoupleEdge`): the centre of a
  node, the rank of a couple edge among the couple edges of its generation
  (its row on screen), and the end points of the straight path.
- `src/FamilyComponents/InnerFamilyEdge.tsx` (module `InnerFamilyEdge`): the
  ordinal of an edge's family among the families leaving its parent, the
  sideways shift of the source end by that ordinal, and the height of the bend.

Supporting modules: `Wrappers` (an `Option` type), `Seqs` (JavaScript's
`filter`, `map`, `find`, `findIndex` and `indexOf` on sequences), `StringOrder`
(the default order of `Array.prototype.sort` on strings, and a sort that
follows it) and `Flow` (the node and edge records of the diagram surface,
reduced to the fields the two edge components read).

`uniqBy` and `uniqWith` change local state step by step (a set of seen keys,
an accumulator that grows by `push`), so they are methods with loops, each
proved equal to a recursive specification function (`KeepFirstByKey`,
`KeepFirstWith`); the properties of the helpers are lemmas about those
functions. Everything else in the core is expression code and is modelled as
functions.

Three behaviours of the code are modelled exactly as written and are worth
knowing:

- `buildFamilyAndRelations` stores a relation's `fromId` in its `to` field and
  its `toId` in its `from` field, while the key is `fromId-toId`. The model keeps
  this assignment (`Utils.BuildFamilyAndRelations`, `Utils.RelationMapSpec`).
  Whether the layout code relies on it is outside this model.
- The relation key is a plain concatenation, so ids that contain a hyphen can
  collide, and `Object.fromEntries` then keeps only the later relation
  (`Utils.HyphenatedIdsCollide`).
- `InnerFamilyEdge` takes every edge leaving the parent into account, whatever
  its type; an edge without data (a couple edge leaving the same node, say) is
  its own "no family" group and takes an ordinal like any family
  (`InnerFamilyEdge.ParentWithTwoFamilies`).

## Model

| member | source | states |
|---|---|---|
| Utils.UniqBy | src/utils.ts:41-51 | the filter with a set of seen keys returns exactly `KeepFirstByKey`: the first element of each key, in input order |
| Utils.KeepFirstByKeyKeySet | src/utils.ts:43-50 | the kept elements carry exactly the keys of the input |
| Utils.KeepFirstByKeyKeys | src/utils.ts:43-50 | the kept elements carry pairwise distinct keys, and exactly the keys of the input |
| Utils.KeepFirstByKeySubsequence | src/utils.ts:43-50 | the result is a subsequence of the input (a filter: order kept, nothing added) |
| Utils.KeepFirstByKeyFirst | src/utils.ts:43-50 | for every key, the kept element with that key is the first input element with that key, and an absent key stays absent |
| Utils.KeepFirstByKeyDistinct | src/utils.ts:43-50 | an input whose keys are already distinct is returned unchanged |
| Utils.KeepFirstByKeyIdempotent | src/utils.ts:43-50 | applying `uniqBy` twice gives the same as applying it once |
| Utils.KeepFirstByKeyLength | src/utils.ts:43-50 | the result has one element per distinct key of the input |
| Utils.KeepFirstByKeyPrefix | src/utils.ts:43-50 | what is kept of a prefix of the input is a prefix of what is kept of the whole input |
| Utils.KeepFirstByKeyPosition | src/utils.ts:43-50 | a key's position in the result is the number of distinct keys seen before its first occurrence in the input |
| Utils.DistinctKeysCount | src/utils.ts:43-50 | a sequence with pairwise distinct keys has as many distinct keys as elements |
| Utils.KeysOfMembership | src/utils.ts:44-45 | a key is among the keys of a sequence exactly when some element has it |
| Utils.IndexOfKey | src/FamilyComponents/InnerFamilyEdge.tsx:29 | `findIndex` by key: -1 exactly when no element has the key, otherwise the first element with it |
| Utils.FirstWithKeyAppend | src/utils.ts:43-50 | appending an element changes the first element with a key only when the key was absent and the new element has it |
| Utils.Uniq | src/utils.ts:10 | `Array.from(new Set(array))` is a subsequence of the input with no value repeated |
| Utils.UniqSpec | src/utils.ts:10 | `Array.from(new Set(array))` is a subsequence of the input without repeated values and with every input value |
| Utils.KeepFirstWith | src/utils.ts:21-29 | what `uniqWith` returns, defined by recursion on the input: never longer than the input, and every kept element comes from it |
| Utils.UniqWith | src/utils.ts:21-29 | the `reduce` that pushes an element unless the comparator matches it with a kept one returns exactly `KeepFirstWith` |
| Utils.KeepFirstWithSubsequence | src/utils.ts:21-29 | the kept elements are a subsequence of the input |
| Utils.KeepFirstWithUnmatched | src/utils.ts:23-24 | the comparator holds of no pair of kept elements taken in order |
| Utils.KeepFirstWithCovers | src/utils.ts:23-24 | every input element is kept or matched by the comparator against a kept element |
| Utils.KeepFirstWithSpec | src/utils.ts:21-29 | all of the above together, and the result is never longer than the input |
| Utils.FromEntries | src/utils.ts:79-97 | `Object.fromEntries`: the last entry's key is a key of the object and holds the last entry's value |
| Utils.FromEntriesKeys | src/utils.ts:79-97 | `Object.fromEntries` has a key exactly when some entry has it |
| Utils.FromEntriesLastWins | src/utils.ts:79-97 | the value under a key is that of the last entry with that key |
| Utils.FromEntriesSize | src/utils.ts:79-97 | the object never has more keys than there are entries |
| Utils.FromEntriesSpec | src/utils.ts:79-97 | keys exactly those of the entries, last entry wins, size bounded by the number of entries |
| Utils.FromEntriesDistinct | src/utils.ts:79-97 | with pairwise distinct keys no entry is lost |
| Utils.LastIndexOfKey | src/utils.ts:79-97 | the last entry with a key, or -1 when no entry has it |
| Utils.FromEntriesValue | src/utils.ts:79-97 | every key of the object holds the value of the last entry with that key |
| Utils.BuildMember | src/utils.ts:80-96 | the member built from a raw record has the raw id and the raw data, every data field copied |
| Utils.RelationId | src/utils.ts:101 | the relation id is `fromId`, then a hyphen, then `toId` |
| Utils.BuildRelation | src/utils.ts:100-113 | the relation built from a raw record has the computed id, which equals `to-from`; `to` holds `fromId` and `from` holds `toId`; kind, pretty name and inner-family flag are copied |
| Utils.MemberMapKeys | src/utils.ts:79-97 | the member object has a key exactly when some raw member has that id |
| Utils.MemberMapSpec | src/utils.ts:79-97 | member keys are the raw ids, each member's id is its key, the last raw member with an id supplies every data field, no more members than raw records |
| Utils.RelationMapKeys | src/utils.ts:99-114 | the relation object has a key exactly when some raw relation computes it as `fromId-toId` |
| Utils.RelationMapSpec | src/utils.ts:99-114 | relation keys are the computed ids, each relation's id is its key and equals `to-from`, the last raw relation with an id supplies the relation with `to` = `fromId` and `from` = `toId`, no more relations than raw records |
| Utils.BuildFamilyAndRelations | src/utils.ts:78-117 | both objects at once: the member and relation properties above, with every copied field named |
| Utils.BuildMembersCount | src/utils.ts:79-97 | members with pairwise distinct ids are all kept, whatever the relations |
| Utils.BuildRelationsCount | src/utils.ts:99-114 | relations with pairwise distinct computed ids are all kept, whatever the members |
| Utils.HyphenatedIdsCollide | src/utils.ts:101 | "a-b" to "c" and "a" to "b-c" share the key "a-b-c" and only the later relation survives |
| Seqs.Filter | src/FamilyComponents/CoupleEdge.tsx:31-42 | `filter` keeps only elements satisfying the predicate and every element that does |
| Seqs.FilterConcat | src/FamilyComponents/CoupleEdge.tsx:31-42 | filtering distributes over concatenation |
| Seqs.FilterMultiset | src/FamilyComponents/CoupleEdge.tsx:31-42 | each value occurs in the filtered list as often as in the input if it satisfies the predicate, otherwise not at all |
| Seqs.FilterPermutation | src/FamilyComponents/CoupleEdge.tsx:31-42 | filtering a permutation gives a permutation of the filtered list |
| Seqs.MapPermutation | src/FamilyComponents/CoupleEdge.tsx:43 | mapping a permutation gives a permutation of the mapped list |
| Seqs.FilterAll | src/FamilyComponents/CoupleEdge.tsx:31-42 | filtering with a predicate every element satisfies changes nothing |
| Seqs.FilterNone | src/FamilyComponents/CoupleEdge.tsx:31-42 | filtering with a predicate no element satisfies gives the empty sequence |
| Seqs.SubsequenceElements | src/utils.ts:43-50 | a subsequence is no longer than the sequence and its elements come from it |
| Seqs.FindIndex | src/FamilyComponents/InnerFamilyEdge.tsx:29 | `findIndex`: -1 or the first index whose element satisfies the predicate |
| Seqs.FindIndexAppend | src/FamilyComponents/InnerFamilyEdge.tsx:29 | appending an element moves the found index only when nothing matched before |
| Seqs.Find | src/FamilyComponents/CoupleEdge.tsx:36-37 | `find`: nothing exactly when no element satisfies the predicate, otherwise an element of the input that satisfies it |
| Seqs.FindFirst | src/FamilyComponents/CoupleEdge.tsx:36-37 | what `find` returns is the element at the index `findIndex` returns, so no earlier element satisfies the predicate |
| Seqs.FindAppend | src/FamilyComponents/CoupleEdge.tsx:36-37 | appending an element changes `find` only when nothing matched before |
| Seqs.IndexOf | src/FamilyComponents/CoupleEdge.tsx:45 | `indexOf`: -1 exactly when the value is absent, otherwise its first position |
| Flow.FindNode | src/FamilyComponents/CoupleEdge.tsx:36-37 | a node is found exactly when some node has the id, and the node found has that id |
| Flow.FindNodeFirst | src/FamilyComponents/CoupleEdge.tsx:36-37 | the node found is the first node with the id, so a repeated id resolves to its first node |
| StringOrder.LexLeReflexive | src/FamilyComponents/CoupleEdge.tsx:44 | the default string order is reflexive |
| StringOrder.LexLeTotal | src/FamilyComponents/CoupleEdge.tsx:44 | any two strings are comparable |
| StringOrder.LexLeAntisymmetric | src/FamilyComponents/CoupleEdge.tsx:44 | strings ordered both ways are equal |
| StringOrder.LexLeTransitive | src/FamilyComponents/CoupleEdge.tsx:44 | the order is transitive |
| StringOrder.Insert | src/FamilyComponents/CoupleEdge.tsx:44 | inserting into a sorted list keeps it sorted and adds exactly the one element |
| StringOrder.Sort | src/FamilyComponents/CoupleEdge.tsx:44 | `sort()` returns a sorted permutation of its input |
| StringOrder.SortedHeadIsLeast | src/FamilyComponents/CoupleEdge.tsx:44 | the head of a sorted list is below every element |
| StringOrder.SortedTail | src/FamilyComponents/CoupleEdge.tsx:44 | the tail of a sorted list is sorted |
| StringOrder.SortedUnique | src/FamilyComponents/CoupleEdge.tsx:44 | two sorted lists with the same elements are equal |
| StringOrder.SameHeadTails | src/FamilyComponents/CoupleEdge.tsx:44 | lists with equal heads and the same elements have tails with the same elements |
| StringOrder.SortDependsOnlyOnMultiset | src/FamilyComponents/CoupleEdge.tsx:44 | sorting two permutations of one list gives the same list |
| StringOrder.CountBelowPermutation | src/FamilyComponents/CoupleEdge.tsx:44-45 | the number of elements below a value is the same in permutations of a list |
| StringOrder.SortedIndexOfCounts | src/FamilyComponents/CoupleEdge.tsx:44-45 | in a sorted list the position of a present value is the number of elements strictly below it |
| CoupleEdge.MeasuredWidth | src/FamilyComponents/CoupleEdge.tsx:7 | the measured width when the node has one, otherwise 0 |
| CoupleEdge.MeasuredHeight | src/FamilyComponents/CoupleEdge.tsx:8 | the measured height when the node has one, otherwise 0 |
| CoupleEdge.NodeCenter | src/FamilyComponents/CoupleEdge.tsx:6-16 | the centre is halfway across the measured box; an unmeasured node's centre is its position |
| CoupleEdge.InGenerationEndpoints | src/FamilyComponents/CoupleEdge.tsx:32-41 | an edge that passes the filter has a node with its source id on the row and a node with its target id |
| CoupleEdge.GenerationIdsEntries | src/FamilyComponents/CoupleEdge.tsx:31-43 | the collected ids (`GenerationIds`, the filter followed by `map(edge => edge.id)`) are at most one per edge, each the id of an edge that passes the filter |
| CoupleEdge.GenerationIdsMembership | src/FamilyComponents/CoupleEdge.tsx:31-43 | an id is listed for the row exactly when a couple edge with that id has both endpoints present and its source on the row |
| CoupleEdge.SameGenEdges | src/FamilyComponents/CoupleEdge.tsx:31-44 | the row's ids, sorted, as a permutation of the collected ids |
| CoupleEdge.SameGenEdgesMembership | src/FamilyComponents/CoupleEdge.tsx:31-44 | an id is among the sorted ids exactly when a qualifying couple edge has it |
| CoupleEdge.EdgeIndexInGen | src/FamilyComponents/CoupleEdge.tsx:31-45 | the rank is -1 exactly when no qualifying couple edge has the id, otherwise the id's position in the sorted list |
| CoupleEdge.CoupleEdge | src/FamilyComponents/CoupleEdge.tsx:18-54 | no path exactly when an endpoint is missing; otherwise the x of both ends are the node centres and both ends are lowered by the same `calcCoupleEdgeYOffset(rank) * 10` |
| CoupleEdge.EdgeIndexCountsSmallerIds | src/FamilyComponents/CoupleEdge.tsx:44-45 | a ranked id's rank is the number of the row's ids that sort strictly before it |
| CoupleEdge.EdgeIndexInjective | src/FamilyComponents/CoupleEdge.tsx:44-45 | distinct ranked ids of one row get distinct ranks |
| CoupleEdge.OwnEdgeIsRanked | src/FamilyComponents/CoupleEdge.tsx:31-45 | a couple edge in the list whose endpoints both exist is always ranked on its own row |
| CoupleEdge.GenerationIdsPermutation | src/FamilyComponents/CoupleEdge.tsx:31-43 | reordering the edges permutes the collected ids |
| CoupleEdge.CoupleEdgeOrderIndependent | src/FamilyComponents/CoupleEdge.tsx:31-54 | reordering the edge list does not change the path |
| CoupleEdge.TwoCouplesOnOneRow | src/FamilyComponents/CoupleEdge.tsx:31-45 | with couple edges "1-4" and "1-2" on one row and an inner-family edge "1-3", the ranks are 0 for "1-2", 1 for "1-4" and -1 for "1-3" |
| CoupleEdge.RowOfTwoCouples | src/FamilyComponents/CoupleEdge.tsx:31-43 | in that situation the collected ids are "1-4", "1-2" in edge order |
| CoupleEdge.SortTwoIds | src/FamilyComponents/CoupleEdge.tsx:44-45 | "1-2" sorts before "1-4", and their positions in the sorted list |
| CoupleEdge.ThreeIdsCompare | src/FamilyComponents/CoupleEdge.tsx:44 | the comparison `sort` uses puts "1-2" strictly before "1-4", and the ids "1-2", "1-3", "1-4" are distinct |
| InnerFamilyEdge.EdgesFromSpec | src/FamilyComponents/InnerFamilyEdge.tsx:21 | the filter by source keeps only edges leaving the source, and every edge that does |
| InnerFamilyEdge.EdgesFromFamilies | src/FamilyComponents/InnerFamilyEdge.tsx:20-23 | a family is among the families leaving the source exactly when an edge of that family leaves it |
| InnerFamilyEdge.SourceFamiliesSpec | src/FamilyComponents/InnerFamilyEdge.tsx:20-23 | the de-duplicated list holds edges leaving the source, one per family, each the first of its family, in list order |
| InnerFamilyEdge.FamilyOrdinal | src/FamilyComponents/InnerFamilyEdge.tsx:20-29 | the ordinal is -1 exactly when no edge of the family leaves the source, otherwise an index below the number of families whose entry has that family |
| InnerFamilyEdge.FamilyOrdinalByFirstAppearance | src/FamilyComponents/InnerFamilyEdge.tsx:20-29 | the ordinal is the number of distinct families leaving the source before the first edge of this family |
| InnerFamilyEdge.OrdinalInFamilies | src/FamilyComponents/InnerFamilyEdge.tsx:29 | the ordinal is the position of the family in the de-duplicated list, or -1 when it is not there |
| InnerFamilyEdge.HiddenOffset | src/FamilyComponents/InnerFamilyEdge.tsx:24-26 | half the node height when the target node exists and is hidden; 0 when it is shown or missing |
| InnerFamilyEdge.OffsetY | src/FamilyComponents/InnerFamilyEdge.tsx:35 | the edge's `offsetY` when it carries data, otherwise 0 |
| InnerFamilyEdge.InnerFamilyEdge | src/FamilyComponents/InnerFamilyEdge.tsx:28-36 | source y and target pass through; the source x moves left by ordinal times the gap; the bend sits `offsetY` plus the hidden offset above the target |
| InnerFamilyEdge.DistinctFamiliesDistinctOrdinals | src/FamilyComponents/InnerFamilyEdge.tsx:20-29 | edges of different families leaving one source get distinct ordinals in range |
| InnerFamilyEdge.SameFamilySameShift | src/FamilyComponents/InnerFamilyEdge.tsx:20-29 | edges of one family leaving one source get the same ordinal and the same shifted x |
| InnerFamilyEdge.CollapseMovesOnlyTheBend | src/FamilyComponents/InnerFamilyEdge.tsx:24-35 | hiding nodes changes only the bend, and a hidden target raises it by half a node height |
| InnerFamilyEdge.ParentWithTwoFamilies | src/FamilyComponents/InnerFamilyEdge.tsx:20-29 | two family-0 children and one family-1 child get ordinals 0, 0 and 1, an absent family -1; a data-less edge listed first pushes family 0 to ordinal 1 |
| InnerFamilyEdge.FamiliesOfParent | src/FamilyComponents/InnerFamilyEdge.tsx:20-29 | the three ordinals of that parent without the data-less edge |
| InnerFamilyEdge.FamiliesWithCouple | src/FamilyComponents/InnerFamilyEdge.tsx:20-29 | the family-0 ordinal of that parent with the data-less edge first |
| InnerFamilyEdge.KeepsFirstOfFamily | src/FamilyComponents/InnerFamilyEdge.tsx:20-23 | of two family-0 edges and a family-1 edge only the first family-0 edge and the family-1 edge are kept |
| InnerFamilyEdge.KeepsCoupleFirst | src/FamilyComponents/InnerFamilyEdge.tsx:20-23 | a data-less edge in front is kept as a group of its own |
| InnerFamilyEdge.EdgesFromSkipsOther | src/FamilyComponents/InnerFamilyEdge.tsx:21 | the filter by source drops the edge of another parent and keeps the order of the rest |

## Left out

- Drawing: `BaseEdge`, `getStraightPath` and `getSmoothStepPath` turn coordinates into SVG path strings; the model returns the coordinates handed to them (`StraightPath`, `SmoothStepPath`). The `style` and `id` props only pass through and are not modelled.
- The fixed sides of the smooth-step path (`Position.Bottom` at the source, `Position.Top` at the target) are constants handed to the drawing primitive and are not fields of `SmoothStepPath`.
- `calcCoupleEdgeYOffset` (src/tree/utils.ts) is not part of this model; it is a parameter of `CoupleEdge.CoupleEdge`, so nothing is claimed about how far apart two couple edges of one row end up.
- `EDGE_XGAP_MODIFIER` and `NODE_HEIGHT` (src/tree/constants.ts) are not part of this model; they are parameters of `InnerFamilyEdge.InnerFamilyEdge`.
- The surface's internal node store (`useInternalNode`, `getInternalNode`) is modelled as a first-match lookup by id in the same node list (`Flow.FindNode`); the internal node's `data.isHidden` is the node's `isHidden`.
- React hooks, re-rendering and the reactive edge and node lists: each call sees one snapshot of the lists, passed as arguments.
- The tree layout, src/FamilyComponents/FamilyMemberNode.tsx, src/main.tsx (including how it picks a root) and the `nodeColorForMinimap` helper are not part of this model; src/tree/types.ts and src/FamilyComponents/types.ts contribute only the record shapes.
- The relation kinds (`RelationTypes`) are carried as strings; the enumeration belongs to the layout code.
- The source's badge field `label` is called `labelText`, because `label` is a Dafny keyword.
- `StringOrder.LexLe`: JavaScript compares strings by UTF-16 code units, the model by Dafny characters; the two orders differ only for characters outside the Basic Multilingual Plane.
- `Utils.Uniq` and `Utils.UniqBy`: a JavaScript `Set` compares with SameValueZero, so objects are told apart by identity; the model uses Dafny equality, which compares datatype values by structure. Object-valued elements or keys are modelled faithfully only when their type is a class type, and `NaN` keys are not modelled.
- `CoupleEdge.NodeCenter`: positions are numbers here, so `position.x ?? 0` never falls back; `NaN` and infinite coordinates are not modelled (coordinates are reals).
- `InnerFamilyEdge.FamilyOrdinal`: `familyIndex` is compared with JavaScript loose equality, under which `undefined` and `null` are equal; both are the absent family (`None`).
