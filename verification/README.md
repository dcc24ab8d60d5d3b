# Planar line-arrangement engine: a Dafny model

This project models the entity store and the subdivision engine of a
line-drawing board (`src/stores/entities.ts`), together with the generic
array helpers it relies on (`src/misc/utils.ts`).

The board holds two kinds of entity. A **line** carries its endpoints and
the coefficients `(a, b, c)` of its carrier `a*x + b*y + c = 0`. A **dot**
carries one point. Every entity has an id, a zIndex, an optional `edge`
flag, an optional `inter` pair and an opaque style. The store is an ordered
sequence of entities plus a global id counter.

When an edge line is added, the engine runs one pass over the other edge
entities:
- It intersects the new line with each of them.
- It adds a marker dot (zIndex 1) for each crossing.
- It splits the new line at the crossing points that are not its own ends.
- It splits each crossed target at the crossing points that are not that
  target's ends.

A split walks the points in discovery order and carries a remainder
forward. It then removes the parent by id and appends the `k + 1` pieces
without checking them for intersections.

The model has three modules:

- `Utils` (`utils.dfy`) holds the generic helpers.
  - `findIndexBy`, `findBy`, `deleteBy`, `upsert`, `isBetween` and `groupBy`.
  - The `Partial<T>` predicate of the helpers is a key projection `key: T -> K` plus the value `k` it must take.
  - For the store that key is the entity's id.
  - `FirstIndex`, `Deleted`, `KeysOf` and `GroupOf` are the reference definitions the loops are proved against.
- `Geometry` (`geometry.dfy`) holds the geometry kernel.
  - Entity values, and the construction of lines and dots once their id is known.
  - The carrier coefficients and grid snapping.
  - `isOnLine`, `isSameNumber`, `isSamePoint` and `isEndPoint`.
  - `calcIntersection` with its three solving branches.
  - The chain of spans a multi-split produces.
  - Coordinates are exact reals, and the tolerance is the real constant `0.00001`.
- `Entities` (`entities.dfy`) holds the mutable store: the class `EntityStore`.
  - Its fields are `entities`, `nextId` and `randomColor`; `randomColor` is the board option that recolours split pieces.
  - Its methods are the id draw, `newLineE`, `newDot`, `splitEntity`, `multiSplitEntity`, `updateIntersectionBy`, `addEntity`, `addEntities` and `removeEntityById`.
  - `entitiesSorted` is a function that recomputes the stable sort by zIndex.
  - The store invariant `Valid()` says two things: ids are unique, and every id is below the counter.
  - The specification functions are `UpsertById`, `UpsertAll`, `Pieces`, `Crossings`, `Markers`, `BasePoints`, `BasePieces`, `TargetCrossings`, `TargetKeys`, `TargetPoints`, `TargetStart`, `TargetPieces`, `BaseSplit`, `SplitAll`, `PassResult` and `SortByZ`, and the predicate `IntersectionUpdate` that states what one update pass does to the store.
  - `PassResult` is the store a pass leaves, in order. It is the old store, then the markers, then base and each cut target in first-crossing order, each with its id removed and its pieces appended. The order matters: `entitiesSorted` breaks zIndex ties by it, and the next pass walks the store in that order.

Two details follow the code as written.
- `splitEntity` returns its second piece from the original *second* endpoint to the cut point (`src/stores/entities.ts:148`). So `multiSplitEntity`'s remainder runs from the previous remainder's second endpoint to the previous cut.
  - A remainder running from the cut point to the second endpoint would give different pieces as soon as there are two cut points. The code builds it the other way round, and this model follows the code.
  - `Geometry.SplitChainAt` gives the pieces in closed form over the trail `a, b, p1, ..., pk`: piece `i < k` spans trail points `i` and `i + 2`, and the last piece spans points `k` and `k + 1`.
  - The cut points are taken in discovery order, not in their order along the segment, and no cut checks that its point lies on the current remainder. `Geometry.SplitChainOutOfOrder` shows two cuts whose first two pieces overlap. `Geometry.SplitChainRepeatedPoint` shows that a cut point met twice gives a piece of zero length, and `Entities.RepeatedCrossingPoint` shows that two crossings at one point off base's ends give base that point twice.
- The filter `e !== base` compares references. The model compares ids, which is the same test when ids are unique, as `Valid()` guarantees.

## Model

| member | source | states |
|---|---|---|
| Utils.FirstIndex | src/misc/utils.ts:3-10 | the index is -1 or in range; when it is in range the element there matches; no element before it (and none at all, for -1) matches |
| Utils.FindIndexBy | src/misc/utils.ts:3-10 | the search loop with early exit returns exactly the least matching index, or -1 |
| Utils.FindBy | src/misc/utils.ts:12-16 | nothing exactly when no element matches; otherwise the element at the least matching index |
| Utils.DeleteBy | src/misc/utils.ts:18-22 | nothing removed and the list unchanged exactly when nothing matches; otherwise the first match is returned as a one-element list and spliced out, and the rest keeps its order |
| Utils.Upsert | src/misc/utils.ts:24-28 | the new element is last; the length is unchanged when something matched; the list is extended by the element when nothing matched |
| Utils.DeletedKeeps | src/misc/utils.ts:18-22 | every element that does not match survives the deletion |
| Utils.DeletedWithin | src/misc/utils.ts:18-22 | deletion introduces no element |
| Utils.IsBetween | src/misc/utils.ts:30-32 | true exactly when x lies in the closed interval between a and b, in either order |
| Utils.IsBetweenSymmetric | src/misc/utils.ts:30-32 | the bounds can be swapped, and both bounds are between themselves |
| Utils.GroupBy | src/misc/utils.ts:38-50 | the keys come in order of first appearance; the map has exactly those keys; each group is the images of the items with that key, in input order |
| Utils.KeyListed | src/misc/utils.ts:44-48 | a key is listed exactly when some item has it |
| Utils.KeysDistinct | src/misc/utils.ts:44-48 | each key is listed once |
| Utils.ItemInItsGroup | src/misc/utils.ts:44-48 | every item's key is listed, and its image is in that key's group |
| Utils.NoKeyNoGroup | src/misc/utils.ts:46-47 | a key no item has gets no group |
| Utils.GroupSizesSum | src/misc/utils.ts:43-49 | the group sizes add up to the number of items |
| Geometry.SnapEnd | src/stores/entities.ts:69-74 | without grid the end is kept; with grid the end shares one coordinate with the start, and the larger of the two deltas is kept; a strictly larger vertical delta keeps the start's x, and otherwise (a tie included) the start's y is kept |
| Geometry.LineCoeffs | src/stores/entities.ts:78-82 | both endpoints satisfy the carrier equation; two distinct endpoints give a non-degenerate equation |
| Geometry.CarrierIsCollinearity | src/stores/entities.ts:78-82 | a point satisfies the carrier equation exactly when it is collinear with the two endpoints |
| Geometry.LineEntity | src/stores/entities.ts:68-86 | a line whose ends are the start and the snapped end, equal to its args, whose carrier coefficients are those of the start and the snapped end, axis-aligned under grid, carrying the resolved extra fields |
| Geometry.DotEntity | src/stores/entities.ts:88-93 | a dot whose single end is its point, carrying the resolved extra fields |
| Geometry.EndsOnLine | src/stores/entities.ts:99-102 | both endpoints of a line pass isOnLine |
| Geometry.SamePointTolerance | src/stores/entities.ts:104-106 | sameness is reflexive and symmetric, means a strict 1e-5 window in each coordinate, and is not transitive |
| Geometry.EndPointOfLine | src/stores/entities.ts:108-109 | a point is an end of a line exactly when it is the same point as one of its two endpoints; both endpoints are ends |
| Geometry.HorizontalY | src/stores/entities.ts:119-120 | the y read off a horizontal line satisfies its equation |
| Geometry.XOnLine | src/stores/entities.ts:121 | the x solved from a non-horizontal line puts the point on that line |
| Geometry.CramerY | src/stores/entities.ts:130 | the y given by Cramer's rule satisfies the determinant equation |
| Geometry.Solve | src/stores/entities.ts:116-132 | for non-parallel lines every branch divides only by non-zero values and yields a point on both carriers |
| Geometry.GeneralBranchSolves | src/stores/entities.ts:129-132 | Cramer's y with x from the second line also satisfies the first line |
| Geometry.CarriersMeetOnce | src/stores/entities.ts:117 | two non-parallel carriers share exactly one point |
| Geometry.CalcIntersection | src/stores/entities.ts:111-138 | null unless both are lines, null for parallel lines; a returned point is on both carriers and passes isOnLine for both |
| Geometry.CalcIntersectionComplete | src/stores/entities.ts:111-138 | any point on both carriers and in both bounding boxes is the one returned |
| Geometry.CalcIntersectionSymmetric | src/stores/entities.ts:111-138 | the result does not depend on the order of the two entities |
| Geometry.SplitChain | src/stores/entities.ts:159-166 | k cut points give k + 1 spans |
| Geometry.SplitChainAt | src/stores/entities.ts:159-166 | piece i < k spans trail points i and i + 2, and the last piece spans trail points k and k + 1 |
| Geometry.SplitChainOutOfOrder | src/stores/entities.ts:159-166 | cutting (0, 0)-(10, 0) at (7, 0) then (3, 0) gives pieces (0, 0)-(7, 0), (10, 0)-(3, 0), (7, 0)-(3, 0), the first two overlapping |
| Geometry.SplitChainRepeatedPoint | src/stores/entities.ts:159-166 | cutting (a, b) at p and again at p gives (a, p), (b, p) and the zero-length piece (p, p) |
| Geometry.SplitOnceStaysOnCarrier | src/stores/entities.ts:142-149 | one cut point on the carrier gives the spans start-to-point and end-to-point, both on the original carrier |
| Entities.DeletedById | src/stores/entities.ts:222-224 | deleting an id from a store with unique ids keeps ids unique, removes that id entirely, keeps every other entity and adds none |
| Entities.UpsertFresh | src/stores/entities.ts:213 | upserting an absent id appends the entity |
| Entities.UpsertKeepsIdsUnique | src/stores/entities.ts:211-213 | after an upsert by id, ids are still unique and the upserted entity is the only one with its id |
| Entities.UpsertAllFresh | src/stores/entities.ts:226-227 | upserting entities with distinct fresh ids, one by one, appends them in order |
| Entities.DeletedIdsBelow | src/stores/entities.ts:167 | removing an entity keeps every id below the counter |
| Entities.Pieces | src/stores/entities.ts:156-174 | a multi-split at k points appends k + 1 entities |
| Entities.PiecesFresh | src/stores/entities.ts:159-166 | the pieces have distinct ids drawn from the 2k counter values the cuts consume |
| Entities.PiecesSpans | src/stores/entities.ts:159-172 | each piece is an edge line at zIndex 0 without inter, spanning its link of the chain, styled only by the optional random stroke |
| Entities.SegmentsArePieces | src/stores/entities.ts:159-166 | the segments pushed by the loop, followed by the final remainder, are the pieces |
| Entities.RecolorSegments | src/stores/entities.ts:168-172 | the random stroke changes the style of each piece and nothing else |
| Entities.OtherEdges | src/stores/entities.ts:179 | the targets are exactly the edge entities of the store other than base |
| Entities.CrossingsMembers | src/stores/entities.ts:179-194 | every recorded crossing is with a target at the point calcIntersection returns, and every target it meets is recorded |
| Entities.CrossingsStep | src/stores/entities.ts:180-193 | a target adds its crossing exactly when calcIntersection returns a point |
| Entities.MarkersSnoc | src/stores/entities.ts:183-192 | one more crossing appends its marker with the next id |
| Entities.BasePoints | src/stores/entities.ts:197 | a point is a cut point of base exactly when some crossing lies there and it is not an end of base |
| Entities.TargetCrossings | src/stores/entities.ts:199 | the kept crossings are exactly those off their target's ends |
| Entities.CrossingsAreLines | src/stores/entities.ts:196-203 | only lines are split; base is not among the targets cut; the grouped targets are exactly the cut targets, each a line with at least one point |
| Entities.CrossingsReady | src/stores/entities.ts:179-203 | for the crossings of base with the other edges: base is cut only if it is a line, and the cut targets are exactly the grouped ones, each a line of the store other than base with a non-empty point list |
| Entities.GroupsReady | src/stores/entities.ts:198-203 | groupBy's map gives each grouped target its points off its own ends; each has at least one, is a line of the store and is not base |
| Entities.RepeatedCrossingPoint | src/stores/entities.ts:197 | two crossings at one point that is not an end of base give base that point twice, so base is cut there twice |
| Entities.SplitAllStep | src/stores/entities.ts:203 | splitting one more target, its id removed and its pieces appended, extends the ordered fold of the splits by one step |
| Entities.TargetStartStep | src/stores/entities.ts:161-165 | splitting the next target moves the counter on by two per point of its group |
| Entities.TargetStartEnd | src/stores/entities.ts:198-203 | after all cut targets the counter has advanced by two per crossing kept for the targets |
| Entities.TargetsSoFarStep | src/stores/entities.ts:203 | splitting the i-th cut target at its points, with the counter at its start, records exactly its TargetPieces |
| Entities.EndpointCrossingsSplitNothing | src/stores/entities.ts:196-203 | when every crossing lies at ends of both sides, every entity of the store survives, the markers are added, nothing else is added, the store is exactly the old one followed by the markers, and the counter advances by one per crossing |
| Entities.NoBasePoints | src/stores/entities.ts:197 | crossings that all lie at ends of base give it no cut point |
| Entities.NoTargetCrossings | src/stores/entities.ts:199 | crossings that all lie at ends of their targets keep none for the targets |
| Entities.AfterSplit | src/stores/entities.ts:167-173 | removing an id and appending fresh pieces keeps every other entity, leaves that id absent and adds only the pieces |
| Entities.BaseSplitStep | src/stores/entities.ts:197 | splitting base keeps the markers and the other entities and retires base's id |
| Entities.BaseSurvivorsStep | src/stores/entities.ts:197 | splitting base retires its id and keeps every other entity of the old store |
| Entities.BaseAdditionsStep | src/stores/entities.ts:197 | splitting base keeps the markers, adds its pieces with fresh ids and nothing else |
| Entities.SurvivorsStep | src/stores/entities.ts:203 | splitting the next target retires its id and keeps every entity not yet split |
| Entities.AdditionsStep | src/stores/entities.ts:203 | splitting a target keeps the markers and base's pieces, and adds only fresh ids |
| Entities.TargetSplitStep | src/stores/entities.ts:203 | one more target split keeps the progress of the update pass |
| Entities.MarkersProgress | src/stores/entities.ts:179-194 | after the marker pass the store is the old one followed by the markers |
| Entities.ProgressDone | src/stores/entities.ts:176-205 | the finished pass, with each target's recorded pieces the TargetPieces, meets the specification of updateIntersectionBy, including the store's exact order |
| Entities.InsertByZContents | src/stores/entities.ts:97 | insertion adds exactly the inserted entity |
| Entities.InsertByZSorted | src/stores/entities.ts:97 | insertion keeps the sequence ordered by zIndex |
| Entities.InsertByZWithZ | src/stores/entities.ts:97 | insertion places the entity after every entity of its zIndex |
| Entities.SortByZSorted | src/stores/entities.ts:97 | the sort orders by zIndex |
| Entities.SortByZPermutes | src/stores/entities.ts:97 | the sort is a permutation |
| Entities.SortByZStable | src/stores/entities.ts:97 | the entities of each zIndex keep their store order |
| Entities.EntityStore.constructor | src/stores/entities.ts:62-95 | an empty store with the counter at 0 satisfies the store invariant |
| Entities.EntityStore.EntitiesSorted | src/stores/entities.ts:97 | the store sorted by zIndex, stable, a permutation of the store |
| Entities.EntityStore.GetEntityId | src/stores/entities.ts:64-66 | returns the counter and increments it by one |
| Entities.EntityStore.NewEntityExtra | src/stores/entities.ts:51-58 | an explicit id is kept and leaves the counter alone; otherwise the id is the counter, which goes up by one; zIndex defaults to 0 |
| Entities.EntityStore.NewLineE | src/stores/entities.ts:68-86 | the line built with the resolved extra fields; the counter grows by one exactly when no id is given |
| Entities.EntityStore.NewDot | src/stores/entities.ts:88-93 | the dot built with the resolved extra fields; the counter grows by one exactly when no id is given |
| Entities.EntityStore.SplitEntity | src/stores/entities.ts:142-154 | a line gives the edge lines start-to-point and end-to-point with the next two ids; a dot fails with UnsupportedEntityType and draws no id |
| Entities.EntityStore.RemoveEntityById | src/stores/entities.ts:222-224 | true exactly when the id was present; the first entity with that id is removed, the id is gone and the invariant holds |
| Entities.EntityStore.MultiSplitEntity | src/stores/entities.ts:156-174 | no points: nothing changes; a dot: failure and nothing changes; otherwise the counter grows by 2k and the store is the old one without base's id followed by the k + 1 pieces |
| Entities.EntityStore.ReplaceByPieces | src/stores/entities.ts:159-173 | a line cut at k points: the counter grows by 2k and the store becomes the old one without base's id followed by the pieces |
| Entities.EntityStore.CutChain | src/stores/entities.ts:159-166 | the loop consumes 2k ids and yields exactly the k + 1 pieces of the chain |
| Entities.EntityStore.UpdateIntersectionBy | src/stores/entities.ts:176-205 | the store left is exactly PassResult: the old store, the markers in discovery order (:183), then base and each cut target in first-crossing order with its id removed and its pieces appended (:167, :173, :197, :203); the counter advances by one per crossing and two per cut point; one marker per crossing, with ids from the old counter in discovery order; base and every target cut off its ends are removed; everything else stays; base's pieces, and each cut target's pieces split at its points with the counter where the previous split left it, are present; nothing else is added |
| Entities.EntityStore.MarkCrossings | src/stores/entities.ts:179-194 | the crossings of base with the targets in order, with one marker each appended to the store |
| Entities.EntityStore.AddMarker | src/stores/entities.ts:183-190 | the marker dot gets the next id and is appended |
| Entities.EntityStore.SplitCrossed | src/stores/entities.ts:196-204 | base is split at its points off its ends, then exactly the cut targets are split in order of first crossing; the store is exactly BaseSplit followed by the ordered fold of the target splits; the pieces of each are recorded exactly, the counter advances by two per cut point, and the markers and every other entity are kept |
| Entities.EntityStore.SplitBase | src/stores/entities.ts:197 | base is split at its points off its ends: the store is exactly BaseSplit of the old one (base's id removed and BasePieces appended, or unchanged without such points), its pieces have fresh ids, the counter ends at BaseEnd, and the progress of the pass is kept |
| Entities.EntityStore.SplitTargets | src/stores/entities.ts:198-203 | each grouped target is split in turn at its group; the store is exactly the old one with each key in order removed and its pieces appended; the pieces of the i-th are its TargetPieces, the counter ends past all of them, and the progress of the pass is kept |
| Entities.EntityStore.SplitTarget | src/stores/entities.ts:203 | one turn of the forEach: the i-th target is removed and its TargetPieces appended at the end of the store, the counter moves past them, and the progress of the pass is kept |
| Entities.EntityStore.AddEntity | src/stores/entities.ts:211-220 | an upsert by id that keeps the invariant; when checking applies, the store then meets the specification of updateIntersectionBy for the upserted entity, so it is exactly PassResult of the upserted store |
| Entities.EntityStore.AddEntities | src/stores/entities.ts:226-231 | without checks the store becomes the old one with each entity upserted in turn |

## Left out

- Vue reactivity (`reactive`, `ref`, `computed`). The store is a class with plain fields, and `entitiesSorted` is recomputed on demand.
- The random colour generator. It uses `Math.random`, so a random stroke is the opaque style `RandomStroke`. The board option is the field `randomColor`.
- Setting the board option: `randomColor` is a live setting of the board (`src/stores/board.ts:3-4`), but every modelled operation only reads it, so the model has no setter and each method promises to leave it unchanged.
- `entityRenders` and the render types, which are UI projection.
- The `Disposable` handles returned by `addEntity` and `addEntities`. Disposing one amounts to removing by id, which is `RemoveEntityById`.
- IEEE-754 floating point: rounding, NaN and infinities. Coordinates and the tolerance are exact reals.
- The `inter` back-references of marker dots. A marker stores the ids of the two crossing entities, not the objects.
- Entities.EntityStore.AddEntity: requires the entity's id to be below the counter. Every entity built through the counter meets this. The board's fixed negative ids meet it too. An arbitrary larger explicit id is not modelled.
- Entities.EntityStore.UpdateIntersectionBy: requires `base` to be in the store, as it is at its only call site, right after the upsert.
- Entities.EntityStore.AddEntities: requires each entity's id to be below the counter, for the same reason as `AddEntity`.
- Entities.EntityStore.AddEntities: with intersection checks on, the postcondition states only the invariant and that the counter does not decrease. The checked case composes one update pass per entity.
- The partition property (the pieces of a split cover the original segment without gaps or overlaps) is not claimed in general, because the code does not keep it. `SplitChainOutOfOrder` gives two cuts, found out of order along the segment, whose first two pieces overlap. `SplitChainRepeatedPoint` gives a zero-length piece whenever a cut point repeats, in any order; `RepeatedCrossingPoint` shows how that happens, when base crosses two targets at one point. `SplitChainAt` gives the pieces in closed form, and `SplitOnceStaysOnCarrier` covers the single cut.
- The model does not prove that the store holds no unresolved crossings after an update. Pieces are appended without checks, so the code does not guarantee it either. In `SplitChainOutOfOrder`, for example, the piece from (10, 0) to (3, 0) runs through (7, 0), which is not one of its ends, and overlaps the piece from (0, 0) to (7, 0).
- Utils.DeleteBy, Utils.Upsert: the list is passed and returned as a value instead of being spliced in place. The store does its splicing through its own field.
- Utils.GroupBy: the mapping function is mandatory. The identity case is a caller passing the identity.
- `updateIntersectionBy` and `multiSplitEntity` are each verified as a few methods, one per phase: `MarkCrossings`, `AddMarker`, `SplitCrossed`, `SplitBase`, `SplitTargets`, `SplitTarget`, `ReplaceByPieces`, `CutChain` and `RecolorSegments`. They run the same steps in the same order.
