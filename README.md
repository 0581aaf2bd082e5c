# Sortable tree: the reordering engine, in Dafny

This project models the tree-reordering core of a React drag-and-drop
tree component (`SortableTree`).

**Data.** A forest of `TreeItem` nodes is:

- flattened into a depth-annotated pre-order list (`flattenTree`);
- filtered to the list the user sees (`removeChildrenOf` hides the
  descendants of collapsed items and of the dragged one);
- rebuilt into a forest after a drop (`buildTree`).

**Dragging.** While an item is dragged, the depth projector
(`getProjection`) turns the horizontal offset into a new depth. The depth is
clamped between the neighbours' bounds, and the projector works out the new
parent. On drop, the component:

- rewrites the dragged item's depth and parent;
- moves it to the hovered index;
- rebuilds the tree;
- reports where the item landed (`findItemActualIndex`).

**Id-indexed operations.** A forest paired with an id-to-node map
(`OptimizedTreeStructure`) supports three operations:

- creation (`createOptimizedTreeStructure`);
- removal (`removeItemById`);
- property updates (`setTreeItemProperties`, which the collapse toggle
  uses).

**Form of the model.** It follows the source:

- **Pure code → functions and lemmas:** flatten, findItemDeep, countChildren,
  getProjection, the derivation of the visible list and findItemActualIndex.
- **Loop-driven or mutating code → methods with loop invariants, proved
  against specification functions:**
  - buildTree's loop over the `nodes` record;
  - removeChildrenOf's growing exclusion list;
  - the map updates of the structure operations;
  - the drop computation.
- **Component state → a class:** the drag state (`activeId`, `overId`,
  `offsetLeft`, `currentPosition`) is a class whose handler methods update
  its fields.

**Modules:**

| module | file | what it holds |
|---|---|---|
| `Types` | `types.dfy` | the datatypes, JavaScript truthiness of ids, `findIndex` |
| `FlatOrder` | `flat_order.dfy` | well-nested flat lists, which are what flattening produces |
| `TreeCodec` | `tree_codec.dfy` | `flatten`, `findItem` and `buildTree` (its loop, and its outcome as a specification function) |
| `RoundTrip` | `round_trip.dfy` | `buildTree(flattenTree(t))` |
| `BuildOutcome` | `round_trip.dfy` | when buildTree fails, and how it handles later parents and the `"root"` id |
| `DepthProjector` | `depth_projector.dfy` | `getDragDepth`, `arrayMove`, `getProjection` |
| `CollapseFilter` | `collapse_filter.dfy` | `removeChildrenOf` |
| `TreeSearch` | `tree_search.dfy` | `findItemDeep`, `countChildren`, `getChildCount` |
| `TreeStructure` | `tree_structure.dfy` | `createOptimizedTreeStructure`, `removeItemById`, `setTreeItemProperties` |
| `VisibleList` | `visible_list.dfy` | `flattenedItems` and the gating of `projected` |
| `Rebuild` | `rebuild.dfy` | buildTree on a list whose parent links form a forest: success, ids and children |
| `DropComposition` | `drop.dfy` | the drop list, `findItemActualIndex`, the committed drop |
| `DropRebuild` | `drop_rebuild.dfy` | the tree a drop rebuilds: every id kept once, the dragged item's children kept |
| `DragSession` | `drag_session.dfy` | the component's drag state and handlers, `handleCollapse` |

**Modelling choices:**

- **Identifiers** are strings, so the literal `"root"` key of buildTree and
  the falsiness of `""` are both represented.
- **Optional flags** (`collapsed`, `canFetchChildren`, `disableDragging`) are
  read only by truthiness, so they are booleans.
- **Open extra fields** (`[key: string]: any`) are an opaque payload.
- **buildTree's leftover fields.** The `parentId`/`depth`/`index` fields
  that buildTree leaves on the nodes it builds are kept as `TreeItem.place`.
- **`Math.round(offset / width)`** is `floor((2 * offset + width) / (2 * width))`
  on integers, with `width > 0`.
- **`arrayMove(s, from, to)`** is assumed to remove the element at `from`
  and insert it at `to`. The other elements keep their relative order.

**buildTree's edge cases.**

- **An item whose id is `"root"`.** It replaces the synthetic root's entry
  in the `nodes` record, so every later top-level item is attached under it
  instead of the root (`BuildOutcome.RootIdCaptures`).
- **A parent listed after its child.** buildTree does not throw for it:
  `findItem` finds the parent among the new items (`BuildOutcome.LaterParentAccepted`).

As long as no id or parent id names a property that every JavaScript object
inherits (see "Left out"), buildTree throws only when a parent id matches
neither an entry of `nodes` nor any item (`BuildOutcome.BuildFailsIff`).

## Model

| member | source | states |
|---|---|---|
| Types.FindIndex | src/SortableTree/utilities.ts:19-20 | `findIndex` by id: None exactly when no item has the id; otherwise the first index holding it |
| TreeCodec.FlattenListsPreOrder | src/SortableTree/utilities.ts:79-85 | flatten lists every node once, in pre-order: the items of the flat list are exactly the pre-order listing of the forest |
| TreeCodec.FlattenDepths | src/SortableTree/utilities.ts:79-85 | every item of a block flattened at depth `d` has depth at least `d` |
| TreeCodec.FlattenTreeWellNested | src/SortableTree/utilities.ts:79-89 | the flattened tree is well nested: top-level items have a null parent and depth 0, and each other item is one deeper than its parent, which is the nearest earlier item one level up |
| TreeCodec.FindItem | src/SortableTree/utilities.ts:108-110 | `find` by id: undefined exactly when no top-level item has the id; otherwise the first item that does |
| TreeCodec.Resolve | src/SortableTree/utilities.ts:98-99 | a parent is looked up first in the `nodes` record and then with findItem among the items; an unresolved parent is the error buildTree reports |
| TreeCodec.BuildTree | src/SortableTree/utilities.ts:91-106 | the loop over the items computes exactly the outcome of the specification `BuildTreeSpec`: each item is appended, in input order, to the children of its resolved parent (the root for a null parent); the result is the error of the first unresolved parent otherwise |
| RoundTrip.AnnotateKeepsShape | src/SortableTree/utilities.ts:94 | a forest with flattening fields added to its nodes has the same ids, order and nesting as the forest itself |
| RoundTrip.ParentOfNested | src/SortableTree/utilities.ts:96-103 | on a well-nested list with distinct ids, none of them `"root"`, buildTree resolves every parent, and resolves it to the nearest earlier item one level up |
| RoundTrip.BuildAfterFlatten | src/SortableTree/utilities.ts:79-106 | for a forest with distinct ids, none of them `"root"`, buildTree(flattenTree(t)) succeeds and returns t with each node carrying its flattening parent, depth and index |
| RoundTrip.BuildAfterFlattenKeepsShape | src/SortableTree/utilities.ts:79-106 | for such a forest, buildTree(flattenTree(t)) reproduces t's ids, sibling order and nesting |
| BuildOutcome.UnresolvedIsDangling | src/SortableTree/utilities.ts:98-99 | an item's parent is unresolved exactly when its parent key (its parent id, or `"root"` for a null one) is neither `"root"` nor the id of any item in the list |
| BuildOutcome.BuildFailsIff | src/SortableTree/utilities.ts:91-106 | for ids that name no inherited object property, buildTree fails exactly when some item's parent id names no item at all; the error names the parent key of the first such item |
| BuildOutcome.LaterParentAccepted | src/SortableTree/utilities.ts:99 | an item whose parent appears only later in the list is still attached to that parent (findItem finds it among the items) |
| BuildOutcome.RootIdCaptures | src/SortableTree/utilities.ts:92-101 | after an item with id `"root"`, later top-level items are attached under that item and not under the synthetic root |
| DepthProjector.DragDepth | src/SortableTree/utilities.ts:8-10 | `Math.round(offset / width)`: the result `r` is the integer with `r - 1/2 <= offset / width < r + 1/2` |
| DepthProjector.DragDepthUnique | src/SortableTree/utilities.ts:8-10 | that integer is unique: any `k` within half a step of `offset / width` is the drag depth |
| DepthProjector.ArrayMove | src/SortableTree/utilities.ts:22 | moving keeps the length, puts the moved element at `to`, and without it the list is the original without its `from` element |
| DepthProjector.ArrayMovePermutes | src/SortableTree/utilities.ts:22 | a move is a permutation |
| DepthProjector.GetProjection | src/SortableTree/utilities.ts:12-39 | a projection exists exactly when both the active and the hovered ids are in the list |
| DepthProjector.ProjectionBounds | src/SortableTree/utilities.ts:26-37 | the depth is the clamp of the active depth plus the drag depth: it is the maximum, the minimum or the projected depth, and it lies between the minimum and the maximum whenever these are in order |
| DepthProjector.ProjectionNonNegative | src/SortableTree/utilities.ts:27-77 | on a list of non-negative depths, the depth and both bounds are non-negative |
| DepthProjector.ParentAtIsNearest | src/SortableTree/utilities.ts:41-60 | on a well-nested moved list, the parent `getParentId` chooses is the nearest earlier item one level above the new depth, or null at depth 0 |
| DepthProjector.ProjectionFits | src/SortableTree/utilities.ts:23-60 | when the items before the hovered index are well nested and the bounds are in order, the dragged item with the projected depth and parent extends them to a well-nested list |
| DepthProjector.ProjectOntoSelf | src/SortableTree/utilities.ts:12-60 | on a well-nested list, an item with no visible child after it, hovered over itself with less than half an indentation of horizontal movement, keeps its own depth and parent |
| CollapseFilter.RemoveChildrenOf | src/SortableTree/utilities.ts:221-234 | the filter loop with its growing exclusion list returns the items the one-pass specification `Filter` keeps, and they form an order-preserving subsequence of the input |
| CollapseFilter.FilterSubsequence | src/SortableTree/utilities.ts:224-233 | what the filter keeps is an order-preserving subsequence of its input |
| CollapseFilter.ExcludedContents | src/SortableTree/utilities.ts:222-228 | after a prefix, the exclusion list holds exactly the given ids and the ids of the dropped items that have children |
| CollapseFilter.TopLevelKept | src/SortableTree/utilities.ts:225-232 | an item with a falsy parent id is always kept |
| CollapseFilter.RemoveChildrenOfForest | src/SortableTree/utilities.ts:221-234 | on the flattening of a forest with distinct non-empty ids, the filter keeps exactly the nodes that have no proper ancestor in `ids`, in pre-order |
| TreeSearch.FindItemDeepIsFirst | src/SortableTree/utilities.ts:112-130 | findItemDeep returns the first node of the pre-order listing that has the id, or undefined when there is none |
| TreeSearch.FindItemDeepFound | src/SortableTree/utilities.ts:112-130 | findItemDeep finds a node exactly when the id occurs anywhere in the forest, and the node found has that id |
| TreeSearch.CountChildrenCountsNodes | src/SortableTree/utilities.ts:205-213 | countChildren adds the number of nodes of the forest to the starting count |
| TreeSearch.GetChildCountDescendants | src/SortableTree/utilities.ts:215-219 | getChildCount is the number of proper descendants of the node findItemDeep finds, and 0 when the id is absent |
| TreeStructure.AddToMap | src/SortableTree/utilities.ts:195-198 | addToMap sets the node and then its whole subtree, in pre-order, over the given map |
| TreeStructure.CreateOptimizedTreeStructure | src/SortableTree/utilities.ts:192-203 | the items are returned unchanged, with the map of the pre-order listing (a later node with a repeated id wins) |
| TreeStructure.OptimizedMapCovers | src/SortableTree/utilities.ts:192-203 | that map has an entry for exactly the node ids of the forest, and with distinct ids each entry is the node itself |
| TreeStructure.RemoveFromChildren | src/SortableTree/utilities.ts:136-147 | the recursive filter returns the forest pruned of every visited node with the id, and deletes the id's map entry exactly when the id occurs |
| TreeStructure.RemoveItemById | src/SortableTree/utilities.ts:132-152 | removeItemById prunes the forest and deletes only the id's own map entry, leaving those of the removed node's descendants |
| TreeStructure.PrunedRemoves | src/SortableTree/utilities.ts:136-147 | the pruned forest has no node with the id and no id it did not have |
| TreeStructure.PrunedAbsent | src/SortableTree/utilities.ts:132-152 | with the id absent, the forest is unchanged |
| TreeStructure.PrunedKeepsOrder | src/SortableTree/utilities.ts:136-147 | the remaining nodes keep their original pre-order |
| TreeStructure.PrunedIds | src/SortableTree/utilities.ts:136-147 | with distinct ids, exactly the node with the id and its subtree disappear; all other nodes stay |
| TreeStructure.UpdateInTree | src/SortableTree/utilities.ts:168-184 | the recursive map replaces the nodes with the id by the updated node without descending into them, and sets the updated node's direct children in the map exactly when the id occurs |
| TreeStructure.SetTreeItemProperties | src/SortableTree/utilities.ts:154-189 | with the id not in the map, the structure is unchanged; otherwise the node becomes the map's copy merged with the setter's patch, and the map gets that node and its direct children |
| TreeStructure.UpdatedAbsent | src/SortableTree/utilities.ts:168-184 | with the id absent from the forest, the forest is unchanged |
| TreeStructure.UpdatedOffPath | src/SortableTree/utilities.ts:168-184 | a top-level node whose subtree does not hold the id is returned unchanged |
| TreeStructure.UpdatedIsFound | src/SortableTree/utilities.ts:168-184 | after the update, findItemDeep on the id finds the updated node |
| VisibleList.SoleRootOfForest | src/SortableTree/SortableTree.tsx:100-111 | there is exactly one root item exactly when the forest has one top-level node, and that node is the one marked undraggable |
| VisibleList.HiddenIdsOfForest | src/SortableTree/SortableTree.tsx:113-126 | the ids whose descendants are hidden are the dragged id while dragging, and those of the collapsed nodes that have children |
| VisibleList.VisibleItemsOfForest | src/SortableTree/SortableTree.tsx:97-127 | for distinct non-empty ids, the visible list is the pre-order flattening without the descendants of hidden ids, with a lone top-level node marked undraggable |
| VisibleList.VisibleFromFlatten | src/SortableTree/SortableTree.tsx:97-127 | every visible item is an item of the flattened tree, up to the marking |
| VisibleList.ProjectedNamesTreeItems | src/SortableTree/SortableTree.tsx:129-132 | a projection exists only while both ids are set, and then both ids name items of the full flattened tree |
| Rebuild.RebuildForest | src/SortableTree/utilities.ts:91-106 | on a list with distinct ids whose resolved parents form a forest (each item has a level: 0 under the root, one more than its parent's otherwise), buildTree succeeds, the new forest holds each id of the list exactly once, and each item's node has as children exactly the items whose parent resolves to it, in list order |
| DropComposition.DropListMovesOnlyActive | src/SortableTree/SortableTree.tsx:202-210 | the list handed to buildTree exists exactly when both ids are in the flattened tree; it holds the active item, with only its depth and parent rewritten, at the hovered index, and every other item unchanged and in order; the ids are a permutation of the original ones |
| DropRebuild.DropKeepsTree | src/SortableTree/SortableTree.tsx:201-216 | on a tree with unique ids, none of them `"root"`, a drop of a present item over a present item, onto a new parent that is absent (top level) or an item outside the dragged subtree, is committed; the new tree holds the same ids as the old one, each once, and the dragged item keeps its children in their order |
| DropComposition.DropListInSession | src/SortableTree/SortableTree.tsx:129-210 | whenever the session has a projection, the drop finds both ids in the full flattened tree |
| DropComposition.ActualIndexOfTree | src/SortableTree/SortableTree.tsx:399-417 | findItemActualIndex reports the first pre-order node with the id, with its sibling index, and with its parent's id (the passed-in parent at top level) |
| DropComposition.ActualIndexFindsDeep | src/SortableTree/SortableTree.tsx:399-417 | it finds a node exactly when the id occurs in the forest, and the node is the one findItemDeep finds |
| DragSession.SortableTree.constructor | src/SortableTree/SortableTree.tsx:89-95 | no drag in progress: both ids and the position null, offset 0 |
| DragSession.SortableTree.HandleDragStart | src/SortableTree/SortableTree.tsx:161-178 | both ids become the picked one; the position records the item's parent from the visible list of the previous render, and is kept when the item is not visible; nothing else changes |
| DragSession.SortableTree.HandleDragMove | src/SortableTree/SortableTree.tsx:180-182 | only the offset changes |
| DragSession.SortableTree.HandleDragOver | src/SortableTree/SortableTree.tsx:184-186 | only the hovered id changes, to null when nothing is hovered |
| DragSession.SortableTree.ResetState | src/SortableTree/SortableTree.tsx:188-195 | the drag state is reset and the items are kept |
| DragSession.SortableTree.HandleDragCancel | src/SortableTree/SortableTree.tsx:221-223 | the drag state is reset and the items are kept |
| DragSession.SortableTree.HandleDragEnd | src/SortableTree/SortableTree.tsx:197-219 | the drag state is reset; using the projection taken before the reset, the drop is committed (the items are replaced and `onDragEnd` receives the report) exactly when the projection and the hovered item exist and the rebuild succeeds; otherwise the items are kept |
| DragSession.CommitDrop | src/SortableTree/SortableTree.tsx:201-216 | the imperative drop (clone, rewrite the active item in place, move, rebuild, locate) computes the specified outcome `DragEndOutcome` |
| DragSession.HandleCollapse | src/SortableTree/SortableTree.tsx:232-253 | with `canFetchChildren` the work is delegated and the tree is left alone; otherwise the node's `collapsed` flag is flipped through setTreeItemProperties, findItemDeep then finds the flipped node, and an id absent from the forest leaves the forest unchanged |

## Left out

- The rendering, styling, drop animation, `adjustTranslate`, cursor changes and screen-reader announcements of SortableTree.tsx are not modelled. They are UI.
- dnd-kit's sensors, collision detection and keyboard coordinates are not modelled. The active id, the hovered id and the horizontal offset are inputs to the handlers.
- Lazy loading through `onLazyLoadChildren` is asynchronous. Only the "delegate and leave the tree alone" branch is modelled (`CollapseOutcome.LazyLoad`).
- `getItemById` is exported but not defined in utilities.ts, so it is not part of this model. The `iOS` navigator check is left out too.
- Object aliasing is not modelled; the forest and the map are values. In particular:
  - removeItemById reassigns `children` in place on the caller's nodes;
  - buildTree shares `children` arrays between `nodes` and the items;
  - map values are the same objects as tree nodes.
  Agreement between map and tree is stated only as far as the code updates the map.
- The `JSON.parse(JSON.stringify(...))` clone in handleDragEnd is the identity on values.
- Numeric identifiers are not modelled, only strings.
- Offsets and the indentation width are integers, not floating-point numbers.
- `arrayMove` is an assumption, not a model of its code, which is not available: remove at `from`, insert at `to`.
- DepthProjector.GetProjection: when the active or hovered id is missing from the list, the code reads an undefined item or calls `arrayMove` with index -1. The model returns None there.
- DragSession.CommitDrop: when buildTree would throw a TypeError (a dangling parent id), the model commits nothing. In the code the handler throws after the state was reset.
- DragSession.CommitDrop: an active or hovered id missing from the full flattened tree means no commit. The code's behaviour with index -1 is not modelled. When the drag-end event carries the session's own active and hovered ids, `DropComposition.DropListInSession` shows that both are found whenever a projection exists.
- DropRebuild.DropKeepsTree: the new parent must lie outside the dragged subtree. The projection guarantees this in the component because the dragged item's descendants are hidden from the visible list the projector reads; the model does not derive it from the session.
- DropRebuild.DropKeepsTree: the depth written to the dragged item is not related to its new place in the rebuilt tree, since buildTree reads only parent ids.
- DragSession.HandleCollapse: the model uses the `OptimizedTreeStructure` signature of setTreeItemProperties, as utilities.ts declares it. The component passes a plain array of items there.
- DragSession.HandleCollapse: the effect on the map is only what SetTreeItemProperties states. The model does not relate the map to the tree after the update.
- CollapseFilter.RemoveChildrenOfForest and VisibleList.VisibleItemsOfForest require that no id be `""`. An item with the empty id is falsy as a parent id, so it does not hide its children.
- RoundTrip.BuildAfterFlatten requires distinct ids, none of them `"root"`. Other inputs are described by `BuildOutcome`.
- TreeCodec.BuildTree: `nodes` is an object literal, so a key such as `constructor`, `toString`, `valueOf`, `hasOwnProperty` or `__proto__` reads a property every object inherits. Ids and parent ids that name such properties are not modelled: the model's `nodes` holds only the root and the items already seen, so `BuildOutcome.BuildFailsIff` holds only for other ids. For example, the code throws for `[{id: "a", parentId: "constructor"}, {id: "constructor", parentId: null}]` while the model returns the tree.
- TreeCodec.BuildTree: the final assembly of nodes from the computed child lists is a function with a fuel bound equal to the list length. The link structure itself is computed by the loop. With duplicate ids, the aliasing of shared `children` arrays is not reproduced.
- TreeCodec.ChildIndices: the model does not state that the child lists are sorted. They are built in input order.
