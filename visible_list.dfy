/**
 * The list the sortable tree renders and drags over (`flattenedItems` in
 * src/SortableTree/SortableTree.tsx): the flattened tree, with the sole
 * root item marked undraggable, without the descendants of collapsed items
 * and, while dragging, of the dragged item; and the projection gated on a
 * drag in progress.
 */
module VisibleList {
  import opened Types
  import opened TreeCodec
  import opened CollapseFilter
  import opened DepthProjector

  /** The items with a falsy parent id, in order (`filter(({ parentId }) => !parentId)`). */
  function RootItems(s: seq<FlattenedItem>): seq<FlattenedItem>
    decreases |s|
  {
    if s == [] then []
    else (if !Truthy(s[0].parentId) then [s[0]] else []) + RootItems(s[1..])
  }

  /** The id to mark: that of the only root item, when there is exactly one. */
  function SoleRoot(s: seq<FlattenedItem>): Option<Id>
  {
    var roots := RootItems(s);
    if |roots| == 1 then Some(roots[0].item.id) else None
  }

  /** `{ ...item, disableDragging: true }` for the items carrying the marked id. */
  function MarkItem(f: FlattenedItem, root: Option<Id>): FlattenedItem
  {
    if root.Some? && f.item.id == root.value then f.(item := f.item.(disableDragging := true)) else f
  }

  function MarkAll(s: seq<FlattenedItem>, root: Option<Id>): (r: seq<FlattenedItem>)
    ensures |r| == |s| && forall k :: 0 <= k < |s| ==> r[k] == MarkItem(s[k], root)
    decreases |s|
  {
    if s == [] then [] else [MarkItem(s[0], root)] + MarkAll(s[1..], root)
  }

  function MarkSoleRoot(s: seq<FlattenedItem>): seq<FlattenedItem>
  {
    MarkAll(s, SoleRoot(s))
  }

  /** The ids of the collapsed items that have children, in order. */
  function CollapsedIds(s: seq<FlattenedItem>): (r: seq<Id>)
    ensures forall x :: x in r <==>
      exists k :: 0 <= k < |s| && s[k].item.id == x && s[k].item.collapsed && |s[k].item.children| > 0
    decreases |s|
  {
    if s == [] then []
    else
      var rest := CollapsedIds(s[1..]);
      assert forall x :: x in rest <==>
        exists k :: 1 <= k < |s| && s[k].item.id == x && s[k].item.collapsed && |s[k].item.children| > 0 by {
        forall x | x in rest
          ensures exists k :: 1 <= k < |s| && s[k].item.id == x && s[k].item.collapsed && |s[k].item.children| > 0
        {
          var k :| 0 <= k < |s[1..]| && s[1..][k].item.id == x && s[1..][k].item.collapsed && |s[1..][k].item.children| > 0;
          assert s[k + 1] == s[1..][k];
        }
        forall x | exists k :: 1 <= k < |s| && s[k].item.id == x && s[k].item.collapsed && |s[k].item.children| > 0
          ensures x in rest
        {
          var k :| 1 <= k < |s| && s[k].item.id == x && s[k].item.collapsed && |s[k].item.children| > 0;
          assert s[1..][k - 1] == s[k];
        }
      }
      (if s[0].item.collapsed && |s[0].item.children| > 0 then [s[0].item.id] else []) + rest
  }

  /** The ids whose descendants are hidden: the dragged one, if any, then the collapsed ones. */
  function HiddenIds(flat: seq<FlattenedItem>, activeId: Option<Id>): seq<Id>
  {
    if Truthy(activeId) then [activeId.value] + CollapsedIds(flat) else CollapsedIds(flat)
  }

  /** `flattenedItems`, for the forest `items` and the dragged id `activeId`. */
  function VisibleItems(items: seq<TreeItem>, activeId: Option<Id>): seq<FlattenedItem>
  {
    var flat := MarkSoleRoot(FlattenTree(items));
    Filter(flat, HiddenIds(flat, activeId)).kept
  }

  /** `projected`: computed on the visible list, only while both ids are set. */
  function Projected(items: seq<TreeItem>, activeId: Option<Id>, overId: Option<Id>, offsetLeft: int, indentationWidth: int): Option<Projection>
    requires indentationWidth > 0
  {
    if Truthy(activeId) && Truthy(overId) then
      GetProjection(VisibleItems(items, activeId), activeId.value, overId.value, offsetLeft, indentationWidth)
    else None
  }

  // ---------------------------------------------------------------------------
  // Root marking
  // ---------------------------------------------------------------------------

  lemma {:induction false} RootItemsAppend(a: seq<FlattenedItem>, b: seq<FlattenedItem>)
    ensures RootItems(a + b) == RootItems(a) + RootItems(b)
    decreases |a|
  {
    if a == [] {
      assert a + b == b;
    } else {
      assert (a + b)[0] == a[0] && (a + b)[1..] == a[1..] + b;
      RootItemsAppend(a[1..], b);
    }
  }

  /**
   * In a flattened block the root items are the block's own top-level
   * nodes when its parent id is falsy, and there are none otherwise.
   */
  lemma {:induction false} RootItemsOfFlatten(ts: seq<TreeItem>, parentId: Option<Id>, depth: int, index: int)
    requires "" !in NodeIds(ts)
    ensures Truthy(parentId) ==> RootItems(Flatten(ts, parentId, depth, index)) == []
    ensures !Truthy(parentId) ==> |RootItems(Flatten(ts, parentId, depth, index))| == |ts|
    ensures !Truthy(parentId) && ts != [] ==> RootItems(Flatten(ts, parentId, depth, index))[0].item == ts[0]
    decreases ts
  {
    if ts != [] {
      NodeIdsUnfold(ts);
      var top := FlattenedItem(ts[0], parentId, depth, index);
      var kids := Flatten(ts[0].children, Some(ts[0].id), depth + 1, 0);
      var rest := Flatten(ts[1..], parentId, depth, index + 1);
      assert Flatten(ts, parentId, depth, index) == [top] + (kids + rest);
      RootItemsAppend([top], kids + rest);
      RootItemsAppend(kids, rest);
      assert RootItems([top]) == (if !Truthy(parentId) then [top] else []) by {
        assert [top][1..] == [];
      }
      RootItemsOfFlatten(ts[0].children, Some(ts[0].id), depth + 1, 0);
      RootItemsOfFlatten(ts[1..], parentId, depth, index + 1);
    }
  }

  /**
   * In a forest with non-empty ids, there is exactly one root item when the
   * forest has exactly one top-level node, and that node is the one marked.
   */
  lemma SoleRootOfForest(t: seq<TreeItem>)
    requires "" !in NodeIds(t)
    ensures SoleRoot(FlattenTree(t)) == if |t| == 1 then Some(t[0].id) else None
  {
    RootItemsOfFlatten(t, None, 0, 0);
  }

  // ---------------------------------------------------------------------------
  // The visible list of a forest
  // ---------------------------------------------------------------------------

  /** Marking does not change what the filter looks at, so the two commute. */
  lemma {:induction false} FilterMarked(s: seq<FlattenedItem>, excluded: seq<Id>, root: Option<Id>)
    ensures Filter(MarkAll(s, root), excluded)
      == FilterState(MarkAll(Filter(s, excluded).kept, root), Filter(s, excluded).excluded)
    decreases |s|
  {
    if s != [] {
      var m := MarkAll(s, root);
      assert m[1..] == MarkAll(s[1..], root);
      var ex := if Dropped(s[0], excluded) && |s[0].item.children| > 0 then excluded + [s[0].item.id] else excluded;
      FilterMarked(s[1..], ex, root);
    }
  }

  /** The hidden ids are the dragged id (while dragging) and those of collapsed nodes with children. */
  lemma HiddenIdsOfForest(t: seq<TreeItem>, activeId: Option<Id>)
    ensures var flat := MarkSoleRoot(FlattenTree(t));
      forall x :: x in HiddenIds(flat, activeId) <==>
        (Truthy(activeId) && x == activeId.value)
        || (exists k :: (0 <= k < |PreOrder(t)| && PreOrder(t)[k].id == x
          && PreOrder(t)[k].collapsed && |PreOrder(t)[k].children| > 0))
  {
    FlattenListsPreOrder(t, None, 0, 0);
  }

  /**
   * The visible list of a forest with distinct non-empty ids: its pre-order
   * flattening without the descendants of the hidden ids, the only
   * top-level node marked undraggable when it is alone.
   */
  lemma VisibleItemsOfForest(t: seq<TreeItem>, activeId: Option<Id>)
    requires UniqueIds(t) && "" !in NodeIds(t)
    ensures var flat := MarkSoleRoot(FlattenTree(t));
      VisibleItems(t, activeId)
        == MarkAll(VisibleFlatten(t, None, 0, 0, HiddenIds(flat, activeId)), if |t| == 1 then Some(t[0].id) else None)
  {
    var flat := MarkSoleRoot(FlattenTree(t));
    SoleRootOfForest(t);
    FilterMarked(FlattenTree(t), HiddenIds(flat, activeId), SoleRoot(FlattenTree(t)));
    RemoveChildrenOfForest(t, HiddenIds(flat, activeId));
  }

  /** Every visible item is an item of the flattened tree, up to the marking. */
  lemma VisibleFromFlatten(items: seq<TreeItem>, activeId: Option<Id>, i: nat)
    requires i < |VisibleItems(items, activeId)|
    ensures exists k :: (0 <= k < |FlattenTree(items)|
      && VisibleItems(items, activeId)[i] == MarkItem(FlattenTree(items)[k], SoleRoot(FlattenTree(items))))
  {
    var flat := MarkSoleRoot(FlattenTree(items));
    var v := VisibleItems(items, activeId);
    FilterSubsequence(flat, HiddenIds(flat, activeId));
    SubsequenceMember(v, flat, i);
  }

  /** An element of a subsequence is an element of the whole. */
  lemma {:induction false} SubsequenceMember<T>(r: seq<T>, s: seq<T>, i: nat)
    requires IsSubsequence(r, s) && i < |r|
    ensures exists k :: 0 <= k < |s| && r[i] == s[k]
    decreases |s|
  {
    assert s != [];
    if r[0] == s[0] {
      if i > 0 {
        SubsequenceMember(r[1..], s[1..], i - 1);
        var k :| 0 <= k < |s[1..]| && r[1..][i - 1] == s[1..][k];
        assert r[i] == s[k + 1];
      }
    } else {
      SubsequenceMember(r, s[1..], i);
      var k :| 0 <= k < |s[1..]| && r[i] == s[1..][k];
      assert r[i] == s[k + 1];
    }
  }

  /**
   * A projection exists only while both ids are set, and then both name
   * items of the full flattened tree.
   */
  lemma ProjectedNamesTreeItems(items: seq<TreeItem>, activeId: Option<Id>, overId: Option<Id>, offsetLeft: int, indentationWidth: int)
    requires indentationWidth > 0
    requires Projected(items, activeId, overId, offsetLeft, indentationWidth).Some?
    ensures Truthy(activeId) && Truthy(overId)
    ensures FindIndex(FlattenTree(items), activeId.value).Some?
    ensures FindIndex(FlattenTree(items), overId.value).Some?
  {
    var v := VisibleItems(items, activeId);
    var a := FindIndex(v, activeId.value).value;
    var o := FindIndex(v, overId.value).value;
    VisibleFromFlatten(items, activeId, a);
    VisibleFromFlatten(items, activeId, o);
  }
}
