/**
 * What a drop does to the tree (the commit branch of `handleDragEnd` in
 * src/SortableTree/SortableTree.tsx): the active item of the full flattened
 * tree gets the projected depth and parent, moves to the hovered item's
 * index, and the tree is rebuilt; `findItemActualIndex` then reports where
 * the item landed.
 */
module DropComposition {
  import opened Types
  import opened TreeCodec
  import opened DepthProjector
  import opened TreeSearch
  import opened VisibleList

  /**
   * The list handed to buildTree: the active item rewritten with the new
   * depth and parent, then moved to the hovered item's index. None when
   * either id is missing from the list.
   */
  function DropList(flat: seq<FlattenedItem>, activeId: Id, overId: Id, depth: int, parentId: Option<Id>): Option<seq<FlattenedItem>>
  {
    match (FindIndex(flat, overId), FindIndex(flat, activeId))
    case (Some(overIndex), Some(activeIndex)) =>
      var cloned := flat[activeIndex := flat[activeIndex].(depth := depth, parentId := parentId)];
      Some(ArrayMove(cloned, activeIndex, overIndex))
    case _ => None
  }

  lemma IdsOfRemoveAt(s: seq<FlattenedItem>, i: nat)
    requires i < |s|
    ensures IdsOf(RemoveAt(s, i)) == RemoveAt(IdsOf(s), i)
  {
    var a, b := IdsOf(RemoveAt(s, i)), RemoveAt(IdsOf(s), i);
    assert |a| == |b|;
    forall k | 0 <= k < |a| ensures a[k] == b[k] {
      if k < i {
        assert a[k] == s[k].item.id;
      } else {
        assert a[k] == s[k + 1].item.id;
      }
    }
  }

  /**
   * Only the active item is rewritten, and only in depth and parent; it
   * lands at the hovered index, every other item keeps its fields and
   * relative order, and every id occurs as often as before.
   */
  lemma DropListMovesOnlyActive(flat: seq<FlattenedItem>, activeId: Id, overId: Id, depth: int, parentId: Option<Id>)
    ensures DropList(flat, activeId, overId, depth, parentId).Some?
      <==> FindIndex(flat, activeId).Some? && FindIndex(flat, overId).Some?
    ensures DropList(flat, activeId, overId, depth, parentId).Some? ==>
      var a := FindIndex(flat, activeId).value;
      var o := FindIndex(flat, overId).value;
      var r := DropList(flat, activeId, overId, depth, parentId).value;
      && |r| == |flat|
      && r[o] == flat[a].(depth := depth, parentId := parentId)
      && RemoveAt(r, o) == RemoveAt(flat, a)
      && multiset(IdsOf(r)) == multiset(IdsOf(flat))
  {
    if DropList(flat, activeId, overId, depth, parentId).Some? {
      var a := FindIndex(flat, activeId).value;
      var o := FindIndex(flat, overId).value;
      var cloned := flat[a := flat[a].(depth := depth, parentId := parentId)];
      var r := ArrayMove(cloned, a, o);
      assert RemoveAt(cloned, a) == RemoveAt(flat, a);
      IdsOfRemoveAt(r, o);
      IdsOfRemoveAt(flat, a);
      MultisetRemoveAt(IdsOf(r), o);
      MultisetRemoveAt(IdsOf(flat), a);
    }
  }

  /** In a drag session the projection only exists when both ids are in the full tree, so the list is built. */
  lemma DropListInSession(items: seq<TreeItem>, activeId: Option<Id>, overId: Option<Id>, offsetLeft: int, indentationWidth: int)
    requires indentationWidth > 0
    requires Projected(items, activeId, overId, offsetLeft, indentationWidth).Some?
    ensures var p := Projected(items, activeId, overId, offsetLeft, indentationWidth).value;
      DropList(FlattenTree(items), activeId.value, overId.value, p.depth, p.parentId).Some?
  {
    ProjectedNamesTreeItems(items, activeId, overId, offsetLeft, indentationWidth);
    var p := Projected(items, activeId, overId, offsetLeft, indentationWidth).value;
    DropListMovesOnlyActive(FlattenTree(items), activeId.value, overId.value, p.depth, p.parentId);
  }

  // ---------------------------------------------------------------------------
  // findItemActualIndex
  // ---------------------------------------------------------------------------

  /** The loop of `findItemActualIndex` from sibling `i` on. */
  function FindActual(ts: seq<TreeItem>, i: nat, targetId: Id, parent: Option<Id>): Option<DropResult>
    requires i <= |ts|
    decreases ts, |ts| - i
  {
    if i == |ts| then None
    else if ts[i].id == targetId then Some(DropResult(ts[i], parent, i))
    else
      var inChildren := if |ts[i].children| > 0 then FindActual(ts[i].children, 0, targetId, Some(ts[i].id)) else None;
      if inChildren.Some? then inChildren else FindActual(ts, i + 1, targetId, parent)
  }

  /** `findItemActualIndex(items, targetId, parent)`. */
  function FindItemActualIndex(items: seq<TreeItem>, targetId: Id, parent: Option<Id>): Option<DropResult>
  {
    FindActual(items, 0, targetId, parent)
  }

  /**
   * The reference: the first item of a flattened block with the id, its
   * sibling index, and its parent (the given one for the block's top level).
   */
  function FlatLocate(flat: seq<FlattenedItem>, id: Id, depth: int, parent: Option<Id>): Option<DropResult>
  {
    match FindIndex(flat, id)
    case None => None
    case Some(k) => Some(DropResult(flat[k].item, if flat[k].depth == depth then parent else flat[k].parentId, flat[k].index))
  }

  lemma FindIndexAppend(a: seq<FlattenedItem>, b: seq<FlattenedItem>, id: Id)
    ensures FindIndex(a + b, id) == match FindIndex(a, id)
      case Some(k) => Some(k)
      case None => match FindIndex(b, id)
        case None => None
        case Some(k) => Some(|a| + k)
  {
    if FindIndex(a, id).None? && FindIndex(b, id).Some? {
      var k := FindIndex(b, id).value;
      assert (a + b)[|a| + k] == b[k];
      assert forall j :: |a| <= j < |a| + k ==> (a + b)[j] == b[j - |a|];
    } else if FindIndex(a, id).None? {
      assert forall j :: |a| <= j < |a + b| ==> (a + b)[j] == b[j - |a|];
    } else {
      assert (a + b)[FindIndex(a, id).value] == a[FindIndex(a, id).value];
    }
  }

  /** The top level of a flattened block carries the block's parent id. */
  lemma {:induction false} FlattenTopParent(ts: seq<TreeItem>, parentId: Option<Id>, depth: int, index: int)
    ensures forall j :: 0 <= j < |Flatten(ts, parentId, depth, index)| && Flatten(ts, parentId, depth, index)[j].depth == depth ==>
      Flatten(ts, parentId, depth, index)[j].parentId == parentId
    decreases ts
  {
    if ts != [] {
      FlattenDepths(ts[0].children, Some(ts[0].id), depth + 1, 0);
      FlattenTopParent(ts[1..], parentId, depth, index + 1);
    }
  }

  lemma FindIndexSplit(top: FlattenedItem, kids: seq<FlattenedItem>, rest: seq<FlattenedItem>, id: Id)
    requires top.item.id != id
    ensures FindIndex([top] + kids + rest, id) == match FindIndex(kids, id)
      case Some(k) => Some(1 + k)
      case None => match FindIndex(rest, id)
        case None => None
        case Some(k) => Some(1 + |kids| + k)
  {
    FindIndexAppend([top], kids, id);
    FindIndexAppend([top] + kids, rest, id);
    assert FindIndex([top], id) == None by {
      assert [top][1..] == [];
    }
  }

  /** Locating in a block made of a first item, its subtree and the rest. */
  lemma LocateSplit(top: FlattenedItem, kids: seq<FlattenedItem>, rest: seq<FlattenedItem>, id: Id, depth: int, parent: Option<Id>)
    requires top.item.id != id
    requires forall j :: 0 <= j < |kids| ==> kids[j].depth == depth + 1 ==> kids[j].parentId == Some(top.item.id)
    requires forall j :: 0 <= j < |kids| ==> kids[j].depth > depth
    ensures FlatLocate([top] + kids + rest, id, depth, parent)
      == var inKids := FlatLocate(kids, id, depth + 1, Some(top.item.id));
        if inKids.Some? then inKids else FlatLocate(rest, id, depth, parent)
  {
    FindIndexSplit(top, kids, rest, id);
    var s := [top] + kids + rest;
    if FindIndex(kids, id).Some? {
      var k := FindIndex(kids, id).value;
      assert s[1 + k] == kids[k];
    } else if FindIndex(rest, id).Some? {
      var k := FindIndex(rest, id).value;
      assert s[1 + |kids| + k] == rest[k];
    }
  }

  /**
   * findItemActualIndex from sibling `i` on finds what the flattened
   * siblings from `i` on list first: the node, its sibling index, and its
   * parent's id (the given `parent` at the top level).
   */
  lemma {:induction false} FindActualIsFlat(ts: seq<TreeItem>, i: nat, id: Id, parent: Option<Id>, q: Option<Id>, d: int)
    requires i <= |ts|
    ensures FindActual(ts, i, id, parent) == FlatLocate(Flatten(ts[i..], q, d, i), id, d, parent)
    decreases ts, |ts| - i
  {
    if i < |ts| {
      var t := ts[i];
      var top := FlattenedItem(t, q, d, i);
      var kids := Flatten(t.children, Some(t.id), d + 1, 0);
      var rest := Flatten(ts[i + 1..], q, d, i + 1);
      assert ts[i..][0] == t && ts[i..][1..] == ts[i + 1..];
      assert Flatten(ts[i..], q, d, i) == [top] + kids + rest;
      if t.id == id {
        assert ([top] + kids + rest)[0] == top;
      } else {
        FlattenDepths(t.children, Some(t.id), d + 1, 0);
        FlattenTopParent(t.children, Some(t.id), d + 1, 0);
        LocateSplit(top, kids, rest, id, d, parent);
        assert t.children[0..] == t.children;
        FindActualIsFlat(t.children, 0, id, Some(t.id), Some(t.id), d + 1);
        FindActualIsFlat(ts, i + 1, id, parent, q, d);
      }
    } else {
      assert ts[i..] == [];
    }
  }

  /** findItemActualIndex reads the flattened tree's first entry for the id. */
  lemma ActualIndexOfTree(items: seq<TreeItem>, targetId: Id, parent: Option<Id>)
    ensures FindItemActualIndex(items, targetId, parent) == FlatLocate(FlattenTree(items), targetId, 0, parent)
  {
    assert items[0..] == items;
    FindActualIsFlat(items, 0, targetId, parent, None, 0);
  }

  /** findItemActualIndex finds the node findItemDeep finds, and nothing when the id is absent. */
  lemma ActualIndexFindsDeep(items: seq<TreeItem>, targetId: Id, parent: Option<Id>)
    ensures FindItemActualIndex(items, targetId, parent).Some? <==> targetId in NodeIds(items)
    ensures FindItemActualIndex(items, targetId, parent).Some? ==>
      Some(FindItemActualIndex(items, targetId, parent).value.movedItem) == FindItemDeep(items, targetId)
  {
    ActualIndexOfTree(items, targetId, parent);
    FindItemDeepIsFirst(items, targetId);
    FindItemDeepFound(items, targetId);
    FlattenListsPreOrder(items, None, 0, 0);
    FindIndexIsFirstWithId(FlattenTree(items), PreOrder(items), targetId);
  }

  /** Searching a flattened list is searching the node list it was made from. */
  lemma FindIndexIsFirstWithId(flat: seq<FlattenedItem>, p: seq<TreeItem>, id: Id)
    requires |flat| == |p| && forall k :: 0 <= k < |p| ==> flat[k].item == p[k]
    ensures FindIndex(flat, id) == FirstWithId(p, id)
  {
    if FindIndex(flat, id).Some? {
      var k := FindIndex(flat, id).value;
      assert p[k].id == id;
    }
    if FirstWithId(p, id).Some? {
      var k := FirstWithId(p, id).value;
      assert flat[k].item.id == id;
    }
  }

  // ---------------------------------------------------------------------------
  // The drop
  // ---------------------------------------------------------------------------

  /** The tree after a drop and the report for `onDragEnd`; None when nothing is committed. */
  datatype Dropped = Dropped(newItems: seq<TreeItem>, report: Option<DropResult>)

  function Drop(items: seq<TreeItem>, activeId: Id, overId: Id, depth: int, parentId: Option<Id>): Option<Dropped>
  {
    match DropList(FlattenTree(items), activeId, overId, depth, parentId)
    case None => None
    case Some(sorted) =>
      match BuildTreeSpec(sorted)
      case Err(_) => None
      case Ok(newItems) => Some(Dropped(newItems, FindItemActualIndex(newItems, activeId, parentId)))
  }
}
