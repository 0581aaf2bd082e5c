/**
 * The drag state of the `SortableTree` component
 * (src/SortableTree/SortableTree.tsx) and the handlers that change it, plus
 * the collapse toggle. React state setters are modelled as field updates;
 * a handler reads the state as of its last render, which here is the state
 * before its own updates.
 */
module DragSession {
  import opened Types
  import opened TreeCodec
  import opened DepthProjector
  import opened TreeSearch
  import opened TreeStructure
  import opened VisibleList
  import opened DropComposition

  /** `currentPosition`: the dragged item's parent id when the drag started, and the hovered id. */
  datatype Position = Position(parentId: Option<Id>, overId: Id)

  class SortableTree {
    /** The `items` prop, which `setItems` replaces. */
    var items: seq<TreeItem>
    var activeId: Option<Id>
    var overId: Option<Id>
    var offsetLeft: int
    var currentPosition: Option<Position>
    const indentationWidth: int

    predicate Valid()
      reads this
    {
      indentationWidth > 0
    }

    constructor(items: seq<TreeItem>, indentationWidth: int)
      requires indentationWidth > 0
      ensures Valid()
      ensures this.items == items && this.indentationWidth == indentationWidth
      ensures activeId == None && overId == None && offsetLeft == 0 && currentPosition == None
    {
      this.items := items;
      this.indentationWidth := indentationWidth;
      activeId := None;
      overId := None;
      offsetLeft := 0;
      currentPosition := None;
    }

    /** `flattenedItems` as of the current state. */
    function FlattenedItems(): seq<FlattenedItem>
      reads this
    {
      VisibleItems(items, activeId)
    }

    /** `projected` as of the current state. */
    function CurrentProjection(): Option<Projection>
      requires Valid()
      reads this
    {
      Projected(items, activeId, overId, offsetLeft, indentationWidth)
    }

    /**
     * `handleDragStart`: both ids become the picked one; the position is
     * recorded from the visible list rendered before the drag started.
     */
    method HandleDragStart(id: Id)
      requires Valid()
      modifies this
      ensures Valid()
      ensures activeId == Some(id) && overId == Some(id)
      ensures items == old(items) && offsetLeft == old(offsetLeft)
      ensures currentPosition == match FindIndex(old(FlattenedItems()), id)
        case None => old(currentPosition)
        case Some(k) => Some(Position(old(FlattenedItems())[k].parentId, id))
    {
      var flattenedItems := FlattenedItems();
      activeId := Some(id);
      overId := Some(id);
      var activeIndex := FindIndex(flattenedItems, id);
      if activeIndex.Some? {
        currentPosition := Some(Position(flattenedItems[activeIndex.value].parentId, id));
      }
    }

    /** `handleDragMove`: only the horizontal offset changes. */
    method HandleDragMove(deltaX: int)
      requires Valid()
      modifies this
      ensures Valid()
      ensures offsetLeft == deltaX
      ensures items == old(items) && activeId == old(activeId) && overId == old(overId)
      ensures currentPosition == old(currentPosition)
    {
      offsetLeft := deltaX;
    }

    /** `handleDragOver`: only the hovered id changes; None when nothing is hovered. */
    method HandleDragOver(over: Option<Id>)
      requires Valid()
      modifies this
      ensures Valid()
      ensures overId == over
      ensures items == old(items) && activeId == old(activeId) && offsetLeft == old(offsetLeft)
      ensures currentPosition == old(currentPosition)
    {
      overId := over;
    }

    /** `resetState`: no drag in progress. */
    method ResetState()
      requires Valid()
      modifies this
      ensures Valid()
      ensures activeId == None && overId == None && offsetLeft == 0 && currentPosition == None
      ensures items == old(items)
    {
      overId := None;
      activeId := None;
      offsetLeft := 0;
      currentPosition := None;
    }

    /** `handleDragCancel`. */
    method HandleDragCancel()
      requires Valid()
      modifies this
      ensures Valid()
      ensures activeId == None && overId == None && offsetLeft == 0 && currentPosition == None
      ensures items == old(items)
    {
      ResetState();
    }

    /**
     * `handleDragEnd`: the state is reset; then, with the projection taken
     * before the reset and a hovered item, the drop is committed. The
     * result is None when `onDragEnd` is not called, and otherwise what it
     * is called with.
     */
    method HandleDragEnd(active: Id, over: Option<Id>) returns (result: Option<Option<DropResult>>)
      requires Valid()
      modifies this
      ensures Valid()
      ensures activeId == None && overId == None && offsetLeft == 0 && currentPosition == None
      ensures var d := DragEndOutcome(old(items), old(CurrentProjection()), active, over);
        if d.Some? then items == d.value.newItems && result == Some(d.value.report)
        else items == old(items) && result == None
    {
      var projected := CurrentProjection();
      var dropped := CommitDrop(items, projected, active, over);
      ResetState();
      if dropped.Some? {
        items := dropped.value.newItems;
        result := Some(dropped.value.report);
      } else {
        result := None;
      }
    }
  }

  /** What a drag end commits: a drop only with a projection and a hovered item. */
  function DragEndOutcome(items: seq<TreeItem>, projected: Option<Projection>, active: Id, over: Option<Id>): Option<Dropped>
  {
    if projected.Some? && over.Some? then Drop(items, active, over.value, projected.value.depth, projected.value.parentId)
    else None
  }

  /**
   * The body of `handleDragEnd` after the reset: with a projection and a
   * hovered item, clone the flattened tree, give the dragged item its
   * projected depth and parent, move it to the hovered index, rebuild the
   * tree and locate the dragged item in it. None when either is missing,
   * when an id is not in the tree or when the rebuild fails.
   */
  method CommitDrop(items: seq<TreeItem>, projected: Option<Projection>, active: Id, over: Option<Id>)
    returns (d: Option<Dropped>)
    ensures d == DragEndOutcome(items, projected, active, over)
  {
    if projected.None? || over.None? {
      return None;
    }
    var depth := projected.value.depth;
    var parentId := projected.value.parentId;
    var clonedItems := FlattenTree(items);
    var overIndex := FindIndex(clonedItems, over.value);
    var activeIndex := FindIndex(clonedItems, active);
    if overIndex.None? || activeIndex.None? {
      return None;
    }
    var a := activeIndex.value;
    var activeItem := clonedItems[a];
    clonedItems := clonedItems[a := activeItem.(depth := depth, parentId := parentId)];
    var sortedItems := ArrayMove(clonedItems, a, overIndex.value);
    var newItems := BuildTree(sortedItems);
    if newItems.Err? {
      return None;
    }
    var report := FindItemActualIndex(newItems.value, activeItem.item.id, parentId);
    d := Some(Dropped(newItems.value, report));
  }

  /** What a collapse toggle leads to. */
  datatype CollapseOutcome =
    | LazyLoad(id: Id, collapsed: bool)            // delegated to `onLazyLoadChildren`
    | SetItems(structure: OptimizedTreeStructure)  // the new state handed to `setItems`

  /** The setter `handleCollapse` passes: flip `collapsed`. */
  function FlipCollapsed(item: TreeItem): Patch
  {
    Patch(None, None, None, Some(!item.collapsed), None, None, None, None)
  }

  /**
   * `handleCollapse`: an item that can fetch children delegates and leaves
   * the tree alone; any other has its `collapsed` flag flipped through
   * setTreeItemProperties.
   */
  method HandleCollapse(structure: OptimizedTreeStructure, id: Id, canFetchChildren: bool, collapsed: bool)
    returns (out: CollapseOutcome)
    ensures canFetchChildren ==> out == LazyLoad(id, collapsed)
    ensures !canFetchChildren ==> out.SetItems?
    ensures !canFetchChildren && id !in structure.itemMap ==> out.structure == structure
    ensures !canFetchChildren && id in structure.itemMap ==>
      var item := structure.itemMap[id];
      var u := item.(collapsed := !item.collapsed);
      && out.structure.items == UpdatedTree(structure.items, id, u)
      && (id in NodeIds(structure.items) && item.id == id ==> FindItemDeep(out.structure.items, id) == Some(u))
      && (id !in NodeIds(structure.items) ==> out.structure.items == structure.items)
  {
    if canFetchChildren {
      return LazyLoad(id, collapsed);
    }
    var s := SetTreeItemProperties(structure, id, FlipCollapsed);
    if id in structure.itemMap {
      var item := structure.itemMap[id];
      var u := item.(collapsed := !item.collapsed);
      assert Merge(item, FlipCollapsed(item)) == u;
      if id in NodeIds(structure.items) && item.id == id {
        UpdatedIsFound(structure.items, id, u);
      }
      if id !in NodeIds(structure.items) {
        UpdatedAbsent(structure.items, id, u);
      }
    }
    out := SetItems(s);
  }
}
