/**
 * The depth projector: from the visible list, the dragged id, the hovered id
 * and the horizontal drag offset, the depth the dragged item would land at
 * and the parent it would land under.
 */
module DepthProjector {
  import opened Types
  import opened FlatOrder

  /**
   * `Math.round(offset / width)` on integers: the integer nearest to
   * offset/width, halves rounded up.
   */
  function DragDepth(offset: int, width: int): (r: int)
    requires width > 0
    ensures 2 * r * width - width <= 2 * offset < 2 * r * width + width
  {
    var q := (2 * offset + width) / (2 * width);
    assert q * (2 * width) + (2 * offset + width) % (2 * width) == 2 * offset + width;
    q
  }

  lemma MulAtLeast(a: int, w: int)
    requires a >= 1 && w > 0
    ensures a * w >= w
  {
    assert a * w == (a - 1) * w + w;
  }

  /** Rounding is unique: any integer within half a width of the offset is the result. */
  lemma DragDepthUnique(offset: int, width: int, k: int)
    requires width > 0
    requires 2 * k * width - width <= 2 * offset < 2 * k * width + width
    ensures DragDepth(offset, width) == k
  {
    var r := DragDepth(offset, width);
    assert 2 * r * width - 2 * k * width == 2 * ((r - k) * width);
    if r > k {
      MulAtLeast(r - k, width);
    } else if r < k {
      MulAtLeast(k - r, width);
    }
  }

  /**
   * `arrayMove` of `@dnd-kit/sortable`: take the element at `from` out and
   * insert it at `to`, all other elements keeping their order.
   */
  function ArrayMove<T>(s: seq<T>, from: nat, to: nat): (r: seq<T>)
    requires from < |s| && to < |s|
    ensures |r| == |s| && r[to] == s[from]
    ensures RemoveAt(r, to) == RemoveAt(s, from)
  {
    var rest := RemoveAt(s, from);
    var r := rest[..to] + [s[from]] + rest[to..];
    assert RemoveAt(r, to) == rest;
    r
  }

  /** Moving permutes: the same elements, each as often. */
  lemma ArrayMovePermutes<T>(s: seq<T>, from: nat, to: nat)
    requires from < |s| && to < |s|
    ensures multiset(ArrayMove(s, from, to)) == multiset(s)
  {
    var r := ArrayMove(s, from, to);
    assert r == r[..to] + [r[to]] + r[to + 1..];
    assert s == s[..from] + [s[from]] + s[from + 1..];
    assert RemoveAt(r, to) == r[..to] + r[to + 1..];
    assert RemoveAt(s, from) == s[..from] + s[from + 1..];
    calc {
      multiset(r);
      multiset(r[..to]) + multiset([r[to]]) + multiset(r[to + 1..]);
      multiset(RemoveAt(r, to)) + multiset([s[from]]);
      multiset(RemoveAt(s, from)) + multiset([s[from]]);
      multiset(s[..from]) + multiset([s[from]]) + multiset(s[from + 1..]);
      multiset(s);
    }
  }

  /** Moving an element onto its own position changes nothing. */
  lemma ArrayMoveSame<T>(s: seq<T>, i: nat)
    requires i < |s|
    ensures ArrayMove(s, i, i) == s
  {
    var r := ArrayMove(s, i, i);
    forall k | 0 <= k < |s| ensures r[k] == s[k] {
      if k < i {
        assert r[k] == RemoveAt(r, i)[k];
      } else if k > i {
        assert r[k] == RemoveAt(r, i)[k - 1];
      }
    }
  }

  /** Every element of the moved list comes from the original. */
  lemma ArrayMoveFrom<T>(s: seq<T>, from: nat, to: nat, k: nat)
    requires from < |s| && to < |s| && k < |s|
    ensures exists j :: 0 <= j < |s| && ArrayMove(s, from, to)[k] == s[j]
  {
    var r := ArrayMove(s, from, to);
    if k == to {
      assert r[k] == s[from];
    } else {
      var m := if k < to then k else k - 1;
      assert r[k] == RemoveAt(r, to)[m];
      var j := if m < from then m else m + 1;
      assert r[k] == s[j];
    }
  }

  /** What getProjection returns. */
  datatype Projection = Projection(depth: int, maxDepth: int, minDepth: int, parentId: Option<Id>)

  /** The element at `k`, when there is one (`newItems[k]`, undefined out of range). */
  function Neighbour(s: seq<FlattenedItem>, k: int): Option<FlattenedItem>
  {
    if 0 <= k < |s| then Some(s[k]) else None
  }

  /** `getMaxDepth`: one deeper than the item before, 0 at the top. */
  function MaxDepth(previous: Option<FlattenedItem>): int
  {
    match previous
    case Some(p) => p.depth + 1
    case None => 0
  }

  /** `getMinDepth`: the depth of the item after, 0 at the bottom. */
  function MinDepth(next: Option<FlattenedItem>): int
  {
    match next
    case Some(n) => n.depth
    case None => 0
  }

  /** The projected depth clamped: to the maximum first, then up to the minimum. */
  function Clamp(projected: int, maxDepth: int, minDepth: int): int
  {
    if projected >= maxDepth then maxDepth
    else if projected < minDepth then minDepth
    else projected
  }

  /** `getParentId`, for the item landing at `overIndex` of the moved list at `depth`. */
  function ParentAt(newItems: seq<FlattenedItem>, overIndex: nat, depth: int): Option<Id>
    requires overIndex <= |newItems|
  {
    var previous := Neighbour(newItems, overIndex - 1);
    if depth == 0 || previous.None? then None
    else if depth == previous.value.depth then previous.value.parentId
    else if depth > previous.value.depth then Some(previous.value.item.id)
    else match LastAtDepth(newItems, overIndex, depth)
      case Some(c) => newItems[c].parentId
      case None => None
  }

  /** The projection of an item of depth `activeDepth` landing at `overIndex` of the moved list. */
  function ProjectAt(newItems: seq<FlattenedItem>, overIndex: nat, activeDepth: int, dragDepth: int): Projection
    requires overIndex < |newItems|
  {
    var maxDepth := MaxDepth(Neighbour(newItems, overIndex - 1));
    var minDepth := MinDepth(Neighbour(newItems, overIndex + 1));
    var depth := Clamp(activeDepth + dragDepth, maxDepth, minDepth);
    Projection(depth, maxDepth, minDepth, ParentAt(newItems, overIndex, depth))
  }

  /**
   * `getProjection`. With the active or the hovered id missing from the
   * list the source fails (or depends on `arrayMove` with index -1); the
   * model returns None there.
   */
  function GetProjection(items: seq<FlattenedItem>, activeId: Id, overId: Id, dragOffset: int, indentationWidth: int): (r: Option<Projection>)
    requires indentationWidth > 0
    ensures r.Some? <==> FindIndex(items, activeId).Some? && FindIndex(items, overId).Some?
  {
    match (FindIndex(items, overId), FindIndex(items, activeId))
    case (Some(overIndex), Some(activeIndex)) =>
      var newItems := ArrayMove(items, activeIndex, overIndex);
      Some(ProjectAt(newItems, overIndex, items[activeIndex].depth, DragDepth(dragOffset, indentationWidth)))
    case _ => None
  }

  // ---------------------------------------------------------------------------
  // Properties of the projection
  // ---------------------------------------------------------------------------

  /** The clamp keeps the depth between the bounds whenever the bounds are in order. */
  lemma ProjectionBounds(items: seq<FlattenedItem>, activeId: Id, overId: Id, dragOffset: int, indentationWidth: int)
    requires indentationWidth > 0
    requires GetProjection(items, activeId, overId, dragOffset, indentationWidth).Some?
    ensures var p := GetProjection(items, activeId, overId, dragOffset, indentationWidth).value;
      p.minDepth <= p.maxDepth ==> p.minDepth <= p.depth <= p.maxDepth
    ensures var p := GetProjection(items, activeId, overId, dragOffset, indentationWidth).value;
      p.depth == p.maxDepth || p.depth == p.minDepth
      || p.depth == items[FindIndex(items, activeId).value].depth + DragDepth(dragOffset, indentationWidth)
  {
  }

  /** The depths and bounds of a projection over a list of non-negative depths are non-negative. */
  lemma ProjectionNonNegative(items: seq<FlattenedItem>, activeId: Id, overId: Id, dragOffset: int, indentationWidth: int)
    requires indentationWidth > 0
    requires forall k :: 0 <= k < |items| ==> items[k].depth >= 0
    requires GetProjection(items, activeId, overId, dragOffset, indentationWidth).Some?
    ensures var p := GetProjection(items, activeId, overId, dragOffset, indentationWidth).value;
      p.depth >= 0 && p.minDepth >= 0 && p.maxDepth >= 0
  {
    var overIndex := FindIndex(items, overId).value;
    var activeIndex := FindIndex(items, activeId).value;
    var newItems := ArrayMove(items, activeIndex, overIndex);
    if overIndex + 1 < |items| {
      ArrayMoveFrom(items, activeIndex, overIndex, overIndex + 1);
    }
    if overIndex > 0 {
      ArrayMoveFrom(items, activeIndex, overIndex, overIndex - 1);
    }
  }

  /** The item landing at `overIndex` with the projected depth and parent. */
  function Landed(newItems: seq<FlattenedItem>, overIndex: nat, p: Projection): FlattenedItem
    requires overIndex < |newItems|
  {
    newItems[overIndex].(depth := p.depth, parentId := p.parentId)
  }

  /** The last item of a well-nested list at `depth` sits after every shallower item. */
  lemma LastAtDepthCovers(s: seq<FlattenedItem>, depth: int, c: nat)
    requires WellNested(s) && s != [] && s[|s| - 1].depth > depth
    requires LastAtDepth(s, |s|, depth) == Some(c)
    ensures forall k :: c <= k < |s| ==> s[k].depth >= depth
  {
    forall k | c <= k < |s| ensures s[k].depth >= depth {
      if s[k].depth < depth {
        Climb(s, k, |s| - 1, depth);
      }
    }
  }

  /** Within a well-nested list, the last item at a depth above the final item's names that depth's parent. */
  lemma NearestAtShallower(s: seq<FlattenedItem>, depth: int)
    requires WellNested(s) && s != [] && 0 < depth < s[|s| - 1].depth
    ensures LastAtDepth(s, |s|, depth).Some?
    ensures s[LastAtDepth(s, |s|, depth).value].parentId == NearestParent(s, depth)
  {
    WellNestedAt(s, 0);
    Climb(s, 0, |s| - 1, depth);
    var c := LastAtDepth(s, |s|, depth).value;
    LastAtDepthCovers(s, depth, c);
    WellNestedAt(s, c);
    NearestFromCut(s, c, depth);
  }

  /** Items at or below a depth after a cut do not change the parent named for that depth. */
  lemma NearestFromCut(s: seq<FlattenedItem>, c: nat, depth: int)
    requires c <= |s| && forall k :: c <= k < |s| ==> s[k].depth >= depth
    ensures NearestParent(s, depth) == NearestParent(s[..c], depth)
  {
    var x := s[c..];
    assert forall i :: 0 <= i < |x| ==> x[i] == s[c + i];
    assert s == s[..c] + x;
    NearestParentSkip(s[..c], x, depth);
  }

  /** The final item of a well-nested list names the parent of its own depth. */
  lemma NearestAtSame(s: seq<FlattenedItem>)
    requires WellNested(s) && s != []
    ensures s[|s| - 1].parentId == NearestParent(s, s[|s| - 1].depth)
  {
    var init := s[..|s| - 1];
    assert s == init + [s[|s| - 1]];
    WellNestedAt(s, |s| - 1);
    NearestParentSkip(init, [s[|s| - 1]], s[|s| - 1].depth);
  }

  /**
   * `getParentId` computes the parent the nesting rule names for an item
   * put at `depth` right after the items before `overIndex`.
   */
  lemma ParentAtIsNearest(newItems: seq<FlattenedItem>, overIndex: nat, depth: int)
    requires overIndex <= |newItems| && WellNested(newItems[..overIndex]) && depth >= 0
    requires overIndex > 0 ==> depth <= newItems[overIndex - 1].depth + 1
    requires overIndex == 0 ==> depth == 0
    ensures ParentAt(newItems, overIndex, depth) == NearestParent(newItems[..overIndex], depth)
  {
    var prefix := newItems[..overIndex];
    if depth != 0 {
      var prev := newItems[overIndex - 1];
      assert prefix[|prefix| - 1] == prev;
      if depth == prev.depth {
        NearestAtSame(prefix);
      } else if depth < prev.depth {
        NearestAtShallower(prefix, depth);
        LastAtDepthPrefix(newItems, overIndex, overIndex, depth);
      }
    }
  }

  /**
   * The projected parent is the one the nesting rule names: put at its
   * projected depth and parent after the items before it, the dragged item
   * keeps the list well nested (when the bounds are in order).
   */
  lemma ProjectionFits(newItems: seq<FlattenedItem>, overIndex: nat, activeDepth: int, dragDepth: int)
    requires overIndex < |newItems|
    requires forall k :: 0 <= k < |newItems| ==> newItems[k].depth >= 0
    requires WellNested(newItems[..overIndex])
    requires ProjectAt(newItems, overIndex, activeDepth, dragDepth).minDepth
          <= ProjectAt(newItems, overIndex, activeDepth, dragDepth).maxDepth
    ensures var p := ProjectAt(newItems, overIndex, activeDepth, dragDepth);
      WellNested(newItems[..overIndex] + [Landed(newItems, overIndex, p)])
  {
    var p := ProjectAt(newItems, overIndex, activeDepth, dragDepth);
    var prefix := newItems[..overIndex];
    ParentAtIsNearest(newItems, overIndex, p.depth);
    if overIndex > 0 {
      assert prefix[|prefix| - 1] == newItems[overIndex - 1];
    }
    AppendFitsTo(prefix, Landed(newItems, overIndex, p));
  }

  lemma AppendFitsTo(ctx: seq<FlattenedItem>, f: FlattenedItem)
    requires WellNested(ctx) && Fits(ctx, f)
    ensures WellNested(ctx + [f])
  {
    var s := ctx + [f];
    assert s[..|s| - 1] == ctx;
  }

  /** Dropping an item onto itself projects on the unmoved list, at the item's own index. */
  lemma ProjectOntoSelfList(items: seq<FlattenedItem>, i: nat, dragOffset: int, indentationWidth: int)
    requires indentationWidth > 0 && i < |items|
    requires FindIndex(items, items[i].item.id) == Some(i)
    requires -indentationWidth <= 2 * dragOffset < indentationWidth
    ensures GetProjection(items, items[i].item.id, items[i].item.id, dragOffset, indentationWidth)
         == Some(ProjectAt(items, i, items[i].depth, 0))
  {
    DragDepthUnique(dragOffset, indentationWidth, 0);
    ArrayMoveSame(items, i);
  }

  /** With no child following it, an item of a well-nested list projects onto its own depth. */
  lemma ProjectOntoSelfDepth(items: seq<FlattenedItem>, i: nat)
    requires i < |items| && WellNested(items)
    requires i + 1 < |items| ==> items[i + 1].depth <= items[i].depth
    ensures ProjectAt(items, i, items[i].depth, 0).depth == items[i].depth
    ensures ProjectAt(items, i, items[i].depth, 0).minDepth <= ProjectAt(items, i, items[i].depth, 0).maxDepth
  {
    WellNestedAt(items, i);
    ParentBefore(items, i);
    if i > 0 {
      assert items[..i][i - 1] == items[i - 1];
    }
    if i + 1 < |items| {
      ParentBefore(items, i + 1);
    }
  }

  /**
   * Hovering over its own place with less than half an indentation of
   * horizontal movement, an item without visible children keeps its depth
   * and its parent.
   */
  lemma ProjectOntoSelf(items: seq<FlattenedItem>, i: nat, dragOffset: int, indentationWidth: int)
    requires indentationWidth > 0 && i < |items|
    requires WellNested(items)
    requires FindIndex(items, items[i].item.id) == Some(i)
    requires i + 1 < |items| ==> items[i + 1].depth <= items[i].depth
    requires -indentationWidth <= 2 * dragOffset < indentationWidth
    ensures var p := GetProjection(items, items[i].item.id, items[i].item.id, dragOffset, indentationWidth);
      p.Some? && p.value.depth == items[i].depth && p.value.parentId == items[i].parentId
  {
    ProjectOntoSelfList(items, i, dragOffset, indentationWidth);
    ProjectOntoSelfDepth(items, i);
    var p := ProjectAt(items, i, items[i].depth, 0);
    forall k | 0 <= k < |items| ensures items[k].depth >= 0 {
      ParentBefore(items, k);
    }
    WellNestedPrefix(items, i);
    ProjectionFits(items, i, items[i].depth, 0);
    var s := items[..i] + [Landed(items, i, p)];
    assert s[..|s| - 1] == items[..i];
    WellNestedAt(items, i);
  }
}
