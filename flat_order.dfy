/**
 * The nesting invariant of a flattened tree. A flat list is well nested when
 * it starts at depth 0, never goes more than one level deeper from one item to
 * the next, and names as each item's parent the nearest earlier item one
 * level up. This is what a pre-order listing of a forest looks like, and what
 * the depth projector relies on.
 */
module FlatOrder {
  import opened Types

  /** Index of the last item before position `b` whose depth is `x`. */
  function LastAtDepth(s: seq<FlattenedItem>, b: nat, x: int): (r: Option<nat>)
    requires b <= |s|
    ensures r.Some? ==> r.value < b && s[r.value].depth == x
    ensures r.Some? ==> forall c :: r.value < c < b ==> s[c].depth != x
    ensures r.None? ==> forall c :: 0 <= c < b ==> s[c].depth != x
    decreases b
  {
    if b == 0 then None
    else if s[b - 1].depth == x then Some(b - 1)
    else LastAtDepth(s, b - 1, x)
  }

  /** The id of the nearest item of `prefix` one level above `depth`, if any. */
  function NearestParent(prefix: seq<FlattenedItem>, depth: int): Option<Id>
  {
    if depth <= 0 then None
    else match LastAtDepth(prefix, |prefix|, depth - 1)
      case None => None
      case Some(c) => Some(prefix[c].item.id)
  }

  /** Item `f` may follow `prefix` in a well-nested list. */
  predicate Fits(prefix: seq<FlattenedItem>, f: FlattenedItem)
  {
    && f.depth >= 0
    && (prefix == [] ==> f.depth == 0)
    && (prefix != [] ==> f.depth <= prefix[|prefix| - 1].depth + 1)
    && f.parentId == NearestParent(prefix, f.depth)
  }

  predicate WellNested(s: seq<FlattenedItem>)
    decreases |s|
  {
    s == [] || (WellNested(s[..|s| - 1]) && Fits(s[..|s| - 1], s[|s| - 1]))
  }

  lemma {:induction false} LastAtDepthPrefix(s: seq<FlattenedItem>, i: nat, b: nat, x: int)
    requires b <= i <= |s|
    ensures LastAtDepth(s[..i], b, x) == LastAtDepth(s, b, x)
    decreases b
  {
    if b > 0 {
      LastAtDepthPrefix(s, i, b - 1, x);
    }
  }

  /** Looking up a parent is not disturbed by items appended at `depth` or deeper. */
  lemma {:induction false} NearestParentSkip(ctx: seq<FlattenedItem>, x: seq<FlattenedItem>, depth: int)
    requires forall i :: 0 <= i < |x| ==> x[i].depth >= depth
    ensures NearestParent(ctx + x, depth) == NearestParent(ctx, depth)
    decreases |x|
  {
    if depth > 0 && x != [] {
      var s := ctx + x;
      var y := x[..|x| - 1];
      assert s[..|s| - 1] == ctx + y;
      assert s[|s| - 1].depth != depth - 1;
      assert LastAtDepth(s, |s|, depth - 1) == LastAtDepth(s, |s| - 1, depth - 1);
      NearestParentSkip(ctx, y, depth);
      LastAtDepthPrefix(s, |s| - 1, |s| - 1, depth - 1);
      var c := LastAtDepth(s, |s| - 1, depth - 1);
      if c.Some? {
        assert (ctx + y)[c.value] == s[c.value];
      }
    } else if x == [] {
      assert ctx + x == ctx;
    }
  }

  lemma {:induction false} WellNestedPrefix(s: seq<FlattenedItem>, i: nat)
    requires WellNested(s) && i <= |s|
    ensures WellNested(s[..i])
    decreases |s|
  {
    if i < |s| {
      assert s[..i] == s[..|s| - 1][..i];
      WellNestedPrefix(s[..|s| - 1], i);
    } else {
      assert s[..i] == s;
    }
  }

  lemma WellNestedAt(s: seq<FlattenedItem>, i: nat)
    requires WellNested(s) && i < |s|
    ensures Fits(s[..i], s[i])
  {
    WellNestedPrefix(s, i + 1);
    var t := s[..i + 1];
    assert t[..|t| - 1] == s[..i];
  }

  /**
   * Depth cannot climb past a level without visiting it: between an item at
   * depth at most `x` and a later one deeper than `x` there is one at `x`.
   */
  lemma {:induction false} Climb(s: seq<FlattenedItem>, a: nat, b: nat, x: int)
    requires WellNested(s) && a < b < |s|
    requires s[a].depth <= x < s[b].depth
    ensures LastAtDepth(s, b, x).Some? && LastAtDepth(s, b, x).value >= a
    decreases b
  {
    WellNestedAt(s, b);
    assert s[..b][b - 1] == s[b - 1];
    if s[b - 1].depth != x {
      Climb(s, a, b - 1, x);
    }
  }

  /** Every item of a well-nested list has its parent before it, one level up. */
  lemma ParentBefore(s: seq<FlattenedItem>, i: nat)
    requires WellNested(s) && i < |s|
    ensures s[i].depth >= 0
    ensures s[i].parentId.None? <==> s[i].depth == 0
    ensures s[i].depth > 0 ==>
      var c := LastAtDepth(s, i, s[i].depth - 1);
      c.Some? && s[i].parentId == Some(s[c.value].item.id)
  {
    WellNestedAt(s, i);
    LastAtDepthPrefix(s, i, i, s[i].depth - 1);
    if s[i].depth > 0 {
      WellNestedAt(s, 0);
      Climb(s, 0, i, s[i].depth - 1);
    }
  }

  /**
   * The depth rule of a flattened tree: a root item has no parent and depth
   * 0; any other item names an earlier item whose depth is one less.
   */
  lemma DepthFollowsParent(s: seq<FlattenedItem>, i: nat)
    requires WellNested(s) && i < |s|
    ensures s[i].parentId.None? <==> s[i].depth == 0
    ensures s[i].parentId.Some? ==>
      exists j :: 0 <= j < i && s[j].item.id == s[i].parentId.value && s[j].depth == s[i].depth - 1
  {
    ParentBefore(s, i);
  }
}
