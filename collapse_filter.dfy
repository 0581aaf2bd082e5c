/**
 * `removeChildrenOf` of src/SortableTree/utilities.ts: the filter that hides
 * the descendants of collapsed (or dragged) items in a flattened tree. It
 * walks the list once, dropping an item whose parent id is excluded and
 * excluding in turn the id of every dropped item that has children.
 */
module CollapseFilter {
  import opened Types
  import opened TreeCodec

  /** The item is dropped: its parent id is truthy and currently excluded. */
  predicate Dropped(f: FlattenedItem, excluded: seq<Id>)
  {
    Truthy(f.parentId) && f.parentId.value in excluded
  }

  /** What the filter has produced so far: the kept items and the grown exclusion list. */
  datatype FilterState = FilterState(kept: seq<FlattenedItem>, excluded: seq<Id>)

  /** The filter as a left-to-right pass, starting from exclusion list `excluded`. */
  function Filter(s: seq<FlattenedItem>, excluded: seq<Id>): FilterState
    decreases |s|
  {
    if s == [] then FilterState([], excluded)
    else if Dropped(s[0], excluded) then
      Filter(s[1..], if |s[0].item.children| > 0 then excluded + [s[0].item.id] else excluded)
    else
      var rest := Filter(s[1..], excluded);
      FilterState([s[0]] + rest.kept, rest.excluded)
  }

  /** `removeChildrenOf(items, ids)`. */
  method RemoveChildrenOf(items: seq<FlattenedItem>, ids: seq<Id>) returns (r: seq<FlattenedItem>)
    ensures r == Filter(items, ids).kept
    ensures IsSubsequence(r, items)
  {
    var excludeParentIds := ids;
    r := [];
    for i := 0 to |items|
      invariant Filter(items, ids)
        == FilterState(r + Filter(items[i..], excludeParentIds).kept, Filter(items[i..], excludeParentIds).excluded)
    {
      var item := items[i];
      assert items[i..][1..] == items[i + 1..];
      if item.parentId.Some? && item.parentId.value != "" && item.parentId.value in excludeParentIds {
        if |item.item.children| > 0 {
          excludeParentIds := excludeParentIds + [item.item.id];
        }
      } else {
        r := r + [item];
      }
    }
    assert items[|items|..] == [];
    FilterSubsequence(items, ids);
  }

  // ---------------------------------------------------------------------------
  // Properties of the pass
  // ---------------------------------------------------------------------------

  /** The filter keeps an order-preserving subsequence of its input. */
  lemma {:induction false} FilterSubsequence(s: seq<FlattenedItem>, excluded: seq<Id>)
    ensures IsSubsequence(Filter(s, excluded).kept, s)
    decreases |s|
  {
    if s != [] {
      if Dropped(s[0], excluded) {
        var ex := if |s[0].item.children| > 0 then excluded + [s[0].item.id] else excluded;
        FilterSubsequence(s[1..], ex);
        SubsequenceSkip(Filter(s[1..], ex).kept, s[0], s[1..]);
      } else {
        FilterSubsequence(s[1..], excluded);
        var k := [s[0]] + Filter(s[1..], excluded).kept;
        assert k[0] == s[0] && k[1..] == Filter(s[1..], excluded).kept;
      }
    }
  }

  /** The exclusion list only grows: what was excluded stays excluded. */
  lemma {:induction false} FilterExcludedGrows(s: seq<FlattenedItem>, excluded: seq<Id>)
    ensures forall x :: x in excluded ==> x in Filter(s, excluded).excluded
    decreases |s|
  {
    if s != [] {
      var ex := if Dropped(s[0], excluded) && |s[0].item.children| > 0 then excluded + [s[0].item.id] else excluded;
      FilterExcludedGrows(s[1..], ex);
    }
  }

  /** Running the pass over `a + b` is running it over `a`, then over `b` with what `a` excluded. */
  lemma {:induction false} FilterAppend(a: seq<FlattenedItem>, b: seq<FlattenedItem>, excluded: seq<Id>)
    ensures Filter(a + b, excluded)
      == FilterState(Filter(a, excluded).kept + Filter(b, Filter(a, excluded).excluded).kept,
                     Filter(b, Filter(a, excluded).excluded).excluded)
    decreases |a|
  {
    if a == [] {
      assert a + b == b;
    } else {
      assert (a + b)[0] == a[0] && (a + b)[1..] == a[1..] + b;
      var ex := if Dropped(a[0], excluded) && |a[0].item.children| > 0 then excluded + [a[0].item.id] else excluded;
      FilterAppend(a[1..], b, ex);
    }
  }

  /**
   * Item `i` is kept exactly when it is not dropped by the exclusion list
   * built from `ids` and the items before it; and the list grows by item
   * `i`'s id exactly when `i` is dropped and has children.
   */
  lemma FilterStep(s: seq<FlattenedItem>, ids: seq<Id>, i: nat)
    requires i < |s|
    ensures var before := Filter(s[..i], ids);
      Filter(s[..i + 1], ids) == (
        if Dropped(s[i], before.excluded) then
          FilterState(before.kept,
            if |s[i].item.children| > 0 then before.excluded + [s[i].item.id] else before.excluded)
        else FilterState(before.kept + [s[i]], before.excluded))
  {
    assert s[..i + 1] == s[..i] + [s[i]];
    FilterAppend(s[..i], [s[i]], ids);
    assert [s[i]][1..] == [];
  }

  /** Item `j` is dropped, and has children, so its id joins the exclusion list. */
  predicate ExcludesOwnId(s: seq<FlattenedItem>, ids: seq<Id>, j: nat)
    requires j < |s|
  {
    Dropped(s[j], Filter(s[..j], ids).excluded) && |s[j].item.children| > 0
  }

  /**
   * The exclusion list after the first `i` items holds exactly the given ids
   * and the ids of the dropped items among them that have children.
   */
  lemma {:induction false} ExcludedContents(s: seq<FlattenedItem>, ids: seq<Id>, i: nat)
    requires i <= |s|
    ensures forall x :: x in Filter(s[..i], ids).excluded <==>
      (x in ids || exists j :: 0 <= j < i && ExcludesOwnId(s, ids, j) && s[j].item.id == x)
  {
    if i == 0 {
      assert s[..0] == [];
    } else {
      ExcludedContents(s, ids, i - 1);
      FilterStep(s, ids, i - 1);
    }
  }

  /** An item without a (truthy) parent id is never dropped. */
  lemma TopLevelKept(s: seq<FlattenedItem>, ids: seq<Id>, i: nat)
    requires i < |s| && !Truthy(s[i].parentId)
    ensures Filter(s[..i + 1], ids).kept == Filter(s[..i], ids).kept + [s[i]]
  {
    FilterStep(s, ids, i);
  }

  // ---------------------------------------------------------------------------
  // On a flattened forest: whole subtrees disappear
  // ---------------------------------------------------------------------------

  /**
   * The visible part of a forest's flattening: every node is listed as by
   * `flatten`, but the descendants of a listed node whose id is in `ids`
   * are not.
   */
  function VisibleFlatten(ts: seq<TreeItem>, parentId: Option<Id>, depth: int, index: int, ids: seq<Id>): seq<FlattenedItem>
    decreases ts
  {
    if ts == [] then []
    else
      [FlattenedItem(ts[0], parentId, depth, index)]
      + (if ts[0].id in ids then [] else VisibleFlatten(ts[0].children, Some(ts[0].id), depth + 1, 0, ids))
      + VisibleFlatten(ts[1..], parentId, depth, index + 1, ids)
  }

  /** The exclusion list and `ids` agree on the ids of a forest. */
  ghost predicate Agree(excluded: seq<Id>, ids: seq<Id>, ns: set<Id>)
  {
    forall x :: x in ns ==> (x in excluded <==> x in ids)
  }

  /** A block whose parent is excluded vanishes; it only excludes ids of its own nodes. */
  lemma {:induction false} HiddenBlock(ts: seq<TreeItem>, parentId: Option<Id>, depth: int, index: int, excluded: seq<Id>)
    requires Truthy(parentId) && parentId.value in excluded
    requires "" !in NodeIds(ts)
    ensures Filter(Flatten(ts, parentId, depth, index), excluded).kept == []
    ensures forall x :: x in excluded ==> x in Filter(Flatten(ts, parentId, depth, index), excluded).excluded
    ensures forall x :: x in Filter(Flatten(ts, parentId, depth, index), excluded).excluded ==>
      x in excluded || x in NodeIds(ts)
    decreases ts
  {
    if ts != [] {
      NodeIdsUnfold(ts);
      var top := FlattenedItem(ts[0], parentId, depth, index);
      var kids := Flatten(ts[0].children, Some(ts[0].id), depth + 1, 0);
      var rest := Flatten(ts[1..], parentId, depth, index + 1);
      assert Flatten(ts, parentId, depth, index) == [top] + kids + rest;
      var ex0 := if |ts[0].children| > 0 then excluded + [ts[0].id] else excluded;
      assert Filter([top], excluded) == FilterState([], ex0) by {
        assert [top][1..] == [];
      }
      FilterAppend([top], kids, excluded);
      FilterAppend([top] + kids, rest, excluded);
      var ex1 := Filter(kids, ex0).excluded;
      if |ts[0].children| > 0 {
        HiddenBlock(ts[0].children, Some(ts[0].id), depth + 1, 0, ex0);
      } else {
        assert kids == [];
      }
      HiddenBlock(ts[1..], parentId, depth, index + 1, ex1);
    }
  }

  /**
   * A block whose parent is not excluded is listed as `VisibleFlatten` lists
   * it; it only excludes ids of its own nodes.
   */
  lemma {:induction false} VisibleBlock(ts: seq<TreeItem>, parentId: Option<Id>, depth: int, index: int,
                                        excluded: seq<Id>, ids: seq<Id>)
    requires UniqueIds(ts) && "" !in NodeIds(ts)
    requires !(Truthy(parentId) && parentId.value in excluded)
    requires parentId.Some? ==> parentId.value !in NodeIds(ts)
    requires Agree(excluded, ids, NodeIds(ts))
    ensures Filter(Flatten(ts, parentId, depth, index), excluded).kept == VisibleFlatten(ts, parentId, depth, index, ids)
    ensures forall x :: x in excluded ==> x in Filter(Flatten(ts, parentId, depth, index), excluded).excluded
    ensures forall x :: x in Filter(Flatten(ts, parentId, depth, index), excluded).excluded ==>
      x in excluded || x in NodeIds(ts)
    decreases ts
  {
    if ts != [] {
      NodeIdsUnfold(ts);
      UniqueIdsSplit(ts);
      var top := FlattenedItem(ts[0], parentId, depth, index);
      var kids := Flatten(ts[0].children, Some(ts[0].id), depth + 1, 0);
      var rest := Flatten(ts[1..], parentId, depth, index + 1);
      assert Flatten(ts, parentId, depth, index) == [top] + kids + rest;
      VisibleCompose(top, kids, rest, excluded);
      if ts[0].id in ids {
        HiddenBlock(ts[0].children, Some(ts[0].id), depth + 1, 0, excluded);
      } else {
        VisibleBlock(ts[0].children, Some(ts[0].id), depth + 1, 0, excluded, ids);
      }
      var ex1 := Filter(kids, excluded).excluded;
      assert Agree(ex1, ids, NodeIds(ts[1..])) by {
        forall x | x in NodeIds(ts[1..]) ensures x in ex1 <==> x in ids {
          assert x !in NodeIds(ts[0].children);
        }
      }
      VisibleBlock(ts[1..], parentId, depth, index + 1, ex1, ids);
    }
  }

  /** The pass over a kept item followed by two blocks. */
  lemma VisibleCompose(top: FlattenedItem, kids: seq<FlattenedItem>, rest: seq<FlattenedItem>, excluded: seq<Id>)
    requires !Dropped(top, excluded)
    ensures var k := Filter(kids, excluded);
      var r := Filter(rest, k.excluded);
      Filter([top] + kids + rest, excluded) == FilterState([top] + k.kept + r.kept, r.excluded)
  {
    assert Filter([top], excluded) == FilterState([top], excluded) by {
      assert [top][1..] == [];
    }
    FilterAppend([top], kids, excluded);
    FilterAppend([top] + kids, rest, excluded);
  }

  /**
   * On the flattening of a forest with distinct non-empty ids, the filter
   * removes exactly the descendants of the nodes listed in `ids`: no kept
   * item has an ancestor in `ids`, and every other node stays, in order.
   */
  lemma RemoveChildrenOfForest(t: seq<TreeItem>, ids: seq<Id>)
    requires UniqueIds(t) && "" !in NodeIds(t)
    ensures Filter(FlattenTree(t), ids).kept == VisibleFlatten(t, None, 0, 0, ids)
  {
    VisibleBlock(t, None, 0, 0, ids, ids);
  }
}
