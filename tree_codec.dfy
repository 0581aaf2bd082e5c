/**
 * The tree codec of src/SortableTree/utilities.ts: `flatten`/`flattenTree`
 * turn a forest into a depth-annotated pre-order list, `buildTree` turns such
 * a list back into a forest, `findItem` searches one level.
 */
module TreeCodec {
  import opened Types
  import opened FlatOrder

  // ---------------------------------------------------------------------------
  // Forests
  // ---------------------------------------------------------------------------

  /** Every node of the forest, parents before children, siblings in order. */
  function PreOrder(ts: seq<TreeItem>): seq<TreeItem>
    decreases ts
  {
    if ts == [] then [] else [ts[0]] + PreOrder(ts[0].children) + PreOrder(ts[1..])
  }

  /** The ids of all nodes of the forest. */
  function NodeIds(ts: seq<TreeItem>): set<Id>
  {
    set n | n in PreOrder(ts) :: n.id
  }

  /** No id occurs twice anywhere in the forest. */
  predicate UniqueIds(ts: seq<TreeItem>)
  {
    var p := PreOrder(ts);
    forall i, j :: 0 <= i < j < |p| ==> p[i].id != p[j].id
  }

  /** The number of levels of the forest. */
  function Height(ts: seq<TreeItem>): nat
    decreases ts
  {
    if ts == [] then 0
    else
      var h0 := 1 + Height(ts[0].children);
      var h1 := Height(ts[1..]);
      if h0 < h1 then h1 else h0
  }

  /** The ids of a forest: the first node's, its subtree's and its later siblings'. */
  lemma NodeIdsUnfold(ts: seq<TreeItem>)
    requires ts != []
    ensures NodeIds(ts) == {ts[0].id} + NodeIds(ts[0].children) + NodeIds(ts[1..])
  {
    var a := PreOrder(ts[0].children);
    var b := PreOrder(ts[1..]);
    assert PreOrder(ts) == [ts[0]] + a + b;
    forall x | x in NodeIds(ts) ensures x in {ts[0].id} + NodeIds(ts[0].children) + NodeIds(ts[1..]) {
      var n :| n in PreOrder(ts) && n.id == x;
      if n != ts[0] {
        if n in a { assert x in NodeIds(ts[0].children); } else { assert n in b; }
      }
    }
    forall x | x in {ts[0].id} + NodeIds(ts[0].children) + NodeIds(ts[1..]) ensures x in NodeIds(ts) {
      if x == ts[0].id {
        assert ts[0] in PreOrder(ts);
      } else if x in NodeIds(ts[0].children) {
        var n :| n in a && n.id == x;
        assert n in PreOrder(ts);
      } else {
        var n :| n in b && n.id == x;
        assert n in PreOrder(ts);
      }
    }
  }

  /** Unique ids split: within the subtree, within the siblings, and never shared between them. */
  lemma UniqueIdsSplit(ts: seq<TreeItem>)
    requires ts != [] && UniqueIds(ts)
    ensures UniqueIds(ts[0].children) && UniqueIds(ts[1..])
    ensures ts[0].id !in NodeIds(ts[0].children) && ts[0].id !in NodeIds(ts[1..])
    ensures NodeIds(ts[0].children) !! NodeIds(ts[1..])
  {
    var a := PreOrder(ts[0].children);
    var b := PreOrder(ts[1..]);
    assert PreOrder(ts) == [ts[0]] + a + b;
    UniqueThree(PreOrder(ts), [ts[0]], a, b);
    assert ts[0] in [ts[0]];
  }

  /** A node list with distinct ids, cut in three: each part has distinct ids and no two parts share one. */
  lemma UniqueThree(p: seq<TreeItem>, x: seq<TreeItem>, a: seq<TreeItem>, b: seq<TreeItem>)
    requires p == x + a + b
    requires forall i, j :: 0 <= i < j < |p| ==> p[i].id != p[j].id
    ensures forall i, j :: 0 <= i < j < |a| ==> a[i].id != a[j].id
    ensures forall i, j :: 0 <= i < j < |b| ==> b[i].id != b[j].id
    ensures forall n, m :: n in x && m in a ==> n.id != m.id
    ensures forall n, m :: n in x && m in b ==> n.id != m.id
    ensures forall n, m :: n in a && m in b ==> n.id != m.id
  {
    var xa := x + a;
    UniqueCut(p, xa, b);
    UniqueCut(xa, x, a);
    forall n, m | n in x && m in b ensures n.id != m.id {
      assert n in xa;
    }
    forall n, m | n in a && m in b ensures n.id != m.id {
      assert n in xa;
    }
  }

  /** A node list with distinct ids, cut in two: each part has distinct ids and they share none. */
  lemma UniqueCut(p: seq<TreeItem>, a: seq<TreeItem>, b: seq<TreeItem>)
    requires p == a + b
    requires forall i, j :: 0 <= i < j < |p| ==> p[i].id != p[j].id
    ensures forall i, j :: 0 <= i < j < |a| ==> a[i].id != a[j].id
    ensures forall i, j :: 0 <= i < j < |b| ==> b[i].id != b[j].id
    ensures forall n, m :: n in a && m in b ==> n.id != m.id
  {
    forall i, j | 0 <= i < j < |a| ensures a[i].id != a[j].id {
      assert p[i] == a[i] && p[j] == a[j];
    }
    forall i, j | 0 <= i < j < |b| ensures b[i].id != b[j].id {
      assert p[|a| + i] == b[i] && p[|a| + j] == b[j];
    }
    forall n, m | n in a && m in b ensures n.id != m.id {
      var i :| 0 <= i < |a| && a[i] == n;
      var j :| 0 <= j < |b| && b[j] == m;
      assert p[i] == n && p[|a| + j] == m;
    }
  }

  // ---------------------------------------------------------------------------
  // flatten / flattenTree
  // ---------------------------------------------------------------------------

  /**
   * `flatten(items, parentId, depth)`: each node, tagged with the given parent
   * id, depth and its index among its siblings (counted from `index`), then
   * its own children one level deeper.
   */
  function Flatten(ts: seq<TreeItem>, parentId: Option<Id>, depth: int, index: int): seq<FlattenedItem>
    decreases ts
  {
    if ts == [] then []
    else
      [FlattenedItem(ts[0], parentId, depth, index)]
      + Flatten(ts[0].children, Some(ts[0].id), depth + 1, 0)
      + Flatten(ts[1..], parentId, depth, index + 1)
  }

  function FlattenTree(ts: seq<TreeItem>): seq<FlattenedItem>
  {
    Flatten(ts, None, 0, 0)
  }

  /** Flattening lists every node exactly once, in pre-order. */
  lemma {:induction false} FlattenListsPreOrder(ts: seq<TreeItem>, parentId: Option<Id>, depth: int, index: int)
    ensures |Flatten(ts, parentId, depth, index)| == |PreOrder(ts)|
    ensures forall i :: 0 <= i < |PreOrder(ts)| ==> Flatten(ts, parentId, depth, index)[i].item == PreOrder(ts)[i]
    decreases ts
  {
    if ts != [] {
      FlattenListsPreOrder(ts[0].children, Some(ts[0].id), depth + 1, 0);
      FlattenListsPreOrder(ts[1..], parentId, depth, index + 1);
    }
  }

  /** Everything in a flattened block lies at the block's depth or deeper. */
  lemma {:induction false} FlattenDepths(ts: seq<TreeItem>, parentId: Option<Id>, depth: int, index: int)
    ensures forall i :: 0 <= i < |Flatten(ts, parentId, depth, index)| ==>
      Flatten(ts, parentId, depth, index)[i].depth >= depth
    decreases ts
  {
    if ts != [] {
      FlattenDepths(ts[0].children, Some(ts[0].id), depth + 1, 0);
      FlattenDepths(ts[1..], parentId, depth, index + 1);
    }
  }

  lemma ConcatAssoc<T>(a: seq<T>, b: seq<T>, c: seq<T>, d: seq<T>)
    ensures a + (b + c + d) == a + b + c + d
  {
  }

  lemma AppendFits(ctx: seq<FlattenedItem>, f: FlattenedItem)
    requires WellNested(ctx) && Fits(ctx, f)
    ensures WellNested(ctx + [f])
  {
    var c := ctx + [f];
    assert c[..|c| - 1] == ctx;
  }

  /** Right after an item, the parent for one level deeper is that item. */
  lemma NearestAfter(ctx: seq<FlattenedItem>, top: FlattenedItem)
    requires top.depth >= 0
    ensures (ctx + [top])[|ctx + [top]| - 1] == top
    ensures NearestParent(ctx + [top], top.depth + 1) == Some(top.item.id)
  {
    var c := ctx + [top];
    assert c[|c| - 1] == top;
  }

  /** After a node and its flattened subtree, the lookup at the node's depth sees past them. */
  lemma SkipSubtree(ctx: seq<FlattenedItem>, top: FlattenedItem, kids: seq<FlattenedItem>, depth: int)
    requires top.depth == depth
    requires forall i :: 0 <= i < |kids| ==> kids[i].depth >= depth + 1
    ensures NearestParent(ctx + [top] + kids, depth) == NearestParent(ctx, depth)
    ensures (ctx + [top] + kids)[|ctx + [top] + kids| - 1].depth >= depth
  {
    var block := [top] + kids;
    assert forall i :: 0 <= i < |block| ==> block[i].depth >= depth;
    assert ctx + [top] + kids == ctx + block;
    NearestParentSkip(ctx, block, depth);
    assert (ctx + block)[|ctx + block| - 1] == block[|block| - 1];
  }

  /**
   * A flattened block is well nested after any well-nested context whose
   * nearest parent at `depth` is `parentId`.
   */
  lemma {:induction false} FlattenWellNested(ctx: seq<FlattenedItem>, ts: seq<TreeItem>, parentId: Option<Id>, depth: int, index: int)
    requires WellNested(ctx) && depth >= 0
    requires NearestParent(ctx, depth) == parentId
    requires ctx == [] ==> depth == 0
    requires ctx != [] ==> depth <= ctx[|ctx| - 1].depth + 1
    ensures WellNested(ctx + Flatten(ts, parentId, depth, index))
    decreases ts
  {
    if ts == [] {
      assert ctx + Flatten(ts, parentId, depth, index) == ctx;
    } else {
      var top := FlattenedItem(ts[0], parentId, depth, index);
      var kids := Flatten(ts[0].children, Some(ts[0].id), depth + 1, 0);
      var c1 := ctx + [top];
      FirstFits(ctx, top);
      FlattenWellNested(c1, ts[0].children, Some(ts[0].id), depth + 1, 0);
      AfterSubtree(ctx, top, ts[0].children, ts[0].id, depth);
      FlattenWellNested(c1 + kids, ts[1..], parentId, depth, index + 1);
      NestedUnfold(ctx, ts, parentId, depth, index);
    }
  }

  /** A root of the block fits after the context, and its children's parent is that root. */
  lemma FirstFits(ctx: seq<FlattenedItem>, top: FlattenedItem)
    requires WellNested(ctx) && top.depth >= 0
    requires top.parentId == NearestParent(ctx, top.depth)
    requires ctx == [] ==> top.depth == 0
    requires ctx != [] ==> top.depth <= ctx[|ctx| - 1].depth + 1
    ensures WellNested(ctx + [top])
    ensures NearestParent(ctx + [top], top.depth + 1) == Some(top.item.id)
    ensures (ctx + [top])[|ctx + [top]| - 1].depth == top.depth
  {
    AppendFits(ctx, top);
    NearestAfter(ctx, top);
  }

  /** After a root and its flattened subtree, the parent at the root's depth is the one before the root. */
  lemma AfterSubtree(ctx: seq<FlattenedItem>, top: FlattenedItem, children: seq<TreeItem>, id: Id, d: int)
    requires top.depth == d
    ensures var c := ctx + [top] + Flatten(children, Some(id), d + 1, 0);
      && NearestParent(c, d) == NearestParent(ctx, d)
      && (c == [] ==> d == 0)
      && (c != [] ==> d <= c[|c| - 1].depth + 1)
  {
    FlattenDepths(children, Some(id), d + 1, 0);
    SkipSubtree(ctx, top, Flatten(children, Some(id), d + 1, 0), d);
  }

  /** A flattened block after a context: the context, the first node, its subtree, the rest. */
  lemma FlattenUnfold(ctx: seq<FlattenedItem>, ts: seq<TreeItem>, parentId: Option<Id>, depth: int, index: int)
    requires ts != []
    ensures ctx + Flatten(ts, parentId, depth, index)
      == ctx + [FlattenedItem(ts[0], parentId, depth, index)]
        + Flatten(ts[0].children, Some(ts[0].id), depth + 1, 0)
        + Flatten(ts[1..], parentId, depth, index + 1)
  {
    var top := FlattenedItem(ts[0], parentId, depth, index);
    var kids := Flatten(ts[0].children, Some(ts[0].id), depth + 1, 0);
    var rest := Flatten(ts[1..], parentId, depth, index + 1);
    assert Flatten(ts, parentId, depth, index) == [top] + kids + rest;
    ConcatAssoc(ctx, [top], kids, rest);
  }

  /** A flattened block after a context is well nested when its pieces, in order, are. */
  lemma NestedUnfold(ctx: seq<FlattenedItem>, ts: seq<TreeItem>, parentId: Option<Id>, depth: int, index: int)
    requires ts != []
    requires WellNested(ctx + [FlattenedItem(ts[0], parentId, depth, index)]
        + Flatten(ts[0].children, Some(ts[0].id), depth + 1, 0)
        + Flatten(ts[1..], parentId, depth, index + 1))
    ensures WellNested(ctx + Flatten(ts, parentId, depth, index))
  {
    FlattenUnfold(ctx, ts, parentId, depth, index);
  }

  /** The flattened tree satisfies the nesting invariant. */
  lemma FlattenTreeWellNested(ts: seq<TreeItem>)
    ensures WellNested(FlattenTree(ts))
  {
    FlattenWellNested([], ts, None, 0, 0);
    assert [] + FlattenTree(ts) == FlattenTree(ts);
  }

  // ---------------------------------------------------------------------------
  // findItem
  // ---------------------------------------------------------------------------

  /** `findItem`: the first node of the list (not its descendants) with the id. */
  function FindItem(items: seq<TreeItem>, itemId: Id): (r: Option<TreeItem>)
    ensures r.None? <==> forall i :: 0 <= i < |items| ==> items[i].id != itemId
    ensures r.Some? ==> exists i :: (0 <= i < |items| && items[i] == r.value && r.value.id == itemId
      && forall k :: 0 <= k < i ==> items[k].id != itemId)
  {
    if items == [] then None
    else if items[0].id == itemId then Some(items[0])
    else
      var r := FindItem(items[1..], itemId);
      assert r.Some? ==> exists i :: (0 <= i < |items| - 1 && items[1..][i] == r.value && r.value.id == itemId
        && forall k :: 0 <= k < i ==> items[1..][k].id != itemId);
      r
  }

  // ---------------------------------------------------------------------------
  // buildTree: the link structure it builds
  // ---------------------------------------------------------------------------

  /** A children list that buildTree pushes into: the synthetic root's, or item i's. */
  datatype Ref = RootRef | ItemRef(i: nat)

  /** The `nodes` key buildTree looks the parent up by (`parentId ?? "root"`). */
  function ParentKey(f: FlattenedItem): Id
  {
    match f.parentId
    case None => RootId
    case Some(p) => p
  }

  /** Index of the last item before position `b` whose id is `key`. */
  function LastWithId(flat: seq<FlattenedItem>, key: Id, b: nat): (r: Option<nat>)
    requires b <= |flat|
    ensures r.Some? ==> r.value < b && flat[r.value].item.id == key
    ensures r.Some? ==> forall c :: r.value < c < b ==> flat[c].item.id != key
    ensures r.None? ==> forall c :: 0 <= c < b ==> flat[c].item.id != key
    decreases b
  {
    if b == 0 then None
    else if flat[b - 1].item.id == key then Some(b - 1)
    else LastWithId(flat, key, b - 1)
  }

  /**
   * `nodes[key]` just before item `i` is processed: the children list of the
   * last item so far with that id, or the synthetic root for "root".
   */
  function NodeRef(flat: seq<FlattenedItem>, key: Id, i: nat): Option<Ref>
    requires i <= |flat|
  {
    match LastWithId(flat, key, i)
    case Some(j) => Some(ItemRef(j))
    case None => if key == RootId then Some(RootRef) else None
  }

  /**
   * The list item `i` is pushed into: `nodes[parentId]`, else the first item
   * of the whole list with that id (`findItem`); none when neither exists,
   * which is where the source throws.
   */
  function ParentOf(flat: seq<FlattenedItem>, i: nat): Option<Ref>
    requires i < |flat|
  {
    var key := ParentKey(flat[i]);
    match NodeRef(flat, key, i)
    case Some(r) => Some(r)
    case None =>
      match FindIndex(flat, key)
      case Some(j) => Some(ItemRef(j))
      case None => None
  }

  /** The items among positions `lo` to `hi` that are pushed into list `r`, in input order. */
  function ChildIndices(flat: seq<FlattenedItem>, r: Ref, lo: nat, hi: nat): (s: seq<nat>)
    requires hi <= |flat|
    ensures forall k :: 0 <= k < |s| ==> lo <= s[k] < hi && ParentOf(flat, s[k]) == Some(r)
    decreases hi
  {
    if hi <= lo then []
    else ChildIndices(flat, r, lo, hi - 1) + (if ParentOf(flat, hi - 1) == Some(r) then [hi - 1] else [])
  }

  /** The children list of every item once the loop is done. */
  function ChildTable(flat: seq<FlattenedItem>): (t: seq<seq<nat>>)
    ensures |t| == |flat|
  {
    seq(|flat|, j requires 0 <= j < |flat| => ChildIndices(flat, ItemRef(j), 0, |flat|))
  }

  predicate TableFor(flat: seq<FlattenedItem>, kids: seq<seq<nat>>)
  {
    |kids| == |flat| && forall j, k :: 0 <= j < |kids| && 0 <= k < |kids[j]| ==> kids[j][k] < |flat|
  }

  /** The first item whose parent cannot be resolved, searching from `i`. */
  function FirstUnresolved(flat: seq<FlattenedItem>, i: nat): (r: Option<nat>)
    requires i <= |flat|
    ensures r.None? ==> forall k :: i <= k < |flat| ==> ParentOf(flat, k).Some?
    ensures r.Some? ==> i <= r.value < |flat| && ParentOf(flat, r.value).None?
    ensures r.Some? ==> forall k :: i <= k < r.value ==> ParentOf(flat, k).Some?
    decreases |flat| - i
  {
    if i == |flat| then None
    else if ParentOf(flat, i).None? then Some(i)
    else FirstUnresolved(flat, i + 1)
  }

  /**
   * The nodes listed in `lists`: each item with its children
   * list filled in and its flattening fields kept (`{...item, children}`).
   * `fuel` bounds the nesting depth.
   */
  function AssembleList(flat: seq<FlattenedItem>, kids: seq<seq<nat>>, lists: seq<nat>, fuel: nat): seq<TreeItem>
    requires TableFor(flat, kids)
    requires forall k :: 0 <= k < |lists| ==> lists[k] < |flat|
    decreases fuel, |lists|
  {
    if lists == [] || fuel == 0 then []
    else [AssembleNode(flat, kids, lists[0], fuel)] + AssembleList(flat, kids, lists[1..], fuel)
  }

  function AssembleNode(flat: seq<FlattenedItem>, kids: seq<seq<nat>>, i: nat, fuel: nat): TreeItem
    requires TableFor(flat, kids) && i < |flat| && fuel > 0
    decreases fuel, 0
  {
    var f := flat[i];
    f.item.(children := AssembleList(flat, kids, kids[i], fuel - 1),
            place := Some(Place(f.parentId, f.depth, f.index)))
  }

  /** What `buildTree` returns, or the parent key it fails on. */
  function BuildTreeSpec(flat: seq<FlattenedItem>): Result<seq<TreeItem>, Id>
  {
    match FirstUnresolved(flat, 0)
    case Some(i) => Err(ParentKey(flat[i]))
    case None =>
      Ok(AssembleList(flat, ChildTable(flat), ChildIndices(flat, RootRef, 0, |flat|), |flat|))
  }

  /** What the `nodes` record holds for a key. */
  function Lookup(nodes: map<Id, Ref>, key: Id): Option<Ref>
  {
    if key in nodes then Some(nodes[key]) else None
  }

  /** The `nodes` record agrees with NodeRef before item `i`. */
  ghost predicate NodesBefore(flat: seq<FlattenedItem>, nodes: map<Id, Ref>, i: nat)
    requires i <= |flat|
  {
    forall key :: NodeRef(flat, key, i) == Lookup(nodes, key)
  }

  /** Recording item `i` under its id keeps the record in step. */
  lemma NodesStep(flat: seq<FlattenedItem>, nodes: map<Id, Ref>, i: nat)
    requires i < |flat| && NodesBefore(flat, nodes, i)
    ensures NodesBefore(flat, nodes[flat[i].item.id := ItemRef(i)], i + 1)
  {
    var nodes' := nodes[flat[i].item.id := ItemRef(i)];
    forall key
      ensures NodeRef(flat, key, i + 1) == Lookup(nodes', key)
    {
      assert NodeRef(flat, key, i) == Lookup(nodes, key);
    }
  }

  /** The children lists agree with ChildIndices before item `i`. */
  ghost predicate KidsBefore(flat: seq<FlattenedItem>, rootChildren: seq<nat>, kids: seq<seq<nat>>, i: nat)
    requires i <= |flat|
  {
    && |kids| == |flat|
    && rootChildren == ChildIndices(flat, RootRef, 0, i)
    && forall j :: 0 <= j < |flat| ==> kids[j] == ChildIndices(flat, ItemRef(j), 0, i)
  }

  /** Pushing item `i` into the list its parent resolves to keeps the lists in step. */
  lemma KidsStep(flat: seq<FlattenedItem>, rootChildren: seq<nat>, kids: seq<seq<nat>>, i: nat, parent: Ref)
    requires i < |flat| && KidsBefore(flat, rootChildren, kids, i)
    requires ParentOf(flat, i) == Some(parent)
    ensures parent.RootRef? ==> KidsBefore(flat, rootChildren + [i], kids, i + 1)
    ensures parent.ItemRef? && parent.i < |flat| ==>
      KidsBefore(flat, rootChildren, kids[parent.i := kids[parent.i] + [i]], i + 1)
  {
  }

  /** The loop's state agrees with the specification up to item `i`. */
  ghost predicate LoopInv(flat: seq<FlattenedItem>, nodes: map<Id, Ref>, rootChildren: seq<nat>, kids: seq<seq<nat>>, i: nat)
  {
    && i <= |flat|
    && NodesBefore(flat, nodes, i)
    && KidsBefore(flat, rootChildren, kids, i)
    && FirstUnresolved(flat, 0) == FirstUnresolved(flat, i)
  }

  /** The lookup `nodes[parentId] ?? findItem(items, parentId)` finds what ParentOf says. */
  lemma Resolve(flat: seq<FlattenedItem>, nodes: map<Id, Ref>, rootChildren: seq<nat>, kids: seq<seq<nat>>, i: nat)
    requires LoopInv(flat, nodes, rootChildren, kids, i) && i < |flat|
    ensures ParentKey(flat[i]) in nodes ==> ParentOf(flat, i) == Some(nodes[ParentKey(flat[i])])
    ensures ParentKey(flat[i]) !in nodes ==>
      (ParentOf(flat, i) == match FindIndex(flat, ParentKey(flat[i])) case Some(j) => Some(ItemRef(j)) case None => None)
    ensures ParentOf(flat, i).None? ==> BuildTreeSpec(flat) == Err(ParentKey(flat[i]))
  {
    assert NodeRef(flat, ParentKey(flat[i]), i) == Lookup(nodes, ParentKey(flat[i]));
  }

  /** Before the loop: only the synthetic root is recorded and every list is empty. */
  lemma Start(flat: seq<FlattenedItem>)
    ensures LoopInv(flat, map[RootId := RootRef], [], seq(|flat|, _ => []), 0)
  {
    var nodes: map<Id, Ref> := map[RootId := RootRef];
    forall key ensures NodeRef(flat, key, 0) == Lookup(nodes, key) {
    }
  }

  /** Recording item `i` and pushing it into its parent's list keeps the loop state in step. */
  lemma Advance(flat: seq<FlattenedItem>, nodes: map<Id, Ref>, rootChildren: seq<nat>, kids: seq<seq<nat>>, i: nat, parent: Ref)
    requires LoopInv(flat, nodes, rootChildren, kids, i) && i < |flat|
    requires ParentOf(flat, i) == Some(parent)
    ensures parent.RootRef? ==>
      LoopInv(flat, nodes[flat[i].item.id := ItemRef(i)], rootChildren + [i], kids, i + 1)
    ensures parent.ItemRef? ==>
      (parent.i < |flat| && LoopInv(flat, nodes[flat[i].item.id := ItemRef(i)], rootChildren, kids[parent.i := kids[parent.i] + [i]], i + 1))
  {
    NodesStep(flat, nodes, i);
    KidsStep(flat, rootChildren, kids, i, parent);
  }

  /** Once every item is placed, the lists are the specification's. */
  lemma Finish(flat: seq<FlattenedItem>, nodes: map<Id, Ref>, rootChildren: seq<nat>, kids: seq<seq<nat>>)
    requires LoopInv(flat, nodes, rootChildren, kids, |flat|)
    ensures TableFor(flat, kids) && (forall k :: 0 <= k < |rootChildren| ==> rootChildren[k] < |flat|)
    ensures BuildTreeSpec(flat) == Ok(AssembleList(flat, kids, rootChildren, |flat|))
  {
    assert kids == ChildTable(flat);
  }

  /**
   * `buildTree`. The loop fills the `nodes` record and pushes every item
   * into its parent's children list; a parent found nowhere makes the
   * source throw, modelled as `Err` with the parent key.
   */
  method BuildTree(flat: seq<FlattenedItem>) returns (r: Result<seq<TreeItem>, Id>)
    ensures r == BuildTreeSpec(flat)
  {
    var nodes: map<Id, Ref> := map[RootId := RootRef];
    var rootChildren: seq<nat> := [];
    var kids: seq<seq<nat>> := seq(|flat|, _ => []);
    Start(flat);
    for i := 0 to |flat|
      invariant LoopInv(flat, nodes, rootChildren, kids, i)
    {
      var key := ParentKey(flat[i]);
      Resolve(flat, nodes, rootChildren, kids, i);
      var parent: Ref;
      if key in nodes {
        parent := nodes[key];
      } else {
        var found := FindIndex(flat, key);
        if found.None? {
          return Err(key);
        }
        parent := ItemRef(found.value);
      }
      Advance(flat, nodes, rootChildren, kids, i, parent);
      nodes := nodes[flat[i].item.id := ItemRef(i)];
      match parent
      case RootRef =>
        rootChildren := rootChildren + [i];
      case ItemRef(j) =>
        kids := kids[j := kids[j] + [i]];
    }
    Finish(flat, nodes, rootChildren, kids);
    r := Ok(AssembleList(flat, kids, rootChildren, |flat|));
  }
}
