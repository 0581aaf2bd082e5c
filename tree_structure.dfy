/**
 * The operations of src/SortableTree/utilities.ts on an
 * `OptimizedTreeStructure` (a forest paired with an id-to-node map):
 * `createOptimizedTreeStructure`, `removeItemById` and
 * `setTreeItemProperties`. The forest and the map are values here; the
 * source's nodes are shared objects between the two.
 */
module TreeStructure {
  import opened Types
  import opened TreeCodec
  import opened TreeSearch

  // ---------------------------------------------------------------------------
  // Map entries, last write wins
  // ---------------------------------------------------------------------------

  /** The map that `map.set(n.id, n)` for each node of `ns` in turn builds from empty. */
  function Entries(ns: seq<TreeItem>): map<Id, TreeItem>
    decreases |ns|
  {
    if ns == [] then map[]
    else Entries(ns[..|ns| - 1])[ns[|ns| - 1].id := ns[|ns| - 1]]
  }

  /** Every node of `ns` has an entry, and nothing else does. */
  lemma {:induction false} EntriesKeys(ns: seq<TreeItem>)
    ensures Entries(ns).Keys == set n | n in ns :: n.id
    decreases |ns|
  {
    if ns != [] {
      var init := ns[..|ns| - 1];
      EntriesKeys(init);
      assert ns == init + [ns[|ns| - 1]];
    }
  }

  /** Setting one more entry on top of a union. */
  lemma EntriesSnoc(m: map<Id, TreeItem>, cs: seq<TreeItem>, j: nat)
    requires j < |cs|
    ensures (m + Entries(cs[..j]))[cs[j].id := cs[j]] == m + Entries(cs[..j + 1])
  {
    assert cs[..j + 1][..j] == cs[..j];
  }

  /** One more subtree added on top of a union. */
  lemma EntriesStep(m: map<Id, TreeItem>, cs: seq<TreeItem>, i: nat)
    requires i < |cs|
    ensures m + Entries(PreOrder(cs[..i])) + Entries(PreOrder([cs[i]])) == m + Entries(PreOrder(cs[..i + 1]))
  {
    assert cs[..i + 1] == cs[..i] + [cs[i]];
    PreOrderAppend(cs[..i], [cs[i]]);
    EntriesAppend(PreOrder(cs[..i]), PreOrder([cs[i]]));
    MapUnionAssoc(m, Entries(PreOrder(cs[..i])), Entries(PreOrder([cs[i]])));
  }

  /** An id maps to the last node of `ns` that has it. */
  lemma {:induction false} EntriesLastWins(ns: seq<TreeItem>, j: nat)
    requires j < |ns| && forall l :: j < l < |ns| ==> ns[l].id != ns[j].id
    ensures ns[j].id in Entries(ns) && Entries(ns)[ns[j].id] == ns[j]
    decreases |ns|
  {
    if j < |ns| - 1 {
      var init := ns[..|ns| - 1];
      EntriesLastWins(init, j);
    }
  }

  lemma {:induction false} EntriesAppend(a: seq<TreeItem>, b: seq<TreeItem>)
    ensures Entries(a + b) == Entries(a) + Entries(b)
    decreases |b|
  {
    if b == [] {
      assert a + b == a;
    } else {
      var binit := b[..|b| - 1];
      assert (a + b)[..|a + b| - 1] == a + binit;
      EntriesAppend(a, binit);
    }
  }

  lemma MapUnionAssoc(m: map<Id, TreeItem>, a: map<Id, TreeItem>, b: map<Id, TreeItem>)
    ensures m + a + b == m + (a + b)
  {
  }

  /** The ids of a node list, in order. */
  function IdList(ns: seq<TreeItem>): (r: seq<Id>)
    ensures |r| == |ns| && forall k :: 0 <= k < |ns| ==> r[k] == ns[k].id
  {
    if ns == [] then [] else [ns[0].id] + IdList(ns[1..])
  }

  lemma IdListAppend(a: seq<TreeItem>, b: seq<TreeItem>)
    ensures IdList(a + b) == IdList(a) + IdList(b)
  {
  }

  // ---------------------------------------------------------------------------
  // createOptimizedTreeStructure
  // ---------------------------------------------------------------------------

  /** `addToMap`: the node first, then each child's subtree in turn. */
  method AddToMap(item: TreeItem, itemMap: map<Id, TreeItem>) returns (m: map<Id, TreeItem>)
    ensures m == itemMap + Entries(PreOrder([item]))
    decreases item
  {
    var base := itemMap[item.id := item];
    m := base;
    for i := 0 to |item.children|
      invariant m == base + Entries(PreOrder(item.children[..i]))
    {
      m := AddToMap(item.children[i], m);
      EntriesStep(base, item.children, i);
    }
    AddToMapDone(itemMap, item);
  }

  lemma AddToMapDone(itemMap: map<Id, TreeItem>, item: TreeItem)
    ensures itemMap[item.id := item] + Entries(PreOrder(item.children[..|item.children|]))
      == itemMap + Entries(PreOrder([item]))
  {
    assert item.children[..|item.children|] == item.children;
    assert PreOrder([item]) == [item] + PreOrder(item.children) by {
      assert [item][1..] == [];
    }
    assert itemMap[item.id := item] == itemMap + Entries([item]) by {
      assert [item][..0] == [];
    }
    EntriesAppend([item], PreOrder(item.children));
    MapUnionAssoc(itemMap, Entries([item]), Entries(PreOrder(item.children)));
  }

  /** `createOptimizedTreeStructure(items)`. */
  method CreateOptimizedTreeStructure(items: seq<TreeItem>) returns (r: OptimizedTreeStructure)
    ensures r.items == items
    ensures r.itemMap == Entries(PreOrder(items))
  {
    var itemMap: map<Id, TreeItem> := map[];
    for i := 0 to |items|
      invariant itemMap == map[] + Entries(PreOrder(items[..i]))
    {
      itemMap := AddToMap(items[i], itemMap);
      EntriesStep(map[], items, i);
    }
    assert items[..|items|] == items;
    r := OptimizedTreeStructure(items, itemMap);
  }

  /**
   * The map of a fresh structure has an entry for every node id of the
   * forest and no other; when ids are distinct each entry is its node.
   */
  lemma OptimizedMapCovers(items: seq<TreeItem>)
    ensures Entries(PreOrder(items)).Keys == NodeIds(items)
    ensures UniqueIds(items) ==>
      forall k :: 0 <= k < |PreOrder(items)| ==> Entries(PreOrder(items))[PreOrder(items)[k].id] == PreOrder(items)[k]
  {
    EntriesKeys(PreOrder(items));
    if UniqueIds(items) {
      var p := PreOrder(items);
      forall k | 0 <= k < |p| ensures Entries(p)[p[k].id] == p[k] {
        EntriesLastWins(p, k);
      }
    }
  }

  // ---------------------------------------------------------------------------
  // removeItemById
  // ---------------------------------------------------------------------------

  /** The forest with every node whose id is `id` removed, subtree and all, at any depth. */
  function Pruned(ts: seq<TreeItem>, id: Id): seq<TreeItem>
    decreases ts
  {
    if ts == [] then []
    else if ts[0].id == id then Pruned(ts[1..], id)
    else [ts[0].(children := Pruned(ts[0].children, id))] + Pruned(ts[1..], id)
  }

  lemma {:induction false} PrunedAppend(a: seq<TreeItem>, b: seq<TreeItem>, id: Id)
    ensures Pruned(a + b, id) == Pruned(a, id) + Pruned(b, id)
    decreases |a|
  {
    if a == [] {
      assert a + b == b;
    } else {
      assert (a + b)[0] == a[0] && (a + b)[1..] == a[1..] + b;
      PrunedAppend(a[1..], b, id);
    }
  }

  /** The ids of `a + [x]`. */
  lemma NodeIdsSnoc(a: seq<TreeItem>, x: TreeItem)
    ensures NodeIds(a + [x]) == NodeIds(a) + {x.id} + NodeIds(x.children)
  {
    PreOrderAppend(a, [x]);
    NodeIdsUnfold([x]);
    assert [x][1..] == [];
    var pa := PreOrder(a);
    var px := PreOrder([x]);
    assert PreOrder(a + [x]) == pa + px;
    assert forall n :: n in pa + px <==> n in pa || n in px;
  }

  /**
   * `removeFromChildren`: filters the list, deleting `id`'s map entry on
   * each match and recursing into the children of every kept node.
   */
  method RemoveFromChildren(children: seq<TreeItem>, id: Id, newMap: map<Id, TreeItem>)
    returns (r: seq<TreeItem>, m: map<Id, TreeItem>)
    ensures r == Pruned(children, id)
    ensures m == if id in NodeIds(children) then newMap - {id} else newMap
    decreases children
  {
    r := [];
    m := newMap;
    for i := 0 to |children|
      invariant r == Pruned(children[..i], id)
      invariant m == if id in NodeIds(children[..i]) then newMap - {id} else newMap
    {
      var child := children[i];
      PruneStep(children, i, id);
      if child.id == id {
        m := m - {id};
      } else {
        var kids := child.children;
        if |kids| > 0 {
          kids, m := RemoveFromChildren(child.children, id, m);
        }
        r := r + [child.(children := kids)];
      }
    }
    assert children[..|children|] == children;
  }

  lemma PruneStep(children: seq<TreeItem>, i: nat, id: Id)
    requires i < |children|
    ensures Pruned(children[..i + 1], id) == Pruned(children[..i], id)
      + if children[i].id == id then [] else [children[i].(children := Pruned(children[i].children, id))]
    ensures NodeIds(children[..i + 1]) == NodeIds(children[..i]) + {children[i].id} + NodeIds(children[i].children)
  {
    assert children[..i + 1] == children[..i] + [children[i]];
    PrunedAppend(children[..i], [children[i]], id);
    NodeIdsSnoc(children[..i], children[i]);
    assert [children[i]][1..] == [];
  }

  /** `removeItemById(structure, id)`. */
  method RemoveItemById(structure: OptimizedTreeStructure, id: Id) returns (r: OptimizedTreeStructure)
    ensures r.items == Pruned(structure.items, id)
    ensures r.itemMap == if id in NodeIds(structure.items) then structure.itemMap - {id} else structure.itemMap
  {
    var newItems, newMap := RemoveFromChildren(structure.items, id, structure.itemMap);
    r := OptimizedTreeStructure(newItems, newMap);
  }

  /** After removal no node has the id, and no node is added. */
  lemma {:induction false} PrunedRemoves(ts: seq<TreeItem>, id: Id)
    ensures NodeIds(Pruned(ts, id)) <= NodeIds(ts) - {id}
    decreases ts
  {
    if ts != [] {
      NodeIdsUnfold(ts);
      PrunedRemoves(ts[0].children, id);
      PrunedRemoves(ts[1..], id);
      if ts[0].id != id {
        var p := Pruned(ts, id);
        assert p[0] == ts[0].(children := Pruned(ts[0].children, id)) && p[1..] == Pruned(ts[1..], id);
        NodeIdsUnfold(p);
      }
    }
  }

  /** Removing an absent id leaves the forest as it is. */
  lemma {:induction false} PrunedAbsent(ts: seq<TreeItem>, id: Id)
    requires id !in NodeIds(ts)
    ensures Pruned(ts, id) == ts
    decreases ts
  {
    if ts != [] {
      NodeIdsUnfold(ts);
      PrunedAbsent(ts[0].children, id);
      PrunedAbsent(ts[1..], id);
      assert [ts[0]] + ts[1..] == ts;
    }
  }

  /** The nodes that stay keep their pre-order order. */
  lemma {:induction false} PrunedKeepsOrder(ts: seq<TreeItem>, id: Id)
    ensures IsSubsequence(IdList(PreOrder(Pruned(ts, id))), IdList(PreOrder(ts)))
    decreases ts
  {
    if ts != [] {
      var a := PreOrder(ts[0].children);
      var b := PreOrder(ts[1..]);
      assert PreOrder(ts) == ([ts[0]] + a) + b;
      IdListAppend([ts[0]] + a, b);
      PrunedKeepsOrder(ts[1..], id);
      var y := IdList(PreOrder(Pruned(ts[1..], id)));
      if ts[0].id == id {
        SubsequenceConcat([], IdList([ts[0]] + a), y, IdList(b));
        assert [] + y == y;
      } else {
        PrunedKeepsOrder(ts[0].children, id);
        var p := Pruned(ts, id);
        var top := ts[0].(children := Pruned(ts[0].children, id));
        assert p[0] == top && p[1..] == Pruned(ts[1..], id);
        var x := IdList(PreOrder(top.children));
        assert PreOrder(p) == ([top] + PreOrder(top.children)) + PreOrder(p[1..]);
        IdListAppend([top] + PreOrder(top.children), PreOrder(p[1..]));
        IdListAppend([top], PreOrder(top.children));
        IdListAppend([ts[0]], a);
        SubsequenceRefl([ts[0].id]);
        SubsequenceConcat([ts[0].id], [ts[0].id], x, IdList(a));
        SubsequenceConcat([ts[0].id] + x, [ts[0].id] + IdList(a), y, IdList(b));
      }
    }
  }

  /** The ids of the subtree that removal takes out of a forest with distinct ids. */
  function RemovedIds(ts: seq<TreeItem>, id: Id): set<Id>
  {
    match FindItemDeep(ts, id)
      case None => {}
      case Some(n) => {n.id} + NodeIds(n.children)
  }

  /**
   * With distinct ids, removal takes out exactly the node with the id and
   * its descendants; every other node stays.
   */
  lemma {:induction false} PrunedIds(ts: seq<TreeItem>, id: Id)
    requires UniqueIds(ts)
    ensures RemovedIds(ts, id) <= NodeIds(ts)
    ensures NodeIds(Pruned(ts, id)) == NodeIds(ts) - RemovedIds(ts, id)
    decreases ts
  {
    if ts != [] {
      NodeIdsUnfold(ts);
      UniqueIdsSplit(ts);
      var c := ts[0].children;
      var rest := ts[1..];
      if ts[0].id == id {
        PrunedAbsent(rest, id);
      } else {
        var p := Pruned(ts, id);
        assert p[0] == ts[0].(children := Pruned(c, id)) && p[1..] == Pruned(rest, id);
        NodeIdsUnfold(p);
        FindItemDeepFound(c, id);
        if id in NodeIds(c) {
          PrunedIds(c, id);
          PrunedAbsent(rest, id);
        } else {
          PrunedAbsent(c, id);
          PrunedIds(rest, id);
        }
      }
    }
  }

  // ---------------------------------------------------------------------------
  // setTreeItemProperties
  // ---------------------------------------------------------------------------

  /** A `Partial<TreeItem>`: the fields a setter returns, `None` where it leaves one out. */
  datatype Patch = Patch(
    id: Option<Id>,
    text: Option<string>,
    children: Option<seq<TreeItem>>,
    collapsed: Option<bool>,
    canFetchChildren: Option<bool>,
    disableDragging: Option<bool>,
    extra: Option<Payload>,
    place: Option<Option<Place>>)

  function Pick<T>(p: Option<T>, v: T): T
  {
    if p.Some? then p.value else v
  }

  /** `{ ...item, ...patch }`. */
  function Merge(item: TreeItem, p: Patch): TreeItem
  {
    TreeItem(Pick(p.id, item.id), Pick(p.text, item.text), Pick(p.children, item.children),
      Pick(p.collapsed, item.collapsed), Pick(p.canFetchChildren, item.canFetchChildren),
      Pick(p.disableDragging, item.disableDragging), Pick(p.extra, item.extra), Pick(p.place, item.place))
  }

  /**
   * The forest with every node whose id is `id` replaced by `u`, looking
   * into the children of the other nodes but not into a replaced one.
   */
  function UpdatedTree(ts: seq<TreeItem>, id: Id, u: TreeItem): (r: seq<TreeItem>)
    ensures |r| == |ts|
    decreases ts
  {
    if ts == [] then []
    else
      var head :=
        if ts[0].id == id then u
        else if |ts[0].children| > 0 then ts[0].(children := UpdatedTree(ts[0].children, id, u))
        else ts[0];
      [head] + UpdatedTree(ts[1..], id, u)
  }

  lemma {:induction false} UpdatedTreeAppend(a: seq<TreeItem>, b: seq<TreeItem>, id: Id, u: TreeItem)
    ensures UpdatedTree(a + b, id, u) == UpdatedTree(a, id, u) + UpdatedTree(b, id, u)
    decreases |a|
  {
    if a == [] {
      assert a + b == b;
    } else {
      assert (a + b)[0] == a[0] && (a + b)[1..] == a[1..] + b;
      UpdatedTreeAppend(a[1..], b, id, u);
    }
  }

  /** The `forEach` over the new node's children, setting each one's entry. */
  method SetChildEntries(newMap: map<Id, TreeItem>, cs: seq<TreeItem>) returns (m: map<Id, TreeItem>)
    ensures m == newMap + Entries(cs)
  {
    m := newMap;
    for j := 0 to |cs|
      invariant m == newMap + Entries(cs[..j])
    {
      EntriesSnoc(newMap, cs, j);
      m := m[cs[j].id := cs[j]];
    }
    assert cs[..|cs|] == cs;
  }

  lemma UnionIdempotent(m: map<Id, TreeItem>, e: map<Id, TreeItem>)
    ensures m + e + e == m + e
  {
  }

  /** One more node of the list: its updated form joins the updated prefix, its ids join the prefix's. */
  lemma UpdateStep(children: seq<TreeItem>, i: nat, id: Id, u: TreeItem)
    requires i < |children|
    ensures var child := children[i];
      && UpdatedTree(children[..i + 1], id, u) == UpdatedTree(children[..i], id, u) + [
           if child.id == id then u
           else if |child.children| > 0 then child.(children := UpdatedTree(child.children, id, u))
           else child]
      && NodeIds(children[..i + 1]) == NodeIds(children[..i]) + {child.id} + NodeIds(child.children)
  {
    var child := children[i];
    assert children[..i + 1] == children[..i] + [child];
    UpdatedTreeAppend(children[..i], [child], id, u);
    NodeIdsSnoc(children[..i], child);
    assert [child][1..] == [];
  }

  /** `updateInTree`: maps over the list, replacing matches and recursing into the rest. */
  method UpdateInTree(children: seq<TreeItem>, id: Id, u: TreeItem, newMap: map<Id, TreeItem>)
    returns (r: seq<TreeItem>, m: map<Id, TreeItem>)
    ensures r == UpdatedTree(children, id, u)
    ensures m == if id in NodeIds(children) then newMap + Entries(u.children) else newMap
    decreases children
  {
    r := [];
    m := newMap;
    for i := 0 to |children|
      invariant r == UpdatedTree(children[..i], id, u)
      invariant m == if id in NodeIds(children[..i]) then newMap + Entries(u.children) else newMap
    {
      var child := children[i];
      UpdateStep(children, i, id, u);
      UnionIdempotent(newMap, Entries(u.children));
      if child.id == id {
        m := SetChildEntries(m, u.children);
        r := r + [u];
      } else if |child.children| > 0 {
        var kids;
        kids, m := UpdateInTree(child.children, id, u, m);
        r := r + [child.(children := kids)];
      } else {
        r := r + [child];
      }
    }
    assert children[..|children|] == children;
  }

  /** `setTreeItemProperties(structure, id, setter)`. */
  method SetTreeItemProperties(structure: OptimizedTreeStructure, id: Id, setter: TreeItem -> Patch)
    returns (r: OptimizedTreeStructure)
    ensures id !in structure.itemMap ==> r == structure
    ensures id in structure.itemMap ==>
      var u := Merge(structure.itemMap[id], setter(structure.itemMap[id]));
      && r.items == UpdatedTree(structure.items, id, u)
      && r.itemMap == if id in NodeIds(structure.items)
        then structure.itemMap[id := u] + Entries(u.children)
        else structure.itemMap[id := u]
  {
    if id !in structure.itemMap {
      return structure;
    }
    var item := structure.itemMap[id];
    var updatedItem := Merge(item, setter(item));
    var newMap := structure.itemMap[id := updatedItem];
    var newItems;
    newItems, newMap := UpdateInTree(structure.items, id, updatedItem, newMap);
    r := OptimizedTreeStructure(newItems, newMap);
  }

  /** Updating an absent id leaves the forest as it is. */
  lemma {:induction false} UpdatedAbsent(ts: seq<TreeItem>, id: Id, u: TreeItem)
    requires id !in NodeIds(ts)
    ensures UpdatedTree(ts, id, u) == ts
    decreases ts
  {
    if ts != [] {
      NodeIdsUnfold(ts);
      UpdatedAbsent(ts[0].children, id, u);
      UpdatedAbsent(ts[1..], id, u);
      assert [ts[0]] + ts[1..] == ts;
    }
  }

  /** A top-level node whose subtree does not hold the id comes back unchanged. */
  lemma {:induction false} UpdatedOffPath(ts: seq<TreeItem>, id: Id, u: TreeItem, i: nat)
    requires i < |ts| && id !in NodeIds([ts[i]])
    ensures UpdatedTree(ts, id, u)[i] == ts[i]
    decreases i
  {
    NodeIdsUnfold([ts[i]]);
    if i == 0 {
      UpdatedAbsent(ts[0].children, id, u);
    } else {
      assert ts[1..][i - 1] == ts[i];
      UpdatedOffPath(ts[1..], id, u, i - 1);
    }
  }

  /**
   * When the new node keeps the id, a pre-order search for the id finds
   * the new node.
   */
  lemma {:induction false} UpdatedIsFound(ts: seq<TreeItem>, id: Id, u: TreeItem)
    requires id in NodeIds(ts) && u.id == id
    ensures FindItemDeep(UpdatedTree(ts, id, u), id) == Some(u)
    decreases ts
  {
    NodeIdsUnfold(ts);
    var r := UpdatedTree(ts, id, u);
    assert r[1..] == UpdatedTree(ts[1..], id, u);
    if ts[0].id != id {
      if id in NodeIds(ts[0].children) {
        UpdatedIsFound(ts[0].children, id, u);
      } else {
        UpdatedAbsent(ts[0].children, id, u);
        FindItemDeepFound(ts[0].children, id);
        UpdatedIsFound(ts[1..], id, u);
      }
    }
  }
}
